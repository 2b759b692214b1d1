/**
 Rewriting repository URLs between SSH and HTTPS: the operator tests for a prefix
 (il-operator/controller/util/parsers.go), the command line for a substring
 (internal-cli/app/util/parsers.go); both then replace every occurrence.
 */
module GitRewrite {
  import opened Strings

  const GITHUB_HTTPS := "https://github.com/"
  const GITHUB_SSH := "git@github.com:"
  const GITLAB_HTTPS := "https://gitlab.com/"
  const GITLAB_SSH := "git@gitlab.com:"

  /** RewriteGitURLToHTTPS of the operator. */
  function OperatorToHttps(url: string): string {
    if GITHUB_SSH <= url then ReplaceAll(url, GITHUB_SSH, GITHUB_HTTPS)
    else if GITLAB_SSH <= url then ReplaceAll(url, GITLAB_SSH, GITLAB_HTTPS)
    else url
  }

  /** RewriteGitURLToSSH of the operator. */
  function OperatorToSsh(url: string): string {
    if GITHUB_HTTPS <= url then ReplaceAll(url, GITHUB_HTTPS, GITHUB_SSH)
    else if GITLAB_HTTPS <= url then ReplaceAll(url, GITLAB_HTTPS, GITLAB_SSH)
    else url
  }

  /** RewriteGitURLToHTTPS of the command line. */
  function CliToHttps(url: string): string {
    if Contains(url, GITHUB_SSH) then ReplaceAll(url, GITHUB_SSH, GITHUB_HTTPS)
    else if Contains(url, GITLAB_SSH) then ReplaceAll(url, GITLAB_SSH, GITLAB_HTTPS)
    else url
  }

  /** RewriteGitURLToSSH of the command line. */
  function CliToSsh(url: string): string {
    if Contains(url, GITHUB_HTTPS) then ReplaceAll(url, GITHUB_HTTPS, GITHUB_SSH)
    else if Contains(url, GITLAB_HTTPS) then ReplaceAll(url, GITLAB_HTTPS, GITLAB_SSH)
    else url
  }

  /******* Why replacing back undoes replacing *******/

  /** From position `i` of `x` on, `x` and `t` differ before either ends: no `t` starts there, whatever follows `x`. */
  predicate Clash(x: string, i: nat, t: string) {
    exists j | 0 <= j < |t| && i + j < |x| :: x[i + j] != t[j]
  }

  /** No occurrence of `t` starts inside `x`, except one at position `from` or before. */
  ghost predicate NoneFrom(x: string, from: nat, t: string) {
    forall i | from <= i < |x| :: Clash(x, i, t)
  }

  /** Occurrences of `a` and of `b` can neither overlap each other nor, for `b`, themselves. */
  ghost predicate Separate(a: string, b: string) {
    a != "" && b != "" && NoneFrom(a, 0, b) && NoneFrom(b, 0, a) && NoneFrom(b, 1, b)
  }

  lemma ClashNoPrefix(x: string, i: nat, t: string, rest: string)
    requires i <= |x| && Clash(x, i, t)
    ensures !(t <= x[i..] + rest)
  {
    var j :| 0 <= j < |t| && i + j < |x| && x[i + j] != t[j];
    assert (x[i..] + rest)[j] == x[i + j];
  }

  lemma SuffixClashes(b: string, k: nat, rest: string)
    requires k <= |b| && Clash(b, k, b)
    ensures !(b[k..] <= b + rest)
  {
    var j :| 0 <= j < |b| && k + j < |b| && b[k + j] != b[j];
    assert b[k..][j] == b[k + j] && (b + rest)[j] == b[j];
  }

  lemma PrefixGrows(b: string, s: string)
    requires b != "" && s != "" && b[0] == s[0] && b[1..] <= s[1..]
    ensures b <= s
  {
    assert b == [b[0]] + b[1..] && s == [s[0]] + s[1..];
  }

  lemma Copied(x: string, rest: string, old_: string, new_: string)
    requires old_ != "" && NoneFrom(x, 0, old_)
    ensures ReplaceAll(x + rest, old_, new_) == x + ReplaceAll(rest, old_, new_)
  {
    forall i | 0 <= i < |x| ensures !(old_ <= x[i..] + rest) {
      ClashNoPrefix(x, i, old_, rest);
    }
    ReplaceSkips(x, rest, old_, new_);
  }

  /** A proper suffix of `b` at the front of the rewritten string was there before. */
  lemma {:induction false} SuffixWasThere(t: string, a: string, b: string, k: nat)
    requires Separate(a, b) && 1 <= k <= |b|
    requires b[k..] <= ReplaceAll(t, a, b)
    ensures b[k..] <= t
    decreases |b| - k
  {
    hide ReplaceAll;
    if k < |b| {
      if t == "" {
        ReplaceEmpty(a, b);
      } else {
        ReplaceStep(t, a, b);
        assert b[k..][0] == b[k] && b[k..][1..] == b[k + 1..];
        if a <= t {
          SuffixClashes(b, k, ReplaceAll(t[|a|..], a, b));
        } else {
          var tail := ReplaceAll(t[1..], a, b);
          assert ([t[0]] + tail)[1..] == tail;
          assert b[k + 1..] <= tail;
          SuffixWasThere(t[1..], a, b, k + 1);
          assert t == [t[0]] + t[1..] && b[k..] == [b[k]] + b[k + 1..];
        }
      }
    }
  }

  /** Rewriting `a` to `b` first makes no difference to rewriting `b` to `a`. */
  lemma {:induction false} BackSwallowsForth(s: string, a: string, b: string)
    requires Separate(a, b)
    ensures ReplaceAll(ReplaceAll(s, a, b), b, a) == ReplaceAll(s, b, a)
    decreases |s|
  {
    hide ReplaceAll;
    if s == "" {
      ReplaceEmpty(a, b);
      ReplaceEmpty(b, a);
    } else if a <= s {
      var t := s[|a|..];
      assert s == a + t;
      ReplaceHead(t, a, b);
      ReplaceHead(ReplaceAll(t, a, b), b, a);
      Copied(a, t, b, a);
      BackSwallowsForth(t, a, b);
    } else if b <= s {
      var t := s[|b|..];
      assert s == b + t;
      Copied(b, t, a, b);
      ReplaceHead(ReplaceAll(t, a, b), b, a);
      ReplaceHead(t, b, a);
      BackSwallowsForth(t, a, b);
    } else {
      BackAfterChar(s, a, b);
      BackSwallowsForth(s[1..], a, b);
      ReplaceStep(s, b, a);
    }
  }

  lemma BackAfterChar(s: string, a: string, b: string)
    requires Separate(a, b) && s != "" && !(a <= s) && !(b <= s)
    ensures ReplaceAll(ReplaceAll(s, a, b), b, a) == [s[0]] + ReplaceAll(ReplaceAll(s[1..], a, b), b, a)
  {
    hide ReplaceAll;
    ReplaceStep(s, a, b);
    var tail := ReplaceAll(s[1..], a, b);
    var u := [s[0]] + tail;
    assert u[1..] == tail;
    if b <= u {
      assert b[1..] <= tail;
      SuffixWasThere(s[1..], a, b, 1);
      PrefixGrows(b, s);
    }
    ReplaceStep(u, b, a);
  }

  /** There and back is the identity exactly on strings without the target. */
  lemma ThereAndBackIff(s: string, a: string, b: string)
    requires Separate(a, b) && a != b
    ensures ReplaceAll(ReplaceAll(s, a, b), b, a) == s <==> !Contains(s, b)
  {
    BackSwallowsForth(s, a, b);
    ReplaceIdentityIff(s, b, a);
  }

  lemma NoOccurrenceInside(x: string, rest: string, t: string, i: nat)
    requires i < |x| && Clash(x, i, t)
    ensures !OccursAt(x + rest, t, i)
  {
    var j :| 0 <= j < |t| && i + j < |x| && x[i + j] != t[j];
    var s := x + rest;
    assert i + |t| <= |s| ==> s[i..i + |t|][j] == s[i + j] == x[i + j];
  }

  lemma OccursLater(x: string, rest: string, t: string, i: nat)
    ensures OccursAt(x + rest, t, |x| + i) <==> OccursAt(rest, t, i)
  {
    var s := x + rest;
    assert s[|x|..] == rest;
    assert i + |t| <= |rest| ==> s[|x| + i..|x| + i + |t|] == rest[i..i + |t|];
  }

  lemma ContainsAfterCopied(x: string, rest: string, t: string)
    requires NoneFrom(x, 0, t)
    ensures Contains(x + rest, t) <==> Contains(rest, t)
  {
    forall i | 0 <= i < |x| ensures !OccursAt(x + rest, t, i) {
      NoOccurrenceInside(x, rest, t, i);
    }
    hide OccursAt;
    if i :| 0 <= i <= |x + rest| && OccursAt(x + rest, t, i) {
      OccursLater(x, rest, t, i - |x|);
    }
    if i :| 0 <= i <= |rest| && OccursAt(rest, t, i) {
      OccursLater(x, rest, t, i);
    }
  }

  /******* The four prefixes *******/

  /** Checking first characters is enough where `t` starts with a letter that `x` has nowhere else than at `except`. */
  lemma NoneFromFirst(x: string, from: nat, t: string, except: nat, j: nat)
    requires t != "" && forall i | from <= i < |x| && i != except :: x[i] != t[0]
    requires from <= except < |x| ==> j < |t| && except + j < |x| && x[except + j] != t[j]
    ensures NoneFrom(x, from, t)
  {
    forall i | from <= i < |x| ensures Clash(x, i, t) {
      if i != except {
        assert x[i + 0] != t[0];
      }
    }
  }

  lemma GithubSeparate()
    ensures Separate(GITHUB_SSH, GITHUB_HTTPS) && Separate(GITHUB_HTTPS, GITHUB_SSH)
  {
    NoneFromFirst("git@github.com:", 0, "https://github.com/", 7, 1);
    NoneFromFirst("https://github.com/", 0, "git@github.com:", 8, 3);
    NoneFromFirst("https://github.com/", 1, "https://github.com/", 11, 1);
    NoneFromFirst("git@github.com:", 1, "git@github.com:", 4, 3);
  }

  lemma GitlabSeparate()
    ensures Separate(GITLAB_SSH, GITLAB_HTTPS) && Separate(GITLAB_HTTPS, GITLAB_SSH)
  {
    NoneFromFirst("git@gitlab.com:", 0, "https://gitlab.com/", 0, 0);
    NoneFromFirst("https://gitlab.com/", 0, "git@gitlab.com:", 8, 3);
    NoneFromFirst("https://gitlab.com/", 1, "https://gitlab.com/", 0, 0);
    NoneFromFirst("git@gitlab.com:", 1, "git@gitlab.com:", 4, 3);
  }

  /******* The rewrite pairs *******/

  /**
   Operator, SSH to HTTPS to SSH: the URL comes back exactly when what follows the SSH prefix
   contains no HTTPS prefix of the same host.
   */
  lemma OperatorSshRoundTripIff(rest: string)
    ensures OperatorToSsh(OperatorToHttps(GITHUB_SSH + rest)) == GITHUB_SSH + rest <==> !Contains(rest, GITHUB_HTTPS)
    ensures OperatorToSsh(OperatorToHttps(GITLAB_SSH + rest)) == GITLAB_SSH + rest <==> !Contains(rest, GITLAB_HTTPS)
  {
    hide ReplaceAll, Contains, Separate;
    GithubSeparate();
    GitlabSeparate();
    RoundTripIff(rest, GITHUB_SSH, GITHUB_HTTPS);
    RoundTripIff(rest, GITLAB_SSH, GITLAB_HTTPS);
    HostsDiffer(rest);
    ReplaceHead(rest, GITHUB_SSH, GITHUB_HTTPS);
    ReplaceHead(rest, GITLAB_SSH, GITLAB_HTTPS);
    HostsDiffer(ReplaceAll(rest, GITLAB_SSH, GITLAB_HTTPS));
  }

  /** Operator, HTTPS to SSH to HTTPS. */
  lemma OperatorHttpsRoundTripIff(rest: string)
    ensures OperatorToHttps(OperatorToSsh(GITHUB_HTTPS + rest)) == GITHUB_HTTPS + rest <==> !Contains(rest, GITHUB_SSH)
    ensures OperatorToHttps(OperatorToSsh(GITLAB_HTTPS + rest)) == GITLAB_HTTPS + rest <==> !Contains(rest, GITLAB_SSH)
  {
    hide ReplaceAll, Contains, Separate;
    GithubSeparate();
    GitlabSeparate();
    RoundTripIff(rest, GITHUB_HTTPS, GITHUB_SSH);
    RoundTripIff(rest, GITLAB_HTTPS, GITLAB_SSH);
    HostsDiffer(rest);
    ReplaceHead(rest, GITHUB_HTTPS, GITHUB_SSH);
    ReplaceHead(rest, GITLAB_HTTPS, GITLAB_SSH);
    HostsDiffer(ReplaceAll(rest, GITLAB_HTTPS, GITLAB_SSH));
  }

  /**
   Command line, any URL: it comes back exactly when it contains no GitHub HTTPS prefix and, unless
   it contains a GitHub SSH one, no GitLab HTTPS prefix either.
   */
  lemma CliRoundTripIff(url: string)
    ensures CliToSsh(CliToHttps(url)) == url <==>
            !Contains(url, GITHUB_HTTPS) && (Contains(url, GITHUB_SSH) || !Contains(url, GITLAB_HTTPS))
  {
    hide ReplaceAll, Contains, Separate, Apart;
    GithubSeparate();
    GitlabSeparate();
    if Contains(url, GITHUB_SSH) {
      ReplacedContains(url, GITHUB_SSH, GITHUB_HTTPS);
      ThereAndBackIff(url, GITHUB_SSH, GITHUB_HTTPS);
    } else if Contains(url, GITLAB_SSH) {
      CliGitlabIff(url);
    } else {
      ReplaceIdentityIff(url, GITHUB_HTTPS, GITHUB_SSH);
      ReplaceIdentityIff(url, GITLAB_HTTPS, GITLAB_SSH);
    }
  }

  /** On the way back the GitHub prefix is looked for first, in a URL that has been rewritten for GitLab. */
  lemma CliGitlabIff(url: string)
    requires !Contains(url, GITHUB_SSH) && Contains(url, GITLAB_SSH)
    ensures CliToSsh(CliToHttps(url)) == url <==> !Contains(url, GITHUB_HTTPS) && !Contains(url, GITLAB_HTTPS)
  {
    hide ReplaceAll, Contains, Separate, Apart;
    var t := ReplaceAll(url, GITLAB_SSH, GITLAB_HTTPS);
    GitlabSeparate();
    GithubApart();
    ReplacedContains(url, GITLAB_SSH, GITLAB_HTTPS);
    ContainsSurvives(url, GITLAB_SSH, GITLAB_HTTPS, GITHUB_HTTPS);
    if Contains(url, GITHUB_HTTPS) {
      ReplacedContains(t, GITHUB_HTTPS, GITHUB_SSH);
    } else {
      ThereAndBackIff(url, GITLAB_SSH, GITLAB_HTTPS);
    }
  }

  /** Occurrences of `t` can overlap none of `a` or `b`. */
  ghost predicate Apart(t: string, a: string, b: string) {
    && a != "" && b != "" && t != ""
    && NoneFrom(t, 0, a) && NoneFrom(t, 0, b) && NoneFrom(a, 0, t) && NoneFrom(b, 0, t)
  }

  lemma GithubApart()
    ensures Apart(GITHUB_HTTPS, GITLAB_SSH, GITLAB_HTTPS)
  {
    NoneFromFirst("https://github.com/", 0, "git@gitlab.com:", 8, 3);
    NoneFromTwo("https://github.com/", "https://gitlab.com/", 0, 11, 11, 1);
    NoneFromFirst("git@gitlab.com:", 0, "https://github.com/", 0, 0);
    NoneFromFirst("https://gitlab.com/", 0, "https://github.com/", 0, 11);
  }

  lemma NoneFromTwo(x: string, t: string, e1: nat, j1: nat, e2: nat, j2: nat)
    requires t != "" && forall i | 0 <= i < |x| && i != e1 && i != e2 :: x[i] != t[0]
    requires e1 < |x| ==> j1 < |t| && e1 + j1 < |x| && x[e1 + j1] != t[j1]
    requires e2 < |x| ==> j2 < |t| && e2 + j2 < |x| && x[e2 + j2] != t[j2]
    ensures NoneFrom(x, 0, t)
  {
    forall i | 0 <= i < |x| ensures Clash(x, i, t) {
      if i != e1 && i != e2 {
        assert x[i + 0] != t[0];
      }
    }
  }

  lemma ApartSuffix(t: string, k: nat, b: string, rest: string)
    requires k < |t| && Clash(t, k, b)
    ensures !(t[k..] <= b + rest)
  {
    var j :| 0 <= j < |b| && k + j < |t| && t[k + j] != b[j];
    assert t[k..][j] == t[k + j] && (b + rest)[j] == b[j];
  }

  /** Where `a` is replaced no suffix of `t` stands, before or after. */
  lemma ReplacedHeads(rest: string, now: string, a: string, b: string, t: string, k: nat)
    requires Apart(t, a, b) && k < |t|
    ensures !(t[k..] <= b + now) && !(t[k..] <= a + rest)
  {
    ApartSuffix(t, k, b, now);
    ApartSuffix(t, k, a, rest);
  }

  lemma PrefixStep(p: string, c: char, s: string)
    requires p != ""
    ensures p <= [c] + s <==> p[0] == c && p[1..] <= s
  {
    assert p == [p[0]] + p[1..];
    assert ([c] + s)[1..] == s;
  }

  /** A suffix of `t` stands at the front of the rewritten string exactly when it did before, unless `a` does. */
  lemma {:induction false} SuffixSurvives(s: string, a: string, b: string, t: string, k: nat)
    requires Apart(t, a, b) && k <= |t|
    ensures t[k..] <= ReplaceAll(s, a, b) <==> t[k..] <= s
    decreases |t| - k
  {
    hide ReplaceAll;
    if k < |t| {
      if s == "" {
        ReplaceEmpty(a, b);
      } else {
        ReplaceStep(s, a, b);
        if a <= s {
          ReplacedHeads(s[|a|..], ReplaceAll(s[|a|..], a, b), a, b, t, k);
          assert s == a + s[|a|..];
        } else {
          SuffixSurvives(s[1..], a, b, t, k + 1);
          hide Apart;
          assert t[k..][1..] == t[k + 1..] && s == [s[0]] + s[1..];
          PrefixStep(t[k..], s[0], ReplaceAll(s[1..], a, b));
          PrefixStep(t[k..], s[0], s[1..]);
        }
      }
    }
  }

  lemma {:induction false} ContainsSurvives(s: string, a: string, b: string, t: string)
    requires Apart(t, a, b)
    ensures Contains(ReplaceAll(s, a, b), t) <==> Contains(s, t)
    decreases |s|
  {
    hide ReplaceAll, Contains;
    if s == "" {
      ReplaceEmpty(a, b);
    } else {
      ReplaceStep(s, a, b);
      if a <= s {
        var rest := s[|a|..];
        assert s == a + rest;
        ContainsSurvives(rest, a, b, t);
        ContainsAfterCopied(a, rest, t);
        ContainsAfterCopied(b, ReplaceAll(rest, a, b), t);
      } else {
        var tail := ReplaceAll(s[1..], a, b);
        var u := [s[0]] + tail;
        assert u[1..] == tail && t[0..] == t;
        SuffixSurvives(s, a, b, t, 0);
        ContainsSurvives(s[1..], a, b, t);
        ContainsTail(s, t);
        ContainsTail(u, t);
      }
    }
  }

  lemma RoundTripIff(rest: string, a: string, b: string)
    requires Separate(a, b) && a != b
    ensures ReplaceAll(ReplaceAll(a + rest, a, b), b, a) == a + rest <==> !Contains(rest, b)
  {
    ThereAndBackIff(a + rest, a, b);
    ContainsAfterCopied(a, rest, b);
  }

  lemma HostsDiffer(rest: string)
    ensures !(GITHUB_SSH <= GITLAB_SSH + rest) && !(GITHUB_HTTPS <= GITLAB_HTTPS + rest)
  {
    assert (GITLAB_SSH + rest)[7] == 'l' && (GITLAB_HTTPS + rest)[11] == 'l';
    assert GITHUB_SSH[7] == 'h' && GITHUB_HTTPS[11] == 'h';
  }

  /** Where something is replaced, the replacement is in the result. */
  lemma {:induction false} ReplacedContains(s: string, a: string, b: string)
    requires a != "" && Contains(s, a)
    ensures Contains(ReplaceAll(s, a, b), b)
  {
    hide ReplaceAll;
    if s != "" {
      ReplaceStep(s, a, b);
      if a <= s {
        var tail := ReplaceAll(s[|a|..], a, b);
        assert (b + tail)[0..0 + |b|] == b;
        assert OccursAt(b + tail, b, 0);
      } else {
        ContainsTail(s, a);
        ReplacedContains(s[1..], a, b);
        var tail := ReplaceAll(s[1..], a, b);
        assert ([s[0]] + tail)[1..] == tail;
        ContainsTail([s[0]] + tail, b);
      }
    }
  }

  /******* What is rewritten, and what is left as it is *******/

  /** The operator rewrites by prefix, every occurrence, and leaves every other URL alone. */
  lemma OperatorRewrites(url: string, rest: string)
    ensures OperatorToHttps("git@github.com:" + rest) ==
            "https://github.com/" + ReplaceAll(rest, "git@github.com:", "https://github.com/")
    ensures OperatorToHttps("git@gitlab.com:" + rest) ==
            "https://gitlab.com/" + ReplaceAll(rest, "git@gitlab.com:", "https://gitlab.com/")
    ensures !("git@github.com:" <= url) && !("git@gitlab.com:" <= url) ==> OperatorToHttps(url) == url
    ensures OperatorToSsh("https://github.com/" + rest) ==
            "git@github.com:" + ReplaceAll(rest, "https://github.com/", "git@github.com:")
    ensures OperatorToSsh("https://gitlab.com/" + rest) ==
            "git@gitlab.com:" + ReplaceAll(rest, "https://gitlab.com/", "git@gitlab.com:")
    ensures !("https://github.com/" <= url) && !("https://gitlab.com/" <= url) ==> OperatorToSsh(url) == url
  {
    hide ReplaceAll;
    OtherHost(rest);
    HeadRewritten(GITHUB_SSH, GITHUB_HTTPS, rest);
    HeadRewritten(GITLAB_SSH, GITLAB_HTTPS, rest);
    HeadRewritten(GITHUB_HTTPS, GITHUB_SSH, rest);
    HeadRewritten(GITLAB_HTTPS, GITLAB_SSH, rest);
  }

  lemma OtherHost(rest: string)
    ensures !(GITHUB_SSH <= GITLAB_SSH + rest) && !(GITHUB_HTTPS <= GITLAB_HTTPS + rest)
  {
    assert (GITLAB_SSH + rest)[7] == 'l' != GITHUB_SSH[7];
    assert (GITLAB_HTTPS + rest)[11] == 'l' != GITHUB_HTTPS[11];
  }

  lemma HeadRewritten(a: string, b: string, rest: string)
    requires a != ""
    ensures a <= a + rest && ReplaceAll(a + rest, a, b) == b + ReplaceAll(rest, a, b)
  {
    ReplaceHead(rest, a, b);
  }

  /** A URL that is in the target form already stays as it is. */
  lemma OperatorKeepsTarget(rest: string)
    ensures OperatorToHttps("https://github.com/" + rest) == "https://github.com/" + rest
    ensures OperatorToHttps("https://gitlab.com/" + rest) == "https://gitlab.com/" + rest
    ensures OperatorToSsh("git@github.com:" + rest) == "git@github.com:" + rest
    ensures OperatorToSsh("git@gitlab.com:" + rest) == "git@gitlab.com:" + rest
  {
    OperatorRewrites(GITHUB_HTTPS + rest, rest);
    OperatorRewrites(GITLAB_HTTPS + rest, rest);
    OperatorRewrites(GITHUB_SSH + rest, rest);
    OperatorRewrites(GITLAB_SSH + rest, rest);
    assert (GITHUB_HTTPS + rest)[0] == (GITLAB_HTTPS + rest)[0] == 'h';
    assert (GITHUB_SSH + rest)[0] == (GITLAB_SSH + rest)[0] == 'g';
  }

  /** The command line rewrites wherever a prefix occurs, GitHub before GitLab, and leaves every other text alone. */
  lemma CliRewrites(url: string)
    ensures CliToHttps(url) ==
            if Contains(url, "git@github.com:") then ReplaceAll(url, "git@github.com:", "https://github.com/")
            else ReplaceAll(url, "git@gitlab.com:", "https://gitlab.com/")
    ensures CliToSsh(url) ==
            if Contains(url, "https://github.com/") then ReplaceAll(url, "https://github.com/", "git@github.com:")
            else ReplaceAll(url, "https://gitlab.com/", "git@gitlab.com:")
    ensures !Contains(url, "git@github.com:") && !Contains(url, "git@gitlab.com:") ==> CliToHttps(url) == url
    ensures !Contains(url, "https://github.com/") && !Contains(url, "https://gitlab.com/") ==> CliToSsh(url) == url
  {
    hide ReplaceAll, Contains;
    ReplaceIdentityIff(url, GITLAB_SSH, GITLAB_HTTPS);
    ReplaceIdentityIff(url, GITLAB_HTTPS, GITLAB_SSH);
  }
}
