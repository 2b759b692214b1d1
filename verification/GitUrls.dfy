/**
 The three repository-URL parsers (il-operator/controller/util/parsers.go,
 internal-cli/app/util/parsers.go, api/src/organization/utilities.ts). Characters stand for
 the bytes of an ASCII URL.
 */
module GitUrls {
  import opened Strings
  import opened Types

  const GIT_SUFFIX := ".git"
  const HTTPS := "https://"
  const SSH_USER := "git@"

  datatype Parse = Parsed(owner: string, repo: string) | Rejected | Panics

  /** ParseRepositoryInfo: indexing two back from the end panics on a one-element split. */
  function ParseRepositoryInfo(url: string): Parse {
    var bare := TrimSuffix(url, GIT_SUFFIX);
    if url == "" then Rejected
    else if HTTPS <= url then
      var parts := Split(TrimPrefix(bare, HTTPS), '/');
      if |parts| < 2 then Panics else Parsed(parts[|parts| - 2], parts[|parts| - 1])
    else if SSH_USER <= url then
      var parts := Split(TrimPrefix(bare, SSH_USER), ':');
      if |parts| != 2 then Rejected
      else
        var info := Split(parts[1], '/');
        if |info| != 2 then Rejected else Parsed(info[0], info[1])
    else Parsed("", "")
  }

  /** getGithubOrgFromRepoUrl */
  function GithubOrg(url: string): Option<string> {
    if !HasSuffix(url, GIT_SUFFIX) then None
    else if SSH_USER <= url then
      var parts := Split(url, ':');
      if |parts| != 2 then None
      else
        var info := Split(parts[1], '/');
        if |info| != 2 then None else Some(info[0])
    else if HTTPS <= url then
      var parts := Split(url, '/');
      if |parts| != 5 then None else Some(parts[3])
    else None
  }

  predicate IsDelimiter(c: char) {
    c == '/' || c == ':'
  }

  predicate DelimiterFree(s: string) {
    forall i | 0 <= i < |s| :: !IsDelimiter(s[i])
  }

  /** A delimiter-free tail that nothing extends: it is the whole string or follows a delimiter. */
  predicate TailFrom(s: string, from: nat) {
    from <= |s| && DelimiterFree(s[from..]) && (from == 0 || IsDelimiter(s[from - 1]))
  }

  /** Where the tail after the last delimiter begins. */
  function LastTail(s: string): (from: nat)
    ensures TailFrom(s, from)
  {
    if s == "" then 0
    else if IsDelimiter(s[|s| - 1]) then |s|
    else
      var from := LastTail(s[..|s| - 1]);
      assert s[from..][..|s| - 1 - from] == s[..|s| - 1][from..];
      from
  }

  lemma TailUnique(s: string, a: nat, b: nat)
    requires TailFrom(s, a) && TailFrom(s, b)
    ensures a == b
  {
    assert forall i | a <= i < |s| :: s[a..][i - a] == s[i];
    assert forall i | b <= i < |s| :: s[b..][i - b] == s[i];
  }

  /** What the backwards loop of ReverseParseGitURL finds: the last two delimiter-free pieces. */
  function LastTwo(s: string): (string, string) {
    var r := LastTail(s);
    if r == 0 then ("", s)
    else
      var o := LastTail(s[..r - 1]);
      (s[o..r - 1], s[r..])
  }

  function ReverseParse(url: string): Parse {
    var (owner, repo) := LastTwo(TrimSuffix(url, GIT_SUFFIX));
    if url == "" || owner == "" || repo == "" then Rejected else Parsed(owner, repo)
  }

  /** The backwards scan, `i` characters from the end: what it has read of repository and owner. */
  ghost predicate Scanning(url: string, i: nat, repoParsed: bool, at: nat, org: string, repo: string) {
    && i <= |url| && at <= |url| && repo == url[at..] && DelimiterFree(repo)
    && (if repoParsed
        then |url| - i < at && IsDelimiter(url[at - 1]) && org == url[|url| - i..at - 1] && DelimiterFree(org)
        else at == |url| - i && org == "")
  }

  lemma ScanStep(url: string, i: nat, repoParsed: bool, at: nat, org: string, repo: string)
    requires Scanning(url, i, repoParsed, at, org, repo) && i < |url|
    ensures var c := url[|url| - 1 - i];
            && (!IsDelimiter(c) && !repoParsed ==> at > 0 && Scanning(url, i + 1, false, at - 1, org, [c] + repo))
            && (!IsDelimiter(c) && repoParsed ==> Scanning(url, i + 1, true, at, [c] + org, repo))
            && (IsDelimiter(c) && !repoParsed ==> Scanning(url, i + 1, true, at, org, repo))
  {
    var from := |url| - i;
    if !IsDelimiter(url[from - 1]) {
      if repoParsed {
        FreeGrows(url, from, at - 1);
      } else {
        assert url[at..|url|] == url[at..] && url[at - 1..|url|] == url[at - 1..];
        FreeGrows(url, at, |url|);
      }
    } else if !repoParsed {
      assert url[at - 1..at - 1] == "";
    }
  }

  lemma FreeGrows(s: string, i: nat, j: nat)
    requires 0 < i <= j <= |s| && DelimiterFree(s[i..j]) && !IsDelimiter(s[i - 1])
    ensures [s[i - 1]] + s[i..j] == s[i - 1..j] && DelimiterFree(s[i - 1..j])
  {
    assert forall k | i <= k < j :: s[k] == s[i..j][k - i];
  }

  /** Where the scan stops it has the last two pieces. */
  lemma ScannedPieces(url: string, at: nat, from: nat)
    requires 0 < at <= |url| && from < at && DelimiterFree(url[at..]) && IsDelimiter(url[at - 1])
    requires DelimiterFree(url[from..at - 1]) && (from == 0 || IsDelimiter(url[from - 1]))
    ensures LastTwo(url) == (url[from..at - 1], url[at..])
  {
    TailUnique(url, at, LastTail(url));
    assert url[..at - 1][from..] == url[from..at - 1];
    TailUnique(url[..at - 1], from, LastTail(url[..at - 1]));
  }

  method ReverseParseGitURL(input: string) returns (result: Parse)
    ensures result == ReverseParse(input)
  {
    hide LastTwo, DelimiterFree, Scanning;
    if input == "" {
      return Rejected;
    }
    var url := TrimSuffix(input, GIT_SUFFIX);
    var repoParsed, org, repo := false, "", "";
    ghost var at: nat := |url|;
    var i := 0;
    ScanStarts(url);
    while i < |url|
      invariant i <= |url| && Scanning(url, i, repoParsed, at, org, repo)
    {
      ScanStep(url, i, repoParsed, at, org, repo);
      var c := url[|url| - 1 - i];
      if IsDelimiter(c) {
        if repoParsed {
          break;
        }
        repoParsed := true;
      } else if !repoParsed {
        repo := [c] + repo;
        at := at - 1;
      } else {
        org := [c] + org;
      }
      i := i + 1;
    }
    ScanEnds(url, i, repoParsed, at, org, repo);
    result := if org == "" || repo == "" then Rejected else Parsed(org, repo);
  }

  lemma ScanStarts(url: string)
    ensures Scanning(url, 0, false, |url|, "", "")
  {
    Empty();
    assert url[|url|..] == "";
  }

  lemma ScanEnds(url: string, i: nat, repoParsed: bool, at: nat, org: string, repo: string)
    requires Scanning(url, i, repoParsed, at, org, repo)
    requires i == |url| || (repoParsed && IsDelimiter(url[|url| - 1 - i]))
    ensures LastTwo(url) == (org, repo)
  {
    if repoParsed {
      ScannedPieces(url, at, |url| - i);
    } else {
      assert url[0..] == url;
      OnePiece(url);
    }
  }

  lemma Empty()
    ensures DelimiterFree("")
  {
  }

  lemma OnePiece(url: string)
    requires DelimiterFree(url)
    ensures LastTwo(url) == ("", url)
  {
    assert url[0..] == url;
    TailUnique(url, 0, LastTail(url));
  }

  /** The result of a backwards parse, said without the loop: the URL ends in owner, delimiter, repo. */
  lemma ReverseParseIff(url: string, before: string, owner: string, d: char, repo: string)
    requires IsDelimiter(d) && TrimSuffix(url, GIT_SUFFIX) == before + owner + [d] + repo
    requires DelimiterFree(owner) && DelimiterFree(repo)
    requires before != "" ==> IsDelimiter(before[|before| - 1])
    ensures ReverseParse(url) == if owner == "" || repo == "" then Rejected else Parsed(owner, repo)
  {
    var s := before + owner + [d] + repo;
    var at := |before + owner| + 1;
    assert s[at..] == repo && s[at - 1] == d;
    TailUnique(s, at, LastTail(s));
    assert s[..at - 1] == before + owner;
    assert s[..at - 1][|before|..] == owner;
    assert before != "" ==> s[..at - 1][|before| - 1] == before[|before| - 1];
    TailUnique(s[..at - 1], |before|, LastTail(s[..at - 1]));
  }

  /******* The parsers against each other *******/

  /** A prefix without the suffix's first character is untouched by trimming the suffix. */
  lemma TrimAfterPrefix(prefix: string, rest: string)
    requires '.' !in prefix && HasSuffix(prefix + rest, GIT_SUFFIX)
    ensures HasSuffix(rest, GIT_SUFFIX)
    ensures TrimSuffix(prefix + rest, GIT_SUFFIX) == prefix + TrimSuffix(rest, GIT_SUFFIX)
  {
    var s := prefix + rest;
    assert s[|s| - 4] == s[|s| - 4..][0] == GIT_SUFFIX[0] == '.';
    assert forall i | 0 <= i < |prefix| :: s[i] == prefix[i] != '.';
    assert rest[|rest| - 4..] == s[|s| - 4..];
    assert s[..|s| - 4] == prefix + rest[..|rest| - 4];
  }

  lemma {:induction false} SplitExtended(s: string, tail: string, sep: char)
    requires sep !in tail
    ensures var whole, bare := Split(s + tail, sep), Split(s, sep);
            |whole| == |bare| && whole == bare[..|bare| - 1] + [bare[|bare| - 1] + tail]
  {
    if s == "" {
      SplitFree(tail, sep);
      assert s + tail == tail;
    } else {
      SplitExtended(s[1..], tail, sep);
      assert (s + tail)[1..] == s[1..] + tail && (s + tail)[0] == s[0];
      SplitStep(s, sep);
      SplitStep(s + tail, sep);
      hide Split;
      HeadJoined(s[0], sep, Split(s[1..], sep), tail);
    }
  }

  /** One unfolding, for proofs that hide the definition. */
  lemma SplitStep(s: string, sep: char)
    requires s != ""
    ensures Split(s, sep) == WithHead(s[0], sep, Split(s[1..], sep))
  {
  }

  function WithHead(c: char, sep: char, parts: seq<string>): seq<string>
    requires parts != []
  {
    if c == sep then [""] + parts else [[c] + parts[0]] + parts[1..]
  }

  lemma HeadJoined(c: char, sep: char, b: seq<string>, tail: string)
    requires b != []
    ensures var n := |b| - 1; var w := b[..n] + [b[n] + tail]; var bare := WithHead(c, sep, b);
            WithHead(c, sep, w) == bare[..|bare| - 1] + [bare[|bare| - 1] + tail]
  {
    var n := |b| - 1;
    var w := b[..n] + [b[n] + tail];
    if c != sep && n == 0 {
      assert [c] + (b[0] + tail) == [c] + b[0] + tail;
    } else if c != sep {
      assert w[0] == b[0] && w[1..] == b[1..n] + [b[n] + tail];
    }
  }

  /** Trimming the suffix off touches the last piece of a split only. */
  lemma SplitTrimmed(s: string, sep: char)
    requires HasSuffix(s, GIT_SUFFIX) && sep !in GIT_SUFFIX
    ensures var whole, bare := Split(s, sep), Split(TrimSuffix(s, GIT_SUFFIX), sep);
            && |whole| == |bare|
            && whole[..|whole| - 1] == bare[..|bare| - 1]
            && whole[|whole| - 1] == bare[|bare| - 1] + GIT_SUFFIX
  {
    hide Split;
    SplitExtended(TrimSuffix(s, GIT_SUFFIX), GIT_SUFFIX, sep);
    assert s == TrimSuffix(s, GIT_SUFFIX) + GIT_SUFFIX;
  }

  lemma {:induction false} SplitCount(s: string, sep: char)
    ensures |Split(s, sep)| == 1 <==> sep !in s
  {
    if s != "" {
      SplitCount(s[1..], sep);
      assert s == [s[0]] + s[1..];
    }
  }

  /** The path that the operator's parser splits is the rest of the URL, with or without the suffix. */
  lemma HttpsPath(url: string) returns (path: string)
    requires HTTPS <= url
    ensures path == TrimPrefix(TrimSuffix(url, GIT_SUFFIX), HTTPS)
    ensures path == url[|HTTPS|..] || url[|HTTPS|..] == path + GIT_SUFFIX
  {
    var rest := url[|HTTPS|..];
    assert url == HTTPS + rest;
    path := TrimPrefix(TrimSuffix(url, GIT_SUFFIX), HTTPS);
    if HasSuffix(url, GIT_SUFFIX) {
      TrimAfterPrefix(HTTPS, rest);
      assert rest == TrimSuffix(rest, GIT_SUFFIX) + GIT_SUFFIX;
      assert (HTTPS + TrimSuffix(rest, GIT_SUFFIX))[|HTTPS|..] == TrimSuffix(rest, GIT_SUFFIX);
    }
  }

  /** The parser of the operator panics exactly on an HTTPS URL without a path. */
  lemma ParsePanicsIff(url: string)
    ensures ParseRepositoryInfo(url).Panics? <==> HTTPS <= url && '/' !in url[|HTTPS|..]
  {
    hide Split, TrimSuffix, TrimPrefix;
    if HTTPS <= url {
      var path := HttpsPath(url);
      SplitCount(path, '/');
    }
  }

  lemma SplitPrefixed(prefix: string, s: string, sep: char)
    requires sep !in prefix
    ensures Split(prefix + s, sep) == [prefix + Split(s, sep)[0]] + Split(s, sep)[1..]
  {
    if prefix == "" {
      assert prefix + s == s;
      var parts := Split(s, sep);
      assert prefix + parts[0] == parts[0] && [parts[0]] + parts[1..] == parts;
    } else {
      assert (prefix + s)[1..] == prefix[1..] + s;
      SplitPrefixed(prefix[1..], s, sep);
      assert [prefix[0]] + (prefix[1..] + Split(s, sep)[0]) == prefix + Split(s, sep)[0];
    }
  }

  lemma TwoPieces(s: string, sep: char)
    requires |Split(s, sep)| == 2
    ensures s == Split(s, sep)[0] + [sep] + Split(s, sep)[1]
    ensures sep !in Split(s, sep)[0] && sep !in Split(s, sep)[1]
  {
    JoinOfSplit(s, sep);
  }

  /** Both SSH branches split the same path, one with the suffix still on. */
  lemma SshSplits(url: string) returns (bare: string)
    requires SSH_USER <= url && HasSuffix(url, GIT_SUFFIX)
    ensures TrimSuffix(url, GIT_SUFFIX) == SSH_USER + bare
    ensures TrimPrefix(TrimSuffix(url, GIT_SUFFIX), SSH_USER) == bare
    ensures |Split(url, ':')| == |Split(bare, ':')|
    ensures |Split(bare, ':')| == 2 ==> Split(url, ':')[1] == Split(bare, ':')[1] + GIT_SUFFIX
  {
    hide Split;
    var rest := url[|SSH_USER|..];
    assert url == SSH_USER + rest;
    TrimAfterPrefix(SSH_USER, rest);
    bare := TrimSuffix(rest, GIT_SUFFIX);
    SplitPrefixed(SSH_USER, rest, ':');
    SplitTrimmed(rest, ':');
  }

  lemma PathSplits(tail: string)
    requires ':' !in tail
    ensures |Split(tail + GIT_SUFFIX, '/')| == |Split(tail, '/')|
    ensures var parts := Split(tail, '/');
            |parts| == 2 ==>
              && Split(tail + GIT_SUFFIX, '/')[0] == parts[0]
              && tail == parts[0] + ['/'] + parts[1]
              && DelimiterFree(parts[0]) && DelimiterFree(parts[1])
  {
    hide Split;
    var whole := tail + GIT_SUFFIX;
    assert HasSuffix(whole, GIT_SUFFIX) && TrimSuffix(whole, GIT_SUFFIX) == tail;
    SplitTrimmed(whole, '/');
    var parts := Split(tail, '/');
    if |parts| == 2 {
      TwoPieces(tail, '/');
      assert Split(whole, '/')[..1][0] == parts[..1][0];
      assert forall i | 0 <= i < |parts[0]| :: parts[0][i] in tail && parts[0][i] != '/';
      assert forall i | 0 <= i < |parts[1]| :: parts[1][i] in tail && parts[1][i] != '/';
    }
  }

  /** On an SSH URL ending in .git both accept or both reject, with the same owner. */
  lemma SshParsersAgree(url: string) returns (before: string)
    requires SSH_USER <= url && HasSuffix(url, GIT_SUFFIX)
    ensures var p := ParseRepositoryInfo(url);
            && (p.Parsed? <==> GithubOrg(url).Some?)
            && (p.Parsed? ==>
                 && GithubOrg(url) == Some(p.owner)
                 && DelimiterFree(p.owner) && DelimiterFree(p.repo)
                 && before != "" && IsDelimiter(before[|before| - 1])
                 && TrimSuffix(url, GIT_SUFFIX) == before + p.owner + ['/'] + p.repo)
  {
    hide Split;
    assert url[0] == SSH_USER[0] != HTTPS[0];
    var bare := SshSplits(url);
    before := "";
    if |Split(bare, ':')| == 2 {
      TwoPieces(bare, ':');
      var tail := Split(bare, ':')[1];
      PathSplits(tail);
      before := SSH_USER + Split(bare, ':')[0] + [':'];
      if |Split(tail, '/')| == 2 {
        assert TrimSuffix(url, GIT_SUFFIX) == before + tail;
      }
    }
  }

  /** Both HTTPS branches split the same path, one after the scheme and with the suffix still on. */
  lemma HttpsPieces(url: string) returns (bare: string)
    requires HTTPS <= url && HasSuffix(url, GIT_SUFFIX) && |Split(url, '/')| == 5
    ensures TrimSuffix(url, GIT_SUFFIX) == HTTPS + bare && TrimPrefix(TrimSuffix(url, GIT_SUFFIX), HTTPS) == bare
    ensures |Split(bare, '/')| == 3 && Split(url, '/')[3] == Split(bare, '/')[1]
  {
    hide Split;
    var rest := url[|HTTPS|..];
    assert url == HTTPS + rest;
    TrimAfterPrefix(HTTPS, rest);
    bare := TrimSuffix(rest, GIT_SUFFIX);
    HttpsSplits(rest);
    SplitTrimmed(rest, '/');
    assert Split(rest, '/')[..2][1] == Split(bare, '/')[..2][1];
  }

  /** An HTTPS URL with host, owner and repository is read alike. */
  lemma HttpsParsersAgree(url: string) returns (before: string)
    requires HTTPS <= url && GithubOrg(url).Some?
    ensures var p := ParseRepositoryInfo(url);
            && p.Parsed? && GithubOrg(url) == Some(p.owner)
            && '/' !in p.owner && '/' !in p.repo
            && before != "" && IsDelimiter(before[|before| - 1])
            && TrimSuffix(url, GIT_SUFFIX) == before + p.owner + ['/'] + p.repo
  {
    hide Split;
    assert url[0] == HTTPS[0] != SSH_USER[0];
    var bare := HttpsPieces(url);
    var parts := Split(bare, '/');
    ThreePieces(bare, '/');
    before := HTTPS + parts[0] + ['/'];
    assert HTTPS + bare == before + parts[1] + ['/'] + parts[2];
  }

  lemma HttpsSplits(rest: string)
    ensures Split(HTTPS + rest, '/') == ["https:", ""] + Split(rest, '/')
  {
    SplitFirst("https:", "/" + rest, '/');
    assert "https:" + ['/'] + ("/" + rest) == HTTPS + rest;
    SplitFirst("", rest, '/');
    assert "" + ['/'] + rest == "/" + rest;
    assert ["https:"] + ([""] + Split(rest, '/')) == ["https:", ""] + Split(rest, '/');
  }

  lemma ThreePieces(s: string, sep: char)
    requires |Split(s, sep)| == 3
    ensures var p := Split(s, sep);
            s == p[0] + [sep] + p[1] + [sep] + p[2] && sep !in p[0] && sep !in p[1] && sep !in p[2]
  {
    JoinOfSplit(s, sep);
    var p := Split(s, sep);
    assert Join(p[1..], sep) == p[1] + [sep] + p[2];
  }

  lemma {:induction false} LastTwoFree(s: string)
    ensures DelimiterFree(LastTwo(s).0) && DelimiterFree(LastTwo(s).1)
  {
    assert s[0..] == s;
  }

  lemma {:induction false} LastPieceOf(a: string, repo: string, sep: char)
    requires sep !in repo
    ensures var parts := Split(a + [sep] + repo, sep); parts[|parts| - 1] == repo
  {
    if a == "" {
      SplitFirst("", repo, sep);
      SplitFree(repo, sep);
      assert "" + [sep] + repo == a + [sep] + repo;
    } else {
      assert (a + [sep] + repo)[1..] == a[1..] + [sep] + repo;
      LastPieceOf(a[1..], repo, sep);
      SplitCount(a[1..] + [sep] + repo, sep);
    }
  }

  /** The last slash-separated piece of the URL, without the suffix. */
  function LastPiece(url: string): string {
    var parts := Split(TrimSuffix(url, GIT_SUFFIX), '/');
    parts[|parts| - 1]
  }

  /**
   Every URL the API takes an organisation from is parsed by the operator into that organisation
   and the last piece of the URL. The backwards parser agrees exactly when the two are non-empty
   and have no colon.
   */
  lemma AcceptedUrlsAgree(url: string)
    requires GithubOrg(url).Some?
    ensures var owner, repo := GithubOrg(url).value, LastPiece(url);
            && ParseRepositoryInfo(url) == Parsed(owner, repo)
            && (ReverseParse(url) == Parsed(owner, repo) <==>
                owner != "" && repo != "" && ':' !in owner && ':' !in repo)
  {
    hide Split, LastTail, ParseRepositoryInfo;
    var before := "";
    if SSH_USER <= url {
      before := SshParsersAgree(url);
      DelimiterFreeIn(ParseRepositoryInfo(url).owner);
      DelimiterFreeIn(ParseRepositoryInfo(url).repo);
    } else {
      before := HttpsParsersAgree(url);
    }
    var p := ParseRepositoryInfo(url);
    LastPieceOf(before + p.owner, p.repo, '/');
    hide GithubOrg;
    LastTwoFree(TrimSuffix(url, GIT_SUFFIX));
    if ':' !in p.owner && ':' !in p.repo {
      ReverseParseIff(url, before, p.owner, '/', p.repo);
    }
  }

  /** A panicking URL: a host and nothing else. */
  lemma BareHostPanics(url: string)
    requires url == "https://github.com"
    ensures ParseRepositoryInfo(url).Panics?
  {
    ParsePanicsIff(url);
    assert url[|HTTPS|..] == "github.com";
  }

  /** The two spellings of a GitHub repository. */
  function SshUrl(owner: string, repo: string): string {
    "git@github.com:" + owner + ['/'] + repo + GIT_SUFFIX
  }

  function HttpsUrl(owner: string, repo: string): string {
    "https://github.com/" + owner + ['/'] + repo + GIT_SUFFIX
  }

  lemma SplitTwo(a: string, b: string, sep: char)
    requires sep !in a && sep !in b
    ensures Split(a + [sep] + b, sep) == [a, b]
  {
    SplitFirst(a, b, sep);
    SplitFree(b, sep);
  }

  lemma CanonicalSsh(owner: string, repo: string)
    requires DelimiterFree(owner) && DelimiterFree(repo)
    ensures GithubOrg(SshUrl(owner, repo)) == Some(owner)
  {
    hide Split;
    var url, file := SshUrl(owner, repo), repo + GIT_SUFFIX;
    var path := owner + ['/'] + file;
    assert url == "git@github.com" + [':'] + path;
    assert url[|url| - 4..] == GIT_SUFFIX;
    assert url[..4] == SSH_USER;
    DelimiterFreeIn(owner);
    DelimiterFreeIn(repo);
    SplitTwo("git@github.com", path, ':');
    SplitTwo(owner, file, '/');
  }

  lemma CanonicalHttps(owner: string, repo: string)
    requires DelimiterFree(owner) && DelimiterFree(repo)
    ensures GithubOrg(HttpsUrl(owner, repo)) == Some(owner)
  {
    hide Split;
    var url, file := HttpsUrl(owner, repo), repo + GIT_SUFFIX;
    var path := owner + ['/'] + file;
    assert url == HTTPS + ("github.com" + ['/'] + path);
    assert url[|url| - 4..] == GIT_SUFFIX;
    assert url[0] == 'h';
    DelimiterFreeIn(owner);
    DelimiterFreeIn(repo);
    SplitTwo(owner, file, '/');
    SplitFirst("github.com", path, '/');
    HttpsSplits("github.com" + ['/'] + path);
  }

  lemma DelimiterFreeIn(s: string)
    requires DelimiterFree(s)
    ensures '/' !in s && ':' !in s
  {
  }

  lemma LastSlash(a: string, x: string, b: string, y: string)
    requires '/' !in x && '/' !in y && a + ['/'] + x == b + ['/'] + y
    ensures x == y
  {
    var s := a + ['/'] + x;
    assert s[|a|] == '/' && s[|b|] == '/';
    assert forall i | |a| < i < |s| :: s[i] == x[i - |a| - 1];
    assert forall i | |b| < i < |s| :: s[i] == y[i - |b| - 1];
    assert x == s[|a| + 1..] && y == s[|b| + 1..];
  }

  /** All three parsers read owner and repository back from both spellings. */
  lemma CanonicalUrlsAgree(owner: string, repo: string, url: string)
    requires DelimiterFree(owner) && DelimiterFree(repo) && owner != "" && repo != ""
    requires url == SshUrl(owner, repo) || url == HttpsUrl(owner, repo)
    ensures GithubOrg(url) == Some(owner)
    ensures ParseRepositoryInfo(url) == Parsed(owner, repo)
    ensures ReverseParse(url) == Parsed(owner, repo)
  {
    hide Split, LastTail, LastTwo;
    CanonicalSsh(owner, repo);
    CanonicalHttps(owner, repo);
    var before := if url == SshUrl(owner, repo) then "git@github.com:" else "https://github.com/";
    var bare := before + owner + ['/'] + repo;
    assert url == bare + GIT_SUFFIX;
    assert url[|url| - 4..] == GIT_SUFFIX && TrimSuffix(url, GIT_SUFFIX) == bare;
    ReverseParseIff(url, before, owner, '/', repo);
    hide GithubOrg, ParseRepositoryInfo, ReverseParse;
    var p, rest := ParseRepositoryInfo(url), "";
    if url == SshUrl(owner, repo) {
      assert url[..4] == SSH_USER;
      rest := SshParsersAgree(url);
    } else {
      assert url[..8] == HTTPS;
      rest := HttpsParsersAgree(url);
    }
    LastSlash(before + owner, repo, rest + p.owner, p.repo);
  }

  /******* What the operator's parser makes of any URL *******/

  /** The text without a trailing ".git". */
  function Bare(url: string): string {
    if |url| >= 4 && url[|url| - 4..] == ".git" then url[..|url| - 4] else url
  }

  /** Owner and repository are the last two slash-separated pieces. */
  ghost predicate EndsInPath(s: string, owner: string, repo: string) {
    '/' !in owner && '/' !in repo && exists before: string :: PathAfter(s, before, owner, repo)
  }

  ghost predicate PathAfter(s: string, before: string, owner: string, repo: string) {
    s == before + owner + "/" + repo && (before == "" || before[|before| - 1] == '/')
  }

  /** The text is `host:owner/repo`, with no further delimiter. */
  ghost predicate IsScpPath(s: string, owner: string, repo: string) {
    && '/' !in owner && '/' !in repo && ':' !in owner && ':' !in repo
    && exists host: string :: ':' !in host && s == host + ":" + owner + "/" + repo
  }

  lemma LastTwoPieces(s: string, owner: string, repo: string)
    ensures EndsInPath(s, owner, repo) <==>
            var parts := Split(s, '/'); |parts| >= 2 && parts[|parts| - 2..] == [owner, repo]
  {
    var parts := Split(s, '/');
    JoinOfSplit(s, '/');
    if |parts| >= 2 && parts[|parts| - 2..] == [owner, repo] {
      PiecesEndInPath(s, parts, owner, repo);
    }
    if EndsInPath(s, owner, repo) {
      var before :| PathAfter(s, before, owner, repo);
      PathHasPieces(before, owner, repo);
    }
  }

  lemma PiecesEndInPath(s: string, parts: seq<string>, owner: string, repo: string)
    requires |parts| >= 2 && parts[|parts| - 2..] == [owner, repo]
    requires s == Join(parts, '/') && forall p | p in parts :: '/' !in p
    ensures EndsInPath(s, owner, repo)
  {
    var first, last := parts[..|parts| - 2], [owner, repo];
    assert parts == first + last;
    assert last[0] in parts && last[1] in parts;
    JoinTwo(owner, repo);
    hide Join, PathAfter;
    if first == [] {
      assert parts == last;
      FirstPath(owner, repo);
    } else {
      JoinAppend(first, last, '/');
      LaterPath(Join(first, '/'), owner, repo);
    }
  }

  lemma FirstPath(owner: string, repo: string)
    ensures PathAfter(owner + "/" + repo, "", owner, repo)
  {
    assert "" + owner == owner;
  }

  lemma LaterPath(start: string, owner: string, repo: string)
    ensures PathAfter(start + ['/'] + (owner + "/" + repo), start + "/", owner, repo)
  {
    assert (start + "/")[|start + "/"| - 1] == '/';
    assert start + ['/'] + (owner + "/" + repo) == start + "/" + owner + "/" + repo;
  }

  lemma JoinTwo(owner: string, repo: string)
    ensures Join([owner, repo], '/') == owner + "/" + repo
  {
    assert [owner, repo][1..] == [repo];
  }

  lemma PathHasPieces(before: string, owner: string, repo: string)
    requires '/' !in owner && '/' !in repo && (before == "" || before[|before| - 1] == '/')
    ensures var parts := Split(before + owner + "/" + repo, '/'); |parts| >= 2 && parts[|parts| - 2..] == [owner, repo]
  {
    SplitTwo(owner, repo, '/');
    var path := owner + ['/'] + repo;
    if before == "" {
      assert before + owner + "/" + repo == path;
    } else {
      var b := before[..|before| - 1];
      SplitAppend(b, path, '/');
      assert before + owner + "/" + repo == b + ['/'] + path;
    }
  }

  lemma ScpPieces(s: string, owner: string, repo: string)
    ensures IsScpPath(s, owner, repo) <==>
            |Split(s, ':')| == 2 && Split(Split(s, ':')[1], '/') == [owner, repo]
  {
    if |Split(s, ':')| == 2 && Split(Split(s, ':')[1], '/') == [owner, repo] {
      var host, path := Split(s, ':')[0], Split(s, ':')[1];
      TwoPieces(s, ':');
      TwoPieces(path, '/');
      hide Split;
      ScpPath(host, path, owner, repo);
    }
    if IsScpPath(s, owner, repo) {
      var host: string :| ':' !in host && s == host + ":" + owner + "/" + repo;
      hide Split;
      var path := owner + ['/'] + repo;
      assert ':' !in path && s == host + [':'] + path;
      SplitTwo(host, path, ':');
      SplitTwo(owner, repo, '/');
    }
  }

  lemma ScpPath(host: string, path: string, owner: string, repo: string)
    requires path == owner + ['/'] + repo && '/' !in owner && '/' !in repo && ':' !in host && ':' !in path
    ensures IsScpPath(host + [':'] + path, owner, repo)
  {
    assert forall c | c in owner || c in repo :: c in path;
    assert host + [':'] + path == host + ":" + owner + "/" + repo;
  }

  /** The result for every URL, with or without the suffix. */
  lemma ParsedIff(url: string, owner: string, repo: string)
    ensures ParseRepositoryInfo(url) == Parsed(owner, repo) <==>
            if "https://" <= url then EndsInPath(TrimPrefix(Bare(url), "https://"), owner, repo)
            else if "git@" <= url then IsScpPath(TrimPrefix(Bare(url), "git@"), owner, repo)
            else url != "" && owner == "" && repo == ""
    ensures ParseRepositoryInfo(url).Rejected? <==>
            url == "" || ("git@" <= url && forall o, r :: !IsScpPath(TrimPrefix(Bare(url), "git@"), o, r))
  {
    assert TrimSuffix(url, GIT_SUFFIX) == Bare(url);
    PrefixOfBare(url);
    if "https://" <= url {
      LastTwoPieces(TrimPrefix(Bare(url), "https://"), owner, repo);
      assert url[0] == 'h' != "git@"[0];
    } else if "git@" <= url {
      var s := TrimPrefix(Bare(url), "git@");
      ScpPieces(s, owner, repo);
      if |Split(s, ':')| == 2 && |Split(Split(s, ':')[1], '/')| == 2 {
        var info := Split(Split(s, ':')[1], '/');
        assert info == [info[0], info[1]];
        ScpPieces(s, info[0], info[1]);
      }
      forall o, r | IsScpPath(s, o, r) ensures |Split(s, ':')| == 2 && |Split(Split(s, ':')[1], '/')| == 2 {
        ScpPieces(s, o, r);
      }
    }
  }

  /** The schemes survive the trimming. */
  lemma PrefixOfBare(url: string)
    ensures "https://" <= url ==> "https://" <= Bare(url)
    ensures "git@" <= url ==> "git@" <= Bare(url)
  {
    if Bare(url) != url {
      assert url == Bare(url) + ".git";
      assert url[|url| - 4] == '.';
    }
  }

  /******* What the API's parser makes of any URL *******/

  /** `https://host/owner/repo` and no more slashes. */
  ghost predicate IsHttpsPath(url: string, owner: string) {
    '/' !in owner &&
    exists host: string, repo: string :: '/' !in host && '/' !in repo && url == "https://" + host + "/" + owner + "/" + repo
  }

  lemma HttpsOwner(url: string, owner: string)
    requires "https://" <= url
    ensures IsHttpsPath(url, owner) <==> |Split(url, '/')| == 5 && Split(url, '/')[3] == owner
  {
    hide Split;
    var rest := url[|HTTPS|..];
    assert url == HTTPS + rest;
    HttpsSplits(rest);
    if |Split(url, '/')| == 5 && Split(url, '/')[3] == owner {
      ThreePieces(rest, '/');
      var p := Split(rest, '/');
      assert url == "https://" + p[0] + "/" + owner + "/" + p[2];
    }
    if host: string, repo: string :| '/' !in host && '/' !in repo && '/' !in owner
                                     && url == "https://" + host + "/" + owner + "/" + repo {
      var tail := owner + ['/'] + repo;
      assert rest == host + ['/'] + tail;
      SplitFirst(host, tail, '/');
      SplitTwo(owner, repo, '/');
    }
  }

  /** Which organisation is taken from a URL, and from which URLs none is. */
  lemma OrgIff(url: string, owner: string)
    ensures GithubOrg(url) == Some(owner) <==>
            Bare(url) != url &&
            (if "git@" <= url then exists repo :: IsScpPath(url, owner, repo) else "https://" <= url && IsHttpsPath(url, owner))
  {
    assert HasSuffix(url, ".git") <==> Bare(url) != url;
    if "git@" <= url {
      if GithubOrg(url) == Some(owner) {
        var info := Split(Split(url, ':')[1], '/');
        assert info == [owner, info[1]];
        ScpPieces(url, owner, info[1]);
      }
      if repo :| IsScpPath(url, owner, repo) {
        ScpPieces(url, owner, repo);
      }
    } else if "https://" <= url {
      HttpsOwner(url, owner);
    }
  }
}
