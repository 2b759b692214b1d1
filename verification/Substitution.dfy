/**
 When the sequential replacement of Interpolation is the simultaneous substitution it is meant to be.
 */
module Substitution {
  import opened Strings
  import opened Interpolation

  /** Every token is replaced at once; unmapped and empty values leave the token intact. */
  function Simultaneous(t: string, vars: Variables): string {
    if t == "" then ""
    else
      var n := TokenLength(t);
      if n > 0 then
        var v := Lookup(vars, Body(t[..n]));
        (if v == "" then t[..n] else v) + Simultaneous(t[n..], vars)
      else [t[0]] + Simultaneous(t[1..], vars)
  }

  /** Every `$` of the template opens a complete token. */
  ghost predicate WellDelimited(t: string) {
    t == "" || (if TokenLength(t) > 0 then WellDelimited(t[TokenLength(t)..]) else t[0] != '$' && WellDelimited(t[1..]))
  }

  ghost predicate AllDotted(bodies: seq<string>) {
    forall b | b in bodies :: IsBody(b) && Dots(b) == 1
  }

  /** A variable that some token can name and that is not empty. */
  ghost predicate Usable(vars: Variables, k: string) {
    IsBody(k) && Dots(k) == 1 && Lookup(vars, k) != ""
  }

  /** One of the two texts starts with the other. */
  ghost predicate Comparable(a: string, b: string) {
    a <= b || b <= a
  }

  /** At position `j` the value of `k` holds, or could be completed to, a token that is replaced. */
  ghost predicate CapturesAt(vars: Variables, k: string, j: int, k2: string) {
    && Usable(vars, k) && Usable(vars, k2) && Lookup(vars, k2) != Tok(k2)
    && 0 <= j < |Lookup(vars, k)| && Comparable(Lookup(vars, k)[j..], Tok(k2))
  }

  ghost predicate NoCapture(vars: Variables) {
    forall k, j, k2 :: !CapturesAt(vars, k, j, k2)
  }

  /******* No capture makes the two agree *******/

  /** The template after the tokens with the given bodies have been replaced. */
  ghost function Partial(t: string, done: set<string>, vars: Variables): string {
    if t == "" then ""
    else
      var n := TokenLength(t);
      if n > 0 then
        var b := Body(t[..n]);
        (if b in done && Lookup(vars, b) != "" then Lookup(vars, b) else t[..n]) + Partial(t[n..], done, vars)
      else [t[0]] + Partial(t[1..], done, vars)
  }

  lemma {:induction false} PartialNone(t: string, vars: Variables)
    ensures Partial(t, {}, vars) == t
  {
    hide TokenLength, Lookup;
    if t != "" {
      var n := TokenLength(t);
      if n > 0 {
        PartialNone(t[n..], vars);
        assert t == t[..n] + t[n..];
      } else {
        PartialNone(t[1..], vars);
        assert t == [t[0]] + t[1..];
      }
    }
  }

  lemma {:induction false} PartialAll(t: string, done: set<string>, vars: Variables)
    requires forall b | b in Bodies(t) :: b in done
    ensures Partial(t, done, vars) == Simultaneous(t, vars)
  {
    if t != "" {
      var n := TokenLength(t);
      if n > 0 {
        assert Bodies(t) == [Body(t[..n])] + Bodies(t[n..]);
        PartialAll(t[n..], done, vars);
      } else {
        PartialAll(t[1..], done, vars);
      }
    }
  }

  /** No occurrence of the token of `b` starts inside a value that captures nothing. */
  lemma ValueSkipped(vars: Variables, k: string, b: string, rest: string)
    requires NoCapture(vars) && Usable(vars, k) && Usable(vars, b) && Lookup(vars, b) != Tok(b)
    ensures ReplaceAll(Lookup(vars, k) + rest, Tok(b), Lookup(vars, b))
         == Lookup(vars, k) + ReplaceAll(rest, Tok(b), Lookup(vars, b))
  {
    var v := Lookup(vars, k);
    forall i | 0 <= i < |v| ensures !(Tok(b) <= v[i..] + rest) {
      assert !CapturesAt(vars, k, i, b);
      if Tok(b) <= v[i..] + rest {
        PrefixesComparable(Tok(b), v[i..], rest);
      }
    }
    ReplaceSkips(v, rest, Tok(b), Lookup(vars, b));
  }

  lemma PrefixesComparable(p: string, a: string, rest: string)
    requires p <= a + rest
    ensures Comparable(a, p)
  {
    if |p| <= |a| {
      assert p == (a + rest)[..|p|] == a[..|p|];
    } else {
      assert a == (a + rest)[..|a|] == p[..|a|];
    }
  }

  /** Another token is skipped whole. */
  lemma TokenSkipped(c: string, b: string, v: string, rest: string)
    requires IsBody(b) && IsBody(c) && b != c
    ensures ReplaceAll(Tok(c) + rest, Tok(b), v) == Tok(c) + ReplaceAll(rest, Tok(b), v)
  {
    var x := Tok(c);
    TokenShape(c);
    forall i | 0 <= i < |x| ensures !(Tok(b) <= x[i..] + rest) {
      if i == 0 {
        assert x[0..] == x;
        if Tok(b) <= x + rest {
          TokenPrefix(b, c, rest);
        }
      } else {
        assert (x[i..] + rest)[0] == x[1..][i - 1];
      }
    }
    ReplaceSkips(x, rest, Tok(b), v);
  }

  lemma CharSkipped(c: char, b: string, v: string, rest: string)
    requires c != '$'
    ensures ReplaceAll([c] + rest, Tok(b), v) == [c] + ReplaceAll(rest, Tok(b), v)
  {
    assert Tok(b)[0] == '$' && ([c] + rest)[0] == c && ([c] + rest)[1..] == rest;
  }

  /** After the tokens in `done` have been replaced, no dollar that opens no token heads an occurrence of the token of `b`. */
  ghost predicate Calm(t: string, done: set<string>, b: string, vars: Variables) {
    t == "" ||
    (if TokenLength(t) > 0 then Calm(t[TokenLength(t)..], done, b, vars)
     else (t[0] == '$' ==> !(Tok(b) <= [t[0]] + Partial(t[1..], done, vars))) && Calm(t[1..], done, b, vars))
  }

  lemma {:induction false} WellDelimitedCalm(t: string, done: set<string>, b: string, vars: Variables)
    requires WellDelimited(t)
    ensures Calm(t, done, b, vars)
  {
    if t != "" {
      if TokenLength(t) > 0 {
        WellDelimitedCalm(t[TokenLength(t)..], done, b, vars);
      } else {
        WellDelimitedCalm(t[1..], done, b, vars);
      }
    }
  }

  lemma CalmCharSkipped(c: char, b: string, v: string, rest: string)
    requires !(Tok(b) <= [c] + rest)
    ensures ReplaceAll([c] + rest, Tok(b), v) == [c] + ReplaceAll(rest, Tok(b), v)
  {
    assert ([c] + rest)[1..] == rest;
  }

  /** Replacing one more token everywhere is one more step of the partial substitution. */
  lemma {:induction false} ReplaceOneMore(t: string, done: set<string>, b: string, vars: Variables)
    requires Calm(t, done, b, vars) && NoCapture(vars) && Usable(vars, b) && Lookup(vars, b) != Tok(b)
    requires AllDotted(Bodies(t))
    ensures ReplaceAll(Partial(t, done, vars), Tok(b), Lookup(vars, b)) == Partial(t, done + {b}, vars)
  {
    hide ReplaceAll, NoCapture, IsBody, Dots;
    if t == "" {
      ReplaceEmpty(Tok(b), Lookup(vars, b));
    } else {
      var n := TokenLength(t);
      if n > 0 {
        TokenAtHead(t);
        var c := Body(t[..n]);
        var rest := Partial(t[n..], done, vars);
        assert Bodies(t) == [c] + Bodies(t[n..]);
        ReplaceOneMore(t[n..], done, b, vars);
        if c in done && Lookup(vars, c) != "" {
          assert c in Bodies(t);
          ValueSkipped(vars, c, b, rest);
        } else if c == b {
          ReplaceHead(rest, Tok(b), Lookup(vars, b));
        } else {
          TokenSkipped(c, b, Lookup(vars, b), rest);
        }
      } else {
        ReplaceOneMore(t[1..], done, b, vars);
        if t[0] == '$' {
          CalmCharSkipped(t[0], b, Lookup(vars, b), Partial(t[1..], done, vars));
        } else {
          CharSkipped(t[0], b, Lookup(vars, b), Partial(t[1..], done, vars));
        }
      }
    }
  }

  /** Replacing a token that is unmapped, or mapped to itself, changes nothing. */
  lemma {:induction false} PartialIgnores(t: string, done: set<string>, b: string, vars: Variables)
    requires IsBody(b) && (Lookup(vars, b) == "" || Lookup(vars, b) == Tok(b))
    ensures Partial(t, done + {b}, vars) == Partial(t, done, vars)
  {
    if t != "" {
      var n := TokenLength(t);
      if n > 0 {
        TokenAtHead(t);
        PartialIgnores(t[n..], done, b, vars);
      } else {
        PartialIgnores(t[1..], done, b, vars);
      }
    }
  }

  lemma {:induction false} ReplaceBySame(s: string, p: string)
    requires p != ""
    ensures ReplaceAll(s, p, p) == s
  {
    if s == "" {
    } else if p <= s {
      ReplaceBySame(s[|p|..], p);
    } else {
      ReplaceBySame(s[1..], p);
    }
  }

  function Elements(bodies: seq<string>): set<string> {
    set b | b in bodies
  }

  /** No round that replaces something meets an occurrence that is no token of the template. */
  ghost predicate CalmThroughout(t: string, bodies: seq<string>, vars: Variables) {
    forall j | 0 <= j < |bodies| && Lookup(vars, bodies[j]) != "" :: Calm(t, Elements(bodies[..j]), bodies[j], vars)
  }

  lemma {:induction false} ReplaceEachIsPartial(t: string, bodies: seq<string>, vars: Variables)
    requires CalmThroughout(t, bodies, vars) && NoCapture(vars) && AllDotted(Bodies(t)) && AllDotted(bodies)
    ensures ReplaceEach(t, bodies, vars) == Partial(t, Elements(bodies), vars)
  {
    if bodies == [] {
      PartialNone(t, vars);
      assert Elements(bodies) == {};
    } else {
      var n := |bodies| - 1;
      var init, b := bodies[..n], bodies[n];
      var done := Elements(init);
      assert forall c :: c in bodies <==> c in init || c == b;
      assert forall j | 0 <= j < n :: init[..j] == bodies[..j] && init[j] == bodies[j];
      ReplaceEachIsPartial(t, init, vars);
      assert Elements(bodies) == done + {b};
      assert Lookup(vars, b) != "" ==> Calm(t, done, b, vars);
      hide Calm, Elements, IsBody, Dots, NoCapture, Partial, Bodies;
      var v := Lookup(vars, b);
      if v == "" || v == Tok(b) {
        PartialIgnores(t, done, b, vars);
        ReplaceBySame(ReplaceEach(t, init, vars), Tok(b));
      } else {
        ReplaceOneMore(t, done, b, vars);
      }
    }
  }

  /** In any order, and with any repetition, that covers its tokens. */
  lemma OrderIndependent(t: string, order: seq<string>, vars: Variables)
    requires WellDelimited(t) && NoCapture(vars) && AllDotted(order)
    requires forall b | b in Bodies(t) :: b in order
    ensures ReplaceEach(t, order, vars) == Simultaneous(t, vars)
  {
    forall j | 0 <= j < |order| ensures Calm(t, Elements(order[..j]), order[j], vars) {
      WellDelimitedCalm(t, Elements(order[..j]), order[j], vars);
    }
    ReplaceEachIsPartial(t, order, vars);
    PartialAll(t, Elements(order), vars);
  }

  /******* A capture makes them differ *******/

  lemma PlainHead(x: string, vars: Variables)
    requires x != "" && x[0] != '$'
    ensures Bodies(x) == Bodies(x[1..]) && (WellDelimited(x) <==> WellDelimited(x[1..]))
    ensures Simultaneous(x, vars) == [x[0]] + Simultaneous(x[1..], vars)
  {
    assert TokenLength(x) == 0;
  }

  lemma {:induction false} PlainPrefix(x: string, rest: string, vars: Variables)
    requires '$' !in x
    ensures Bodies(x + rest) == Bodies(rest)
    ensures WellDelimited(x + rest) <==> WellDelimited(rest)
    ensures Simultaneous(x + rest, vars) == x + Simultaneous(rest, vars)
  {
    hide Bodies, WellDelimited, Simultaneous;
    if x == "" {
      assert x + rest == rest;
    } else {
      assert (x + rest)[0] == x[0] && (x + rest)[1..] == x[1..] + rest;
      PlainHead(x + rest, vars);
      PlainPrefix(x[1..], rest, vars);
      assert [x[0]] + (x[1..] + Simultaneous(rest, vars)) == x + Simultaneous(rest, vars);
    }
  }

  lemma TokenFirst(b: string, rest: string, vars: Variables)
    requires IsBody(b)
    ensures Bodies(Tok(b) + rest) == [b] + Bodies(rest)
    ensures WellDelimited(Tok(b) + rest) <==> WellDelimited(rest)
    ensures Simultaneous(Tok(b) + rest, vars)
         == (if Lookup(vars, b) == "" then Tok(b) else Lookup(vars, b)) + Simultaneous(rest, vars)
  {
    TokenHead(b, rest);
    assert Body(Tok(b)) == b;
  }

  lemma NothingSubstituted(vars: Variables)
    ensures Bodies("") == [] && WellDelimited("") && Simultaneous("", vars) == ""
  {
  }

  /** Two tokens with dollar-free text between them. */
  lemma TwoTokens(k: string, rest: string, k2: string, vars: Variables)
    requires Usable(vars, k) && Usable(vars, k2) && '$' !in rest
    ensures var t := Tok(k) + (rest + Tok(k2));
            && Bodies(t) == [k, k2] && WellDelimited(t)
            && Simultaneous(t, vars) == Lookup(vars, k) + (rest + Lookup(vars, k2))
  {
    NothingSubstituted(vars);
    hide Bodies, WellDelimited, Simultaneous, IsBody, Dots;
    TokenFirst(k, rest + Tok(k2), vars);
    PlainPrefix(rest, Tok(k2), vars);
    TokenFirst(k2, "", vars);
    assert Tok(k2) + "" == Tok(k2) && Lookup(vars, k2) + "" == Lookup(vars, k2);
  }

  lemma PlainSkipped(x: string, b: string, v: string, rest: string)
    requires '$' !in x
    ensures ReplaceAll(x + rest, Tok(b), v) == x + ReplaceAll(rest, Tok(b), v)
  {
    forall i | 0 <= i < |x| ensures !(Tok(b) <= x[i..] + rest) {
      assert (x[i..] + rest)[0] == x[i] && Tok(b)[0] == '$';
    }
    ReplaceSkips(x, rest, Tok(b), v);
  }

  /** Its first character occurs nowhere else in the text. */
  ghost predicate HeadUnique(p: string) {
    p != "" && forall i | 1 <= i < |p| :: p[i] != p[0]
  }

  lemma TokenHeadUnique(b: string)
    requires IsBody(b)
    ensures HeadUnique(Tok(b))
  {
    TokenShape(b);
    assert forall i | 1 <= i < |Tok(b)| :: Tok(b)[i] == Tok(b)[1..][i - 1];
  }

  /** No occurrence of such a text can straddle the start of another one. */
  lemma NoStraddle(x: string, p: string)
    requires HeadUnique(p) && x != ""
    ensures p <= x + p <==> p <= x
  {
    var s, n := x + p, |p|;
    assert |x| < n ==> s[|x|] == p[0] && p[|x|] != p[0];
    if n <= |x| {
      assert s[..n] == x[..n];
    }
  }

  /** At the end of a text it is replaced on its own. */
  lemma {:induction false} LastReplaced(x: string, p: string, v: string)
    requires HeadUnique(p)
    ensures ReplaceAll(x + p, p, v) == ReplaceAll(x, p, v) + v
  {
    hide ReplaceAll;
    var s := x + p;
    if x == "" {
      assert s == p + "";
      ReplaceHead("", p, v);
      ReplaceEmpty(p, v);
    } else {
      NoStraddle(x, p);
      hide HeadUnique;
      ReplaceStep(s, p, v);
      ReplaceStep(x, p, v);
      if p <= x {
        assert s[|p|..] == x[|p|..] + p;
        LastReplaced(x[|p|..], p, v);
        assert v + (ReplaceAll(x[|p|..], p, v) + v) == v + ReplaceAll(x[|p|..], p, v) + v;
      } else {
        assert s[1..] == x[1..] + p && s[0] == x[0];
        LastReplaced(x[1..], p, v);
        assert [x[0]] + (ReplaceAll(x[1..], p, v) + v) == [x[0]] + ReplaceAll(x[1..], p, v) + v;
      }
    }
  }

  lemma LastTokenReplaced(x: string, b: string, v: string)
    requires IsBody(b)
    ensures ReplaceAll(x + Tok(b), Tok(b), v) == ReplaceAll(x, Tok(b), v) + v
  {
    TokenHeadUnique(b);
    LastReplaced(x, Tok(b), v);
  }

  lemma LoneToken(b: string, v: string)
    ensures ReplaceAll(Tok(b), Tok(b), v) == v
  {
    ReplaceHead("", Tok(b), v);
    assert Tok(b) + "" == Tok(b);
  }

  /** The first round of replacement in the template of TwoTokens. */
  lemma FirstRound(k: string, rest: string, k2: string, v: string)
    requires IsBody(k) && IsBody(k2) && '$' !in rest
    ensures ReplaceAll(Tok(k) + (rest + Tok(k2)), Tok(k), v) == (v + rest) + (if k == k2 then v else Tok(k2))
  {
    hide ReplaceAll, IsBody;
    ReplaceHead(rest + Tok(k2), Tok(k), v);
    PlainSkipped(rest, k, v, Tok(k2));
    if k == k2 {
      LoneToken(k, v);
    } else {
      OtherTokenKept(k2, k, v);
    }
  }

  lemma OtherTokenKept(c: string, b: string, v: string)
    requires IsBody(b) && IsBody(c) && b != c
    ensures ReplaceAll(Tok(c), Tok(b), v) == Tok(c)
  {
    TokenSkipped(c, b, v, "");
    assert Tok(c) + "" == Tok(c);
  }

  lemma ReplaceTwo(t: string, k: string, k2: string, vars: Variables)
    requires Lookup(vars, k) != "" && Lookup(vars, k2) != ""
    ensures ReplaceEach(t, [k, k2], vars)
         == ReplaceAll(ReplaceAll(t, Tok(k), Lookup(vars, k)), Tok(k2), Lookup(vars, k2))
  {
    hide ReplaceAll;
    assert [k, k2][..1] == [k] && [k][..0] == [];
    assert ReplaceEach(t, [], vars) == t;
    assert ReplaceEach(t, [k], vars) == ReplaceAll(t, Tok(k), Lookup(vars, k));
  }

  lemma ContainsExtended(x: string, y: string, t: string)
    requires Contains(x, t)
    ensures Contains(x + y, t)
  {
    var i :| 0 <= i <= |x| && OccursAt(x, t, i);
    assert (x + y)[i..i + |t|] == x[i..i + |t|];
    assert OccursAt(x + y, t, i);
  }

  /** The second round goes wrong once the text left of the second token holds that token. */
  lemma SecondRound(vars: Variables, k: string, rest: string, k2: string)
    requires Usable(vars, k) && Usable(vars, k2) && Lookup(vars, k2) != Tok(k2)
    requires '$' !in rest && Contains(Lookup(vars, k) + rest, Tok(k2))
    ensures var t := Tok(k) + (rest + Tok(k2)); ReplaceEach(t, [k, k2], vars) != Simultaneous(t, vars)
  {
    hide ReplaceAll, Simultaneous, ReplaceEach, Contains;
    var t, v, v2 := Tok(k) + (rest + Tok(k2)), Lookup(vars, k), Lookup(vars, k2);
    var x := v + rest;
    TwoTokens(k, rest, k2, vars);
    ReplaceTwo(t, k, k2, vars);
    FirstRound(k, rest, k2, v);
    assert Simultaneous(t, vars) == x + v2;
    if k == k2 {
      ContainsExtended(x, v, Tok(k2));
      ReplaceIdentityIff(x + v, Tok(k2), v2);
    } else {
      LastTokenReplaced(x, k2, v2);
      ReplaceIdentityIff(x, Tok(k2), v2);
      SuffixCancels(ReplaceAll(x, Tok(k2), v2), x, v2);
    }
  }

  lemma SuffixCancels(x: string, y: string, v: string)
    ensures x + v == y + v ==> x == y
  {
    if x + v == y + v {
      assert |x| == |y| && x == (x + v)[..|x|] && y == (y + v)[..|y|];
    }
  }

  /** What has to follow `w` for `p` to be there, when the two are comparable. */
  function Completion(w: string, p: string): string {
    if |p| <= |w| then "" else p[|w|..]
  }

  lemma CompletionOccurs(v: string, j: nat, p: string)
    requires j < |v| && Comparable(v[j..], p)
    ensures Contains(v + Completion(v[j..], p), p)
    ensures forall c | c in Completion(v[j..], p) :: c in p[1..]
  {
    var w, x := v[j..], v + Completion(v[j..], p);
    if |p| <= |w| {
      assert x[j..j + |p|] == w[..|p|];
    } else {
      assert x[j..j + |p|] == w + p[|w|..] == p;
      assert p[|w|..] == p[1..][|w| - 1..];
    }
    assert OccursAt(x, p, j);
  }

  lemma CaptureBreaks(vars: Variables, k: string, j: int, k2: string) returns (t: string)
    requires CapturesAt(vars, k, j, k2)
    ensures WellDelimited(t) && !Malformed(t) && ReplaceEach(t, Bodies(t), vars) != Simultaneous(t, vars)
  {
    var rest := Completion(Lookup(vars, k)[j..], Tok(k2));
    TokenShape(k2);
    CompletionOccurs(Lookup(vars, k), j, Tok(k2));
    hide ReplaceEach, Simultaneous, Bodies, WellDelimited, Contains, IsBody, Dots, Completion;
    t := Tok(k) + (rest + Tok(k2));
    TwoTokens(k, rest, k2, vars);
    SecondRound(vars, k, rest, k2);
  }

  /******* Main results *******/

  /** No value of a map without `$` captures anything. */
  lemma DollarFreeNoCapture(vars: Variables)
    requires forall k | k in vars :: '$' !in vars[k]
    ensures NoCapture(vars)
  {
    forall k, j, k2 ensures !CapturesAt(vars, k, j, k2) {
      var v := Lookup(vars, k);
      assert 0 <= j < |v| ==> v[j..][0] == v[j] && v[j] in v;
      assert Tok(k2)[0] == '$';
    }
  }

  lemma WellFormedBodies(t: string)
    requires !Malformed(t)
    ensures AllDotted(Bodies(t))
  {
    ParamsAreTokens(t);
  }

  /**
   Sequential replacement is simultaneous substitution on every template whose dollars all open
   tokens exactly when no value holds, or can be completed to, a token that is itself replaced.
   */
  lemma SequentialIsSimultaneousIff(vars: Variables)
    ensures NoCapture(vars) <==>
            forall t | WellDelimited(t) && !Malformed(t) :: ReplaceEach(t, Bodies(t), vars) == Simultaneous(t, vars)
  {
    if NoCapture(vars) {
      forall t | WellDelimited(t) && !Malformed(t)
        ensures ReplaceEach(t, Bodies(t), vars) == Simultaneous(t, vars)
      {
        WellFormedBodies(t);
        OrderIndependent(t, Bodies(t), vars);
      }
    }
    if k, j, k2 :| CapturesAt(vars, k, j, k2) {
      var t := CaptureBreaks(vars, k, j, k2);
    }
  }

  lemma {:induction false} SubstitutedTwice(t: string, vars: Variables)
    requires WellDelimited(t) && AllDotted(Bodies(t))
    requires forall k | k in vars :: '$' !in vars[k]
    ensures var r := Simultaneous(t, vars); WellDelimited(r) && AllDotted(Bodies(r)) && Simultaneous(r, vars) == r
    ensures forall b | b in Bodies(Simultaneous(t, vars)) :: Lookup(vars, b) == ""
  {
    if t != "" {
      var n := TokenLength(t);
      if n > 0 {
        TokenAtHead(t);
        var c := Body(t[..n]);
        assert Bodies(t) == [c] + Bodies(t[n..]);
        SubstitutedTwice(t[n..], vars);
        var rest := Simultaneous(t[n..], vars);
        if Lookup(vars, c) == "" {
          TokenFirst(c, rest, vars);
        } else {
          PlainPrefix(Lookup(vars, c), rest, vars);
        }
      } else {
        SubstitutedTwice(t[1..], vars);
        PlainPrefix([t[0]], Simultaneous(t[1..], vars), vars);
      }
    }
  }

  /** With dollar-free values interpolating the result once more changes nothing and cannot fail. */
  lemma Idempotent(t: string, vars: Variables)
    requires WellDelimited(t) && !Malformed(t)
    requires forall k | k in vars :: '$' !in vars[k]
    ensures var r := ReplaceEach(t, Bodies(t), vars); !Malformed(r) && ReplaceEach(r, Bodies(r), vars) == r
  {
    DollarFreeNoCapture(vars);
    WellFormedBodies(t);
    OrderIndependent(t, Bodies(t), vars);
    SubstitutedTwice(t, vars);
    var r := Simultaneous(t, vars);
    OrderIndependent(r, Bodies(r), vars);
  }

  lemma StrayDollarScan(tail: string, vars: Variables)
    requires tail != "" && tail[0] == '$'
    ensures var t := "$" + tail;
            && Bodies(t) == Bodies(tail) && !WellDelimited(t)
            && Simultaneous(t, vars) == "$" + Simultaneous(tail, vars)
            && forall b, v :: ReplaceAll(t, Tok(b), v) == "$" + ReplaceAll(tail, Tok(b), v)
  {
    var t := "$" + tail;
    assert t[0] == '$' && t[1] == '$' && t[1..] == tail && TokenLength(t) == 0;
    forall b, v ensures ReplaceAll(t, Tok(b), v) == "$" + ReplaceAll(tail, Tok(b), v) {
      assert Tok(b)[1] == '{';
      assert !(Tok(b) <= t);
    }
  }

  /**
   A stray dollar breaks the agreement even where values are dollar-free: put before a token whose
   value is another token's braces, it makes that other token appear, and be replaced, twice.
   */
  lemma StrayDollarBreaks(a: string, c: string, vars: Variables)
    requires Usable(vars, a) && Usable(vars, c) && a != c && Lookup(vars, a) == "{" + c + "}"
    ensures var t := "$" + (Tok(a) + ("" + Tok(c)));
            && !WellDelimited(t) && Bodies(t) == [a, c]
            && ReplaceEach(t, Bodies(t), vars) == Lookup(vars, c) + Lookup(vars, c)
            && Simultaneous(t, vars) == Tok(c) + Lookup(vars, c)
  {
    hide ReplaceAll, Simultaneous, ReplaceEach, Bodies, WellDelimited, IsBody, Dots;
    var tail := Tok(a) + ("" + Tok(c));
    var t, v := "$" + tail, Lookup(vars, c);
    StrayDollarScan(tail, vars);
    TwoTokens(a, "", c, vars);
    ReplaceTwo(t, a, c, vars);
    FirstRound(a, "", c, "{" + c + "}");
    assert "$" + ((Lookup(vars, a) + "") + Tok(c)) == Tok(c) + Tok(c);
    LastTokenReplaced(Tok(c), c, v);
    LoneToken(c, v);
    assert "$" + (Lookup(vars, a) + ("" + v)) == Tok(c) + v;
  }
}
