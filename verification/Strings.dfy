/** The string operations of Go's `strings` package that the modelled code calls. */
module Strings {

  /** strings.Index for a single character: the first position, or -1. */
  function Index(s: string, c: char): (r: int)
    ensures r == -1 <==> c !in s
    ensures r != -1 ==> 0 <= r < |s| && s[r] == c && c !in s[..r]
  {
    if s == "" then -1
    else if s[0] == c then 0
    else
      var r := Index(s[1..], c);
      assert s == [s[0]] + s[1..];
      if r == -1 then -1 else
      assert s[..r + 1] == [s[0]] + s[1..][..r];
      r + 1
  }

  lemma {:induction false} IndexLeast(s: string, c: char, k: nat)
    requires k < |s| && s[k] == c
    ensures 0 <= Index(s, c) <= k
  {
    if k > 0 && s[0] != c {
      IndexLeast(s[1..], c, k - 1);
    }
  }

  lemma IndexOfFirst(a: string, c: char, b: string)
    requires c !in a
    ensures Index(a + [c] + b, c) == |a|
  {
    var s := a + [c] + b;
    IndexLeast(s, c, |a|);
    assert forall i | 0 <= i < |a| :: s[i] == a[i];
  }

  /** strings.Split for a one-character separator. */
  function Split(s: string, sep: char): (parts: seq<string>)
    ensures |parts| >= 1
  {
    if s == "" then [""]
    else
      var rest := Split(s[1..], sep);
      if s[0] == sep then [""] + rest
      else [[s[0]] + rest[0]] + rest[1..]
  }

  function Join(parts: seq<string>, sep: char): string {
    if parts == [] then ""
    else if |parts| == 1 then parts[0]
    else parts[0] + [sep] + Join(parts[1..], sep)
  }

  lemma {:induction false} JoinOfSplit(s: string, sep: char)
    ensures Join(Split(s, sep), sep) == s
    ensures forall p | p in Split(s, sep) :: sep !in p
  {
    if s != "" {
      JoinOfSplit(s[1..], sep);
      var rest := Split(s[1..], sep);
      if s[0] == sep {
        assert (["" ] + rest)[1..] == rest;
        assert Join([""] + rest, sep) == "" + [sep] + Join(rest, sep);
      } else {
        var parts := [[s[0]] + rest[0]] + rest[1..];
        assert parts[1..] == rest[1..];
        assert Join(parts, sep) == [s[0]] + Join(rest, sep);
        assert forall p | p in rest[1..] :: p in rest;
      }
    }
  }

  lemma {:induction false} SplitOfJoin(parts: seq<string>, sep: char)
    requires |parts| >= 1 && forall p | p in parts :: sep !in p
    ensures Split(Join(parts, sep), sep) == parts
  {
    if |parts| == 1 {
      SplitFree(parts[0], sep);
      assert parts == [parts[0]];
    } else {
      SplitOfJoin(parts[1..], sep);
      SplitFirst(parts[0], Join(parts[1..], sep), sep);
      assert parts[0] + [sep] + Join(parts[1..], sep) == Join(parts, sep);
    }
  }

  lemma {:induction false} SplitFree(s: string, sep: char)
    requires sep !in s
    ensures Split(s, sep) == [s]
  {
    if s != "" {
      SplitFree(s[1..], sep);
      assert [s[0]] + s[1..] == s;
    }
  }

  lemma {:induction false} SplitFirst(a: string, b: string, sep: char)
    requires sep !in a
    ensures Split(a + [sep] + b, sep) == [a] + Split(b, sep)
  {
    var s := a + [sep] + b;
    if a == "" {
      assert s[1..] == b;
    } else {
      SplitFirst(a[1..], b, sep);
      assert s[1..] == a[1..] + [sep] + b;
      assert [a[0]] + a[1..] == a;
    }
  }

  /** One unfolding, for proofs that hide the definition. */
  lemma SplitStep(s: string, sep: char)
    ensures Split("", sep) == [""]
    ensures s != "" && s[0] == sep ==> Split(s, sep) == [""] + Split(s[1..], sep)
    ensures s != "" && s[0] != sep ==>
              Split(s, sep) == [[s[0]] + Split(s[1..], sep)[0]] + Split(s[1..], sep)[1..]
  {
  }

  lemma {:induction false} SplitAppend(a: string, b: string, sep: char)
    ensures Split(a + [sep] + b, sep) == Split(a, sep) + Split(b, sep)
  {
    var s := a + [sep] + b;
    SplitStep(a, sep);
    SplitStep(s, sep);
    hide Split;
    if a == "" {
      assert s[0] == sep && s[1..] == b;
    } else {
      assert s[0] == a[0] && s[1..] == a[1..] + [sep] + b;
      SplitAppend(a[1..], b, sep);
      var rest, more := Split(a[1..], sep), Split(b, sep);
      assert (rest + more)[1..] == rest[1..] + more && (rest + more)[0] == rest[0];
    }
  }

  lemma {:induction false} JoinAppend(a: seq<string>, b: seq<string>, sep: char)
    requires a != [] && b != []
    ensures Join(a + b, sep) == Join(a, sep) + [sep] + Join(b, sep)
  {
    if |a| == 1 {
      assert a + b == [a[0]] + b && ([a[0]] + b)[1..] == b;
    } else {
      assert (a + b)[1..] == a[1..] + b;
      JoinAppend(a[1..], b, sep);
    }
  }

  /** The pieces of all the parts. */
  function SplitAll(parts: seq<string>, sep: char): seq<string> {
    if parts == [] then [] else Split(parts[0], sep) + SplitAll(parts[1..], sep)
  }

  lemma {:induction false} SplitOfAnyJoin(parts: seq<string>, sep: char)
    requires parts != []
    ensures Split(Join(parts, sep), sep) == SplitAll(parts, sep)
  {
    if |parts| > 1 {
      SplitOfAnyJoin(parts[1..], sep);
      SplitAppend(parts[0], Join(parts[1..], sep), sep);
    }
  }

  lemma {:induction false} SplitAllFree(parts: seq<string>, rest: seq<string>, sep: char)
    requires forall p | p in parts :: sep !in p
    ensures SplitAll(parts + rest, sep) == parts + SplitAll(rest, sep)
  {
    if parts == [] {
      assert parts + rest == rest;
    } else {
      SplitFree(parts[0], sep);
      SplitAllFree(parts[1..], rest, sep);
      assert (parts + rest)[1..] == parts[1..] + rest;
    }
  }

  predicate HasSuffix(s: string, suffix: string) {
    |s| >= |suffix| && s[|s| - |suffix|..] == suffix
  }

  function TrimSuffix(s: string, suffix: string): string {
    if HasSuffix(s, suffix) then s[..|s| - |suffix|] else s
  }

  function TrimPrefix(s: string, prefix: string): string {
    if prefix <= s then s[|prefix|..] else s
  }

  /** `t` occurs in `s` at position `i`. */
  predicate OccursAt(s: string, t: string, i: int) {
    0 <= i && i + |t| <= |s| && s[i..i + |t|] == t
  }

  /** strings.Contains */
  predicate Contains(s: string, t: string) {
    exists i | 0 <= i <= |s| :: OccursAt(s, t, i)
  }

  /** strings.ReplaceAll for a non-empty pattern: leftmost matches, none overlapping. */
  function ReplaceAll(s: string, old_: string, new_: string): string
    requires old_ != ""
  {
    if s == "" then ""
    else if old_ <= s then new_ + ReplaceAll(s[|old_|..], old_, new_)
    else [s[0]] + ReplaceAll(s[1..], old_, new_)
  }

  lemma ReplaceEmpty(old_: string, new_: string)
    requires old_ != ""
    ensures ReplaceAll("", old_, new_) == ""
  {
  }

  /** One unfolding, for proofs that hide the definition. */
  lemma ReplaceStep(s: string, old_: string, new_: string)
    requires old_ != "" && s != ""
    ensures ReplaceAll(s, old_, new_) ==
            if old_ <= s then new_ + ReplaceAll(s[|old_|..], old_, new_) else [s[0]] + ReplaceAll(s[1..], old_, new_)
  {
  }

  /** A piece in which no match starts is copied. */
  lemma {:induction false} ReplaceSkips(x: string, rest: string, old_: string, new_: string)
    requires old_ != ""
    requires forall i | 0 <= i < |x| :: !(old_ <= x[i..] + rest)
    ensures ReplaceAll(x + rest, old_, new_) == x + ReplaceAll(rest, old_, new_)
  {
    if x == "" {
      assert x + rest == rest;
    } else {
      assert x[0..] == x;
      assert (x + rest)[1..] == x[1..] + rest;
      forall i | 0 <= i < |x[1..]| ensures !(old_ <= x[1..][i..] + rest) {
        assert x[1..][i..] == x[i + 1..];
      }
      ReplaceSkips(x[1..], rest, old_, new_);
    }
  }

  lemma ReplaceHead(rest: string, old_: string, new_: string)
    requires old_ != ""
    ensures ReplaceAll(old_ + rest, old_, new_) == new_ + ReplaceAll(rest, old_, new_)
  {
    assert (old_ + rest)[|old_|..] == rest;
  }

  lemma ContainsTail(s: string, t: string)
    requires s != ""
    ensures Contains(s, t) <==> t <= s || Contains(s[1..], t)
  {
    if i :| 0 <= i <= |s| && OccursAt(s, t, i) {
      if i > 0 {
        assert s[1..][i - 1..i - 1 + |t|] == s[i..i + |t|];
        assert OccursAt(s[1..], t, i - 1);
      }
    }
    if t <= s {
      assert OccursAt(s, t, 0);
    }
    if i :| 0 <= i <= |s[1..]| && OccursAt(s[1..], t, i) {
      assert s[1..][i..i + |t|] == s[i + 1..i + 1 + |t|];
      assert OccursAt(s, t, i + 1);
    }
  }

  /** Replacing is the identity exactly when there is nothing to replace (or nothing changes by it). */
  lemma {:induction false} ReplaceIdentityIff(s: string, old_: string, new_: string)
    requires old_ != "" && new_ != old_
    ensures ReplaceAll(s, old_, new_) == s <==> !Contains(s, old_)
  {
    if s == "" {
    } else if old_ <= s {
      assert OccursAt(s, old_, 0);
      var replaced := new_ + ReplaceAll(s[|old_|..], old_, new_);
      if |new_| == |old_| {
        assert replaced[..|old_|] == new_ && s[..|old_|] == old_;
      } else {
        ReplaceChangesLength(s, old_, new_);
      }
    } else {
      ContainsTail(s, old_);
      ReplaceIdentityIff(s[1..], old_, new_);
      assert s == [s[0]] + s[1..];
      assert ReplaceAll(s, old_, new_)[1..] == ReplaceAll(s[1..], old_, new_);
    }
  }

  lemma {:induction false} ReplaceLength(s: string, old_: string, new_: string)
    requires old_ != ""
    ensures |new_| >= |old_| ==> |ReplaceAll(s, old_, new_)| >= |s|
    ensures |new_| <= |old_| ==> |ReplaceAll(s, old_, new_)| <= |s|
  {
    if s == "" {
    } else if old_ <= s {
      ReplaceLength(s[|old_|..], old_, new_);
    } else {
      ReplaceLength(s[1..], old_, new_);
    }
  }

  lemma ReplaceChangesLength(s: string, old_: string, new_: string)
    requires old_ != "" && old_ <= s
    ensures |new_| > |old_| ==> |ReplaceAll(s, old_, new_)| > |s|
    ensures |new_| < |old_| ==> |ReplaceAll(s, old_, new_)| < |s|
  {
    ReplaceLength(s[|old_|..], old_, new_);
  }
}
