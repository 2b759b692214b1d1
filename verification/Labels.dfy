/** Name checks shared by the validators (il-operator/controller/validator/common.go). */
module Labels {
  import opened Regex

  const MAX_FIELD_LENGTH := 63

  const LETTER := Class(c => IsLetter(c))
  const ALPHANUMERIC := Class(c => IsAlphanumeric(c))
  const SEGMENT := Cat(Literal('-'), Plus(ALPHANUMERIC))

  /** ^[a-zA-Z]+[a-zA-Z0-9]*(-[a-zA-Z0-9]+)*$ */
  const NAME_REGEX := Cat(Plus(LETTER), Cat(Star(ALPHANUMERIC), Star(SEGMENT)))

  /** Letters, digits and single inner hyphens, starting with a letter. */
  predicate IsLabel(s: string) {
    s != "" && IsLetter(s[0]) && LabelTail(s)
  }

  predicate LabelTail(s: string) {
    && (forall i | 0 <= i < |s| :: IsAlphanumeric(s[i]) || s[i] == '-')
    && (forall i | 0 <= i < |s| - 1 :: !(s[i] == '-' && s[i + 1] == '-'))
    && (s != "" ==> s[|s| - 1] != '-')
  }

  predicate ValidName(s: string) {
    IsLabel(s) && |s| <= MAX_FIELD_LENGTH
  }

  /** The length of the leading alphanumeric run after position `from`. */
  function RunEnd(s: string, from: nat): (k: nat)
    requires from <= |s|
    ensures from <= k <= |s|
    ensures forall i | from <= i < k :: IsAlphanumeric(s[i])
    ensures k < |s| ==> !IsAlphanumeric(s[k])
    decreases |s| - from
  {
    if from < |s| && IsAlphanumeric(s[from]) then RunEnd(s, from + 1) else from
  }

  lemma SegmentIff(s: string)
    ensures Matches(SEGMENT, s) <==>
            |s| >= 2 && s[0] == '-' && forall i | 1 <= i < |s| :: IsAlphanumeric(s[i])
  {
    if Matches(SEGMENT, s) {
      var k :| 0 <= k <= |s| && Matches(Literal('-'), s[..k]) && Matches(Plus(ALPHANUMERIC), s[k..]);
      assert k == 1 && s[..1][0] == s[0];
      PlusClass(c => IsAlphanumeric(c), s[1..]);
      assert forall i | 1 <= i < |s| :: s[i] == s[1..][i - 1];
    }
    if |s| >= 2 && s[0] == '-' && forall i | 1 <= i < |s| :: IsAlphanumeric(s[i]) {
      PlusClass(c => IsAlphanumeric(c), s[1..]);
      assert Matches(Literal('-'), s[..1]);
    }
  }

  lemma SegmentThenTail(s: string, k: nat)
    requires 0 < k <= |s| && Matches(SEGMENT, s[..k]) && (s[k..] == "" || (s[k] == '-' && LabelTail(s[k..])))
    ensures s[0] == '-' && LabelTail(s)
  {
    SegmentIff(s[..k]);
    hide Matches;
    assert forall i | 0 <= i < |s| :: s[i] == if i < k then s[..k][i] else s[k..][i - k];
    assert s[0] == '-' && forall i | 1 <= i < k :: IsAlphanumeric(s[i]);
  }

  lemma TailHasSegment(s: string) returns (k: nat)
    requires s != "" && s[0] == '-' && LabelTail(s)
    ensures 0 < k <= |s| && Matches(SEGMENT, s[..k])
    ensures s[k..] == "" || (s[k] == '-' && LabelTail(s[k..]))
  {
    hide Matches;
    k := RunEnd(s, 1);
    assert s[1] != '-';
    assert forall i | 0 <= i < k :: s[..k][i] == s[i];
    SegmentIff(s[..k]);
    assert forall i | 0 <= i < |s[k..]| :: s[k..][i] == s[k + i];
  }

  lemma {:induction false} SegmentsIff(s: string)
    ensures Matches(Star(SEGMENT), s) <==> s == "" || (s[0] == '-' && LabelTail(s))
    decreases |s|
  {
    hide LabelTail;
    if s != "" && Matches(Star(SEGMENT), s) {
      var k :| 0 < k <= |s| && Matches(SEGMENT, s[..k]) && Matches(Star(SEGMENT), s[k..]);
      SegmentsIff(s[k..]);
      SegmentThenTail(s, k);
    }
    if s != "" && s[0] == '-' && LabelTail(s) {
      var k := TailHasSegment(s);
      SegmentsIff(s[k..]);
    }
  }

  lemma PartsFormLabel(x: string, y: string, z: string)
    requires x != "" && forall i | 0 <= i < |x| :: IsLetter(x[i])
    requires forall i | 0 <= i < |y| :: IsAlphanumeric(y[i])
    requires z == "" || (z[0] == '-' && LabelTail(z))
    ensures IsLabel(x + y + z)
  {
    var s := x + y + z;
    var n := |x + y|;
    assert forall i | 0 <= i < n :: IsAlphanumeric((x + y)[i]);
    assert forall i | 0 <= i < n :: s[i] == (x + y)[i];
    assert forall i | n <= i < |s| :: s[i] == z[i - n];
  }

  lemma MatchedIsLabel(s: string)
    requires Matches(NAME_REGEX, s)
    ensures IsLabel(s)
  {
    hide Matches, LabelTail;
    var k := CatElim(Plus(LETTER), Cat(Star(ALPHANUMERIC), Star(SEGMENT)), s);
    var t := s[k..];
    var m := CatElim(Star(ALPHANUMERIC), Star(SEGMENT), t);
    PlusClass(c => IsLetter(c), s[..k]);
    StarClass(c => IsAlphanumeric(c), t[..m]);
    SegmentsIff(t[m..]);
    PartsFormLabel(s[..k], t[..m], t[m..]);
    assert s == s[..k] + t[..m] + t[m..];
  }

  lemma LabelTailSuffix(s: string, k: nat)
    requires LabelTail(s) && k <= |s|
    ensures LabelTail(s[k..])
  {
    assert forall i | 0 <= i < |s[k..]| :: s[k..][i] == s[k + i];
  }

  lemma LabelIsMatched(s: string)
    requires IsLabel(s)
    ensures Matches(NAME_REGEX, s)
  {
    var k := RunEnd(s, 1);
    var x, y, z := s[..1], s[1..k], s[k..];
    PlusClass(c => IsLetter(c), x);
    StarClass(c => IsAlphanumeric(c), y);
    LabelTailSuffix(s, k);
    SegmentsIff(z);
    hide Matches, LabelTail;
    CatIntro(Star(ALPHANUMERIC), Star(SEGMENT), y, z);
    CatIntro(Plus(LETTER), Cat(Star(ALPHANUMERIC), Star(SEGMENT)), x, y + z);
    assert x + (y + z) == s;
  }

  /** The regular expression accepts exactly the labels without leading, trailing or adjacent hyphens. */
  lemma NameRegexIff(s: string)
    ensures Matches(NAME_REGEX, s) <==> IsLabel(s)
  {
    if Matches(NAME_REGEX, s) {
      MatchedIsLabel(s);
    }
    if IsLabel(s) {
      LabelIsMatched(s);
    }
  }

  /** A valid name is free of the separators used in dependency references and secret paths. */
  lemma LabelHasNoSeparator(s: string)
    requires Matches(NAME_REGEX, s)
    ensures '/' !in s && '.' !in s && ':' !in s && '$' !in s
  {
    NameRegexIff(s);
  }
}
