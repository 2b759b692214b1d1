/** Matching of the regular expressions that the code uses, by their textbook meaning. */
module Regex {

  datatype Re = Class(chars: char -> bool) | Cat(first: Re, second: Re) | Star(body: Re)

  ghost predicate Matches(r: Re, s: string)
    decreases r, |s|
  {
    match r
    case Class(chars) => |s| == 1 && chars(s[0])
    case Cat(a, b) => exists k | 0 <= k <= |s| :: Matches(a, s[..k]) && Matches(b, s[k..])
    case Star(a) => s == "" || exists k | 0 < k <= |s| :: Matches(a, s[..k]) && Matches(r, s[k..])
  }

  function Plus(r: Re): Re {
    Cat(r, Star(r))
  }

  function Literal(c: char): Re {
    Class(x => x == c)
  }

  predicate IsLetter(c: char) {
    'a' <= c <= 'z' || 'A' <= c <= 'Z'
  }

  predicate IsDigit(c: char) {
    '0' <= c <= '9'
  }

  predicate IsAlphanumeric(c: char) {
    IsLetter(c) || IsDigit(c)
  }

  lemma CatIntro(a: Re, b: Re, x: string, y: string)
    requires Matches(a, x) && Matches(b, y)
    ensures Matches(Cat(a, b), x + y)
  {
    assert (x + y)[..|x|] == x && (x + y)[|x|..] == y;
  }

  lemma CatElim(a: Re, b: Re, s: string) returns (k: nat)
    requires Matches(Cat(a, b), s)
    ensures k <= |s| && Matches(a, s[..k]) && Matches(b, s[k..])
  {
    k :| 0 <= k <= |s| && Matches(a, s[..k]) && Matches(b, s[k..]);
  }

  lemma {:induction false} StarClass(chars: char -> bool, s: string)
    ensures Matches(Star(Class(chars)), s) <==> forall i | 0 <= i < |s| :: chars(s[i])
  {
    if s != "" {
      StarClass(chars, s[1..]);
      if Matches(Star(Class(chars)), s) {
        var k :| 0 < k <= |s| && Matches(Class(chars), s[..k]) && Matches(Star(Class(chars)), s[k..]);
        assert k == 1 && s[0] == s[..1][0];
        assert forall i | 1 <= i < |s| :: s[i] == s[1..][i - 1];
      }
      if forall i | 0 <= i < |s| :: chars(s[i]) {
        assert Matches(Class(chars), s[..1]);
      }
    }
  }

  lemma PlusClass(chars: char -> bool, s: string)
    ensures Matches(Plus(Class(chars)), s) <==> s != "" && forall i | 0 <= i < |s| :: chars(s[i])
  {
    if Matches(Plus(Class(chars)), s) {
      var k :| 0 <= k <= |s| && Matches(Class(chars), s[..k]) && Matches(Star(Class(chars)), s[k..]);
      StarClass(chars, s[k..]);
      assert k == 1 && s[0] == s[..1][0];
      assert forall i | 1 <= i < |s| :: s[i] == s[1..][i - 1];
    }
    if s != "" && forall i | 0 <= i < |s| :: chars(s[i]) {
      StarClass(chars, s[1..]);
      assert Matches(Class(chars), s[..1]);
    }
  }
}
