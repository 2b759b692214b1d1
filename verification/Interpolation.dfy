/**
 `${scope.name}` interpolation (il-operator/controller/util/interpolation.go). The code replaces the
 tokens it finds one after the other in the whole text; it is meant to be a simultaneous substitution.
 */
module Interpolation {
  import opened Types
  import opened Strings
  import opened Regex

  type Variables = map<string, string>

  /** [a-zA-Z1-9]; the digit 0 is not in the class. */
  predicate IsNameChar(c: char) {
    IsLetter(c) || '1' <= c <= '9'
  }

  predicate IsBodyChar(c: char) {
    IsNameChar(c) || c == '.'
  }

  /** (\${[a-zA-Z1-9.]*}) */
  const SUBSTITUTE_REGEX :=
    Cat(Literal('$'), Cat(Literal('{'), Cat(Star(Class(c => IsBodyChar(c))), Literal('}'))))

  predicate IsBody(b: string) {
    forall i | 0 <= i < |b| :: IsBodyChar(b[i])
  }

  function Tok(b: string): string {
    "${" + b + "}"
  }

  ghost predicate IsToken(t: string) {
    exists b :: IsBody(b) && t == Tok(b)
  }

  function BodyEnd(s: string, from: nat): (k: nat)
    requires from <= |s|
    ensures from <= k <= |s| && IsBody(s[from..k])
    ensures k < |s| ==> !IsBodyChar(s[k])
    decreases |s| - from
  {
    if from < |s| && IsBodyChar(s[from]) then BodyEnd(s, from + 1) else from
  }

  /** The length of the token at the head of `s`; 0 when there is none. */
  function TokenLength(s: string): (n: nat)
    ensures n <= |s| && (n > 0 ==> n >= 3)
  {
    if "${" <= s then
      var k := BodyEnd(s, 2);
      if k < |s| && s[k] == '}' then k + 1 else 0
    else 0
  }

  /** FindAllString with the substitute expression: leftmost tokens, none overlapping. */
  function ExtractParams(s: string): seq<string> {
    if s == "" then []
    else
      var n := TokenLength(s);
      if n > 0 then [s[..n]] + ExtractParams(s[n..]) else ExtractParams(s[1..])
  }

  function NameRun(s: string): (k: nat)
    ensures k <= |s|
  {
    if s != "" && IsNameChar(s[0]) then 1 + NameRun(s[1..]) else 0
  }

  /** The length of the greedy match of [a-zA-Z1-9]*\.[a-zA-Z1-9]* at the head of `s`; 0 when there is none. */
  function MatchLength(s: string): (n: nat)
    ensures n <= |s|
  {
    var j := NameRun(s);
    if j < |s| && s[j] == '.' then j + 1 + NameRun(s[j + 1..]) else 0
  }

  /** FindAllString with that expression. */
  function ParamMatches(s: string): seq<string> {
    if s == "" then []
    else
      var n := MatchLength(s);
      if n > 0 then [s[..n]] + ParamMatches(s[n..]) else ParamMatches(s[1..])
  }

  function ExtractParameterName(p: string): Option<string> {
    var param := ParamMatches(p);
    if |param| != 1 then None else Some(param[0])
  }

  /** A Go map read: the zero value for a missing key. */
  function Lookup(vars: Variables, name: string): string {
    if name in vars then vars[name] else ""
  }

  /** Sequential replacement of the tokens with the given bodies. */
  function ReplaceEach(t: string, bodies: seq<string>, vars: Variables): string {
    if bodies == [] then t
    else
      var before := ReplaceEach(t, bodies[..|bodies| - 1], vars);
      var b := bodies[|bodies| - 1];
      if Lookup(vars, b) == "" then before else ReplaceAll(before, Tok(b), Lookup(vars, b))
  }

  function Dots(b: string): nat {
    if b == "" then 0 else (if b[0] == '.' then 1 else 0) + Dots(b[1..])
  }

  function Body(token: string): string
    requires |token| >= 3
  {
    token[2..|token| - 1]
  }

  function Bodies(t: string): seq<string> {
    if t == "" then []
    else
      var n := TokenLength(t);
      if n > 0 then [Body(t[..n])] + Bodies(t[n..]) else Bodies(t[1..])
  }

  /** Some token of the template does not have exactly one dot. */
  ghost predicate Malformed(template: string) {
    exists b :: b in Bodies(template) && Dots(b) != 1
  }

  method Interpolate(template: string, vars: Variables) returns (r: Option<string>)
    ensures r.None? <==> Malformed(template)
    ensures r.Some? ==> r.value == ReplaceEach(template, Bodies(template), vars)
  {
    hide ExtractParams, Bodies, ExtractParameterName, IsBody, ReplaceAll;
    var params := ExtractParams(template);
    var out := template;
    ghost var bodies := Bodies(template);
    ParamsAreTokens(template);
    for i := 0 to |params|
      invariant out == ReplaceEach(template, bodies[..i], vars)
      invariant forall j | 0 <= j < i :: Dots(bodies[j]) == 1
    {
      TokenParameter(bodies[i]);
      var pname := ExtractParameterName(params[i]);
      if pname.None? {
        return None;
      }
      assert bodies[..i + 1][..i] == bodies[..i];
      var pvalue := Lookup(vars, pname.value);
      if pvalue == "" {
        continue;
      }
      out := ReplaceAll(out, params[i], pvalue);
    }
    assert bodies[..|bodies|] == bodies;
    r := Some(out);
  }

  /******* Tokens *******/

  lemma {:induction false} BodyEndAt(s: string, from: nat, k: nat)
    requires from <= k <= |s|
    requires forall i | from <= i < k :: IsBodyChar(s[i])
    requires k < |s| ==> !IsBodyChar(s[k])
    ensures BodyEnd(s, from) == k
    decreases k - from
  {
    if from < k {
      BodyEndAt(s, from + 1, k);
    }
  }

  lemma TokenHead(b: string, rest: string)
    requires IsBody(b)
    ensures TokenLength(Tok(b) + rest) == |Tok(b)|
    ensures (Tok(b) + rest)[..|Tok(b)|] == Tok(b) && (Tok(b) + rest)[|Tok(b)|..] == rest
  {
    var s := Tok(b) + rest;
    assert s[|b| + 2] == '}';
    assert forall i | 0 <= i < |b| :: s[2 + i] == b[i];
    BodyEndAt(s, 2, |b| + 2);
  }

  lemma TokenAtHead(s: string)
    requires TokenLength(s) > 0
    ensures var n := TokenLength(s); IsBody(Body(s[..n])) && s[..n] == Tok(Body(s[..n]))
  {
    var n := TokenLength(s);
    assert Body(s[..n]) == s[2..n - 1];
  }

  /** A token has one `$`, at its start, and one `}`, at its end. */
  lemma TokenShape(b: string)
    requires IsBody(b)
    ensures '$' !in Tok(b)[1..] && '}' !in b
  {
    assert forall i | 1 <= i < |Tok(b)| :: Tok(b)[i] == '{' || Tok(b)[i] == '}' || Tok(b)[i] in b;
  }

  lemma TokenPrefix(b: string, c: string, rest: string)
    requires IsBody(b) && IsBody(c) && Tok(b) <= Tok(c) + rest
    ensures b == c
  {
    TokenHead(c, rest);
    TokenHead(b, (Tok(c) + rest)[|Tok(b)|..]);
    assert Tok(c) + rest == Tok(b) + (Tok(c) + rest)[|Tok(b)|..];
    assert Tok(b) == Tok(c);
    assert b == Body(Tok(b)) && c == Body(Tok(c));
  }

  lemma LiteralIff(c: char)
    ensures forall s :: Matches(Literal(c), s) <==> s == [c]
  {
  }

  lemma PeelLiteral(c: char, r: Re, s: string)
    requires Matches(Cat(Literal(c), r), s)
    ensures s != "" && s == [c] + s[1..] && Matches(r, s[1..])
  {
    var k := CatElim(Literal(c), r, s);
    assert k == 1 && s[0] == s[..1][0] == c;
  }

  lemma BodyThenBrace(u: string) returns (b: string)
    requires Matches(Cat(Star(Class(c => IsBodyChar(c))), Literal('}')), u)
    ensures IsBody(b) && u == b + ['}']
  {
    var k := CatElim(Star(Class(c => IsBodyChar(c))), Literal('}'), u);
    LiteralIff('}');
    StarClass(c => IsBodyChar(c), u[..k]);
    hide Matches;
    b := u[..k];
    assert u == u[..k] + u[k..];
  }

  lemma MatchedIsToken(s: string)
    requires Matches(SUBSTITUTE_REGEX, s)
    ensures IsToken(s)
  {
    hide Matches;
    var inner := Star(Class(c => IsBodyChar(c)));
    PeelLiteral('$', Cat(Literal('{'), Cat(inner, Literal('}'))), s);
    PeelLiteral('{', Cat(inner, Literal('}')), s[1..]);
    var u := s[1..][1..];
    var b := BodyThenBrace(u);
    TokParts(b);
    assert s == ['$'] + (['{'] + u);
  }

  lemma TokParts(b: string)
    ensures Tok(b) == ['$'] + (['{'] + (b + ['}']))
  {
  }

  lemma TokenIsMatched(b: string)
    requires IsBody(b)
    ensures Matches(SUBSTITUTE_REGEX, Tok(b))
  {
    var inner := Star(Class(c => IsBodyChar(c)));
    LiteralIff('$');
    LiteralIff('{');
    LiteralIff('}');
    StarClass(c => IsBodyChar(c), b);
    hide Matches;
    CatIntro(inner, Literal('}'), b, "}");
    CatIntro(Literal('{'), Cat(inner, Literal('}')), "{", b + "}");
    CatIntro(Literal('$'), Cat(Literal('{'), Cat(inner, Literal('}'))), "$", "{" + (b + "}"));
    TokParts(b);
  }

  /** What the scanner takes for a token is what the regular expression matches, and only that. */
  lemma SubstituteRegexIff(s: string)
    ensures Matches(SUBSTITUTE_REGEX, s) <==> IsToken(s)
  {
    if Matches(SUBSTITUTE_REGEX, s) {
      MatchedIsToken(s);
    }
    if b :| IsBody(b) && s == Tok(b) {
      TokenIsMatched(b);
    }
  }

  /** A token can start or end in one way only, so the leftmost match needs no tie-break. */
  lemma TokenLengthIff(s: string, n: nat)
    requires n > 0
    ensures TokenLength(s) == n <==> n <= |s| && IsToken(s[..n])
  {
    if TokenLength(s) == n {
      TokenAtHead(s);
    }
    if n <= |s| && IsToken(s[..n]) {
      var b :| IsBody(b) && s[..n] == Tok(b);
      TokenHead(b, s[n..]);
      assert s == Tok(b) + s[n..];
    }
  }

  lemma {:induction false} ParamsAreTokens(t: string)
    ensures |ExtractParams(t)| == |Bodies(t)|
    ensures forall i | 0 <= i < |Bodies(t)| :: IsBody(Bodies(t)[i]) && ExtractParams(t)[i] == Tok(Bodies(t)[i])
  {
    if t != "" {
      var n := TokenLength(t);
      if n > 0 {
        TokenAtHead(t);
        ParamsAreTokens(t[n..]);
      } else {
        ParamsAreTokens(t[1..]);
      }
    }
  }

  lemma {:induction false} NameRunStops(s: string)
    ensures forall i | 0 <= i < NameRun(s) :: IsNameChar(s[i])
    ensures NameRun(s) < |s| ==> !IsNameChar(s[NameRun(s)])
  {
    if s != "" && IsNameChar(s[0]) {
      NameRunStops(s[1..]);
      assert forall i | 1 <= i < |s| :: s[i] == s[1..][i - 1];
    }
  }

  lemma {:induction false} DotsAppend(a: string, b: string)
    ensures Dots(a + b) == Dots(a) + Dots(b)
  {
    if a == "" {
      assert a + b == b;
    } else {
      DotsAppend(a[1..], b);
      assert (a + b)[1..] == a[1..] + b;
    }
  }

  lemma {:induction false} NoDots(a: string)
    ensures Dots(a) == 0 <==> '.' !in a
  {
    if a != "" {
      NoDots(a[1..]);
      assert a == [a[0]] + a[1..];
    }
  }

  lemma RunLengths(b: string, j: nat)
    requires IsBody(b) && j == NameRun(b + "}")
    ensures j <= |b| && Dots(b[..j]) == 0 && (j < |b| ==> b[j] == '.')
  {
    var u := b + "}";
    NameRunStops(u);
    assert u[|b|] == '}';
    assert forall i | 0 <= i < |b| :: u[i] == b[i];
    NoDots(b[..j]);
  }

  lemma NoMatchAtHead(s: string)
    requires s != "" && MatchLength(s) == 0
    ensures ParamMatches(s) == ParamMatches(s[1..])
  {
  }

  lemma DotsOfThree(b: string, j: nat, k: nat)
    requires j < k <= |b| && b[j] == '.'
    ensures Dots(b) == Dots(b[..j]) + 1 + Dots(b[j + 1..k]) + Dots(b[k..])
  {
    var u := b[j..k];
    assert u[0] == '.' && u[1..] == b[j + 1..k];
    assert Dots(u) == 1 + Dots(u[1..]);
    hide Dots;
    DotsAppend(b[..j], b[j..]);
    DotsAppend(u, b[k..]);
    assert b == b[..j] + b[j..] && b[j..] == u + b[k..];
  }

  lemma DotThenRun(b: string, j: nat, k: nat)
    requires IsBody(b) && j < k <= |b| && b[j] == '.'
    requires Dots(b[..j]) == 0 && Dots(b[j + 1..k]) == 0 && (k < |b| ==> b[k] == '.')
    ensures Dots(b) == 1 + Dots(b[k..]) && (Dots(b) == 1 ==> k == |b|)
  {
    DotsOfThree(b, j, k);
    NoDots(b[k..]);
    hide Dots, IsBody;
    assert k < |b| ==> b[k..][0] == '.';
  }

  /** Where the first dot's match ends within the body. */
  function FirstMatchEnd(b: string, j: nat): nat
    requires j < |b|
  {
    j + 1 + NameRun(b[j + 1..] + "}")
  }

  lemma BodySlices(b: string, j: nat, k: nat)
    requires j < k <= |b|
    ensures var u := b + "}";
            u[j] == b[j] && u[j + 1..] == b[j + 1..] + "}" && u[k..] == b[k..] + "}" && u[..k] == b[..k]
  {
  }

  lemma BodySuffix(b: string, k: nat)
    requires IsBody(b) && k <= |b|
    ensures IsBody(b[k..])
  {
  }

  lemma TwoRuns(b: string, j: nat)
    requires IsBody(b) && j == NameRun(b + "}") && j < |b|
    ensures var k := FirstMatchEnd(b, j);
            && j < k <= |b| && Dots(b[..j]) == 0 && b[j] == '.' && Dots(b[j + 1..k]) == 0
            && (k < |b| ==> b[k] == '.')
  {
    hide NameRun, Dots;
    var k := FirstMatchEnd(b, j);
    BodySuffix(b, j + 1);
    hide IsBody;
    RunLengths(b, j);
    RunLengths(b[j + 1..], k - j - 1);
    assert k < |b| ==> b[j + 1..][k - j - 1] == b[k];
    assert b[j + 1..k] == b[j + 1..][..k - j - 1];
  }

  lemma FirstMatch(b: string, j: nat)
    requires IsBody(b) && j == NameRun(b + "}") && j < |b|
    ensures var k := FirstMatchEnd(b, j);
            && j < k <= |b|
            && MatchLength(b + "}") == k
            && ParamMatches(b + "}") == [b[..k]] + ParamMatches(b[k..] + "}")
            && Dots(b) == 1 + Dots(b[k..]) && (Dots(b) == 1 ==> k == |b|)
  {
    hide NameRun, Dots;
    var k := FirstMatchEnd(b, j);
    TwoRuns(b, j);
    BodySlices(b, j, k);
    assert MatchLength(b + "}") == k;
    hide MatchLength;
    DotThenRun(b, j, k);
  }

  /** The parameter expression finds one match for every dot of a body. */
  lemma {:induction false} BodyMatches(b: string)
    requires IsBody(b)
    ensures |ParamMatches(b + "}")| == Dots(b)
    ensures Dots(b) == 1 ==> ParamMatches(b + "}")[0] == b
    decreases |b|
  {
    var u := b + "}";
    var j := NameRun(u);
    RunLengths(b, j);
    hide NameRun;
    if j < |b| {
      FirstMatch(b, j);
      hide ParamMatches, Dots;
      BodyMatches(b[FirstMatchEnd(b, j)..]);
    } else {
      assert b[..j] == b && u[|b|] == '}';
      NoMatchAtHead(u);
      if b != "" {
        hide ParamMatches, Dots;
        assert u[1..] == b[1..] + "}";
        BodyMatches(b[1..]);
        NoDots(b);
        NoDots(b[1..]);
      }
    }
  }

  /** A token names a parameter exactly when its body has one dot, and then it names its whole body. */
  lemma TokenParameter(b: string)
    requires IsBody(b)
    ensures ExtractParameterName(Tok(b)) == if Dots(b) == 1 then Some(b) else None
  {
    var u := b + "}";
    assert Tok(b)[1..] == "{" + u && ("{" + u)[1..] == u;
    NoMatchAtHead(Tok(b));
    NoMatchAtHead("{" + u);
    hide ParamMatches, NameRun, Dots;
    BodyMatches(b);
  }

  /******* Tokens and refusals, read off the text *******/

  /** Letters, digits other than 0, and dots. */
  predicate BodyText(b: string) {
    forall i | 0 <= i < |b| :: 'a' <= b[i] <= 'z' || 'A' <= b[i] <= 'Z' || '1' <= b[i] <= '9' || b[i] == '.'
  }

  /** The text occurs somewhere. */
  ghost predicate Occurs(t: string, part: string) {
    exists before, after :: t == before + part + after
  }

  lemma BodyIsText(b: string)
    ensures IsBody(b) <==> BodyText(b)
  {
    if BodyText(b) {
      assert forall i | 0 <= i < |b| :: IsBodyChar(b[i]);
    }
    if IsBody(b) {
      forall i | 0 <= i < |b| ensures 'a' <= b[i] <= 'z' || 'A' <= b[i] <= 'Z' || '1' <= b[i] <= '9' || b[i] == '.' {
        assert IsBodyChar(b[i]);
      }
    }
  }

  lemma {:induction false} BodyOccurs(t: string, b: string)
    requires b in Bodies(t)
    ensures IsBody(b) && Occurs(t, Tok(b))
  {
    var n := TokenLength(t);
    if n > 0 {
      TokenAtHead(t);
      var c := Body(t[..n]);
      assert Bodies(t) == [c] + Bodies(t[n..]);
      hide TokenLength, Occurs, Tok, Body;
      if b == c {
        OccursFirst(t, Tok(b), t[n..]);
      } else {
        BodyOccurs(t[n..], b);
        OccursLater(t, t[..n], t[n..], Tok(b));
      }
    } else {
      hide TokenLength, Occurs, Tok;
      BodyOccurs(t[1..], b);
      OccursLater(t, t[..1], t[1..], Tok(b));
    }
  }

  lemma OccursFirst(t: string, part: string, rest: string)
    requires t == part + rest
    ensures Occurs(t, part)
  {
    assert t == "" + part + rest;
  }

  lemma OccursLater(t: string, first: string, rest: string, part: string)
    requires t == first + rest && Occurs(rest, part)
    ensures Occurs(t, part)
  {
    var before, after :| rest == before + part + after;
    assert t == (first + before) + part + after;
  }

  /** A token in the text is met by the scan: no other token can begin before its end. */
  lemma {:induction false} OccurringIsBody(before: string, b: string, after: string)
    requires IsBody(b)
    ensures b in Bodies(before + Tok(b) + after)
    decreases |before|
  {
    var t := before + Tok(b) + after;
    if before == "" {
      assert t == Tok(b) + after;
      TokenHead(b, after);
      assert Body(Tok(b)) == b;
    } else {
      var n := TokenLength(t);
      if n == 0 {
        assert t[1..] == before[1..] + Tok(b) + after;
        OccurringIsBody(before[1..], b, after);
      } else {
        TokenEndsBefore(before, b, after);
        assert t[n..] == before[n..] + Tok(b) + after;
        OccurringIsBody(before[n..], b, after);
      }
    }
  }

  lemma TokenEndsBefore(before: string, b: string, after: string)
    requires before != "" && TokenLength(before + Tok(b) + after) > 0
    ensures TokenLength(before + Tok(b) + after) <= |before|
  {
    var t := before + Tok(b) + after;
    var n := TokenLength(t);
    TokenAtHead(t);
    var c := Body(t[..n]);
    TokenShape(c);
    assert t[|before|] == Tok(b)[0] == '$';
    assert forall k | 1 <= k < n :: t[k] == t[..n][k] == Tok(c)[1..][k - 1];
  }

  /** The tokens that are found are those that occur. */
  lemma FoundIff(t: string, b: string)
    ensures b in Bodies(t) <==> BodyText(b) && Occurs(t, "${" + b + "}")
  {
    BodyIsText(b);
    if b in Bodies(t) {
      BodyOccurs(t, b);
    }
    if BodyText(b) && Occurs(t, Tok(b)) {
      var before, after :| t == before + Tok(b) + after;
      OccurringIsBody(before, b, after);
    }
  }

  predicate OneDot(b: string) {
    exists i | 0 <= i < |b| :: b[i] == '.' && '.' !in b[..i] && '.' !in b[i + 1..]
  }

  lemma OneDotIff(b: string)
    ensures Dots(b) == 1 <==> OneDot(b)
  {
    if i :| 0 <= i < |b| && b[i] == '.' {
      assert b == b[..i] + "." + b[i + 1..];
      DotsAppend(b[..i] + ".", b[i + 1..]);
      DotsAppend(b[..i], ".");
      NoDots(b[..i]);
      NoDots(b[i + 1..]);
      if Dots(b) == 1 {
        LoneDot(b[..i], b[i + 1..]);
      }
    } else {
      NoDots(b);
    }
  }

  lemma LoneDot(a: string, c: string)
    requires Dots(a) == 0 && Dots(c) == 0
    ensures OneDot(a + "." + c)
  {
    NoDots(a);
    NoDots(c);
    var b := a + "." + c;
    assert b[|a|] == '.' && b[..|a|] == a && b[|a| + 1..] == c;
  }

  /** A template is refused exactly when some token in it does not have exactly one dot. */
  lemma RefusedIff(t: string)
    ensures Malformed(t) <==> exists b :: BodyText(b) && Occurs(t, "${" + b + "}") && !OneDot(b)
  {
    forall b ensures b in Bodies(t) && Dots(b) != 1 <==> BodyText(b) && Occurs(t, "${" + b + "}") && !OneDot(b) {
      FoundIff(t, b);
      OneDotIff(b);
    }
  }
}
