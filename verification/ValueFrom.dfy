/**
 References to another component's output: `<component>.<output>` with an optional index, as split
 by the validator (environment_component.go) and by the Terraform generator (codegen/terraform/output.go).
 */
module ValueFrom {
  import opened Types
  import opened Strings
  import opened Regex

  const INT64_MAX := 0x7fff_ffff_ffff_ffff

  function DecimalValue(s: string): int
    requires forall i | 0 <= i < |s| :: IsDigit(s[i])
  {
    if s == "" then 0
    else 10 * DecimalValue(s[..|s| - 1]) + (s[|s| - 1] as int - '0' as int)
  }

  /** strconv.ParseInt(s, 10, 64) succeeds: optional sign, then digits, within 64 bits. */
  predicate IsInt64(s: string) {
    var signed := s != "" && (s[0] == '+' || s[0] == '-');
    var digits := if signed then s[1..] else s;
    && digits != ""
    && (forall i | 0 <= i < |digits| :: IsDigit(digits[i]))
    && DecimalValue(digits) <= INT64_MAX + (if signed && s[0] == '-' then 1 else 0)
  }

  /** Which texts of digits are accepted, without a sign and with one. */
  lemma UnsignedBound(digits: string)
    requires digits != "" && forall i | 0 <= i < |digits| :: '0' <= digits[i] <= '9'
    ensures IsInt64(digits) <==> DecimalValue(digits) <= 9223372036854775807
  {
    assert digits[0] != '+' && digits[0] != '-';
    assert forall i | 0 <= i < |digits| :: IsDigit(digits[i]);
  }

  lemma SignedBound(sign: char, digits: string)
    requires (sign == '+' || sign == '-') && digits != "" && forall i | 0 <= i < |digits| :: '0' <= digits[i] <= '9'
    ensures IsInt64([sign] + digits) <==>
            DecimalValue(digits) <= if sign == '-' then 9223372036854775808 else 9223372036854775807
  {
    var s := [sign] + digits;
    assert s[0] == sign && s[1..] == digits;
    assert forall i | 0 <= i < |digits| :: IsDigit(digits[i]);
  }

  /** Nothing else is: there are only digits after the sign, and at least one. */
  lemma OnlyDigits(s: string)
    requires IsInt64(s)
    ensures var digits := if s[0] == '+' || s[0] == '-' then s[1..] else s;
            digits != "" && forall i | 0 <= i < |digits| :: '0' <= digits[i] <= '9'
  {
    var digits := if s[0] == '+' || s[0] == '-' then s[1..] else s;
    assert forall i | 0 <= i < |digits| :: IsDigit(digits[i]);
  }

  /** Each digit weighs ten times the next. */
  lemma {:induction false} DecimalAppend(a: string, b: string)
    requires (forall i | 0 <= i < |a| :: IsDigit(a[i])) && forall i | 0 <= i < |b| :: IsDigit(b[i])
    ensures forall i | 0 <= i < |a + b| :: IsDigit((a + b)[i])
    ensures DecimalValue(a + b) == DecimalValue(a) * TenTo(|b|) + DecimalValue(b)
  {
    if b == [] {
      assert a + b == a;
    } else {
      var n := |b| - 1;
      var init := b[..n];
      DecimalAppend(a, init);
      DecimalStep(a + init, b[n]);
      DecimalStep(init, b[n]);
      hide DecimalValue;
      assert a + b == a + init + [b[n]] && b == init + [b[n]];
      Shifted(DecimalValue(a), TenTo(n), DecimalValue(init));
    }
  }

  lemma DecimalStep(s: string, c: char)
    requires (forall i | 0 <= i < |s| :: IsDigit(s[i])) && IsDigit(c)
    ensures forall i | 0 <= i < |s + [c]| :: IsDigit((s + [c])[i])
    ensures DecimalValue(s + [c]) == 10 * DecimalValue(s) + (c as int - '0' as int)
  {
    assert (s + [c])[..|s|] == s;
  }

  lemma Shifted(a: int, t: int, b: int)
    ensures 10 * (a * t + b) == a * (10 * t) + 10 * b
  {
  }

  function TenTo(n: nat): nat {
    if n == 0 then 1 else 10 * TenTo(n - 1)
  }

  /** `Panics` is the Go run-time panic of slicing with its bounds the wrong way round. */
  datatype IndexResult = Name(name: string) | BadIndex | IndexPanics

  datatype SplitResult = Reference(component: string, output: string) | Malformed | Panics

  function StripIndex(o: string): IndexResult {
    var left := Index(o, '[');
    if left >= 0 then
      var right := Index(o, ']');
      if right == -1 then BadIndex
      else if right < left + 1 then IndexPanics
      else if !IsInt64(o[left + 1..right]) then BadIndex
      else Name(o[..left])
    else Name(o)
  }

  function SplitValueFrom(vf: string): SplitResult {
    var parts := Split(vf, '.');
    if |parts| != 2 then Malformed
    else
      match StripIndex(parts[1])
      case Name(output) => Reference(parts[0], output)
      case BadIndex => Malformed
      case IndexPanics => Panics
  }

  /** `o` is `name`, or `name` followed by an integer in brackets and possibly more text. */
  ghost predicate IndexedName(o: string, name: string) {
    || (o == name && '[' !in name)
    || exists n, tail :: o == name + "[" + n + "]" + tail && '[' !in name && ']' !in name && ']' !in n && IsInt64(n)
  }

  ghost predicate References(vf: string, component: string, output: string) {
    exists o :: vf == component + "." + o && '.' !in component && '.' !in o && IndexedName(o, output)
  }

  /** A closing bracket comes before the first opening one. */
  ghost predicate BracketsReversed(o: string) {
    exists a, b :: o == a + "[" + b && '[' !in a && ']' in a
  }

  lemma SplitAtDot(vf: string, a: string, b: string)
    requires '.' !in a && '.' !in b
    ensures Split(vf, '.') == [a, b] <==> vf == a + "." + b
  {
    if Split(vf, '.') == [a, b] {
      JoinOfSplit(vf, '.');
      assert [a, b][1..] == [b];
    }
    if vf == a + "." + b {
      SplitFirst(a, b, '.');
      SplitFree(b, '.');
    }
  }

  lemma SplitPartsDotFree(vf: string)
    requires |Split(vf, '.')| == 2
    ensures var p := Split(vf, '.'); '.' !in p[0] && '.' !in p[1] && vf == p[0] + "." + p[1]
  {
    JoinOfSplit(vf, '.');
    var p := Split(vf, '.');
    assert p == [p[0], p[1]] && p[0] in p && p[1] in p;
    SplitAtDot(vf, p[0], p[1]);
  }

  lemma StripFinds(o: string)
    requires StripIndex(o).Name?
    ensures IndexedName(o, StripIndex(o).name)
  {
    hide IsInt64, Index;
    var left := Index(o, '[');
    if left >= 0 {
      var right := Index(o, ']');
      var name, n, tail := o[..left], o[left + 1..right], o[right + 1..];
      assert o == name + "[" + n + "]" + tail;
      assert ']' !in o[..right];
      assert forall i | 0 <= i < left :: name[i] == o[..right][i];
      assert forall i | 0 <= i < |n| :: n[i] == o[..right][left + 1 + i];
    }
  }

  lemma StripBracketed(name: string, n: string, tail: string)
    requires '[' !in name && ']' !in name && ']' !in n && IsInt64(n)
    ensures StripIndex(name + "[" + n + "]" + tail) == Name(name)
  {
    hide IsInt64, Index;
    var o := name + "[" + n + "]" + tail;
    IndexOfFirst(name, '[', n + "]" + tail);
    assert o == name + ['['] + (n + "]" + tail);
    var upTo := name + ['['] + n;
    assert ']' !in upTo;
    IndexOfFirst(upTo, ']', tail);
    assert o == upTo + [']'] + tail;
    assert o[|name| + 1..|upTo|] == n;
    assert o[..|name|] == name;
  }

  lemma StripFindsOnly(o: string, name: string)
    requires IndexedName(o, name)
    ensures StripIndex(o) == Name(name)
  {
    if n, tail :| o == name + "[" + n + "]" + tail && '[' !in name && ']' !in name && ']' !in n && IsInt64(n) {
      StripBracketed(name, n, tail);
    }
  }

  lemma StripPanicsIff(o: string)
    ensures StripIndex(o).IndexPanics? <==> BracketsReversed(o)
  {
    hide IsInt64, Index;
    var left, right := Index(o, '['), Index(o, ']');
    if StripIndex(o).IndexPanics? {
      assert o == o[..left] + "[" + o[left + 1..];
      assert o[..left][right] == ']';
    }
    if a, b :| o == a + "[" + b && '[' !in a && ']' in a {
      IndexOfFirst(a, '[', b);
      assert o == a + ['['] + b;
      var k :| 0 <= k < |a| && a[k] == ']';
      assert o[k] == ']';
      IndexLeast(o, ']', k);
    }
  }

  /** The splitter finds a component and an output exactly when the text has the documented shape. */
  lemma SplitValueFromIff(vf: string, component: string, output: string)
    ensures SplitValueFrom(vf) == Reference(component, output) <==> References(vf, component, output)
  {
    if SplitValueFrom(vf) == Reference(component, output) {
      SplitPartsDotFree(vf);
      StripFinds(Split(vf, '.')[1]);
    }
    if o :| vf == component + "." + o && '.' !in component && '.' !in o && IndexedName(o, output) {
      SplitAtDot(vf, component, o);
      StripFindsOnly(o, output);
    }
  }

  /** It crashes exactly on one-dot texts whose first closing bracket precedes the first opening one. */
  lemma SplitValueFromPanicsIff(vf: string)
    ensures SplitValueFrom(vf).Panics? <==>
            exists c, o :: vf == c + "." + o && '.' !in c && '.' !in o && BracketsReversed(o)
  {
    if SplitValueFrom(vf).Panics? {
      SplitPartsDotFree(vf);
      StripPanicsIff(Split(vf, '.')[1]);
    }
    if c, o :| vf == c + "." + o && '.' !in c && '.' !in o && BracketsReversed(o) {
      SplitAtDot(vf, c, o);
      StripPanicsIff(o);
    }
  }

  /** One such text. */
  lemma ReversedBracketsPanic(v: string)
    requires v == "a.x]y[0]"
    ensures SplitValueFrom(v).Panics?
  {
    hide SplitValueFrom, Split, IsInt64, Index;
    var o := "x]y" + "[" + "0]";
    assert v == "a" + "." + o;
    assert "x]y"[1] == ']';
    assert BracketsReversed(o);
    SplitValueFromPanicsIff(v);
  }

  /******* Use by the Terraform generator *******/

  datatype TfVariable = TfVariable(name: string, value: string)

  function RemoteStateReference(component: string, output: string): string {
    "data.terraform_remote_state." + component + ".outputs." + output
  }

  ghost predicate Standardized(v: Variable, t: TfVariable) {
    && t.name == v.name
    && if v.valueFrom == "" then t.value == v.value
       else exists c, o :: '.' !in c && '.' !in o && v.valueFrom == c + "." + o
                           && t.value == "data.terraform_remote_state." + c + ".outputs." + o
  }

  lemma ReferenceStandardized(v: Variable)
    requires v.valueFrom != "" && |Split(v.valueFrom, '.')| == 2
    ensures var p := Split(v.valueFrom, '.'); Standardized(v, TfVariable(v.name, RemoteStateReference(p[0], p[1])))
  {
    SplitPartsDotFree(v.valueFrom);
  }

  lemma LiteralStandardized(v: Variable)
    requires v.valueFrom == ""
    ensures Standardized(v, TfVariable(v.name, v.value))
  {
  }

  /** The Terraform generator's own splitting: it fails iff some reference does not have exactly one dot. */
  method StandardizeVariables(vars: seq<Variable>) returns (standardized: Option<seq<TfVariable>>)
    ensures standardized.None? <==> exists v :: v in vars && v.valueFrom != "" && |Split(v.valueFrom, '.')| != 2
    ensures standardized.Some? ==> |standardized.value| == |vars|
    ensures standardized.Some? ==> forall i | 0 <= i < |vars| :: Standardized(vars[i], standardized.value[i])
  {
    hide Split, Standardized;
    var result := [];
    for i := 0 to |vars|
      invariant |result| == i
      invariant forall j | 0 <= j < i :: Standardized(vars[j], result[j])
      invariant forall j | 0 <= j < i :: vars[j].valueFrom == "" || |Split(vars[j].valueFrom, '.')| == 2
    {
      var v := vars[i];
      var value;
      if v.valueFrom != "" {
        var tokens := Split(v.valueFrom, '.');
        if |tokens| != 2 {
          return None;
        }
        value := RemoteStateReference(tokens[0], tokens[1]);
        ReferenceStandardized(v);
      } else {
        value := v.value;
        LiteralStandardized(v);
      }
      result := result + [TfVariable(v.name, value)];
    }
    standardized := Some(result);
  }
}
