/**
 Templates with dollars that open no token, which shell-like texts are full of: for which of them
 sequential replacement (Interpolation) is simultaneous substitution, whatever the dollar-free values.
 */
module StrayDollars {
  import opened Types
  import opened Strings
  import opened Interpolation
  import opened Substitution

  ghost predicate DollarFreeValues(vars: Variables) {
    forall k | k in vars :: '$' !in vars[k]
  }

  /** At the head of `t` a dollar opens no token; text without dollars follows it, then the token of `a`. */
  ghost predicate StrayAt(t: string, x: string, a: string) {
    TokenLength(t) == 0 && '$' !in x && IsBody(a) && "$" + x + Tok(a) <= t
  }

  /** The scan of the template meets such a place. */
  ghost predicate StrayBefore(t: string, x: string, a: string) {
    t != "" &&
    (if TokenLength(t) > 0 then StrayBefore(t[TokenLength(t)..], x, a)
     else StrayAt(t, x, a) || StrayBefore(t[1..], x, a))
  }

  /**
   Such a place begins a token that is replaced after `a`: a value of `a` can supply the rest of it.
   */
  ghost predicate Completes(t: string, x: string, a: string, j: int) {
    && StrayBefore(t, x, a)
    && 0 <= j < |Bodies(t)| && a in Bodies(t)[..j] && "$" + x <= Tok(Bodies(t)[j])
  }

  ghost predicate Completable(t: string) {
    exists x, a, j :: Completes(t, x, a, j)
  }

  /******* Nothing to complete: the two agree *******/

  lemma PrefixByHead(p: string, u: string)
    requires p != "" && u != "" && p[0] == u[0] && !(p <= u)
    ensures !(p[1..] <= u[1..]) && p[1..] != ""
  {
    assert p == [p[0]] + p[1..] && u == [u[0]] + u[1..];
  }

  /** At a token only its value can start with text that has no dollar. */
  lemma GrownAtToken(u: string, done: set<string>, p: string, vars: Variables) returns (a: string)
    requires p != "" && '$' !in p && p <= Partial(u, done, vars) && u != "" && TokenLength(u) > 0
    ensures IsBody(a) && a in done && Tok(a) <= u
  {
    TokenAtHead(u);
    var n := TokenLength(u);
    a := Body(u[..n]);
    var rest := Partial(u[n..], done, vars);
    assert u[..n][0] == '$' && p[0] in p;
    assert (u[..n] + rest)[0] == '$';
  }

  /** Text that only the replacement put there was put there by the value of a token. */
  lemma {:induction false} GrownByToken(u: string, done: set<string>, p: string, vars: Variables)
      returns (x: string, a: string)
    requires p != "" && '$' !in p && p <= Partial(u, done, vars) && !(p <= u)
    ensures '$' !in x && x <= p && IsBody(a) && a in done && x + Tok(a) <= u
  {
    hide IsBody, TokenLength;
    assert u != "";
    if TokenLength(u) > 0 {
      a := GrownAtToken(u, done, p, vars);
      x := "";
      assert x + Tok(a) == Tok(a);
    } else {
      var rest := Partial(u[1..], done, vars);
      assert ([u[0]] + rest)[1..] == rest && p[0] == u[0] && p[0] in p;
      PrefixByHead(p, u);
      hide Partial;
      var y, b := GrownByToken(u[1..], done, p[1..], vars);
      a, x := b, [u[0]] + y;
      assert x + Tok(a) == [u[0]] + (y + Tok(a)) && u == [u[0]] + u[1..] && p == [p[0]] + p[1..];
    }
  }

  lemma TokenTail(b: string)
    requires IsBody(b)
    ensures Tok(b) == "$" + Tok(b)[1..] && '$' !in Tok(b)[1..] && Tok(b)[1..] != ""
  {
    TokenShape(b);
  }

  /** A dollar at which the tail of a token follows opens that token. */
  lemma TailOpensToken(t: string, b: string)
    requires t != "" && t[0] == '$' && IsBody(b) && Tok(b)[1..] <= t[1..]
    ensures TokenLength(t) > 0
  {
    var rest := t[|Tok(b)|..];
    assert t == Tok(b) + rest;
    TokenHead(b, rest);
  }

  lemma {:induction false} UncalmIsStray(t: string, done: set<string>, b: string, vars: Variables)
      returns (x: string, a: string)
    requires !Calm(t, done, b, vars) && IsBody(b)
    ensures StrayBefore(t, x, a) && a in done && "$" + x <= Tok(b)
  {
    var n := TokenLength(t);
    if n > 0 {
      x, a := UncalmIsStray(t[n..], done, b, vars);
    } else if t[0] == '$' && Tok(b) <= [t[0]] + Partial(t[1..], done, vars) {
      TokenTail(b);
      var p, rest := Tok(b)[1..], Partial(t[1..], done, vars);
      assert ([t[0]] + rest)[1..] == rest;
      if p <= t[1..] {
        TailOpensToken(t, b);
        assert false;
      }
      x, a := GrownByToken(t[1..], done, p, vars);
      assert t == "$" + t[1..];
      assert "$" + x + Tok(a) == "$" + (x + Tok(a));
      assert StrayAt(t, x, a);
    } else {
      x, a := UncalmIsStray(t[1..], done, b, vars);
    }
  }

  lemma UncalmCompletes(t: string, j: nat, vars: Variables)
    requires !Malformed(t) && j < |Bodies(t)| && !Calm(t, Elements(Bodies(t)[..j]), Bodies(t)[j], vars)
    ensures Completable(t)
  {
    WellFormedBodies(t);
    assert Bodies(t)[j] in Bodies(t);
    hide Calm, StrayBefore, Bodies;
    var x, a := UncalmIsStray(t, Elements(Bodies(t)[..j]), Bodies(t)[j], vars);
    assert Completes(t, x, a, j);
  }

  lemma AgreesUnlessCompletable(t: string, vars: Variables)
    requires !Malformed(t) && !Completable(t) && DollarFreeValues(vars)
    ensures ReplaceEach(t, Bodies(t), vars) == Simultaneous(t, vars)
  {
    DollarFreeNoCapture(vars);
    WellFormedBodies(t);
    var bodies := Bodies(t);
    hide Calm, NoCapture, Completable, Bodies;
    forall j: nat | j < |bodies| ensures Calm(t, Elements(bodies[..j]), bodies[j], vars) {
      if !Calm(t, Elements(bodies[..j]), bodies[j], vars) {
        UncalmCompletes(t, j, vars);
      }
    }
    ReplaceEachIsPartial(t, bodies, vars);
    PartialAll(t, Elements(bodies), vars);
  }

  /******* Something to complete: the template as dollars with the text that follows each *******/

  /** A piece `Some(u)` stands for a dollar followed by the dollar-free text `u`, None for one that is gone. */
  type Pieces = seq<Option<string>>

  function HeadText(t: string): string {
    if t == "" || t[0] == '$' then "" else [t[0]] + HeadText(t[1..])
  }

  function PiecesOf(t: string): Pieces {
    if t == "" then []
    else if t[0] == '$' then [Some(HeadText(t[1..]))] + PiecesOf(t[1..])
    else PiecesOf(t[1..])
  }

  function Render(ps: Pieces): string {
    if ps == [] then "" else (if ps[0].None? then "" else "$" + ps[0].value) + Render(ps[1..])
  }

  ghost predicate Plain(ps: Pieces) {
    forall i | 0 <= i < |ps| && ps[i].Some? :: '$' !in ps[i].value
  }

  lemma PiecesStep(t: string)
    requires t != ""
    ensures t[0] == '$' ==> HeadText(t) == "" && PiecesOf(t) == [Some(HeadText(t[1..]))] + PiecesOf(t[1..])
    ensures t[0] != '$' ==> HeadText(t) == [t[0]] + HeadText(t[1..]) && PiecesOf(t) == PiecesOf(t[1..])
  {
  }

  lemma {:induction false} PiecesRender(t: string)
    ensures t == HeadText(t) + Render(PiecesOf(t))
  {
    if t != "" {
      PiecesStep(t);
      PiecesRender(t[1..]);
      var head, rest := HeadText(t[1..]), PiecesOf(t[1..]);
      hide HeadText, PiecesOf, Render;
      assert t == [t[0]] + t[1..];
      if t[0] == '$' {
        RenderCons(head, rest);
      } else {
        assert [t[0]] + (head + Render(rest)) == [t[0]] + head + Render(rest);
      }
    }
  }

  lemma RenderCons(head: string, rest: Pieces)
    ensures "" + Render([Some(head)] + rest) == "$" + (head + Render(rest))
  {
    RenderFirst([Some(head)] + rest);
    hide Render;
    assert ([Some(head)] + rest)[1..] == rest;
    assert "" + ("$" + head + Render(rest)) == "$" + (head + Render(rest));
  }

  lemma {:induction false} PiecesPlain(t: string)
    ensures Plain(PiecesOf(t)) && '$' !in HeadText(t)
  {
    if t != "" {
      PiecesPlain(t[1..]);
    }
  }

  /**
   One round: a piece that starts with `p`, the tail of a token, loses it to the value `v` and
   becomes part of the piece before. The second result is what goes to the text before the first piece.
   */
  function Round(ps: Pieces, p: string, v: string): (Pieces, string) {
    if ps == [] then ([], "")
    else
      var (rest, carry) := Round(ps[1..], p, v);
      if ps[0].None? then ([None] + rest, carry)
      else if p <= ps[0].value then ([None] + rest, v + ps[0].value[|p|..] + carry)
      else ([Some(ps[0].value + carry)] + rest, "")
  }

  lemma {:induction false} RoundPlain(ps: Pieces, p: string, v: string)
    requires Plain(ps) && '$' !in v
    ensures |Round(ps, p, v).0| == |ps| && Plain(Round(ps, p, v).0) && '$' !in Round(ps, p, v).1
  {
    if ps != [] {
      assert Plain(ps[1..]);
      RoundPlain(ps[1..], p, v);
    }
  }

  /** The step of a piece that is there, from the result for those after it. */
  lemma PieceRound(ps: Pieces, b: string, v: string)
    requires Plain(ps) && IsBody(b) && ps != [] && ps[0].Some?
    requires var tail := Round(ps[1..], Tok(b)[1..], v);
             ReplaceAll(Render(ps[1..]), Tok(b), v) == tail.1 + Render(tail.0)
    ensures var now := Round(ps, Tok(b)[1..], v); ReplaceAll(Render(ps), Tok(b), v) == now.1 + Render(now.0)
  {
    var u, p, tail := ps[0].value, Tok(b)[1..], Render(ps[1..]);
    var (rest, carry) := Round(ps[1..], p, v);
    DollarFirst(ps[1..]);
    RenderFirst(ps);
    RenderFirst(Round(ps, p, v).0);
    assert Round(ps, p, v).0[1..] == rest;
    hide Render, ReplaceAll, IsBody;
    PieceReplaced(u, tail, b, v);
    Regroup(u, if p <= u then u[|p|..] else "", v, carry, Render(rest));
  }

  lemma Regroup(u: string, w: string, v: string, carry: string, rest: string)
    ensures v + (w + (carry + rest)) == (v + w + carry) + ("" + rest)
    ensures "$" + (u + (carry + rest)) == "" + ("$" + (u + carry) + rest)
  {
  }

  /** What a round does is replacing the token everywhere. */
  lemma {:induction false} RoundReplaces(ps: Pieces, b: string, v: string)
    requires Plain(ps) && '$' !in v && IsBody(b)
    ensures ReplaceAll(Render(ps), Tok(b), v) == Round(ps, Tok(b)[1..], v).1 + Render(Round(ps, Tok(b)[1..], v).0)
  {
    hide ReplaceAll, IsBody;
    if ps == [] {
      ReplaceEmpty(Tok(b), v);
    } else {
      assert Plain(ps[1..]);
      RoundReplaces(ps[1..], b, v);
      if ps[0].Some? {
        PieceRound(ps, b, v);
      } else {
        var p := Tok(b)[1..];
        assert Round(ps, p, v).0[1..] == Round(ps[1..], p, v).0;
        assert "" + Render(ps[1..]) == Render(ps[1..]);
        assert "" + Render(Round(ps[1..], p, v).0) == Render(Round(ps[1..], p, v).0);
      }
    }
  }

  lemma RenderFirst(ps: Pieces)
    requires ps != []
    ensures Render(ps) == (if ps[0].None? then "" else "$" + ps[0].value) + Render(ps[1..])
  {
  }

  lemma {:induction false} DollarFirst(ps: Pieces)
    ensures Render(ps) == "" || Render(ps)[0] == '$'
  {
    if ps != [] {
      DollarFirst(ps[1..]);
    }
  }

  lemma PieceReplaced(u: string, rest: string, b: string, v: string)
    requires '$' !in u && IsBody(b) && (rest == "" || rest[0] == '$')
    ensures var p := Tok(b)[1..];
            ReplaceAll("$" + u + rest, Tok(b), v) ==
            if p <= u then v + (u[|p|..] + ReplaceAll(rest, Tok(b), v)) else "$" + (u + ReplaceAll(rest, Tok(b), v))
  {
    TokenTail(b);
    var p := Tok(b)[1..];
    hide ReplaceAll, IsBody;
    if p <= u {
      assert "$" + u + rest == Tok(b) + (u[|p|..] + rest);
      ReplaceHead(u[|p|..] + rest, Tok(b), v);
      PlainSkipped(u[|p|..], b, v, rest);
    } else {
      PrefixWithin(p, u, rest);
      var s := "$" + u + rest;
      assert s == "$" + (u + rest) && s[1..] == u + rest;
      ReplaceStep(s, Tok(b), v);
      PlainSkipped(u, b, v, rest);
    }
  }

  lemma PrefixWithin(p: string, u: string, rest: string)
    requires '$' !in p && (rest == "" || rest[0] == '$')
    ensures p <= u + rest <==> p <= u
  {
    if |p| <= |u| {
      assert (u + rest)[..|p|] == u[..|p|];
    } else {
      assert p[|u|] in p;
      assert rest != "" ==> (u + rest)[|u|] == '$';
    }
  }

  /******* All rounds *******/

  function Rounds(ps: Pieces, bodies: seq<string>, vars: Variables): Pieces {
    if bodies == [] then ps
    else
      var before, b := Rounds(ps, bodies[..|bodies| - 1], vars), bodies[|bodies| - 1];
      if Lookup(vars, b) == "" then before else Round(before, Tok(b)[1..], Lookup(vars, b)).0
  }

  lemma RoundOnText(text: string, ps: Pieces, b: string, v: string)
    requires Plain(ps) && '$' !in text && '$' !in v && IsBody(b)
    ensures var now := Round(ps, Tok(b)[1..], v);
            && ReplaceAll(text + Render(ps), Tok(b), v) == text + now.1 + Render(now.0)
            && '$' !in text + now.1 && Plain(now.0) && |now.0| == |ps|
  {
    RoundReplaces(ps, b, v);
    RoundPlain(ps, Tok(b)[1..], v);
    PlainSkipped(text, b, v, Render(ps));
    hide ReplaceAll, Render, Round, IsBody;
    var now := Round(ps, Tok(b)[1..], v);
    assert text + (now.1 + Render(now.0)) == text + now.1 + Render(now.0);
  }

  lemma {:induction false} RoundsReplace(head: string, ps: Pieces, bodies: seq<string>, vars: Variables) returns (text: string)
    requires Plain(ps) && '$' !in head && DollarFreeValues(vars) && forall b | b in bodies :: IsBody(b)
    ensures ReplaceEach(head + Render(ps), bodies, vars) == text + Render(Rounds(ps, bodies, vars))
    ensures '$' !in text && Plain(Rounds(ps, bodies, vars)) && |Rounds(ps, bodies, vars)| == |ps|
  {
    hide ReplaceAll, Render, Round, IsBody, Plain;
    if bodies == [] {
      text := head;
    } else {
      var init, b := bodies[..|bodies| - 1], bodies[|bodies| - 1];
      text := RoundsReplace(head, ps, init, vars);
      var v := Lookup(vars, b);
      if v != "" {
        var before := Rounds(ps, init, vars);
        RoundOnText(text, before, b, v);
        text := text + Round(before, Tok(b)[1..], v).1;
      }
    }
  }

  /** What one round does to the piece at `i`. */
  lemma {:induction false} RoundAt(ps: Pieces, p: string, v: string, i: nat)
    requires i < |ps|
    ensures |Round(ps, p, v).0| == |ps|
    ensures var now := Round(ps, p, v).0;
            && (now[i].Some? <==> ps[i].Some? && !(p <= ps[i].value))
            && (now[i].Some? ==> ps[i].value <= now[i].value)
            && (now[i].Some? && i + 1 < |ps| && now[i + 1].Some? ==> now[i] == ps[i])
            && (now[i].Some? && i + 1 < |ps| && ps[i + 1].Some? && p <= ps[i + 1].value ==> ps[i].value + v <= now[i].value)
  {
    var (rest, carry) := Round(ps[1..], p, v);
    if i == 0 {
      if |ps| > 1 {
        RoundAt(ps[1..], p, v, 0);
        var next := ps[1];
        assert rest[0].Some? ==> carry == "" && ps[0].Some? ==> ps[0].value + carry == ps[0].value;
        if next.Some? && p <= next.value && ps[0].Some? {
          assert ps[0].value + carry == ps[0].value + v + (next.value[|p|..] + Round(ps[1..][1..], p, v).1);
        }
      } else {
        assert ps[0].Some? ==> ps[0].value + "" == ps[0].value;
      }
    } else {
      RoundAt(ps[1..], p, v, i - 1);
    }
  }

  /** Pieces only disappear and grow. */
  ghost predicate Grown(was: Pieces, now: Pieces) {
    |now| == |was| && forall i | 0 <= i < |was| && now[i].Some? :: was[i].Some? && was[i].value <= now[i].value
  }

  lemma {:induction false} RoundLength(ps: Pieces, p: string, v: string)
    ensures |Round(ps, p, v).0| == |ps|
  {
    if ps != [] {
      RoundLength(ps[1..], p, v);
    }
  }

  lemma RoundGrows(was: Pieces, ps: Pieces, p: string, v: string)
    requires Grown(was, ps)
    ensures Grown(was, Round(ps, p, v).0)
  {
    hide Round;
    RoundLength(ps, p, v);
    var now := Round(ps, p, v).0;
    forall i | 0 <= i < |ps| && now[i].Some? ensures ps[i].Some? && ps[i].value <= now[i].value {
      RoundAt(ps, p, v, i);
    }
  }

  lemma {:induction false} RoundsGrow(ps: Pieces, bodies: seq<string>, vars: Variables)
    ensures Grown(ps, Rounds(ps, bodies, vars))
  {
    if bodies != [] {
      var b := bodies[|bodies| - 1];
      RoundsGrow(ps, bodies[..|bodies| - 1], vars);
      RoundGrows(ps, Rounds(ps, bodies[..|bodies| - 1], vars), Tok(b)[1..], Lookup(vars, b));
    }
  }

  /** A piece that begins a replaced token, from the start or since the first `m` rounds, is gone in the end. */
  lemma {:induction false} PieceDies(ps: Pieces, bodies: seq<string>, vars: Variables, i: nat, m: nat, b: string)
    requires m <= |bodies| && i < |ps| && b in bodies[m..] && Lookup(vars, b) != ""
    requires |Rounds(ps, bodies[..m], vars)| == |ps|
    requires var mid := Rounds(ps, bodies[..m], vars)[i]; mid.Some? ==> Tok(b)[1..] <= mid.value
    ensures |Rounds(ps, bodies, vars)| == |ps| && Rounds(ps, bodies, vars)[i].None?
  {
    var init, last := bodies[..|bodies| - 1], bodies[|bodies| - 1];
    var before := Rounds(ps, init, vars);
    RoundsGrow(ps, init, vars);
    RoundsGrow(ps, bodies, vars);
    var p := Tok(last)[1..];
    RoundAt(before, p, Lookup(vars, last), i);
    hide Round;
    assert init[..m] == bodies[..m];
    if b in init[m..] {
      PieceDies(ps, init, vars, i, m, b);
    } else {
      assert b == last;
      PrefixKept(ps, init, vars, i, m, p);
    }
  }

  lemma {:induction false} PrefixKept(ps: Pieces, bodies: seq<string>, vars: Variables, i: nat, m: nat, p: string)
    requires m <= |bodies| && i < |ps|
    requires |Rounds(ps, bodies[..m], vars)| == |ps|
    requires var mid := Rounds(ps, bodies[..m], vars)[i]; mid.Some? ==> p <= mid.value
    ensures |Rounds(ps, bodies, vars)| == |ps|
    ensures Rounds(ps, bodies, vars)[i].Some? ==> p <= Rounds(ps, bodies, vars)[i].value
  {
    if m == |bodies| {
      assert bodies[..m] == bodies;
    } else {
      var init, last := bodies[..|bodies| - 1], bodies[|bodies| - 1];
      assert init[..m] == bodies[..m];
      PrefixKept(ps, init, vars, i, m, p);
      RoundAt(Rounds(ps, init, vars), Tok(last)[1..], Lookup(vars, last), i);
    }
  }

  /** The stray piece: `x`, followed by a piece that begins the token of `a`. */
  ghost predicate StrayPiece(ps: Pieces, i: nat, x: string, a: string) {
    i + 1 < |ps| && ps[i] == Some(x) && ps[i + 1].Some? && IsBody(a) && Tok(a)[1..] <= ps[i + 1].value
  }

  lemma TailsDiffer(a: string, b: string, u: string)
    requires IsBody(a) && IsBody(b) && Tok(a)[1..] <= u && Tok(b)[1..] <= u
    ensures a == b
  {
    var rest := u[|Tok(a)| - 1..];
    assert Tok(a) + rest == "$" + u && Tok(b) <= "$" + u;
    TokenPrefix(b, a, rest);
  }

  /** One round seen from the stray piece at `i`, still as it was, and the token of `a` after it. */
  lemma StrayStep(ps: Pieces, before: Pieces, b: string, v: string, i: nat, x: string, a: string)
    requires StrayPiece(ps, i, x, a) && Grown(ps, before) && IsBody(b)
    requires before[i] == ps[i] && before[i + 1].Some?
    ensures var now := Round(before, Tok(b)[1..], v).0;
            |now| == |ps| &&
            (now[i].Some? ==> if b == a then x + v <= now[i].value else now[i] == ps[i] && now[i + 1].Some?)
  {
    var p := Tok(b)[1..];
    RoundAt(before, p, v, i);
    RoundAt(before, p, v, i + 1);
    hide Round, IsBody;
    assert Tok(a)[1..] <= before[i + 1].value;
    if p <= before[i + 1].value {
      TailsDiffer(a, b, before[i + 1].value);
    }
  }

  /** Until `a` is replaced the stray piece stays as it is; then the value of `a` follows it. */
  lemma {:induction false} StrayGrows(ps: Pieces, bodies: seq<string>, vars: Variables, i: nat, x: string, a: string)
    requires StrayPiece(ps, i, x, a) && Lookup(vars, a) != "" && forall b | b in bodies :: IsBody(b)
    ensures var now := Rounds(ps, bodies, vars);
            && |now| == |ps|
            && (now[i].Some? ==>
                  if a in bodies then x + Lookup(vars, a) <= now[i].value else now[i] == ps[i] && now[i + 1].Some?)
  {
    RoundsGrow(ps, bodies, vars);
    if bodies != [] {
      var init, b := bodies[..|bodies| - 1], bodies[|bodies| - 1];
      StrayGrows(ps, init, vars, i, x, a);
      RoundsGrow(ps, init, vars);
      var before, v := Rounds(ps, init, vars), Lookup(vars, b);
      assert bodies == init + [b];
      assert v != "" ==> Rounds(ps, bodies, vars) == Round(before, Tok(b)[1..], v).0;
      assert v == "" ==> Rounds(ps, bodies, vars) == before && b != a;
      assert IsBody(b);
      hide Round, Rounds, IsBody, StrayPiece;
      if v != "" {
        RoundAt(before, Tok(b)[1..], v, i);
        if a !in init && before[i].Some? {
          StrayStep(ps, before, b, v, i, x, a);
        }
      }
    }
  }

  /******* Counting dollars *******/

  function Dollars(s: string): nat {
    if s == "" then 0 else (if s[0] == '$' then 1 else 0) + Dollars(s[1..])
  }

  lemma {:induction false} DollarsAppend(a: string, b: string)
    ensures Dollars(a + b) == Dollars(a) + Dollars(b)
  {
    if a == "" {
      assert a + b == b;
    } else {
      assert (a + b)[1..] == a[1..] + b;
      DollarsAppend(a[1..], b);
    }
  }

  lemma {:induction false} NoDollars(s: string)
    requires '$' !in s
    ensures Dollars(s) == 0
  {
    if s != "" {
      NoDollars(s[1..]);
    }
  }

  function Present(ps: Pieces): nat {
    if ps == [] then 0 else (if ps[0].Some? then 1 else 0) + Present(ps[1..])
  }

  lemma {:induction false} RenderedDollars(ps: Pieces)
    requires Plain(ps)
    ensures Dollars(Render(ps)) == Present(ps)
  {
    if ps != [] {
      assert Plain(ps[1..]);
      RenderedDollars(ps[1..]);
      if ps[0].Some? {
        NoDollars(ps[0].value);
        DollarsAppend("$" + ps[0].value, Render(ps[1..]));
        assert ("$" + ps[0].value)[1..] == ps[0].value;
      } else {
        assert "" + Render(ps[1..]) == Render(ps[1..]);
      }
    }
  }

  /** The piece begins a token that has a value. */
  ghost predicate Mapped(u: Option<string>, vars: Variables) {
    u.Some? && exists b :: IsBody(b) && Lookup(vars, b) != "" && Tok(b)[1..] <= u.value
  }

  ghost function Unmapped(ps: Pieces, vars: Variables): nat {
    if ps == [] then 0 else (if ps[0].Some? && !Mapped(ps[0], vars) then 1 else 0) + Unmapped(ps[1..], vars)
  }

  lemma {:induction false} FewerPresent(ps: Pieces, now: Pieces, vars: Variables)
    requires |now| == |ps| && forall i | 0 <= i < |ps| && now[i].Some? :: ps[i].Some? && !Mapped(ps[i], vars)
    ensures Present(now) <= Unmapped(ps, vars)
    ensures (exists i :: 0 <= i < |ps| && now[i].None? && ps[i].Some? && !Mapped(ps[i], vars)) ==>
              Present(now) < Unmapped(ps, vars)
  {
    if ps != [] {
      FewerPresent(ps[1..], now[1..], vars);
      if i :| 0 <= i < |ps| && now[i].None? && ps[i].Some? && !Mapped(ps[i], vars) && i > 0 {
        assert now[1..][i - 1].None? && ps[1..][i - 1].Some? && !Mapped(ps[1..][i - 1], vars);
      }
    }
  }

  lemma {:induction false} PlainPieces(x: string, rest: string)
    requires '$' !in x
    ensures PiecesOf(x + rest) == PiecesOf(rest) && HeadText(x + rest) == x + HeadText(rest)
  {
    if x == "" {
      assert x + rest == rest;
    } else {
      assert (x + rest)[1..] == x[1..] + rest;
      PlainPieces(x[1..], rest);
    }
  }

  lemma TokenPieces(b: string, rest: string)
    requires IsBody(b)
    ensures PiecesOf(Tok(b) + rest) == [Some(Tok(b)[1..] + HeadText(rest))] + PiecesOf(rest)
  {
    TokenTail(b);
    assert (Tok(b) + rest)[1..] == Tok(b)[1..] + rest;
    PlainPieces(Tok(b)[1..], rest);
  }

  /** Simultaneous substitution leaves every dollar that opens no token with a value. */
  lemma {:induction false} SimultaneousDollars(t: string, vars: Variables)
    ensures Dollars(Simultaneous(t, vars)) >= Unmapped(PiecesOf(t), vars)
  {
    if t != "" {
      var n := TokenLength(t);
      if n > 0 {
        TokenAtHead(t);
        var b, rest := Body(t[..n]), t[n..];
        assert t == Tok(b) + rest;
        TokenPieces(b, rest);
        SimultaneousDollars(rest, vars);
        var v := Lookup(vars, b);
        DollarsAppend(if v == "" then t[..n] else v, Simultaneous(rest, vars));
        var first := Some(Tok(b)[1..] + HeadText(rest));
        assert PiecesOf(t)[1..] == PiecesOf(rest);
        assert v != "" ==> Mapped(first, vars);
        assert Dollars(t[..n]) >= 1;
      } else {
        SimultaneousDollars(t[1..], vars);
        DollarsAppend([t[0]], Simultaneous(t[1..], vars));
        if t[0] == '$' {
          assert PiecesOf(t)[1..] == PiecesOf(t[1..]);
        }
      }
    }
  }

  /******* Where the two differ *******/

  lemma {:induction false} StrayIsPiece(t: string, x: string, a: string) returns (i: nat)
    requires StrayBefore(t, x, a)
    ensures StrayPiece(PiecesOf(t), i, x, a)
    ensures forall b | IsBody(b) :: !(Tok(b)[1..] <= x)
  {
    var n := TokenLength(t);
    if n > 0 {
      TokenAtHead(t);
      var b, rest := Body(t[..n]), t[n..];
      assert t == Tok(b) + rest;
      TokenPieces(b, rest);
      var k := StrayIsPiece(rest, x, a);
      i := k + 1;
    } else if StrayAt(t, x, a) {
      StrayHead(t, x, a);
      i := 0;
    } else {
      var k := StrayIsPiece(t[1..], x, a);
      i := if t[0] == '$' then k + 1 else k;
    }
  }

  lemma StrayHead(t: string, x: string, a: string)
    requires StrayAt(t, x, a)
    ensures StrayPiece(PiecesOf(t), 0, x, a)
    ensures forall b | IsBody(b) :: !(Tok(b)[1..] <= x)
  {
    var rest := t[|"$" + x + Tok(a)|..];
    assert t == "$" + x + Tok(a) + rest && t[1..] == x + (Tok(a) + rest);
    PlainPieces(x, Tok(a) + rest);
    TokenTail(a);
    assert (Tok(a) + rest)[0] == '$' && x + "" == x;
    TokenPieces(a, rest);
    forall b | IsBody(b) ensures !(Tok(b)[1..] <= x) {
      if Tok(b)[1..] <= x {
        assert Tok(b)[1..] <= t[1..];
        TailOpensToken(t, b);
      }
    }
  }

  /** The value that completes `p`, the tail of the token of `c`, and any other text for `c` itself. */
  function Completing(x: string, a: string, c: string, p: string): Variables
    requires |x| <= |p|
  {
    if a == c then map[a := p[|x|..]] else map[a := p[|x|..], c := " "]
  }

  lemma CompletingFits(x: string, a: string, c: string, p: string)
    requires '$' !in p && x <= p && x != p
    ensures var vars := Completing(x, a, c, p);
            && DollarFreeValues(vars) && Lookup(vars, a) != "" && Lookup(vars, c) != ""
            && (forall b :: Lookup(vars, b) != "" ==> b == a || b == c)
            && x + Lookup(vars, a) == p
  {
    assert forall k | 0 <= k < |p[|x|..]| :: p[|x|..][k] in p;
  }

  lemma HeadOfTail(x: string, c: string)
    requires IsBody(c) && "$" + x <= Tok(c)
    ensures x <= Tok(c)[1..]
  {
    TokenTail(c);
    assert x == ("$" + x)[1..];
  }

  /** A piece that begins a token is that token of the template. */
  lemma {:induction false} PieceIsToken(t: string, i: nat, b: string)
    requires i < |PiecesOf(t)| && IsBody(b)
    requires var u := PiecesOf(t)[i]; u.Some? && Tok(b)[1..] <= u.value
    ensures b in Bodies(t)
  {
    var n := TokenLength(t);
    if n > 0 {
      TokenAtHead(t);
      var c, rest := Body(t[..n]), t[n..];
      assert t == Tok(c) + rest;
      TokenPieces(c, rest);
      assert Bodies(t) == [c] + Bodies(rest);
      if i == 0 {
        TailsDiffer(c, b, PiecesOf(t)[0].value);
      } else {
        PieceIsToken(rest, i - 1, b);
      }
    } else if t[0] != '$' {
      PieceIsToken(t[1..], i, b);
    } else if i > 0 {
      PieceIsToken(t[1..], i - 1, b);
    } else {
      PiecesRender(t[1..]);
      assert Tok(b)[1..] <= t[1..];
      TailOpensToken(t, b);
    }
  }

  /** Every piece that begins a token with a value is gone in the end. */
  lemma MappedDie(t: string, vars: Variables)
    ensures var ps := PiecesOf(t); var now := Rounds(ps, Bodies(t), vars);
            |now| == |ps| && forall k | 0 <= k < |ps| && now[k].Some? :: ps[k].Some? && !Mapped(ps[k], vars)
  {
    var ps, bodies := PiecesOf(t), Bodies(t);
    hide PiecesOf, Bodies, IsBody;
    RoundsGrow(ps, bodies, vars);
    var now := Rounds(ps, bodies, vars);
    forall k | 0 <= k < |ps| && now[k].Some? ensures !Mapped(ps[k], vars) {
      if b :| IsBody(b) && ps[k].Some? && Lookup(vars, b) != "" && Tok(b)[1..] <= ps[k].value {
        PieceIsToken(t, k, b);
        assert bodies[..0] == [] && bodies[0..] == bodies;
        PieceDies(ps, bodies, vars, k, 0, b);
      }
    }
  }

  /** Once a dollar that opens no token with a value is gone, one dollar too many has disappeared. */
  lemma DeadPieceDiffers(t: string, vars: Variables, i: nat)
    requires !Malformed(t) && DollarFreeValues(vars)
    requires var ps := PiecesOf(t); i < |ps| && ps[i].Some? && !Mapped(ps[i], vars)
    requires i < |Rounds(PiecesOf(t), Bodies(t), vars)| && Rounds(PiecesOf(t), Bodies(t), vars)[i].None?
    ensures ReplaceEach(t, Bodies(t), vars) != Simultaneous(t, vars)
  {
    var ps, bodies := PiecesOf(t), Bodies(t);
    WellFormedBodies(t);
    hide Bodies, PiecesOf, Rounds, Simultaneous, ReplaceEach, IsBody, Dots, Mapped;
    PiecesRender(t);
    PiecesPlain(t);
    MappedDie(t, vars);
    FewerPresent(ps, Rounds(ps, bodies, vars), vars);
    var text := RoundsReplace(HeadText(t), ps, bodies, vars);
    NoDollars(text);
    DollarsAppend(text, Render(Rounds(ps, bodies, vars)));
    RenderedDollars(Rounds(ps, bodies, vars));
    SimultaneousDollars(t, vars);
  }

  lemma StrayDies(ps: Pieces, bodies: seq<string>, vars: Variables, i: nat, x: string, a: string, j: nat)
    requires StrayPiece(ps, i, x, a) && j < |bodies| && a in bodies[..j] && forall b | b in bodies :: IsBody(b)
    requires Lookup(vars, a) != "" && Lookup(vars, bodies[j]) != ""
    requires x + Lookup(vars, a) == Tok(bodies[j])[1..]
    ensures |Rounds(ps, bodies, vars)| == |ps| && Rounds(ps, bodies, vars)[i].None?
  {
    assert forall b | b in bodies[..j] :: b in bodies;
    StrayGrows(ps, bodies[..j], vars, i, x, a);
    assert bodies[j..][0] == bodies[j];
    PieceDies(ps, bodies, vars, i, j, bodies[j]);
  }

  /** The value that completes the stray dollar makes it disappear. */
  lemma CompletableBreaks(t: string, x: string, a: string, j: nat) returns (vars: Variables)
    requires !Malformed(t) && Completes(t, x, a, j)
    ensures DollarFreeValues(vars) && ReplaceEach(t, Bodies(t), vars) != Simultaneous(t, vars)
  {
    var ps, bodies := PiecesOf(t), Bodies(t);
    WellFormedBodies(t);
    var c := bodies[j];
    assert c in bodies && a in bodies;
    var i := StrayIsPiece(t, x, a);
    HeadOfTail(x, c);
    TokenTail(c);
    CompletingFits(x, a, c, Tok(c)[1..]);
    vars := Completing(x, a, c, Tok(c)[1..]);
    hide Completing, Bodies, PiecesOf, Rounds, Simultaneous, ReplaceEach, StrayBefore, IsBody, Dots, Mapped;
    StrayDies(ps, bodies, vars, i, x, a, j);
    StrayUnmapped(ps, vars, i, x, a);
    DeadPieceDiffers(t, vars, i);
  }

  lemma StrayUnmapped(ps: Pieces, vars: Variables, i: nat, x: string, a: string)
    requires StrayPiece(ps, i, x, a) && forall b | IsBody(b) :: !(Tok(b)[1..] <= x)
    ensures !Mapped(ps[i], vars)
  {
  }

  /**
   Exactly the templates on which sequential replacement is simultaneous substitution for all
   dollar-free values: those in which no stray dollar can be completed to a token replaced later.
   */
  lemma TemplateAgreesIff(t: string)
    requires !Malformed(t)
    ensures (forall vars | DollarFreeValues(vars) :: ReplaceEach(t, Bodies(t), vars) == Simultaneous(t, vars))
            <==> !Completable(t)
  {
    if Completable(t) {
      var x, a, j :| Completes(t, x, a, j);
      var vars := CompletableBreaks(t, x, a, j);
    } else {
      forall vars | DollarFreeValues(vars) ensures ReplaceEach(t, Bodies(t), vars) == Simultaneous(t, vars) {
        AgreesUnlessCompletable(t, vars);
      }
    }
  }

  /** Dollars that open tokens are never stray, so well-delimited templates qualify. */
  lemma {:induction false} WellDelimitedNotStray(t: string, x: string, a: string)
    requires WellDelimited(t)
    ensures !StrayBefore(t, x, a)
  {
    if t != "" {
      if TokenLength(t) > 0 {
        WellDelimitedNotStray(t[TokenLength(t)..], x, a);
      } else {
        WellDelimitedNotStray(t[1..], x, a);
        assert ("$" + x + Tok(a))[0] == '$';
      }
    }
  }
}
