/**
 A given template with a given map of dollar-free values: when sequential replacement (Interpolation)
 is simultaneous substitution on this very pair.
 */
module PairAgreement {
  import opened Types
  import opened Strings
  import opened Interpolation
  import opened Substitution
  import opened StrayDollars

  /** Pieces are rewritten from the right: what stands left of them does not matter. */
  lemma {:induction false} RoundsTail(ps: Pieces, bodies: seq<string>, vars: Variables)
    requires ps != []
    ensures |Rounds(ps, bodies, vars)| == |ps| && Rounds(ps, bodies, vars)[1..] == Rounds(ps[1..], bodies, vars)
  {
    if bodies != [] {
      var init, b := bodies[..|bodies| - 1], bodies[|bodies| - 1];
      RoundsTail(ps, init, vars);
      RoundLength(Rounds(ps, init, vars), Tok(b)[1..], Lookup(vars, b));
    }
  }

  lemma CalmAfterToken(t: string, bodies: seq<string>, vars: Variables)
    requires t != "" && CalmThroughout(t, bodies, vars) && AllDotted(Bodies(t))
    ensures var rest := if TokenLength(t) > 0 then t[TokenLength(t)..] else t[1..];
            CalmThroughout(rest, bodies, vars) && AllDotted(Bodies(rest))
  {
    if TokenLength(t) > 0 {
      assert Bodies(t) == [Body(t[..TokenLength(t)])] + Bodies(t[TokenLength(t)..]);
    }
  }

  lemma HeadIn(text: string, rest: string)
    requires text != ""
    ensures (text + rest)[0] in text
  {
    assert (text + rest)[0] == text[0];
  }

  lemma HeadPiece(text: string, now: Pieces, b: string)
    requires '$' !in text && now != [] && now[0].Some? && IsBody(b) && Tok(b) <= text + Render(now)
    ensures Tok(b)[1..] <= now[0].value
  {
    TokenTail(b);
    RenderFirst(now);
    DollarFirst(now[1..]);
    var p, u, rest := Tok(b)[1..], now[0].value, Render(now[1..]);
    hide Render, IsBody, Tok;
    assert (text + Render(now))[0] == '$';
    if text != "" {
      HeadIn(text, Render(now));
    }
    assert text + Render(now) == "$" + (u + rest) && ("$" + (u + rest))[1..] == u + rest;
    assert p <= u + rest;
    PrefixWithin(p, u, rest);
  }

  /** The rounds on a text that starts with a dollar, seen from that dollar. */
  lemma FirstPiece(t: string, bodies: seq<string>, b: string, vars: Variables)
    requires t != "" && t[0] == '$' && IsBody(b) && DollarFreeValues(vars) && AllDotted(bodies)
    requires Tok(b) <= ReplaceEach(t, bodies, vars)
    ensures var now := Rounds(PiecesOf(t), bodies, vars);
            |now| == |PiecesOf(t)| > 0 && (now[0].Some? ==> Tok(b)[1..] <= now[0].value)
  {
    PiecesRender(t);
    PiecesPlain(t);
    PiecesStep(t);
    TokenTail(b);
    assert ReplaceEach(t, bodies, vars)[0] == '$';
    hide ReplaceEach, Rounds, IsBody, PiecesOf, Dots, Tok;
    assert HeadText(t) == "";
    var text := RoundsReplace("", PiecesOf(t), bodies, vars);
    var now := Rounds(PiecesOf(t), bodies, vars);
    assert "" + Render(PiecesOf(t)) == t;
    if now[0].Some? {
      HeadPiece(text, now, b);
    }
  }

  /** The dollar at which a round meets what is no token: its piece then begins the token being replaced. */
  lemma {:induction false} UncalmPiece(t: string, bodies: seq<string>, b: string, vars: Variables) returns (i: nat)
    requires CalmThroughout(t, bodies, vars) && AllDotted(Bodies(t)) && AllDotted(bodies) && DollarFreeValues(vars)
    requires IsBody(b) && !Calm(t, Elements(bodies), b, vars)
    ensures i < |PiecesOf(t)| && PiecesOf(t)[i].Some? && !Mapped(PiecesOf(t)[i], vars)
    ensures var now := Rounds(PiecesOf(t), bodies, vars);
            |now| == |PiecesOf(t)| && (now[i].Some? ==> Tok(b)[1..] <= now[i].value)
  {
    CalmAfterToken(t, bodies, vars);
    var n := TokenLength(t);
    if n == 0 && t[0] == '$' && Tok(b) <= [t[0]] + Partial(t[1..], Elements(bodies), vars) {
      i := 0;
      DollarFreeNoCapture(vars);
      ReplaceEachIsPartial(t, bodies, vars);
      FirstPiece(t, bodies, b, vars);
      StrayIsUnmapped(t, vars);
    } else {
      var rest := if n > 0 then t[n..] else t[1..];
      var k := UncalmPiece(rest, bodies, b, vars);
      i := ShiftedPiece(t, bodies, vars, k);
    }
  }

  lemma StrayIsUnmapped(t: string, vars: Variables)
    requires t != "" && t[0] == '$' && TokenLength(t) == 0
    ensures PiecesOf(t) != [] && PiecesOf(t)[0].Some? && !Mapped(PiecesOf(t)[0], vars)
  {
    PiecesStep(t);
    PiecesRender(t[1..]);
    forall b | IsBody(b) ensures !(Tok(b)[1..] <= HeadText(t[1..])) {
      if Tok(b)[1..] <= HeadText(t[1..]) {
        assert Tok(b)[1..] <= t[1..];
        TailOpensToken(t, b);
      }
    }
  }

  /** A piece of the rest of a scan, as a piece of the whole. */
  lemma ShiftedPiece(t: string, bodies: seq<string>, vars: Variables, k: nat) returns (i: nat)
    requires t != ""
    requires k < |PiecesOf(if TokenLength(t) > 0 then t[TokenLength(t)..] else t[1..])|
    ensures var ps, rest := PiecesOf(t), PiecesOf(if TokenLength(t) > 0 then t[TokenLength(t)..] else t[1..]);
            && i < |ps| && ps[i] == rest[k]
            && |Rounds(ps, bodies, vars)| == |ps| && |Rounds(rest, bodies, vars)| == |rest|
            && Rounds(ps, bodies, vars)[i] == Rounds(rest, bodies, vars)[k]
  {
    var n := TokenLength(t);
    var rest := PiecesOf(if n > 0 then t[n..] else t[1..]);
    RoundsGrow(rest, bodies, vars);
    if n > 0 {
      TokenAtHead(t);
      assert t == Tok(Body(t[..n])) + t[n..];
      TokenPieces(Body(t[..n]), t[n..]);
    } else {
      PiecesStep(t);
    }
    if n > 0 || t[0] == '$' {
      assert PiecesOf(t)[1..] == rest;
      RoundsTail(PiecesOf(t), bodies, vars);
      i := k + 1;
    } else {
      i := k;
    }
  }

  lemma UncalmDiffers(t: string, vars: Variables, j: nat)
    requires !Malformed(t) && DollarFreeValues(vars) && j < |Bodies(t)| && Lookup(vars, Bodies(t)[j]) != ""
    requires CalmThroughout(t, Bodies(t)[..j], vars) && !Calm(t, Elements(Bodies(t)[..j]), Bodies(t)[j], vars)
    ensures ReplaceEach(t, Bodies(t), vars) != Simultaneous(t, vars)
  {
    WellFormedBodies(t);
    var bodies := Bodies(t);
    assert forall b | b in bodies[..j] :: b in bodies;
    assert bodies[j] in bodies && bodies[j..][0] == bodies[j];
    hide Calm, CalmThroughout, Mapped, Rounds, ReplaceEach, Simultaneous, PiecesOf, Bodies, IsBody, Dots, Elements;
    var i := UncalmPiece(t, bodies[..j], bodies[j], vars);
    PieceDies(PiecesOf(t), bodies, vars, i, j, bodies[j]);
    DeadPieceDiffers(t, vars, i);
  }

  lemma {:induction false} FirstUncalm(t: string, bodies: seq<string>, vars: Variables) returns (j: nat)
    requires !CalmThroughout(t, bodies, vars)
    ensures j < |bodies| && Lookup(vars, bodies[j]) != "" && CalmThroughout(t, bodies[..j], vars)
    ensures !Calm(t, Elements(bodies[..j]), bodies[j], vars)
  {
    hide Calm, Elements;
    var n := |bodies| - 1;
    var init := bodies[..n];
    assert forall k | 0 <= k <= n :: init[..k] == bodies[..k];
    if CalmThroughout(t, init, vars) {
      j := n;
    } else {
      j := FirstUncalm(t, init, vars);
    }
  }

  /**
   Sequential replacement is simultaneous substitution on a given template and dollar-free map exactly
   when, at every round, no dollar that opens no token heads the token being replaced once the values of the
   earlier tokens are in.
   */
  lemma PairAgreesIff(t: string, vars: Variables)
    requires !Malformed(t) && DollarFreeValues(vars)
    ensures ReplaceEach(t, Bodies(t), vars) == Simultaneous(t, vars) <==> CalmThroughout(t, Bodies(t), vars)
  {
    if CalmThroughout(t, Bodies(t), vars) {
      DollarFreeNoCapture(vars);
      WellFormedBodies(t);
      ReplaceEachIsPartial(t, Bodies(t), vars);
      PartialAll(t, Elements(Bodies(t)), vars);
    } else {
      var j := FirstUncalm(t, Bodies(t), vars);
      UncalmDiffers(t, vars, j);
    }
  }
}
