/**
 Finite directed graphs of names. An edge (a, b) reads "a must be finished before b starts".
 */
module Graphs {
  import opened Types

  type Graph = set<(string, string)>

  function Transpose(g: Graph): Graph {
    set e | e in g :: (e.1, e.0)
  }

  ghost predicate Walk(g: Graph, p: seq<string>) {
    forall i | 0 <= i < |p| - 1 :: (p[i], p[i + 1]) in g
  }

  ghost predicate Cycle(g: Graph, p: seq<string>) {
    |p| >= 2 && p[0] == p[|p| - 1] && Walk(g, p)
  }

  ghost predicate Acyclic(g: Graph) {
    forall p :: !Cycle(g, p)
  }

  /** `order` lists every node of `nodes` once and every edge goes forward in it. */
  ghost predicate LegalOrder(g: Graph, nodes: set<string>, order: seq<string>) {
    && Distinct(order)
    && (forall n :: n in order <==> n in nodes)
    && forall i, j | 0 <= i < |order| && 0 <= j < |order| && (order[i], order[j]) in g :: i < j
  }

  ghost predicate Within(g: Graph, nodes: set<string>) {
    forall e | e in g :: e.0 in nodes && e.1 in nodes
  }

  function Reverse<T>(s: seq<T>): seq<T> {
    seq(|s|, i requires 0 <= i < |s| => s[|s| - 1 - i])
  }

  lemma TransposeEdge(g: Graph, a: string, b: string)
    ensures (a, b) in Transpose(g) <==> (b, a) in g
  {
    if (b, a) in g {
      assert ((b, a).1, (b, a).0) in Transpose(g);
    }
  }

  lemma TransposeTwice(g: Graph)
    ensures Transpose(Transpose(g)) == g
  {
    forall e: (string, string) ensures e in Transpose(Transpose(g)) <==> e in g {
      TransposeEdge(Transpose(g), e.0, e.1);
      TransposeEdge(g, e.1, e.0);
    }
  }

  lemma ReverseCycle(g: Graph, p: seq<string>)
    requires Cycle(g, p)
    ensures Cycle(Transpose(g), Reverse(p))
  {
    var q := Reverse(p);
    forall i | 0 <= i < |q| - 1 ensures (q[i], q[i + 1]) in Transpose(g) {
      var k := |p| - 2 - i;
      assert (p[k], p[k + 1]) in g;
      TransposeEdge(g, q[i], q[i + 1]);
    }
  }

  lemma TransposeAcyclic(g: Graph)
    ensures Acyclic(Transpose(g)) <==> Acyclic(g)
  {
    if p :| Cycle(g, p) {
      ReverseCycle(g, p);
    }
    if p :| Cycle(Transpose(g), p) {
      ReverseCycle(Transpose(g), p);
      TransposeTwice(g);
    }
  }

  lemma ReverseLegalOrder(g: Graph, nodes: set<string>, order: seq<string>)
    requires LegalOrder(g, nodes, order)
    ensures LegalOrder(Transpose(g), nodes, Reverse(order))
  {
    var rev := Reverse(order);
    forall n ensures n in rev <==> n in nodes {
      if n in order {
        var i :| 0 <= i < |order| && order[i] == n;
        assert rev[|order| - 1 - i] == n;
      }
    }
    forall i, j | 0 <= i < |rev| && 0 <= j < |rev| && (rev[i], rev[j]) in Transpose(g) ensures i < j {
      TransposeEdge(g, rev[i], rev[j]);
      assert (order[|order| - 1 - j], order[|order| - 1 - i]) in g;
    }
  }

  lemma ReverseTwice<T>(s: seq<T>)
    ensures Reverse(Reverse(s)) == s
  {
  }

  /** An order is legal for a graph exactly when its reverse is legal for the transposed graph. */
  lemma LegalOrderReverses(g: Graph, nodes: set<string>, order: seq<string>)
    ensures LegalOrder(g, nodes, order) <==> LegalOrder(Transpose(g), nodes, Reverse(order))
  {
    if LegalOrder(g, nodes, order) {
      ReverseLegalOrder(g, nodes, order);
    }
    if LegalOrder(Transpose(g), nodes, Reverse(order)) {
      ReverseLegalOrder(Transpose(g), nodes, Reverse(order));
      TransposeTwice(g);
      ReverseTwice(order);
    }
  }

  /** A rank that grows along every edge rules out cycles. */
  lemma RankedAcyclic(g: Graph, rank: map<string, int>)
    requires forall e | e in g :: e.0 in rank && e.1 in rank && rank[e.0] < rank[e.1]
    ensures Acyclic(g)
  {
    if p :| Cycle(g, p) {
      WalkClimbs(g, rank, p, |p| - 1);
    }
  }

  lemma WalkClimbs(g: Graph, rank: map<string, int>, p: seq<string>, k: nat)
    requires forall e | e in g :: e.0 in rank && e.1 in rank && rank[e.0] < rank[e.1]
    requires Walk(g, p) && 1 <= k < |p|
    ensures p[0] in rank && p[k] in rank && rank[p[0]] < rank[p[k]]
  {
    assert (p[k - 1], p[k]) in g;
    if k > 1 {
      WalkClimbs(g, rank, p, k - 1);
    }
  }

  lemma Pigeonhole(p: seq<string>, nodes: set<string>)
    requires forall x | x in p :: x in nodes
    requires Distinct(p)
    ensures |p| <= |nodes|
  {
    if p != [] {
      var last := p[|p| - 1];
      var rest := p[..|p| - 1];
      forall x | x in rest ensures x in nodes - {last} {
        var i :| 0 <= i < |rest| && rest[i] == x;
        assert p[i] == x;
      }
      Pigeonhole(rest, nodes - {last});
    }
  }

  ghost predicate HasPredecessor(g: Graph, nodes: set<string>, v: string) {
    exists u :: u in nodes && (u, v) in g
  }

  /** Where every node has a predecessor among `nodes`, walks of any length exist. */
  lemma BackwardWalk(g: Graph, nodes: set<string>, n: nat) returns (p: seq<string>)
    requires nodes != {}
    requires forall v | v in nodes :: HasPredecessor(g, nodes, v)
    ensures |p| == n + 1 && Walk(g, p) && forall x | x in p :: x in nodes
  {
    if n == 0 {
      var v :| v in nodes;
      p := [v];
    } else {
      var q := BackwardWalk(g, nodes, n - 1);
      assert HasPredecessor(g, nodes, q[0]);
      var u :| u in nodes && (u, q[0]) in g;
      p := [u] + q;
      forall i | 0 <= i < |p| - 1 ensures (p[i], p[i + 1]) in g {
        if i > 0 {
          assert (q[i - 1], q[i]) in g;
        }
      }
    }
  }

  /** A walk that visits a name twice contains a cycle. */
  lemma RepetitionIsCycle(g: Graph, p: seq<string>, i: nat, j: nat)
    requires Walk(g, p) && i < j < |p| && p[i] == p[j]
    ensures Cycle(g, p[i..j + 1])
  {
    var c := p[i..j + 1];
    forall k | 0 <= k < |c| - 1 ensures (c[k], c[k + 1]) in g {
      assert (p[i + k], p[i + k + 1]) in g;
    }
  }

  /** Every non-empty set of nodes of an acyclic graph has a node without predecessor in the set. */
  lemma HasSource(g: Graph, nodes: set<string>) returns (v: string)
    requires nodes != {} && Acyclic(g)
    ensures v in nodes && !HasPredecessor(g, nodes, v)
  {
    if w :| w in nodes && !HasPredecessor(g, nodes, w) {
      v := w;
    } else {
      var p := BackwardWalk(g, nodes, |nodes|);
      if Distinct(p) {
        Pigeonhole(p, nodes);
        assert false;
      }
      var i, j :| 0 <= i < j < |p| && p[i] == p[j];
      RepetitionIsCycle(g, p, i, j);
      assert false;
    }
  }

  lemma AcyclicHasOrder(g: Graph, nodes: set<string>) returns (order: seq<string>)
    requires Acyclic(g)
    ensures LegalOrder(g, nodes, order)
    decreases |nodes|
  {
    if nodes == {} {
      order := [];
    } else {
      var v := HasSource(g, nodes);
      var rest := AcyclicHasOrder(g, nodes - {v});
      order := [v] + rest;
      assert forall n | n in order :: n in nodes && (n, v) !in g;
      forall i, j | 0 <= i < |order| && 0 <= j < |order| && (order[i], order[j]) in g ensures i < j {
        if 0 < i && 0 < j {
          assert (rest[i - 1], rest[j - 1]) in g;
        }
      }
    }
  }

  lemma LegalOrderAcyclic(g: Graph, nodes: set<string>, order: seq<string>)
    requires LegalOrder(g, nodes, order) && Within(g, nodes)
    ensures Acyclic(g)
  {
    var rank := map n | n in nodes :: IndexOf(order, n);
    forall e | e in g ensures e.0 in rank && e.1 in rank && rank[e.0] < rank[e.1] {
      assert (order[IndexOf(order, e.0)], order[IndexOf(order, e.1)]) in g;
    }
    RankedAcyclic(g, rank);
  }

  /** A graph over finitely many nodes is acyclic exactly when they can be put in a legal order. */
  lemma AcyclicIffOrdered(g: Graph, nodes: set<string>)
    requires Within(g, nodes)
    ensures Acyclic(g) <==> exists order :: LegalOrder(g, nodes, order)
  {
    if Acyclic(g) {
      var order := AcyclicHasOrder(g, nodes);
    }
    if order :| LegalOrder(g, nodes, order) {
      LegalOrderAcyclic(g, nodes, order);
    }
  }

  /** Some position of a value in a sequence. */
  ghost function IndexOf<T>(s: seq<T>, x: T): (i: nat)
    requires x in s
    ensures i < |s| && s[i] == x
  {
    var i :| 0 <= i < |s| && s[i] == x;
    i
  }
}
