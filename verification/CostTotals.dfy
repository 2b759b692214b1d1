/**
 What the rolled-up costs are, and how far one changed component cost moves them
 (api/src/reconciliation/reconciliation.service.ts, api/src/team/team.service.ts).
 */
module CostTotals {
  import opened CostRollup
  import opened CostOverlaps

  /******* The laws of the sum, which leave no other function *******/

  lemma {:induction false} NothingToAdd(costs: seq<int>)
    requires forall c | c in costs :: c <= 0
    ensures PositiveSum(costs) == 0
  {
    if costs != [] {
      var init := costs[..|costs| - 1];
      forall c | c in init ensures c <= 0 {
        assert c in costs;
      }
      NothingToAdd(init);
      assert costs[|costs| - 1] in costs;
    }
  }

  lemma OneCost(c: int)
    ensures PositiveSum([c]) == if c > 0 then c else 0
  {
    assert [c][..0] == [];
  }

  lemma {:induction false} SumAppend(a: seq<int>, b: seq<int>)
    ensures PositiveSum(a + b) == PositiveSum(a) + PositiveSum(b)
  {
    if b == [] {
      assert a + b == a;
    } else {
      assert (a + b)[..|a + b| - 1] == a + b[..|b| - 1];
      SumAppend(a, b[..|b| - 1]);
    }
  }

  /** Changing one positive cost to another changes the sum by the difference. */
  lemma SumMoves(costs: seq<int>, i: nat, c: int)
    requires i < |costs| && costs[i] > 0 && c > 0
    ensures PositiveSum(costs[i := c]) == PositiveSum(costs) + c - costs[i]
  {
    hide PositiveSum;
    SumParts(costs, i);
    SumParts(costs[i := c], i);
    assert costs[i := c][..i] == costs[..i] && costs[i := c][i + 1..] == costs[i + 1..];
    OneCost(c);
    OneCost(costs[i]);
  }

  lemma SumParts(costs: seq<int>, i: nat)
    requires i < |costs|
    ensures PositiveSum(costs) == PositiveSum(costs[..i]) + PositiveSum([costs[i]]) + PositiveSum(costs[i + 1..])
  {
    hide PositiveSum;
    SumAppend(costs[..i] + [costs[i]], costs[i + 1..]);
    SumAppend(costs[..i], [costs[i]]);
    assert costs == costs[..i] + [costs[i]] + costs[i + 1..];
  }

  /** No positive entry exceeds the sum. */
  lemma EntryInSum(costs: seq<int>, i: nat)
    requires i < |costs|
    ensures PositiveSum(costs) >= costs[i]
  {
    hide PositiveSum;
    SumParts(costs, i);
    OneCost(costs[i]);
    SumNotNegative(costs[..i]);
    SumNotNegative(costs[i + 1..]);
  }

  /******* Two levels of sums are one *******/

  /** The component costs of all the environments, one list after the other. */
  function AllComponents(envs: seq<EnvId>, s: System): seq<int> {
    if envs == [] then [] else Components(s, envs[0]) + AllComponents(envs[1..], s)
  }

  lemma {:induction false} SumOfSums(envs: seq<EnvId>, s: System)
    requires forall e | e in envs :: Cost(s.envCost, e) == EnvTotal(s, e)
    ensures PositiveSum(CostsOf(envs, s.envCost)) == PositiveSum(AllComponents(envs, s))
  {
    if envs != [] {
      SumOfSums(envs[1..], s);
      hide PositiveSum;
      var total := EnvTotal(s, envs[0]);
      assert CostsOf(envs, s.envCost) == [total] + CostsOf(envs[1..], s.envCost);
      SumAppend([total], CostsOf(envs[1..], s.envCost));
      OneCost(total);
      SumNotNegative(Components(s, envs[0]));
      SumAppend(Components(s, envs[0]), AllComponents(envs[1..], s));
    }
  }

  /** A rolled-up team cost is the sum of the positive component costs of its environments. */
  lemma TeamCostIsSum(l: Layout, s: System, t: TeamId)
    requires RolledUp(l, s)
    ensures Cost(s.teamCost, t) == PositiveSum(AllComponents(l.envsOf(t), s))
  {
    SumOfSums(l.envsOf(t), s);
  }

  /******* One changed component *******/

  /** Action `k` gives the component its new cost, and no other action changes a component. */
  ghost predicate OnlyUpdate(actions: seq<Action>, k: nat, e: EnvId, i: nat, cost: int) {
    && k < |actions| && actions[k] == UpdateComponent(e, i, cost)
    && forall m | 0 <= m < |actions| && m != k :: !actions[m].UpdateComponent?
  }

  lemma ListenersKeepComponents(l: Layout, s: System, a: Action)
    requires Enabled(s, a) && !a.UpdateComponent?
    ensures Next(l, s, a).components == s.components
  {
    hide Enabled, EnvTotal, TeamTotal, PositiveSum, CostsOf, Components;
    match a
    case BeginEnv(e) => assert Next(l, s, a).components == s.components;
    case FinishEnv(j) => assert Next(l, s, a).components == s.components;
    case BeginTeam(t) => assert Next(l, s, a).components == s.components;
    case FinishTeam(j) => assert Next(l, s, a).components == s.components;
  }

  lemma UpdateSets(l: Layout, s: System, e: EnvId, i: nat, cost: int)
    requires Enabled(s, UpdateComponent(e, i, cost))
    ensures var t := Next(l, s, UpdateComponent(e, i, cost));
            forall d :: Components(t, d) == if d == e then Components(s, e)[i := cost] else Components(s, d)
  {
    assert Components(s, e)[i] == cost ==> Components(s, e)[i := cost] == Components(s, e);
  }

  lemma {:induction false} ComponentsStay(l: Layout, s: System, actions: seq<Action>)
    requires Runs(l, s, actions) && forall m | 0 <= m < |actions| :: !actions[m].UpdateComponent?
    ensures After(l, s, actions).components == s.components
    decreases |actions|
  {
    if actions != [] {
      ListenersKeepComponents(l, s, actions[0]);
      hide Next, Enabled;
      ComponentsStay(l, Next(l, s, actions[0]), actions[1..]);
    }
  }

  lemma {:induction false} ComponentsAfter(l: Layout, s: System, actions: seq<Action>, k: nat, e: EnvId, i: nat, cost: int)
    requires Runs(l, s, actions) && OnlyUpdate(actions, k, e, i, cost)
    ensures i < |Components(s, e)|
    ensures forall d :: Components(After(l, s, actions), d) ==
                        if d == e then Components(s, e)[i := cost] else Components(s, d)
    decreases |actions|
  {
    var next := Next(l, s, actions[0]);
    if k == 0 {
      assert i < |Components(s, e)|;
      UpdateSets(l, s, e, i, cost);
      hide Next, Enabled;
      ComponentsStay(l, next, actions[1..]);
    } else {
      assert !actions[0].UpdateComponent?;
      ListenersKeepComponents(l, s, actions[0]);
      hide Next, Enabled;
      assert OnlyUpdate(actions[1..], k - 1, e, i, cost);
      ComponentsAfter(l, next, actions[1..], k - 1, e, i, cost);
    }
  }

  /** The environment is listed once, at `j`. */
  ghost predicate ListedOnce(envs: seq<EnvId>, e: EnvId, j: nat) {
    j < |envs| && envs[j] == e && forall m | 0 <= m < |envs| && m != j :: envs[m] != e
  }

  lemma TeamMoves(envs: seq<EnvId>, before: map<EnvId, int>, after: map<EnvId, int>, e: EnvId, j: nat)
    requires ListedOnce(envs, e, j) && Cost(before, e) > 0 && Cost(after, e) > 0
    requires forall d | d != e :: Cost(after, d) == Cost(before, d)
    ensures PositiveSum(CostsOf(envs, after)) == PositiveSum(CostsOf(envs, before)) + Cost(after, e) - Cost(before, e)
  {
    hide PositiveSum;
    assert CostsOf(envs, after) == CostsOf(envs, before)[j := Cost(after, e)];
    SumMoves(CostsOf(envs, before), j, Cost(after, e));
  }

  /**
   A run in which one component cost changes from `a` to `b`, both positive, and that ends idle moves the
   cost of its environment and of a team listing it once by b - a, and no other cost.
   */
  lemma CostMovesByDifference(o: Overlaps, l: Layout, s: System, actions: seq<Action>, k: nat, e: EnvId, i: nat, b: int)
    requires ValidLayout(l) && RolledUp(l, s) && Quiet(s) && Harmless(o, l, s)
    requires Runs(l, s, actions) && AllowedRun(o, l, s, actions) && Quiet(After(l, s, actions))
    requires OnlyUpdate(actions, k, e, i, b) && i < |Components(s, e)| && Components(s, e)[i] > 0 && b > 0
    ensures var t, d := After(l, s, actions), b - Components(s, e)[i];
            && Cost(t.envCost, e) == Cost(s.envCost, e) + d
            && (forall x | x != e :: Cost(t.envCost, x) == Cost(s.envCost, x))
            && (forall m, j | ListedOnce(l.envsOf(m), e, j) :: Cost(t.teamCost, m) == Cost(s.teamCost, m) + d)
            && (forall m | e !in l.envsOf(m) :: Cost(t.teamCost, m) == Cost(s.teamCost, m))
  {
    var t := After(l, s, actions);
    QuietIsRolledUp(o, l, s, actions);
    ComponentsAfter(l, s, actions, k, e, i, b);
    EnvMoves(l, s, t, e, i, b);
    hide Runs, After, AllowedRun, Quiet, Harmless, ValidLayout, RolledUp;
    forall m, j | ListedOnce(l.envsOf(m), e, j)
      ensures Cost(t.teamCost, m) == Cost(s.teamCost, m) + b - Components(s, e)[i]
    {
      TeamCosts(l, s, t, m);
      TeamMoves(l.envsOf(m), s.envCost, t.envCost, e, j);
    }
    forall m | e !in l.envsOf(m) ensures Cost(t.teamCost, m) == Cost(s.teamCost, m) {
      TeamCosts(l, s, t, m);
      assert CostsOf(l.envsOf(m), t.envCost) == CostsOf(l.envsOf(m), s.envCost);
    }
  }

  lemma TeamCosts(l: Layout, s: System, t: System, m: TeamId)
    requires RolledUp(l, s) && RolledUp(l, t)
    ensures Cost(s.teamCost, m) == PositiveSum(CostsOf(l.envsOf(m), s.envCost))
    ensures Cost(t.teamCost, m) == PositiveSum(CostsOf(l.envsOf(m), t.envCost))
  {
    hide PositiveSum, CostsOf;
  }

  lemma EnvMoves(l: Layout, s: System, t: System, e: EnvId, i: nat, b: int)
    requires RolledUp(l, s) && RolledUp(l, t)
    requires i < |Components(s, e)| && Components(s, e)[i] > 0 && b > 0
    requires forall d :: Components(t, d) == if d == e then Components(s, e)[i := b] else Components(s, d)
    ensures Cost(t.envCost, e) == Cost(s.envCost, e) + b - Components(s, e)[i]
    ensures Cost(s.envCost, e) > 0 && Cost(t.envCost, e) > 0
    ensures forall d | d != e :: Cost(t.envCost, d) == Cost(s.envCost, d)
  {
    hide PositiveSum, CostsOf, TeamTotal;
    SumMoves(Components(s, e), i, b);
    EntryInSum(Components(s, e), i);
    EntryInSum(Components(t, e), i);
    forall d | d != e ensures Cost(t.envCost, d) == Cost(s.envCost, d) {
      assert Components(t, d) == Components(s, d);
    }
  }
}
