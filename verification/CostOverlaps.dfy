/**
 The cost roll-up when listeners overlap: which overlaps can leave a wrong cost stored for good
 (CostRollup says what happens without them).
 */
module CostOverlaps {
  import opened CostRollup

  lemma {:induction false} RaisedCost(costs: seq<int>, i: nat, cost: int)
    requires i < |costs| && cost > 0 && cost > costs[i]
    ensures PositiveSum(costs[i := cost]) > PositiveSum(costs)
  {
    var n := |costs| - 1;
    if i < n {
      RaisedCost(costs[..n], i, cost);
      assert costs[i := cost][..n] == costs[..n][i := cost];
    } else {
      assert costs[i := cost][..n] == costs[..n];
    }
  }

  lemma {:induction false} SumNotNegative(costs: seq<int>)
    ensures PositiveSum(costs) >= 0
  {
    if costs != [] {
      SumNotNegative(costs[..|costs| - 1]);
    }
  }

  /** A higher cost of one environment makes the sum over any list with it higher. */
  lemma {:induction false} RaisedTotal(envs: seq<EnvId>, envCost: map<EnvId, int>, e: EnvId, cost: int)
    requires cost > 0 && cost > Cost(envCost, e)
    ensures PositiveSum(CostsOf(envs, envCost[e := cost])) >= PositiveSum(CostsOf(envs, envCost))
    ensures e in envs ==> PositiveSum(CostsOf(envs, envCost[e := cost])) > PositiveSum(CostsOf(envs, envCost))
  {
    if envs != [] {
      var n := |envs| - 1;
      RaisedTotal(envs[..n], envCost, e, cost);
      assert CostsOf(envs, envCost)[..n] == CostsOf(envs[..n], envCost);
      assert CostsOf(envs, envCost[e := cost])[..n] == CostsOf(envs[..n], envCost[e := cost]);
    }
  }

  /******* Composing runs *******/

  ghost predicate Leads(o: Overlaps, l: Layout, s: System, actions: seq<Action>, t: System) {
    Runs(l, s, actions) && AllowedRun(o, l, s, actions) && After(l, s, actions) == t
  }

  lemma OneStep(o: Overlaps, l: Layout, s: System, a: Action)
    requires Enabled(s, a) && Allowed(o, s, a)
    ensures Leads(o, l, s, [a], Next(l, s, a))
  {
    hide Next, Enabled, Allowed;
    var t := Next(l, s, a);
    assert [a][1..] == [] && Leads(o, l, t, [], t);
  }

  lemma {:induction false} LeadsOn(o: Overlaps, l: Layout, s: System, first: seq<Action>, m: System, rest: seq<Action>, t: System)
    requires Leads(o, l, s, first, m) && Leads(o, l, m, rest, t)
    ensures Leads(o, l, s, first + rest, t)
    decreases |first|
  {
    hide Next, Enabled, Allowed;
    if first == [] {
      assert first + rest == rest;
    } else {
      LeadsOn(o, l, Next(l, s, first[0]), first[1..], m, rest, t);
      assert (first + rest)[1..] == first[1..] + rest;
    }
  }

  lemma TwoSteps(o: Overlaps, l: Layout, s: System, a: Action, b: Action)
    requires Enabled(s, a) && Allowed(o, s, a)
    requires Enabled(Next(l, s, a), b) && Allowed(o, Next(l, s, a), b)
    ensures Leads(o, l, s, [a, b], Next(l, Next(l, s, a), b))
  {
    hide Next, Enabled, Allowed, Leads;
    OneStep(o, l, s, a);
    OneStep(o, l, Next(l, s, a), b);
    LeadsOn(o, l, s, [a], Next(l, s, a), [b], Next(l, Next(l, s, a), b));
    assert [a] + [b] == [a, b];
  }

  function NewCosts(s: System, e: EnvId, cost: int): seq<int>
    requires Components(s, e) != []
  {
    Components(s, e)[0 := cost]
  }

  /** A cost changes and a listener reads the new total. */
  lemma ChangeAndRead(o: Overlaps, l: Layout, s: System, e: EnvId, cost: int) returns (t: System)
    requires s.componentEvents == multiset{} && Components(s, e) != [] && Components(s, e)[0] != cost
    requires e in o.envs || forall j | j in s.envJobs :: j.key != e
    ensures Leads(o, l, s, [UpdateComponent(e, 0, cost), BeginEnv(e)], t)
    ensures t == s.(components := s.components[e := NewCosts(s, e, cost)],
                    envJobs := s.envJobs + multiset{Job(e, PositiveSum(NewCosts(s, e, cost)))})
  {
    hide PositiveSum, TeamTotal, Leads;
    var s1 := Next(l, s, UpdateComponent(e, 0, cost));
    assert s1.componentEvents == multiset{e};
    t := Next(l, s1, BeginEnv(e));
    assert t.componentEvents == multiset{};
    TwoSteps(o, l, s, UpdateComponent(e, 0, cost), BeginEnv(e));
  }

  /** An environment listener writes a new total and a team listener reads it. */
  lemma WriteAndNotify(o: Overlaps, l: Layout, s: System, j: Job) returns (t: System)
    requires j in s.envJobs && Cost(s.envCost, j.key) != j.total && s.envEvents == multiset{}
    requires l.teamOf(j.key) in o.teams || forall i | i in s.teamJobs :: i.key != l.teamOf(j.key)
    ensures Leads(o, l, s, [FinishEnv(j), BeginTeam(l.teamOf(j.key))], t)
    ensures var team, envCost := l.teamOf(j.key), s.envCost[j.key := j.total];
            t == s.(envJobs := s.envJobs - multiset{j}, envCost := envCost,
                    teamJobs := s.teamJobs + multiset{Job(team, PositiveSum(CostsOf(l.envsOf(team), envCost)))})
  {
    hide PositiveSum, CostsOf, Leads;
    var s1 := Next(l, s, FinishEnv(j));
    assert s1.envEvents == multiset{l.teamOf(j.key)};
    t := Next(l, s1, BeginTeam(l.teamOf(j.key)));
    assert t.envEvents == multiset{};
    TwoSteps(o, l, s, FinishEnv(j), BeginTeam(l.teamOf(j.key)));
  }

  /** The cost that both runs raise the first component to. */
  function Raised(cost: int): int {
    if cost > 0 then cost + 1 else 1
  }

  ghost predicate Breaks(o: Overlaps, l: Layout, s: System, actions: seq<Action>) {
    exists t :: Leads(o, l, s, actions, t) && Quiet(t) && !RolledUp(l, t)
  }

  /******* Overlapping environment listeners *******/

  /** The second listener finds what is stored already, so its write emits nothing. */
  lemma WriteSame(o: Overlaps, l: Layout, s: System, j: Job) returns (t: System)
    requires j in s.envJobs && Cost(s.envCost, j.key) == j.total
    ensures Leads(o, l, s, [FinishEnv(j)], t) && t == s.(envJobs := s.envJobs - multiset{j})
  {
    hide Leads;
    t := Next(l, s, FinishEnv(j));
    OneStep(o, l, s, FinishEnv(j));
  }

  /** The last team listener finishes. */
  lemma TeamFinishes(o: Overlaps, l: Layout, s: System, j: Job) returns (t: System)
    requires j in s.teamJobs
    ensures Leads(o, l, s, [FinishTeam(j)], t)
    ensures t == s.(teamJobs := s.teamJobs - multiset{j}, teamCost := s.teamCost[j.key := j.total])
  {
    hide Leads;
    t := Next(l, s, FinishTeam(j));
    OneStep(o, l, s, FinishTeam(j));
  }

  /** A listener that read `total` is the only thing left to do; its write is stored, whatever is true. */
  lemma StaleWriteStays(o: Overlaps, l: Layout, s: System, j: Job) returns (actions: seq<Action>)
    requires s.componentEvents == multiset{} && s.envEvents == multiset{} && s.teamJobs == multiset{}
    requires s.envJobs == multiset{j} && Cost(s.envCost, j.key) != j.total && j.total != EnvTotal(s, j.key)
    ensures Breaks(o, l, s, actions)
  {
    hide Leads;
    var s1 := WriteAndNotify(o, l, s, j);
    var team := l.teamOf(j.key);
    var i := Job(team, PositiveSum(CostsOf(l.envsOf(team), s1.envCost)));
    assert s1.teamJobs == multiset{i};
    var t := TeamFinishes(o, l, s1, i);
    actions := [FinishEnv(j), BeginTeam(team)] + [FinishTeam(i)];
    LeadsOn(o, l, s, [FinishEnv(j), BeginTeam(team)], s1, [FinishTeam(i)], t);
    assert Cost(t.envCost, j.key) == j.total && EnvTotal(t, j.key) == EnvTotal(s, j.key);
  }

  lemma BreaksLater(o: Overlaps, l: Layout, s: System, first: seq<Action>, m: System, rest: seq<Action>)
    requires Leads(o, l, s, first, m) && Breaks(o, l, m, rest)
    ensures Breaks(o, l, s, first + rest)
  {
    hide Leads, Quiet, RolledUp;
    var t :| Leads(o, l, m, rest, t) && Quiet(t) && !RolledUp(l, t);
    LeadsOn(o, l, s, first, m, rest, t);
  }

  /**
   One listener reads a raised cost, the next one reads it restored, and the first writes last: from
   every rolled-up idle start a wrong environment cost is stored for good.
   */
  lemma EnvOverlapBreaks(o: Overlaps, l: Layout, s: System, e: EnvId) returns (actions: seq<Action>)
    requires RolledUp(l, s) && Quiet(s) && Components(s, e) != [] && e in o.envs
    ensures Breaks(o, l, s, actions)
  {
    var was := Components(s, e);
    var cost := Raised(was[0]);
    RaisedCost(was, 0, cost);
    assert was[0 := cost][0 := was[0]] == was;
    hide PositiveSum, TeamTotal, Leads;
    var stale, latest := Job(e, PositiveSum(was[0 := cost])), Job(e, PositiveSum(was));
    assert Cost(s.envCost, e) == EnvTotal(s, e);
    hide RolledUp;
    var s2 := ChangeAndRead(o, l, s, e, cost);
    var s4 := ChangeAndRead(o, l, s2, e, was[0]);
    var s5 := WriteSame(o, l, s4, latest);
    assert s5.envJobs == multiset{stale};
    var last := StaleWriteStays(o, l, s5, stale);
    BreaksLater(o, l, s4, [FinishEnv(latest)], s5, last);
    BreaksLater(o, l, s2, [UpdateComponent(e, 0, was[0]), BeginEnv(e)], s4, [FinishEnv(latest)] + last);
    actions := [UpdateComponent(e, 0, was[0]), BeginEnv(e)] + ([FinishEnv(latest)] + last);
    BreaksLater(o, l, s, [UpdateComponent(e, 0, cost), BeginEnv(e)], s2, actions);
    actions := [UpdateComponent(e, 0, cost), BeginEnv(e)] + actions;
  }

  /******* Overlapping team listeners *******/

  /** The four steps from a changed component cost to a team listener that has read its effect. */
  function Seen(l: Layout, s: System, e: EnvId, cost: int): seq<Action>
    requires Components(s, e) != []
  {
    [UpdateComponent(e, 0, cost), BeginEnv(e)]
    + [FinishEnv(Job(e, PositiveSum(NewCosts(s, e, cost)))), BeginTeam(l.teamOf(e))]
  }

  lemma ChangeIsSeen(o: Overlaps, l: Layout, s: System, e: EnvId, cost: int) returns (t: System)
    requires s.componentEvents == multiset{} && s.envEvents == multiset{} && s.envJobs == multiset{}
    requires Components(s, e) != [] && Components(s, e)[0] != cost
    requires PositiveSum(NewCosts(s, e, cost)) != Cost(s.envCost, e)
    requires l.teamOf(e) in o.teams || s.teamJobs == multiset{}
    ensures Leads(o, l, s, Seen(l, s, e, cost), t)
    ensures var envCost := s.envCost[e := PositiveSum(NewCosts(s, e, cost))];
            t == s.(components := s.components[e := NewCosts(s, e, cost)], envCost := envCost,
                    teamJobs := s.teamJobs + multiset{Job(l.teamOf(e), PositiveSum(CostsOf(l.envsOf(l.teamOf(e)), envCost)))})
  {
    hide PositiveSum, CostsOf, Leads;
    var j := Job(e, PositiveSum(NewCosts(s, e, cost)));
    var s1 := ChangeAndRead(o, l, s, e, cost);
    assert s1.envJobs == multiset{j};
    t := WriteAndNotify(o, l, s1, j);
    assert t.envJobs == multiset{};
    LeadsOn(o, l, s, [UpdateComponent(e, 0, cost), BeginEnv(e)], s1, [FinishEnv(j), BeginTeam(l.teamOf(e))], t);
  }

  /** Two team listeners are left, and the one that read an outdated sum writes last. */
  lemma StaleTeamWriteStays(o: Overlaps, l: Layout, s: System, stale: Job, latest: Job) returns (actions: seq<Action>)
    requires s.componentEvents == multiset{} && s.envEvents == multiset{} && s.envJobs == multiset{}
    requires s.teamJobs == multiset{stale} + multiset{latest} && stale.total != TeamTotal(l, s, stale.key)
    ensures Breaks(o, l, s, actions)
  {
    hide Leads, PositiveSum;
    var s1 := TeamFinishes(o, l, s, latest);
    assert s1.teamJobs == multiset{stale};
    var t := TeamFinishes(o, l, s1, stale);
    assert t.teamJobs == multiset{};
    LeadsOn(o, l, s, [FinishTeam(latest)], s1, [FinishTeam(stale)], t);
    actions := [FinishTeam(latest)] + [FinishTeam(stale)];
    assert Cost(t.teamCost, stale.key) == stale.total && TeamTotal(l, t, stale.key) == TeamTotal(l, s, stale.key);
  }

  lemma RestoredSum(envs: seq<EnvId>, envCost: map<EnvId, int>, e: EnvId, cost: int)
    ensures CostsOf(envs, envCost[e := cost][e := Cost(envCost, e)]) == CostsOf(envs, envCost)
  {
  }

  /**
   With environment listeners one after the other: a team listener reads the raised cost, another one
   the restored cost, and the first writes last. A wrong team cost is stored for good.
   */
  lemma TeamOverlapBreaks(o: Overlaps, l: Layout, s: System, t: TeamId, e: EnvId) returns (actions: seq<Action>)
    requires ValidLayout(l) && RolledUp(l, s) && Quiet(s) && t in o.teams && e in l.envsOf(t) && Components(s, e) != []
    ensures Breaks(o, l, s, actions)
  {
    var was, envs := Components(s, e), l.envsOf(t);
    var cost := Raised(was[0]);
    var high := PositiveSum(was[0 := cost]);
    RaisedCost(was, 0, cost);
    SumNotNegative(was);
    assert was[0 := cost][0 := was[0]] == was;
    assert Cost(s.envCost, e) == EnvTotal(s, e);
    RaisedTotal(envs, s.envCost, e, high);
    RestoredSum(envs, s.envCost, e, high);
    hide PositiveSum, CostsOf, Leads, RolledUp;
    var s1 := ChangeIsSeen(o, l, s, e, cost);
    var s2 := ChangeIsSeen(o, l, s1, e, was[0]);
    var stale, latest := Job(t, PositiveSum(CostsOf(envs, s1.envCost))), Job(t, PositiveSum(CostsOf(envs, s2.envCost)));
    assert s2.teamJobs == multiset{stale} + multiset{latest};
    var last := StaleTeamWriteStays(o, l, s2, stale, latest);
    BreaksLater(o, l, s1, Seen(l, s1, e, was[0]), s2, last);
    BreaksLater(o, l, s, Seen(l, s, e, cost), s1, Seen(l, s1, e, was[0]) + last);
    actions := Seen(l, s, e, cost) + (Seen(l, s1, e, was[0]) + last);
  }

  /******* Main result *******/

  lemma BrokenRun(o: Overlaps, l: Layout, s: System, actions: seq<Action>)
    requires Breaks(o, l, s, actions)
    ensures Runs(l, s, actions) && AllowedRun(o, l, s, actions)
    ensures Quiet(After(l, s, actions)) && !RolledUp(l, After(l, s, actions))
  {
  }

  /**
   Exactly the overlaps that can be allowed: from a rolled-up idle start every allowed run that ends
   idle ends rolled up if and only if no environment with a component may have overlapping listeners,
   of its own or of its team.
   */
  lemma RolledUpIff(o: Overlaps, l: Layout, s: System)
    requires ValidLayout(l) && RolledUp(l, s) && Quiet(s)
    ensures (forall actions | Runs(l, s, actions) && AllowedRun(o, l, s, actions) && Quiet(After(l, s, actions)) ::
               RolledUp(l, After(l, s, actions))) <==>
            (forall e | e in o.envs :: Components(s, e) == [])
            && (forall t, e | t in o.teams && e in l.envsOf(t) :: Components(s, e) == [])
  {
    hide RolledUp, Runs, After, AllowedRun, Quiet, ValidLayout, Components, Breaks;
    if Harmless(o, l, s) {
      forall actions | Runs(l, s, actions) && AllowedRun(o, l, s, actions) && Quiet(After(l, s, actions))
        ensures RolledUp(l, After(l, s, actions))
      {
        QuietIsRolledUp(o, l, s, actions);
      }
    } else if e :| e in o.envs && Components(s, e) != [] {
      var actions := EnvOverlapBreaks(o, l, s, e);
      BrokenRun(o, l, s, actions);
    } else {
      var t, e :| t in o.teams && e in l.envsOf(t) && Components(s, e) != [];
      var actions := TeamOverlapBreaks(o, l, s, t, e);
      BrokenRun(o, l, s, actions);
    }
  }
}
