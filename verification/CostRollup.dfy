/**
 The cost roll-up of the api service: a changed component cost makes a listener recompute the
 environment's cost, and a changed environment cost makes another one recompute the team's
 (api/src/reconciliation/reconciliation.service.ts, api/src/team/team.service.ts and the two entity
 subscribers under api/src/stream). Costs are integers in thousandths. A listener awaits the database
 between reading and writing, so each is two steps here: what it read, and what it writes.
 */
module CostRollup {

  type EnvId = nat
  type TeamId = nat

  /** The environments and teams, which do not change during a run. */
  datatype Layout = Layout(teamOf: EnvId -> TeamId, envsOf: TeamId -> seq<EnvId>)

  ghost predicate ValidLayout(l: Layout) {
    forall t, e | e in l.envsOf(t) :: l.teamOf(e) == t
  }

  datatype Job = Job(key: nat, total: int)

  datatype System = System(
    components: map<EnvId, seq<int>>,
    envCost: map<EnvId, int>,
    teamCost: map<TeamId, int>,
    componentEvents: multiset<EnvId>,
    envEvents: multiset<TeamId>,
    envJobs: multiset<Job>,
    teamJobs: multiset<Job>)

  datatype Action =
    | UpdateComponent(env: EnvId, index: nat, cost: int)
    | BeginEnv(env: EnvId)
    | FinishEnv(envJob: Job)
    | BeginTeam(team: TeamId)
    | FinishTeam(teamJob: Job)

  /** Columns default to zero, and an environment without rows has no components. */
  function Components(s: System, e: EnvId): seq<int> {
    if e in s.components then s.components[e] else []
  }

  function Cost(costs: map<nat, int>, k: nat): int {
    if k in costs then costs[k] else 0
  }

  /** The sum of the positive entries. */
  function PositiveSum(costs: seq<int>): int {
    if costs == [] then 0
    else
      PositiveSum(costs[..|costs| - 1]) + (if costs[|costs| - 1] > 0 then costs[|costs| - 1] else 0)
  }

  function CostsOf(envs: seq<EnvId>, envCost: map<EnvId, int>): seq<int> {
    seq(|envs|, i requires 0 <= i < |envs| => Cost(envCost, envs[i]))
  }

  function EnvTotal(s: System, e: EnvId): int {
    PositiveSum(Components(s, e))
  }

  function TeamTotal(l: Layout, s: System, t: TeamId): int {
    PositiveSum(CostsOf(l.envsOf(t), s.envCost))
  }

  /** The loop of both updateCost methods. */
  method SumPositive(costs: seq<int>) returns (estimatedCost: int)
    ensures estimatedCost == PositiveSum(costs)
  {
    estimatedCost := 0;
    for i := 0 to |costs|
      invariant estimatedCost == PositiveSum(costs[..i])
    {
      assert costs[..i + 1][..i] == costs[..i];
      if costs[i] > 0 {
        estimatedCost := estimatedCost + costs[i];
      }
    }
    assert costs[..|costs|] == costs;
  }

  predicate Enabled(s: System, a: Action) {
    match a
    case UpdateComponent(e, i, _) => i < |Components(s, e)|
    case BeginEnv(e) => e in s.componentEvents
    case FinishEnv(j) => j in s.envJobs
    case BeginTeam(t) => t in s.envEvents
    case FinishTeam(j) => j in s.teamJobs
  }

  /** Entity subscribers emit only for columns that changed, so writing the stored value emits nothing. */
  function Next(l: Layout, s: System, a: Action): System
    requires Enabled(s, a)
  {
    match a
    case UpdateComponent(e, i, cost) =>
      if Components(s, e)[i] == cost then s
      else s.(components := s.components[e := Components(s, e)[i := cost]],
              componentEvents := s.componentEvents + multiset{e})
    case BeginEnv(e) =>
      s.(componentEvents := s.componentEvents - multiset{e}, envJobs := s.envJobs + multiset{Job(e, EnvTotal(s, e))})
    case FinishEnv(j) =>
      var t := s.(envJobs := s.envJobs - multiset{j});
      if Cost(s.envCost, j.key) == j.total then t
      else t.(envCost := s.envCost[j.key := j.total], envEvents := s.envEvents + multiset{l.teamOf(j.key)})
    case BeginTeam(t) =>
      s.(envEvents := s.envEvents - multiset{t}, teamJobs := s.teamJobs + multiset{Job(t, TeamTotal(l, s, t))})
    case FinishTeam(j) =>
      s.(teamJobs := s.teamJobs - multiset{j}, teamCost := s.teamCost[j.key := j.total])
  }

  /** The environments and the teams for which several listeners may be between read and write. */
  datatype Overlaps = Overlaps(envs: iset<EnvId>, teams: iset<TeamId>)

  /** For any other environment or team a listener starts only when none is between read and write. */
  ghost predicate Allowed(o: Overlaps, s: System, a: Action) {
    match a
    case BeginEnv(e) => e in o.envs || forall j | j in s.envJobs :: j.key != e
    case BeginTeam(t) => t in o.teams || forall j | j in s.teamJobs :: j.key != t
    case _ => true
  }

  ghost predicate Runs(l: Layout, s: System, actions: seq<Action>)
    decreases |actions|
  {
    actions == [] || (Enabled(s, actions[0]) && Runs(l, Next(l, s, actions[0]), actions[1..]))
  }

  ghost function After(l: Layout, s: System, actions: seq<Action>): System
    requires Runs(l, s, actions)
    decreases |actions|
  {
    if actions == [] then s else After(l, Next(l, s, actions[0]), actions[1..])
  }

  ghost predicate AllowedRun(o: Overlaps, l: Layout, s: System, actions: seq<Action>)
    requires Runs(l, s, actions)
    decreases |actions|
  {
    actions == [] || (Allowed(o, s, actions[0]) && AllowedRun(o, l, Next(l, s, actions[0]), actions[1..]))
  }

  predicate Quiet(s: System) {
    s.componentEvents == multiset{} && s.envEvents == multiset{} && s.envJobs == multiset{} && s.teamJobs == multiset{}
  }

  ghost predicate RolledUp(l: Layout, s: System) {
    && (forall e :: Cost(s.envCost, e) == EnvTotal(s, e))
    && (forall t :: Cost(s.teamCost, t) == TeamTotal(l, s, t))
  }

  /**
   Unless an event for `k` waits, every running listener holds its true total, and when none runs
   that total is what is stored.
   */
  ghost predicate Covered(events: multiset<nat>, jobs: multiset<Job>, stored: int, k: nat, total: int) {
    k in events ||
    ((forall j | j in jobs && j.key == k :: j.total == total) && ((forall j | j in jobs :: j.key != k) ==> stored == total))
  }

  ghost predicate EnvCovered(s: System, e: EnvId) {
    Covered(s.componentEvents, s.envJobs, Cost(s.envCost, e), e, EnvTotal(s, e))
  }

  ghost predicate TeamCovered(l: Layout, s: System, t: TeamId) {
    Covered(s.envEvents, s.teamJobs, Cost(s.teamCost, t), t, TeamTotal(l, s, t))
  }

  lemma BeginCovers(events: multiset<nat>, jobs: multiset<Job>, stored: int, k: nat, total: int, j: Job)
    requires Covered(events, jobs, stored, k, total)
    requires j.key == k ==> j.total == total && forall i | i in jobs :: i.key != k
    ensures Covered(events - multiset{j.key}, jobs + multiset{j}, stored, k, total)
  {
    assert j in jobs + multiset{j};
    assert forall i | i in jobs + multiset{j} :: i in jobs || i == j;
    assert k != j.key && k in events ==> k in events - multiset{j.key};
    assert forall i | i in jobs :: i in jobs + multiset{j};
  }

  lemma FinishCovers(events: multiset<nat>, jobs: multiset<Job>, stored: int, k: nat, total: int, j: Job)
    requires Covered(events, jobs, stored, k, total) && j in jobs
    ensures Covered(events, jobs - multiset{j}, if j.key == k then j.total else stored, k, total)
  {
    assert forall i | i in jobs - multiset{j} :: i in jobs;
    assert forall i | i in jobs && i != j :: i in jobs - multiset{j};
  }

  lemma EnvTotalKept(l: Layout, s: System, a: Action, e: EnvId)
    requires Enabled(s, a) && !(a.UpdateComponent? && a.env == e)
    ensures EnvTotal(Next(l, s, a), e) == EnvTotal(s, e)
  {
  }

  lemma EnvCoveredKept(o: Overlaps, l: Layout, s: System, a: Action, e: EnvId)
    requires Enabled(s, a) && Allowed(o, s, a) && e !in o.envs && EnvCovered(s, e)
    ensures EnvCovered(Next(l, s, a), e)
  {
    hide PositiveSum, TeamTotal;
    if a.UpdateComponent? && a.env == e {
      if Components(s, e)[a.index] != a.cost {
        assert e in Next(l, s, a).componentEvents;
      }
    } else {
      EnvTotalKept(l, s, a, e);
      hide EnvTotal, Covered;
      match a
      case UpdateComponent(b, _, _) => MoreEvents(s.componentEvents, s.envJobs, Cost(s.envCost, e), e, EnvTotal(s, e), b);
      case BeginEnv(b) =>
        BeginCovers(s.componentEvents, s.envJobs, Cost(s.envCost, e), e, EnvTotal(s, e), Job(b, EnvTotal(s, b)));
      case FinishEnv(j) =>
        FinishCovers(s.componentEvents, s.envJobs, Cost(s.envCost, e), e, EnvTotal(s, e), j);
      case _ =>
    }
  }

  lemma MoreEvents(events: multiset<nat>, jobs: multiset<Job>, stored: int, k: nat, total: int, b: nat)
    requires Covered(events, jobs, stored, k, total)
    ensures Covered(events + multiset{b}, jobs, stored, k, total)
  {
    assert k in events ==> k in events + multiset{b};
  }

  lemma TeamTotalKept(l: Layout, s: System, a: Action, t: TeamId)
    requires ValidLayout(l) && Enabled(s, a)
    requires a.FinishEnv? ==> l.teamOf(a.envJob.key) != t || Cost(s.envCost, a.envJob.key) == a.envJob.total
    ensures TeamTotal(l, Next(l, s, a), t) == TeamTotal(l, s, t)
  {
    assert CostsOf(l.envsOf(t), Next(l, s, a).envCost) == CostsOf(l.envsOf(t), s.envCost);
  }

  /** A written environment cost leaves an event for its team behind, if it is new. */
  lemma TeamNotified(l: Layout, s: System, j: Job)
    requires Enabled(s, FinishEnv(j)) && Cost(s.envCost, j.key) != j.total
    ensures TeamCovered(l, Next(l, s, FinishEnv(j)), l.teamOf(j.key))
  {
    hide TeamTotal;
    assert l.teamOf(j.key) in Next(l, s, FinishEnv(j)).envEvents;
  }

  lemma TeamCoveredKept(o: Overlaps, l: Layout, s: System, a: Action, t: TeamId)
    requires ValidLayout(l) && Enabled(s, a) && Allowed(o, s, a) && t !in o.teams && TeamCovered(l, s, t)
    ensures TeamCovered(l, Next(l, s, a), t)
  {
    hide EnvTotal, PositiveSum;
    if a.FinishEnv? && l.teamOf(a.envJob.key) == t && Cost(s.envCost, a.envJob.key) != a.envJob.total {
      TeamNotified(l, s, a.envJob);
    } else {
      TeamTotalKept(l, s, a, t);
      hide TeamTotal, Covered;
      var total := TeamTotal(l, s, t);
      match a
      case FinishEnv(j) => MoreEvents(s.envEvents, s.teamJobs, Cost(s.teamCost, t), t, total, l.teamOf(j.key));
      case BeginTeam(b) =>
        BeginCovers(s.envEvents, s.teamJobs, Cost(s.teamCost, t), t, total, Job(b, TeamTotal(l, s, b)));
      case FinishTeam(j) => FinishCovers(s.envEvents, s.teamJobs, Cost(s.teamCost, t), t, total, j);
      case _ =>
    }
  }

  /******* Keys whose overlaps do no harm *******/

  /** An environment without components: nothing ever happens to it. */
  ghost predicate IdleEnv(s: System, e: EnvId) {
    && Components(s, e) == [] && e !in s.componentEvents && Cost(s.envCost, e) == 0
    && forall j | j in s.envJobs :: j.key != e
  }

  lemma IdleEnvKept(l: Layout, s: System, a: Action, e: EnvId)
    requires IdleEnv(s, e) && Enabled(s, a)
    ensures IdleEnv(Next(l, s, a), e)
  {
    hide PositiveSum, TeamTotal;
  }

  ghost predicate IdleTeam(l: Layout, s: System, t: TeamId) {
    && (forall e | e in l.envsOf(t) :: IdleEnv(s, e))
    && Cost(s.teamCost, t) == TeamTotal(l, s, t)
    && forall j | j in s.teamJobs && j.key == t :: j.total == TeamTotal(l, s, t)
  }

  lemma OwnTotalKept(l: Layout, s: System, a: Action, t: TeamId)
    requires Enabled(s, a) && (a.FinishEnv? ==> a.envJob.key !in l.envsOf(t))
    ensures TeamTotal(l, Next(l, s, a), t) == TeamTotal(l, s, t)
  {
    hide PositiveSum;
    assert CostsOf(l.envsOf(t), Next(l, s, a).envCost) == CostsOf(l.envsOf(t), s.envCost);
  }

  lemma IdleTeamKept(l: Layout, s: System, a: Action, t: TeamId)
    requires IdleTeam(l, s, t) && Enabled(s, a)
    ensures IdleTeam(l, Next(l, s, a), t)
  {
    forall e | e in l.envsOf(t) ensures IdleEnv(Next(l, s, a), e) {
      IdleEnvKept(l, s, a, e);
    }
    assert a.FinishEnv? ==> a.envJob.key !in l.envsOf(t);
    hide IdleEnv;
    OwnTotalKept(l, s, a, t);
    IdleJobsKept(l, s, a, t);
    hide TeamTotal, EnvTotal, Next, Enabled;
  }

  lemma IdleJobsKept(l: Layout, s: System, a: Action, t: TeamId)
    requires Enabled(s, a) && Cost(s.teamCost, t) == TeamTotal(l, s, t)
    requires forall j | j in s.teamJobs && j.key == t :: j.total == TeamTotal(l, s, t)
    ensures Cost(Next(l, s, a).teamCost, t) == TeamTotal(l, s, t)
    ensures forall j | j in Next(l, s, a).teamJobs && j.key == t :: j.total == TeamTotal(l, s, t)
  {
    hide TeamTotal, EnvTotal;
  }

  /** No overlap is allowed that a component is part of. */
  ghost predicate Harmless(o: Overlaps, l: Layout, s: System) {
    && (forall e | e in o.envs :: Components(s, e) == [])
    && (forall t, e | t in o.teams && e in l.envsOf(t) :: Components(s, e) == [])
  }

  ghost predicate EnvRight(o: Overlaps, s: System, e: EnvId) {
    if e in o.envs then IdleEnv(s, e) else EnvCovered(s, e)
  }

  ghost predicate TeamRight(o: Overlaps, l: Layout, s: System, t: TeamId) {
    if t in o.teams then IdleTeam(l, s, t) else TeamCovered(l, s, t)
  }

  lemma StepKeepsRight(o: Overlaps, l: Layout, s: System, a: Action, k: nat)
    requires ValidLayout(l) && Enabled(s, a) && Allowed(o, s, a)
    ensures EnvRight(o, s, k) ==> EnvRight(o, Next(l, s, a), k)
    ensures TeamRight(o, l, s, k) ==> TeamRight(o, l, Next(l, s, a), k)
  {
    hide IdleEnv, IdleTeam, EnvCovered, TeamCovered, Next, Allowed, ValidLayout;
    if EnvRight(o, s, k) {
      if k in o.envs {
        IdleEnvKept(l, s, a, k);
      } else {
        EnvCoveredKept(o, l, s, a, k);
      }
    }
    if TeamRight(o, l, s, k) {
      if k in o.teams {
        IdleTeamKept(l, s, a, k);
      } else {
        TeamCoveredKept(o, l, s, a, k);
      }
    }
  }

  lemma {:induction false} RightAfter(o: Overlaps, l: Layout, s: System, actions: seq<Action>, k: nat)
    requires ValidLayout(l) && Runs(l, s, actions) && AllowedRun(o, l, s, actions)
    requires EnvRight(o, s, k) && TeamRight(o, l, s, k)
    ensures EnvRight(o, After(l, s, actions), k) && TeamRight(o, l, After(l, s, actions), k)
    decreases |actions|
  {
    if actions != [] {
      StepKeepsRight(o, l, s, actions[0], k);
      hide EnvRight, TeamRight, Next, Enabled, Allowed;
      RightAfter(o, l, Next(l, s, actions[0]), actions[1..], k);
    }
  }

  /**
   From a rolled-up start, in every interleaving of cost updates and listeners in which listeners
   overlap only where there are no components, an idle system is rolled up.
   */
  lemma QuietIsRolledUp(o: Overlaps, l: Layout, s: System, actions: seq<Action>)
    requires ValidLayout(l) && RolledUp(l, s) && Quiet(s) && Harmless(o, l, s)
    requires Runs(l, s, actions) && AllowedRun(o, l, s, actions) && Quiet(After(l, s, actions))
    ensures RolledUp(l, After(l, s, actions))
  {
    var t := After(l, s, actions);
    forall k
      ensures Cost(t.envCost, k) == EnvTotal(t, k) && Cost(t.teamCost, k) == TeamTotal(l, t, k)
    {
      assert EnvRight(o, s, k) && TeamRight(o, l, s, k) by {
        assert forall e | Components(s, e) == [] :: IdleEnv(s, e);
      }
      RightAfter(o, l, s, actions, k);
      assert EnvRight(o, t, k) && TeamRight(o, l, t, k);
    }
  }

  predicate StepsTo(l: Layout, s: System, a: Action, t: System) {
    Enabled(s, a) && Next(l, s, a) == t
  }

  /******* The listeners as methods *******/

  /** The two steps of an environment listener, taken in a row. */
  lemma UninterruptedEnvListener(l: Layout, s: System, e: EnvId)
    requires Enabled(s, BeginEnv(e))
    ensures var total := EnvTotal(s, e);
            var t := s.(componentEvents := s.componentEvents - multiset{e});
            StepsTo(l, Next(l, s, BeginEnv(e)), FinishEnv(Job(e, total)),
                    if Cost(s.envCost, e) == total then t
                    else t.(envCost := s.envCost[e := total], envEvents := s.envEvents + multiset{l.teamOf(e)}))
  {
    hide PositiveSum, TeamTotal;
    var j := Job(e, EnvTotal(s, e));
    assert s.envJobs + multiset{j} - multiset{j} == s.envJobs;
  }

  /** The stored costs with the pending events; a listener that is not interrupted is its two steps in a row. */
  class CostStore {
    var state: System

    constructor (state: System)
      ensures this.state == state
    {
      this.state := state;
    }

    method EnvCostListener(l: Layout, e: EnvId)
      requires Enabled(state, BeginEnv(e))
      modifies this
      ensures var j := Job(e, EnvTotal(old(state), e));
              StepsTo(l, Next(l, old(state), BeginEnv(e)), FinishEnv(j), state)
    {
      UninterruptedEnvListener(l, state, e);
      hide StepsTo, Enabled;
      var estimatedCost := SumPositive(Components(state, e));
      state := state.(componentEvents := state.componentEvents - multiset{e});
      if Cost(state.envCost, e) != estimatedCost {
        state := state.(envCost := state.envCost[e := estimatedCost],
                        envEvents := state.envEvents + multiset{l.teamOf(e)});
      }
    }

    method TeamCostListener(l: Layout, t: TeamId)
      requires Enabled(state, BeginTeam(t))
      modifies this
      ensures var j := Job(t, TeamTotal(l, old(state), t));
              StepsTo(l, Next(l, old(state), BeginTeam(t)), FinishTeam(j), state)
    {
      var estimatedCost := SumPositive(CostsOf(l.envsOf(t), state.envCost));
      state := state.(envEvents := state.envEvents - multiset{t}, teamCost := state.teamCost[t := estimatedCost]);
      assert state.teamJobs + multiset{Job(t, estimatedCost)} - multiset{Job(t, estimatedCost)} == state.teamJobs;
    }
  }
}
