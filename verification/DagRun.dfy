/**
 Step semantics of the executor that runs a generated DAG. A run is a log of events; the log is
 the whole state. A task may start once all its `Dependencies` have succeeded; a started task ends
 once, in success or in failure.
 */
module DagRun {
  import opened Types
  import opened Graphs

  datatype Arguments =
    | AuditArguments(isDestroy: bool, phase: string, status: string, reconcileId: string)
    | TriggerArguments(configName: string, isDestroy: bool, autoApprove: bool, skipComponent: string)

  datatype Task = Task(name: string, dependencies: seq<string>, arguments: Arguments)

  datatype Event = Start(task: string) | Succeed(task: string) | Fail(task: string)

  ghost function TaskNames(tasks: seq<Task>): set<string> {
    set t | t in tasks :: t.name
  }

  ghost function TaskEdges(tasks: seq<Task>): Graph {
    set t, d | t in tasks && d in t.dependencies :: (d, t.name)
  }

  ghost predicate UniqueTasks(tasks: seq<Task>) {
    forall i, j | 0 <= i < j < |tasks| :: tasks[i].name != tasks[j].name
  }

  /** Every dependency names a task. */
  ghost predicate Closed(tasks: seq<Task>) {
    forall t, d | t in tasks && d in t.dependencies :: d in TaskNames(tasks)
  }

  ghost predicate Ended(log: seq<Event>, name: string) {
    Succeed(name) in log || Fail(name) in log
  }

  ghost predicate Ready(t: Task, log: seq<Event>) {
    forall d | d in t.dependencies :: Succeed(d) in log
  }

  ghost predicate Enabled(tasks: seq<Task>, log: seq<Event>, e: Event) {
    match e
    case Start(n) => e !in log && exists t :: t in tasks && t.name == n && Ready(t, log)
    case Succeed(n) => Start(n) in log && !Ended(log, n)
    case Fail(n) => Start(n) in log && !Ended(log, n)
  }

  ghost predicate IsRun(tasks: seq<Task>, log: seq<Event>) {
    forall i | 0 <= i < |log| :: Enabled(tasks, log[..i], log[i])
  }

  ghost predicate Completed(tasks: seq<Task>, log: seq<Event>) {
    forall t | t in tasks :: Succeed(t.name) in log
  }

  ghost predicate FailureFree(log: seq<Event>) {
    forall e | e in log :: !e.Fail?
  }

  lemma RunPrefix(tasks: seq<Task>, log: seq<Event>, k: nat)
    requires IsRun(tasks, log) && k <= |log|
    ensures IsRun(tasks, log[..k])
  {
    forall i | 0 <= i < k ensures Enabled(tasks, log[..k][..i], log[..k][i]) {
      assert log[..k][..i] == log[..i];
      assert Enabled(tasks, log[..i], log[i]);
    }
  }

  lemma RunStep(tasks: seq<Task>, log: seq<Event>, e: Event)
    requires IsRun(tasks, log) && Enabled(tasks, log, e)
    ensures IsRun(tasks, log + [e])
  {
    var next := log + [e];
    forall i | 0 <= i < |next| ensures Enabled(tasks, next[..i], next[i]) {
      if i < |log| {
        assert next[..i] == log[..i];
        assert Enabled(tasks, log[..i], log[i]);
      } else {
        assert next[..i] == log;
      }
    }
  }

  /** An event of a run was enabled by what precedes it. */
  lemma EventEnabled(tasks: seq<Task>, log: seq<Event>, e: Event) returns (i: nat)
    requires IsRun(tasks, log) && e in log
    ensures i < |log| && log[i] == e && Enabled(tasks, log[..i], e)
  {
    i :| 0 <= i < |log| && log[i] == e;
    assert Enabled(tasks, log[..i], log[i]);
  }

  /** No event happens twice, and no task both succeeds and fails. */
  lemma EventsDistinct(tasks: seq<Task>, log: seq<Event>)
    requires IsRun(tasks, log)
    ensures Distinct(log)
    ensures forall n :: !(Succeed(n) in log && Fail(n) in log)
  {
    forall i, j | 0 <= i < j < |log|
      ensures log[i] != log[j]
      ensures !(log[i].Succeed? && log[j] == Fail(log[i].task))
      ensures !(log[i].Fail? && log[j] == Succeed(log[i].task))
    {
      assert log[..j][i] == log[i];
      assert Enabled(tasks, log[..j], log[j]);
    }
  }

  /** A task that started had, at that moment, all its dependencies finished in success. */
  lemma StartedAfterDependencies(tasks: seq<Task>, log: seq<Event>, i: nat, t: Task)
    requires UniqueTasks(tasks) && t in tasks
    requires IsRun(tasks, log) && i < |log| && log[i] == Start(t.name)
    ensures Ready(t, log[..i])
  {
    assert Enabled(tasks, log[..i], log[i]);
    var u :| u in tasks && u.name == t.name && Ready(u, log[..i]);
  }

  ghost function Unstarted(tasks: seq<Task>, log: seq<Event>): set<string> {
    set n | n in TaskNames(tasks) && Start(n) !in log
  }

  ghost function Unended(tasks: seq<Task>, log: seq<Event>): set<string> {
    set n | n in TaskNames(tasks) && !Ended(log, n)
  }

  lemma StartedIsTask(tasks: seq<Task>, log: seq<Event>, n: string)
    requires IsRun(tasks, log) && (Start(n) in log || Ended(log, n))
    ensures n in TaskNames(tasks) && Start(n) in log
  {
    if Start(n) !in log {
      var e := if Succeed(n) in log then Succeed(n) else Fail(n);
      var k := EventEnabled(tasks, log, e);
    }
    var i := EventEnabled(tasks, log, Start(n));
  }

  lemma StepChangesSets(tasks: seq<Task>, log: seq<Event>, e: Event)
    ensures Unstarted(tasks, log + [e]) == Unstarted(tasks, log) - (if e.Start? then {e.task} else {})
    ensures Unended(tasks, log + [e]) == Unended(tasks, log) - (if e.Start? then {} else {e.task})
  {
    forall n
      ensures Start(n) in log + [e] <==> Start(n) in log || e == Start(n)
      ensures Ended(log + [e], n) <==> Ended(log, n) || e == Succeed(n) || e == Fail(n)
    {
    }
  }

  lemma StepUsesSlot(tasks: seq<Task>, log: seq<Event>, e: Event)
    requires IsRun(tasks, log) && Enabled(tasks, log, e)
    ensures |Unstarted(tasks, log)| + |Unended(tasks, log)|
         == |Unstarted(tasks, log + [e])| + |Unended(tasks, log + [e])| + 1
  {
    StepChangesSets(tasks, log, e);
    if e.Start? {
      assert e.task in Unstarted(tasks, log);
    } else {
      StartedIsTask(tasks, log, e.task);
      assert e.task in Unended(tasks, log);
    }
  }

  /** Each event uses up one of the 2n start and end slots, so runs are bounded. */
  lemma {:induction false} RunLength(tasks: seq<Task>, log: seq<Event>)
    requires IsRun(tasks, log)
    ensures |log| + |Unstarted(tasks, log)| + |Unended(tasks, log)| == 2 * |TaskNames(tasks)|
  {
    if log == [] {
      assert Unstarted(tasks, log) == TaskNames(tasks);
      assert Unended(tasks, log) == TaskNames(tasks);
    } else {
      var k := |log| - 1;
      RunPrefix(tasks, log, k);
      RunLength(tasks, log[..k]);
      assert Enabled(tasks, log[..k], log[k]);
      StepUsesSlot(tasks, log[..k], log[k]);
      assert log == log[..k] + [log[k]];
    }
  }

  /** No deadlock: a failure-free run over an acyclic closed DAG goes on until every task succeeded. */
  lemma Progress(tasks: seq<Task>, log: seq<Event>) returns (e: Event)
    requires Closed(tasks) && Acyclic(TaskEdges(tasks))
    requires IsRun(tasks, log) && FailureFree(log) && !Completed(tasks, log)
    ensures !e.Fail? && Enabled(tasks, log, e)
  {
    if n :| Start(n) in log && Succeed(n) !in log {
      e := Succeed(n);
    } else {
      var waiting := Unstarted(tasks, log);
      var t :| t in tasks && Succeed(t.name) !in log;
      assert t.name in waiting;
      var n := HasSource(TaskEdges(tasks), waiting);
      var u :| u in tasks && u.name == n;
      forall d | d in u.dependencies ensures Succeed(d) in log {
        assert (d, n) in TaskEdges(tasks);
        assert d in TaskNames(tasks);
        assert d !in waiting;
      }
      assert Ready(u, log);
      e := Start(n);
    }
  }

  lemma RunToCompletion(tasks: seq<Task>, log: seq<Event>) returns (full: seq<Event>)
    requires Closed(tasks) && Acyclic(TaskEdges(tasks))
    requires IsRun(tasks, log) && FailureFree(log)
    ensures log <= full && IsRun(tasks, full) && FailureFree(full) && Completed(tasks, full)
    decreases 2 * |TaskNames(tasks)| - |log|
  {
    if Completed(tasks, log) {
      full := log;
    } else {
      var e := Progress(tasks, log);
      RunStep(tasks, log, e);
      RunLength(tasks, log + [e]);
      full := RunToCompletion(tasks, log + [e]);
    }
  }

  /** A completed run orders the tasks, so there was no cycle and no dangling dependency. */
  lemma CompletedIsSound(tasks: seq<Task>, log: seq<Event>)
    requires UniqueTasks(tasks) && IsRun(tasks, log) && Completed(tasks, log)
    ensures Closed(tasks) && Acyclic(TaskEdges(tasks))
  {
    var rank := map n | n in TaskNames(tasks) && Start(n) in log :: IndexOf(log, Start(n));
    forall t, d | t in tasks && d in t.dependencies
      ensures d in rank && t.name in rank && rank[d] < rank[t.name]
    {
      StartedIsTask(tasks, log, t.name);
      var i := IndexOf(log, Start(t.name));
      StartedAfterDependencies(tasks, log, i, t);
      RunPrefix(tasks, log, i);
      StartedIsTask(tasks, log[..i], d);
      EventsDistinct(tasks, log);
    }
    RankedAcyclic(TaskEdges(tasks), rank);
  }

  /** A DAG can be run to completion exactly when it is closed and acyclic. */
  lemma CompletableIff(tasks: seq<Task>)
    requires UniqueTasks(tasks)
    ensures (exists log :: IsRun(tasks, log) && Completed(tasks, log)) <==> Closed(tasks) && Acyclic(TaskEdges(tasks))
  {
    if log :| IsRun(tasks, log) && Completed(tasks, log) {
      CompletedIsSound(tasks, log);
    }
    if Closed(tasks) && Acyclic(TaskEdges(tasks)) {
      var full := RunToCompletion(tasks, []);
    }
  }

  /******* Runs with failures *******/

  /** Nothing can happen any more. */
  ghost predicate Maximal(tasks: seq<Task>, log: seq<Event>) {
    forall e :: !Enabled(tasks, log, e)
  }

  /** The task, or one it directly or indirectly waits for, failed. */
  ghost predicate FailedAbove(tasks: seq<Task>, log: seq<Event>, n: string) {
    exists p :: FailsDownTo(tasks, log, p, n)
  }

  ghost predicate FailsDownTo(tasks: seq<Task>, log: seq<Event>, p: seq<string>, n: string) {
    |p| >= 1 && Walk(TaskEdges(tasks), p) && p[|p| - 1] == n && Fail(p[0]) in log
  }

  lemma SucceededBefore(tasks: seq<Task>, log: seq<Event>, d: string, n: string)
    requires UniqueTasks(tasks) && IsRun(tasks, log) && (d, n) in TaskEdges(tasks) && Succeed(n) in log
    ensures Succeed(d) in log
  {
    var t, d' :| t in tasks && d' in t.dependencies && (d', t.name) == (d, n);
    StartedIsTask(tasks, log, n);
    var i := EventEnabled(tasks, log, Start(n));
    StartedAfterDependencies(tasks, log, i, t);
  }

  lemma {:induction false} SucceededAlong(tasks: seq<Task>, log: seq<Event>, p: seq<string>)
    requires UniqueTasks(tasks) && IsRun(tasks, log)
    requires |p| >= 1 && Walk(TaskEdges(tasks), p) && Succeed(p[|p| - 1]) in log
    ensures Succeed(p[0]) in log
  {
    hide TaskEdges, UniqueTasks, IsRun;
    var n := |p| - 1;
    if n > 0 {
      assert (p[n - 1], p[n]) in TaskEdges(tasks);
      SucceededBefore(tasks, log, p[n - 1], p[n]);
      assert forall k | 0 <= k < n - 1 :: (p[k], p[k + 1]) in TaskEdges(tasks);
      SucceededAlong(tasks, log, p[..n]);
    }
  }

  lemma SucceededIsClear(tasks: seq<Task>, log: seq<Event>, n: string)
    requires UniqueTasks(tasks) && IsRun(tasks, log) && Succeed(n) in log
    ensures !FailedAbove(tasks, log, n)
  {
    forall p ensures !FailsDownTo(tasks, log, p, n) {
      if FailsDownTo(tasks, log, p, n) {
        SucceededAlong(tasks, log, p);
        EventsDistinct(tasks, log);
      }
    }
  }

  lemma FailureSpreads(tasks: seq<Task>, log: seq<Event>, t: Task, d: string)
    requires t in tasks && d in t.dependencies && FailedAbove(tasks, log, d)
    ensures FailedAbove(tasks, log, t.name)
  {
    var p :| FailsDownTo(tasks, log, p, d);
    var q := p + [t.name];
    assert (d, t.name) in TaskEdges(tasks);
    forall k | 0 <= k < |q| - 1 ensures (q[k], q[k + 1]) in TaskEdges(tasks) {
      if k < |p| - 1 {
        assert (p[k], p[k + 1]) in TaskEdges(tasks);
      }
    }
    assert FailsDownTo(tasks, log, q, t.name);
  }

  /** In a maximal run a task whose dependencies all succeeded has succeeded or failed. */
  lemma ReadyHasEnded(tasks: seq<Task>, log: seq<Event>, t: Task)
    requires Maximal(tasks, log) && t in tasks && Ready(t, log)
    ensures Ended(log, t.name)
  {
    assert !Enabled(tasks, log, Start(t.name));
    assert !Enabled(tasks, log, Succeed(t.name));
  }

  lemma OwnFailure(tasks: seq<Task>, log: seq<Event>, n: string)
    ensures Fail(n) in log ==> FailedAbove(tasks, log, n)
  {
    if Fail(n) in log {
      assert Walk(TaskEdges(tasks), [n]) && FailsDownTo(tasks, log, [n], n);
    }
  }

  ghost function Missed(tasks: seq<Task>, log: seq<Event>): set<string> {
    set m | m in TaskNames(tasks) && Succeed(m) !in log && !FailedAbove(tasks, log, m)
  }

  /** Of the tasks that did not succeed though nothing failed above them, one waits for nothing. */
  lemma MissedIsReady(tasks: seq<Task>, log: seq<Event>) returns (t: Task)
    requires Closed(tasks) && Acyclic(TaskEdges(tasks)) && Missed(tasks, log) != {}
    ensures t in tasks && t.name in Missed(tasks, log) && Ready(t, log)
  {
    var missed := Missed(tasks, log);
    var m := HasSource(TaskEdges(tasks), missed);
    t :| t in tasks && t.name == m;
    forall d | d in t.dependencies ensures Succeed(d) in log {
      assert (d, m) in TaskEdges(tasks) && d in TaskNames(tasks);
      if FailedAbove(tasks, log, d) {
        FailureSpreads(tasks, log, t, d);
      }
      assert d !in missed;
    }
  }

  /**
   Without fail-fast: whatever fails, and in whatever order the executor goes on, when nothing can happen any more,
   exactly the tasks succeeded that neither failed nor wait, however indirectly, for one that did.
   */
  lemma MaximalRunIff(tasks: seq<Task>, log: seq<Event>, n: string)
    requires UniqueTasks(tasks) && Closed(tasks) && Acyclic(TaskEdges(tasks))
    requires IsRun(tasks, log) && Maximal(tasks, log) && n in TaskNames(tasks)
    ensures Succeed(n) in log <==> !FailedAbove(tasks, log, n)
  {
    if Succeed(n) in log {
      SucceededIsClear(tasks, log, n);
    }
    if n in Missed(tasks, log) {
      var t := MissedIsReady(tasks, log);
      ReadyHasEnded(tasks, log, t);
      OwnFailure(tasks, log, t.name);
    }
  }

  /******* Fail-fast, the default: after a failure nothing new is started *******/

  ghost predicate FailFastEnabled(tasks: seq<Task>, log: seq<Event>, e: Event) {
    Enabled(tasks, log, e) && (e.Start? ==> FailureFree(log))
  }

  ghost predicate FailFastRun(tasks: seq<Task>, log: seq<Event>) {
    forall i | 0 <= i < |log| :: FailFastEnabled(tasks, log[..i], log[i])
  }

  ghost predicate FailFastMaximal(tasks: seq<Task>, log: seq<Event>) {
    forall e :: !FailFastEnabled(tasks, log, e)
  }

  /** Fail-fast only leaves runs out, so what every run keeps is kept. */
  lemma FailFastIsRun(tasks: seq<Task>, log: seq<Event>)
    requires FailFastRun(tasks, log)
    ensures IsRun(tasks, log)
  {
    forall i | 0 <= i < |log| ensures Enabled(tasks, log[..i], log[i]) {
      assert FailFastEnabled(tasks, log[..i], log[i]);
    }
  }

  lemma FailFastProgress(tasks: seq<Task>, log: seq<Event>) returns (e: Event)
    requires Closed(tasks) && Acyclic(TaskEdges(tasks))
    requires IsRun(tasks, log) && FailureFree(log) && !Completed(tasks, log)
    ensures FailFastEnabled(tasks, log, e)
  {
    e := Progress(tasks, log);
  }

  /**
   A fail-fast run that cannot go on has completed exactly when nothing failed. If something did, then
   nothing started after that, everything started has ended, and exactly the started tasks
   succeeded that neither failed nor wait for one that did.
   */
  lemma FailFastIff(tasks: seq<Task>, log: seq<Event>)
    requires UniqueTasks(tasks) && Closed(tasks) && Acyclic(TaskEdges(tasks))
    requires FailFastRun(tasks, log) && FailFastMaximal(tasks, log)
    ensures Completed(tasks, log) <==> FailureFree(log)
    ensures forall i, j | 0 <= i < j < |log| && log[i].Fail? :: !log[j].Start?
    ensures forall n :: Succeed(n) in log <==> Start(n) in log && !FailedAbove(tasks, log, n)
  {
    FailFastIsRun(tasks, log);
    if FailureFree(log) && !Completed(tasks, log) {
      var e := FailFastProgress(tasks, log);
    }
    if Completed(tasks, log) {
      CompletedIsFailureFree(tasks, log);
    }
    forall i, j | 0 <= i < j < |log| && log[i].Fail? ensures !log[j].Start? {
      assert FailFastEnabled(tasks, log[..j], log[j]) && log[..j][i] == log[i];
    }
    forall n ensures Succeed(n) in log <==> Start(n) in log && !FailedAbove(tasks, log, n) {
      if Succeed(n) in log {
        SucceededIsClear(tasks, log, n);
        StartedIsTask(tasks, log, n);
      } else if Start(n) in log {
        assert !FailFastEnabled(tasks, log, Succeed(n));
        OwnFailure(tasks, log, n);
      }
    }
  }

  lemma CompletedIsFailureFree(tasks: seq<Task>, log: seq<Event>)
    requires IsRun(tasks, log) && Completed(tasks, log)
    ensures FailureFree(log)
  {
    EventsDistinct(tasks, log);
    assert forall n | n in TaskNames(tasks) :: Succeed(n) in log;
    forall e | e in log ensures !e.Fail? {
      if e.Fail? {
        StartedIsTask(tasks, log, e.task);
      }
    }
  }
}
