/**
 The workflow-of-workflows generator (il-operator/controller/codegen/workflow/generator.go) and
 what every run of the DAG it generates does.
 */
module Workflow {
  import opened Types
  import opened Graphs
  import opened DagRun

  const TRIGGER_AUDIT := "trigger-audit"
  const END_AUDIT := "end-audit"
  const RECONCILE_ID_REFERENCE := "{{tasks.trigger-audit.outputs.parameters.reconcile_id}}"

  const NO_SKIP := "noSkip"
  const SELECTIVE_RECONCILE := "selectiveReconcile"
  const DESTROY_PROTECTION := "destroyProtection"

  predicate DestroyAll(env: Environment) {
    env.deleting || env.teardown
  }

  /******* Generator *******/

  /** Some tag of the component carries the selected name and one of the selected values. */
  predicate Selected(selective: SelectiveReconcile, tags: Option<seq<Tag>>) {
    tags.Some? && exists t :: t in tags.value && t.name == selective.tagName && t.value in selective.tagValues
  }

  function SkipStatus(destroyProtection: bool, destroyFlag: bool, selective: Option<SelectiveReconcile>,
                      tags: Option<seq<Tag>>): string
  {
    if destroyProtection && destroyFlag then DESTROY_PROTECTION
    else if selective.Some? && selective.value.skipMode == Selected(selective.value, tags) then SELECTIVE_RECONCILE
    else NO_SKIP
  }

  method SkipComponent(destroyProtection: bool, destroyFlag: bool, selective: Option<SelectiveReconcile>,
                       tags: Option<seq<Tag>>)
    returns (status: string)
    ensures status == SkipStatus(destroyProtection, destroyFlag, selective, tags)
  {
    if destroyProtection && destroyFlag {
      return DESTROY_PROTECTION;
    }
    if selective.None? {
      return NO_SKIP;
    }
    var sel := selective.value;
    if tags.None? {
      return if sel.skipMode then NO_SKIP else SELECTIVE_RECONCILE;
    }
    for i := 0 to |tags.value|
      invariant forall t | t in tags.value[..i] :: !(t.name == sel.tagName && t.value in sel.tagValues)
    {
      var tag := tags.value[i];
      if tag.name == sel.tagName {
        for j := 0 to |sel.tagValues|
          invariant tag.value !in sel.tagValues[..j]
        {
          if sel.skipMode && sel.tagValues[j] == tag.value {
            return SELECTIVE_RECONCILE;
          } else if !sel.skipMode && sel.tagValues[j] == tag.value {
            return NO_SKIP;
          }
        }
      }
    }
    return if sel.skipMode then NO_SKIP else SELECTIVE_RECONCILE;
  }

  /** The components of `cs`, in order, that depend on `name` and are not called `name` themselves. */
  function InverseDependencies(cs: seq<Component>, name: string): seq<string> {
    if cs == [] then []
    else
      var c := cs[|cs| - 1];
      InverseDependencies(cs[..|cs| - 1], name)
      + (if c.name != name && name in c.dependsOn then [c.name] else [])
  }

  method BuildInverseDependencies(cs: seq<Component>, name: string) returns (dependencies: seq<string>)
    ensures dependencies == InverseDependencies(cs, name)
  {
    dependencies := [];
    for i := 0 to |cs|
      invariant dependencies == InverseDependencies(cs[..i], name)
    {
      assert cs[..i + 1][..i] == cs[..i];
      if name == cs[i].name {
        continue;
      } else if name in cs[i].dependsOn {
        dependencies := dependencies + [cs[i].name];
      }
    }
    assert cs[..|cs|] == cs;
  }

  function AuditTask(destroyAll: bool, phase: string, dependencies: seq<string>): Task {
    if phase == "0" then
      Task(TRIGGER_AUDIT, dependencies, AuditArguments(destroyAll, phase, "initializing", "0"))
    else
      Task(END_AUDIT, dependencies, AuditArguments(destroyAll, phase, "ended", RECONCILE_ID_REFERENCE))
  }

  function ComponentTask(env: Environment, c: Component): Task {
    var destroyFlag := DestroyAll(env) || c.destroy;
    var dependencies := if DestroyAll(env) then InverseDependencies(env.components, c.name) else c.dependsOn;
    Task(c.name, dependencies + [TRIGGER_AUDIT],
         TriggerArguments(c.name, destroyFlag, if c.autoApprove.Some? then c.autoApprove.value else env.autoApprove,
                          SkipStatus(c.destroyProtection, destroyFlag, env.selective, c.tags)))
  }

  function TerraformOnly(cs: seq<Component>): seq<Component> {
    if cs == [] then []
    else
      TerraformOnly(cs[..|cs| - 1]) + (if IsTerraform(cs[|cs| - 1]) then [cs[|cs| - 1]] else [])
  }

  function ComponentTasks(env: Environment, cs: seq<Component>): seq<Task> {
    seq(|cs|, i requires 0 <= i < |cs| => ComponentTask(env, cs[i]))
  }

  function TasksOf(env: Environment): seq<Task> {
    var cs := TerraformOnly(env.components);
    [AuditTask(DestroyAll(env), "0", [])] + ComponentTasks(env, cs) + [AuditTask(DestroyAll(env), "1", Names(cs))]
  }

  lemma TasksGrow(env: Environment, cs: seq<Component>, c: Component)
    ensures ComponentTasks(env, cs + [c]) == ComponentTasks(env, cs) + [ComponentTask(env, c)]
    ensures Names(cs + [c]) == Names(cs) + [c.name]
  {
    hide ComponentTask;
  }

  lemma TerraformGrows(cs: seq<Component>, c: Component)
    ensures TerraformOnly(cs + [c]) == TerraformOnly(cs) + (if IsTerraform(c) then [c] else [])
  {
    assert (cs + [c])[..|cs|] == cs;
  }

  method GenerateWorkflowOfWorkflows(env: Environment) returns (tasks: seq<Task>)
    ensures tasks == TasksOf(env)
    ensures exists at: seq<int> :: TerraformAt(env.components, at) && CompiledFrom(env, at, tasks)
  {
    hide InverseDependencies, SkipStatus, TerraformOnly, ComponentTasks, Names;
    var destroyAll := env.deleting || env.teardown;
    tasks := [AuditTask(destroyAll, "0", [])];
    var ecs := env.components;
    var allComponents := [];
    NothingCompiled(env);
    for i := 0 to |ecs|
      invariant allComponents == Names(TerraformOnly(ecs[..i]))
      invariant tasks == [AuditTask(destroyAll, "0", [])] + ComponentTasks(env, TerraformOnly(ecs[..i]))
    {
      var ec := ecs[i];
      assert ecs[..i + 1] == ecs[..i] + [ec];
      TerraformGrows(ecs[..i], ec);
      if ec.ctype != TERRAFORM {
        assert TerraformOnly(ecs[..i]) + [] == TerraformOnly(ecs[..i]);
        continue;
      }
      TasksGrow(env, TerraformOnly(ecs[..i]), ec);
      allComponents := allComponents + [ec.name];
      var autoApproveFlag := env.autoApprove;
      if ec.autoApprove.Some? {
        autoApproveFlag := ec.autoApprove.value;
      }
      var dependencies := ec.dependsOn;
      var destroyFlag := ec.destroy;
      if destroyAll {
        destroyFlag := true;
        dependencies := BuildInverseDependencies(ecs, ec.name);
      }
      dependencies := dependencies + [TRIGGER_AUDIT];
      var skip := SkipComponent(ec.destroyProtection, destroyFlag, env.selective, ec.tags);
      tasks := tasks + [Task(ec.name, dependencies, TriggerArguments(ec.name, destroyFlag, autoApproveFlag, skip))];
    }
    assert ecs[..|ecs|] == ecs;
    tasks := tasks + [AuditTask(destroyAll, "1", allComponents)];
    ghost var at := TasksAreDeclared(env);
  }

  lemma NothingCompiled(env: Environment)
    ensures TerraformOnly([]) == [] && ComponentTasks(env, []) == [] && Names([]) == []
  {
  }

  /******* What is compiled, task by task *******/

  /** Positions of a list of length `n`, in order. */
  ghost predicate Ascending(at: seq<int>, n: nat) {
    && (forall k | 0 <= k < |at| :: 0 <= at[k] < n)
    && (forall k, m | 0 <= k < m < |at| :: at[k] < at[m])
  }

  /** The positions of the terraform components. */
  ghost predicate TerraformAt(cs: seq<Component>, at: seq<int>) {
    Ascending(at, |cs|) && forall i | 0 <= i < |cs| :: cs[i].ctype == "terraform" <==> i in at
  }

  /** The positions of the other components that depend on `name`. */
  ghost predicate DependantsAt(cs: seq<Component>, name: string, at: seq<int>) {
    Ascending(at, |cs|) && forall i | 0 <= i < |cs| :: cs[i].name != name && name in cs[i].dependsOn <==> i in at
  }

  /** The names of the components at the given positions. */
  function NamesAt(cs: seq<Component>, at: seq<int>): seq<string>
    requires forall k | 0 <= k < |at| :: 0 <= at[k] < |cs|
  {
    seq(|at|, k requires 0 <= k < |at| => cs[at[k]].name)
  }

  /** Protected components are not destroyed; otherwise tags decide, if anything is selected at all. */
  ghost predicate SkipAnswer(env: Environment, c: Component, isDestroy: bool, answer: string) {
    if c.destroyProtection && isDestroy then answer == "destroyProtection"
    else if env.selective.None? then answer == "noSkip"
    else
      var sel := env.selective.value;
      var chosen := c.tags.Some? && exists k | 0 <= k < |c.tags.value| ::
                      c.tags.value[k].name == sel.tagName && c.tags.value[k].value in sel.tagValues;
      answer == if chosen == sel.skipMode then "selectiveReconcile" else "noSkip"
  }

  /** What the component's task has to wait for and is told, in terms of the spec. */
  ghost predicate DeclaredTask(env: Environment, c: Component, t: Task) {
    && t.name == c.name
    && t.arguments.TriggerArguments? && t.arguments.configName == c.name
    && (t.arguments.isDestroy <==> env.deleting || env.teardown || c.destroy)
    && t.arguments.autoApprove == (if c.autoApprove.Some? then c.autoApprove.value else env.autoApprove)
    && SkipAnswer(env, c, env.deleting || env.teardown || c.destroy, t.arguments.skipComponent)
    && (if env.deleting || env.teardown
        then exists bt: seq<int> ::
               DependantsAt(env.components, c.name, bt)
               && t.dependencies == NamesAt(env.components, bt) + ["trigger-audit"]
        else t.dependencies == c.dependsOn + ["trigger-audit"])
  }

  /** Opening audit, one task for each of the given components in their order, closing audit. */
  ghost predicate CompiledFrom(env: Environment, at: seq<int>, tasks: seq<Task>)
    requires forall k | 0 <= k < |at| :: 0 <= at[k] < |env.components|
  {
    && |tasks| == |at| + 2
    && tasks[0] == Task("trigger-audit", [], AuditArguments(env.deleting || env.teardown, "0", "initializing", "0"))
    && (forall k | 0 <= k < |at| :: DeclaredTask(env, env.components[at[k]], tasks[k + 1]))
    && tasks[|at| + 1] ==
       Task("end-audit", NamesAt(env.components, at),
            AuditArguments(env.deleting || env.teardown, "1", "ended",
                           "{{tasks.trigger-audit.outputs.parameters.reconcile_id}}"))
  }

  /** `r` consists of the entries at the given positions. */
  ghost predicate EntriesAt(cs: seq<Component>, at: seq<int>, r: seq<Component>) {
    |r| == |at| && forall k | 0 <= k < |at| :: 0 <= at[k] < |cs| && r[k] == cs[at[k]]
  }

  lemma EntriesStep(cs: seq<Component>, at: seq<int>, r: seq<Component>)
    requires cs != [] && EntriesAt(cs[..|cs| - 1], at, r)
    ensures EntriesAt(cs, at, r) && EntriesAt(cs, at + [|cs| - 1], r + [cs[|cs| - 1]])
  {
  }

  lemma {:induction false} TerraformPicked(cs: seq<Component>) returns (at: seq<int>)
    ensures TerraformAt(cs, at) && EntriesAt(cs, at, TerraformOnly(cs))
  {
    if cs == [] {
      at := [];
    } else {
      var n := |cs| - 1;
      at := TerraformPicked(cs[..n]);
      TerraformStep(cs, at);
      EntriesStep(cs, at, TerraformOnly(cs[..n]));
      TerraformGrows(cs[..n], cs[n]);
      hide TerraformAt, TerraformOnly, EntriesAt;
      assert cs == cs[..n] + [cs[n]];
      if cs[n].ctype == "terraform" {
        at := at + [n];
      } else {
        assert at + [] == at && TerraformOnly(cs[..n]) + [] == TerraformOnly(cs[..n]);
      }
    }
  }

  lemma TerraformStep(cs: seq<Component>, init: seq<int>)
    requires cs != [] && TerraformAt(cs[..|cs| - 1], init)
    ensures var n := |cs| - 1; TerraformAt(cs, init + (if cs[n].ctype == "terraform" then [n] else []))
  {
    var n := |cs| - 1;
    var at := init + (if cs[n].ctype == "terraform" then [n] else []);
    assert forall k | 0 <= k < |init| :: init[k] < n;
    forall i | 0 <= i < |cs| ensures cs[i].ctype == "terraform" <==> i in at {
      if i < n {
        assert cs[..n][i] == cs[i];
      } else {
        assert n !in init;
      }
    }
  }

  lemma NamesStep(cs: seq<Component>, at: seq<int>)
    requires cs != [] && forall k | 0 <= k < |at| :: 0 <= at[k] < |cs| - 1
    ensures NamesAt(cs, at) == NamesAt(cs[..|cs| - 1], at)
    ensures NamesAt(cs, at + [|cs| - 1]) == NamesAt(cs[..|cs| - 1], at) + [cs[|cs| - 1].name]
  {
  }

  lemma {:induction false} DependantsPicked(cs: seq<Component>, name: string) returns (at: seq<int>)
    ensures DependantsAt(cs, name, at) && InverseDependencies(cs, name) == NamesAt(cs, at)
  {
    if cs == [] {
      at := [];
    } else {
      var n := |cs| - 1;
      at := DependantsPicked(cs[..n], name);
      DependantsStep(cs, name, at);
      NamesStep(cs, at);
      InverseStep(cs, name);
      hide DependantsAt, InverseDependencies, NamesAt;
      if cs[n].name != name && name in cs[n].dependsOn {
        at := at + [n];
      } else {
        assert at + [] == at;
      }
    }
  }

  lemma InverseStep(cs: seq<Component>, name: string)
    requires cs != []
    ensures var c := cs[|cs| - 1];
            InverseDependencies(cs, name) ==
            InverseDependencies(cs[..|cs| - 1], name) + (if c.name != name && name in c.dependsOn then [c.name] else [])
  {
  }

  lemma DependantsStep(cs: seq<Component>, name: string, init: seq<int>)
    requires cs != [] && DependantsAt(cs[..|cs| - 1], name, init)
    ensures var n := |cs| - 1;
            DependantsAt(cs, name, init + (if cs[n].name != name && name in cs[n].dependsOn then [n] else []))
  {
    var n := |cs| - 1;
    var at := init + (if cs[n].name != name && name in cs[n].dependsOn then [n] else []);
    assert forall k | 0 <= k < |init| :: init[k] < n;
    forall i | 0 <= i < |cs| ensures cs[i].name != name && name in cs[i].dependsOn <==> i in at {
      if i < n {
        assert cs[..n][i] == cs[i];
      } else {
        assert n !in init;
      }
    }
  }

  lemma TaskIsDeclared(env: Environment, c: Component)
    ensures DeclaredTask(env, c, ComponentTask(env, c))
  {
    var t := ComponentTask(env, c);
    assert SkipAnswer(env, c, env.deleting || env.teardown || c.destroy, t.arguments.skipComponent) by {
      SkipIsAnswer(env, c, env.deleting || env.teardown || c.destroy);
    }
    hide SkipAnswer, SkipStatus;
    if env.deleting || env.teardown {
      var bt := DependantsPicked(env.components, c.name);
      assert t.dependencies == NamesAt(env.components, bt) + ["trigger-audit"];
    }
  }

  lemma SkipIsAnswer(env: Environment, c: Component, isDestroy: bool)
    ensures SkipAnswer(env, c, isDestroy, SkipStatus(c.destroyProtection, isDestroy, env.selective, c.tags))
  {
    if env.selective.Some? {
      var sel := env.selective.value;
      if Selected(sel, c.tags) {
        var t :| t in c.tags.value && t.name == sel.tagName && t.value in sel.tagValues;
        var k :| 0 <= k < |c.tags.value| && c.tags.value[k] == t;
      }
    }
  }

  /** The compiled list, read off the spec alone. */
  lemma TasksAreDeclared(env: Environment) returns (at: seq<int>)
    ensures TerraformAt(env.components, at) && CompiledFrom(env, at, TasksOf(env))
  {
    at := TerraformPicked(env.components);
    assert EntriesAt(env.components, at, TerraformOnly(env.components));
    var cs, tasks := TerraformOnly(env.components), TasksOf(env);
    forall k | 0 <= k < |at| ensures DeclaredTask(env, env.components[at[k]], tasks[k + 1]) {
      TaskIsDeclared(env, cs[k]);
    }
    hide TerraformOnly, DeclaredTask, ComponentTask;
    assert Names(cs) == NamesAt(env.components, at);
  }

  /******* Shape of the generated DAG *******/

  ghost predicate NoAuditClash(cs: seq<Component>) {
    forall c | c in cs && IsTerraform(c) :: c.name != TRIGGER_AUDIT && c.name != END_AUDIT
  }

  ghost predicate IsTerraformName(cs: seq<Component>, name: string) {
    exists c :: c in cs && IsTerraform(c) && c.name == name
  }

  /** Component `x` is declared and lists `y` under `dependsOn`. */
  ghost predicate DependsOn(cs: seq<Component>, x: string, y: string) {
    exists c :: c in cs && c.name == x && y in c.dependsOn
  }

  /** The declared dependencies among terraform components; (y, x) when x depends on y. */
  ghost function ProvisionGraph(cs: seq<Component>): Graph {
    set c, d | c in cs && IsTerraform(c) && d in c.dependsOn && IsTerraformName(cs, d) :: (d, c.name)
  }

  lemma {:induction false} TerraformOnlyMembers(cs: seq<Component>, c: Component)
    ensures c in TerraformOnly(cs) <==> c in cs && IsTerraform(c)
  {
    if cs != [] {
      TerraformOnlyMembers(cs[..|cs| - 1], c);
      assert cs == cs[..|cs| - 1] + [cs[|cs| - 1]];
    }
  }

  lemma {:induction false} TerraformOnlyUnique(cs: seq<Component>)
    requires UniqueNames(cs)
    ensures UniqueNames(TerraformOnly(cs))
  {
    if cs != [] {
      var init, last := cs[..|cs| - 1], cs[|cs| - 1];
      TerraformOnlyUnique(init);
      forall c | c in TerraformOnly(init) ensures c.name != last.name {
        TerraformOnlyMembers(init, c);
      }
    }
  }

  lemma {:induction false} InverseDependenciesMembers(cs: seq<Component>, name: string, d: string)
    ensures d in InverseDependencies(cs, name) <==> d != name && DependsOn(cs, d, name)
  {
    if cs != [] {
      InverseDependenciesMembers(cs[..|cs| - 1], name, d);
      assert cs == cs[..|cs| - 1] + [cs[|cs| - 1]];
    }
  }

  /** The three kinds of task: nothing else is generated, and nothing is left out. */
  lemma TaskCases(env: Environment, t: Task)
    ensures t in TasksOf(env) <==>
            || t == AuditTask(DestroyAll(env), "0", [])
            || t == AuditTask(DestroyAll(env), "1", Names(TerraformOnly(env.components)))
            || exists c :: c in env.components && IsTerraform(c) && t == ComponentTask(env, c)
  {
    var cs := TerraformOnly(env.components);
    assert t in TasksOf(env) <==>
           || t == AuditTask(DestroyAll(env), "0", []) || t in ComponentTasks(env, cs)
           || t == AuditTask(DestroyAll(env), "1", Names(cs));
    if t in ComponentTasks(env, cs) {
      var i :| 0 <= i < |cs| && t == ComponentTask(env, cs[i]);
      TerraformOnlyMembers(env.components, cs[i]);
    }
    if c :| c in env.components && IsTerraform(c) && t == ComponentTask(env, c) {
      TerraformOnlyMembers(env.components, c);
      var i :| 0 <= i < |cs| && cs[i] == c;
      assert ComponentTasks(env, cs)[i] == t;
    }
  }

  lemma EndAuditDependencies(env: Environment, d: string)
    ensures d in Names(TerraformOnly(env.components)) <==> IsTerraformName(env.components, d)
  {
    var cs := TerraformOnly(env.components);
    if d in Names(cs) {
      var i :| 0 <= i < |cs| && cs[i].name == d;
      TerraformOnlyMembers(env.components, cs[i]);
    }
    if c :| c in env.components && IsTerraform(c) && c.name == d {
      TerraformOnlyMembers(env.components, c);
      var i :| 0 <= i < |cs| && cs[i] == c;
      assert Names(cs)[i] == d;
    }
  }

  /** The task of component `name` waits for `d` (other than the audit): what that means in each mode. */
  lemma ComponentDependencies(env: Environment, c: Component, d: string)
    requires c in env.components && d != TRIGGER_AUDIT
    ensures d in ComponentTask(env, c).dependencies <==>
            if DestroyAll(env) then d != c.name && DependsOn(env.components, d, c.name) else d in c.dependsOn
  {
    InverseDependenciesMembers(env.components, c.name, d);
  }

  lemma GeneratedNames(env: Environment, n: string)
    ensures n in TaskNames(TasksOf(env)) <==>
            n == TRIGGER_AUDIT || n == END_AUDIT || IsTerraformName(env.components, n)
  {
    var cs := TerraformOnly(env.components);
    if n in TaskNames(TasksOf(env)) {
      var t :| t in TasksOf(env) && t.name == n;
      TaskCases(env, t);
    }
    TaskCases(env, AuditTask(DestroyAll(env), "0", []));
    TaskCases(env, AuditTask(DestroyAll(env), "1", Names(cs)));
    if c :| c in env.components && IsTerraform(c) && c.name == n {
      TaskCases(env, ComponentTask(env, c));
    }
  }

  /** Task names are unique exactly when terraform component names are and none is an audit name. */
  lemma UniqueTasksIff(env: Environment)
    ensures UniqueTasks(TasksOf(env)) <==>
            UniqueNames(TerraformOnly(env.components)) && NoAuditClash(env.components)
  {
    var cs, ts := TerraformOnly(env.components), TasksOf(env);
    assert forall i | 0 <= i < |cs| :: ts[i + 1].name == cs[i].name;
    assert ts[0].name == TRIGGER_AUDIT && ts[|ts| - 1].name == END_AUDIT;
    if UniqueTasks(ts) {
      forall c | c in env.components && IsTerraform(c)
        ensures c.name != TRIGGER_AUDIT && c.name != END_AUDIT
      {
        TerraformOnlyMembers(env.components, c);
        var i :| 0 <= i < |cs| && cs[i] == c;
        assert ts[i + 1].name == c.name;
      }
      forall i, j | 0 <= i < j < |cs| ensures cs[i].name != cs[j].name {
        assert ts[i + 1].name != ts[j + 1].name;
      }
    }
    if UniqueNames(cs) && NoAuditClash(env.components) {
      forall i | 0 <= i < |cs| ensures cs[i].name != TRIGGER_AUDIT && cs[i].name != END_AUDIT {
        TerraformOnlyMembers(env.components, cs[i]);
      }
      forall i, j | 0 <= i < j < |ts| ensures ts[i].name != ts[j].name {
        if 0 < i && j < |ts| - 1 {
          assert ts[i].name == cs[i - 1].name && ts[j].name == cs[j - 1].name;
        }
      }
    }
  }

  /******* Safety of every run *******/

  /** What a component waits for: its dependencies, or on teardown whatever depends on it. */
  ghost predicate MustPrecede(env: Environment, d: string, c: Component) {
    if DestroyAll(env) then d != c.name && DependsOn(env.components, d, c.name) else d in c.dependsOn
  }

  /** In every run each component starts only after the audit and after all that must precede it. */
  lemma ComponentStartsAfter(env: Environment, log: seq<Event>, i: nat, c: Component)
    requires UniqueNames(env.components) && NoAuditClash(env.components)
    requires c in env.components && IsTerraform(c)
    requires IsRun(TasksOf(env), log) && i < |log| && log[i] == Start(c.name)
    ensures Succeed(TRIGGER_AUDIT) in log[..i]
    ensures forall d | MustPrecede(env, d, c) :: Succeed(d) in log[..i]
  {
    TerraformOnlyUnique(env.components);
    UniqueTasksIff(env);
    var t := ComponentTask(env, c);
    TaskCases(env, t);
    StartedAfterDependencies(TasksOf(env), log, i, t);
    assert t.dependencies[|t.dependencies| - 1] == TRIGGER_AUDIT;
    forall d | MustPrecede(env, d, c) ensures Succeed(d) in log[..i] {
      if d != TRIGGER_AUDIT {
        ComponentDependencies(env, c, d);
      }
    }
  }

  /** The end audit starts only after every component succeeded, so never in a run where one failed. */
  lemma EndAuditStartsLast(env: Environment, log: seq<Event>, i: nat, c: Component)
    requires UniqueNames(env.components) && NoAuditClash(env.components)
    requires c in env.components && IsTerraform(c)
    requires IsRun(TasksOf(env), log) && i < |log| && log[i] == Start(END_AUDIT)
    ensures Succeed(c.name) in log[..i]
    ensures Fail(c.name) !in log
    ensures Succeed(TRIGGER_AUDIT) in log[..i]
  {
    TerraformOnlyUnique(env.components);
    UniqueTasksIff(env);
    var end := AuditTask(DestroyAll(env), "1", Names(TerraformOnly(env.components)));
    TaskCases(env, end);
    StartedAfterDependencies(TasksOf(env), log, i, end);
    EndAuditDependencies(env, c.name);
    EventsDistinct(TasksOf(env), log);
    RunPrefix(TasksOf(env), log, i);
    StartedIsTask(TasksOf(env), log[..i], c.name);
    var k := EventEnabled(TasksOf(env), log[..i], Start(c.name));
    ComponentStartsAfter(env, log[..i], k, c);
  }

  /** The audits bracket the run exactly when there is a terraform component between them. */
  lemma AuditsBracketIff(env: Environment)
    requires UniqueNames(env.components) && NoAuditClash(env.components)
    ensures (forall log, i | IsRun(TasksOf(env), log) && 0 <= i < |log| && log[i] == Start(END_AUDIT)
               :: Succeed(TRIGGER_AUDIT) in log[..i])
            <==> exists c :: c in env.components && IsTerraform(c)
  {
    if c :| c in env.components && IsTerraform(c) {
      forall log, i | IsRun(TasksOf(env), log) && 0 <= i < |log| && log[i] == Start(END_AUDIT)
        ensures Succeed(TRIGGER_AUDIT) in log[..i]
      {
        EndAuditStartsLast(env, log, i, c);
      }
    } else {
      var cs := TerraformOnly(env.components);
      if cs != [] {
        TerraformOnlyMembers(env.components, cs[0]);
      }
      var end := AuditTask(DestroyAll(env), "1", Names(cs));
      TaskCases(env, end);
      var log := [Start(END_AUDIT)];
      assert Ready(end, []);
      assert Enabled(TasksOf(env), [], Start(END_AUDIT));
      assert log[..0] == [];
      assert IsRun(TasksOf(env), log);
      assert Succeed(TRIGGER_AUDIT) !in log[..0];
    }
  }

  /******* Teardown transposes provision *******/

  /** The edges of the generated DAG that run between component tasks. */
  ghost function ComponentEdges(env: Environment): Graph {
    set e | e in TaskEdges(TasksOf(env)) && IsTerraformName(env.components, e.0) && IsTerraformName(env.components, e.1)
  }

  lemma ComponentEdge(env: Environment, a: string, b: string)
    requires UniqueNames(env.components) && NoAuditClash(env.components)
    ensures (a, b) in ComponentEdges(env) <==>
            exists c :: c in env.components && IsTerraform(c) && c.name == b
                        && IsTerraformName(env.components, a) && MustPrecede(env, a, c)
  {
    if (a, b) in ComponentEdges(env) {
      var t, d :| t in TasksOf(env) && d in t.dependencies && (a, b) == (d, t.name);
      TaskCases(env, t);
      var c :| c in env.components && IsTerraform(c) && t == ComponentTask(env, c);
      ComponentDependencies(env, c, a);
    }
    if c :| c in env.components && IsTerraform(c) && c.name == b
            && IsTerraformName(env.components, a) && MustPrecede(env, a, c) {
      TaskCases(env, ComponentTask(env, c));
      ComponentDependencies(env, c, a);
      assert (a, ComponentTask(env, c).name) in TaskEdges(TasksOf(env));
    }
  }

  lemma ProvisionEdges(env: Environment)
    requires UniqueNames(env.components) && NoAuditClash(env.components) && !DestroyAll(env)
    ensures ComponentEdges(env) == ProvisionGraph(env.components)
  {
    forall e: (string, string) ensures e in ComponentEdges(env) <==> e in ProvisionGraph(env.components) {
      ComponentEdge(env, e.0, e.1);
    }
  }

  /** Teardown edges are the provision edges turned around, except that self-loops vanish. */
  lemma TeardownEdges(env: Environment)
    requires UniqueNames(env.components) && NoAuditClash(env.components) && DestroyAll(env)
    ensures ComponentEdges(env) == set e | e in Transpose(ProvisionGraph(env.components)) && e.0 != e.1
  {
    var g := ProvisionGraph(env.components);
    forall a, b ensures (a, b) in ComponentEdges(env) <==> (a, b) in Transpose(g) && a != b {
      ComponentEdge(env, a, b);
      TransposeEdge(g, a, b);
      if (b, a) in g && a != b {
        var c, d :| c in env.components && IsTerraform(c) && d in c.dependsOn
                    && IsTerraformName(env.components, d) && (b, a) == (d, c.name);
        assert DependsOn(env.components, a, b);
      }
    }
    forall e: (string, string)
      ensures e in ComponentEdges(env) <==> e in Transpose(g) && e.0 != e.1
    {
      assert e == (e.0, e.1);
    }
  }

  lemma SelfLoop(cs: seq<Component>, c: Component)
    requires c in cs && IsTerraform(c) && c.name in c.dependsOn
    ensures (c.name, c.name) in ProvisionGraph(cs) && Cycle(ProvisionGraph(cs), [c.name, c.name])
  {
    assert IsTerraformName(cs, c.name);
  }

  ghost predicate NoTerraformSelfDependency(cs: seq<Component>) {
    forall c | c in cs && IsTerraform(c) :: c.name !in c.dependsOn
  }

  /** Exactly when no component depends on itself is the teardown DAG the transpose of the provision DAG. */
  lemma TeardownTransposesIff(provision: Environment, teardown: Environment)
    requires UniqueNames(provision.components) && NoAuditClash(provision.components)
    requires !DestroyAll(provision) && DestroyAll(teardown) && teardown.components == provision.components
    ensures ComponentEdges(teardown) == Transpose(ComponentEdges(provision))
            <==> NoTerraformSelfDependency(provision.components)
  {
    var cs := provision.components;
    var g := ProvisionGraph(cs);
    ProvisionEdges(provision);
    TeardownEdges(teardown);
    if NoTerraformSelfDependency(cs) {
      forall e | e in Transpose(g) ensures e.0 != e.1 {
        TransposeEdge(g, e.0, e.1);
        var c, d :| c in cs && IsTerraform(c) && d in c.dependsOn && (e.1, e.0) == (d, c.name);
      }
    } else {
      var c :| c in cs && IsTerraform(c) && c.name in c.dependsOn;
      SelfLoop(cs, c);
      TransposeEdge(g, c.name, c.name);
    }
  }

  /** A component order is legal for provisioning exactly when its reverse is legal for teardown. */
  lemma TeardownOrderReverses(provision: Environment, teardown: Environment, order: seq<string>)
    requires UniqueNames(provision.components) && NoAuditClash(provision.components)
    requires NoTerraformSelfDependency(provision.components)
    requires !DestroyAll(provision) && DestroyAll(teardown) && teardown.components == provision.components
    ensures var nodes := set c | c in provision.components && IsTerraform(c) :: c.name;
            LegalOrder(ComponentEdges(provision), nodes, order)
            <==> LegalOrder(ComponentEdges(teardown), nodes, Reverse(order))
    ensures Acyclic(ComponentEdges(teardown)) <==> Acyclic(ComponentEdges(provision))
  {
    TeardownTransposesIff(provision, teardown);
    LegalOrderReverses(ComponentEdges(provision), set c | c in provision.components && IsTerraform(c) :: c.name, order);
    TransposeAcyclic(ComponentEdges(provision));
  }

  /******* Progress *******/

  /** Everything a component task waits for is a terraform component (or the opening audit). */
  ghost predicate WaitsOnTasks(env: Environment) {
    forall c, d | c in env.components && IsTerraform(c) && MustPrecede(env, d, c)
      :: d == TRIGGER_AUDIT || IsTerraformName(env.components, d)
  }

  /** Where each edge of the whole DAG can lead. */
  lemma EdgeCases(env: Environment, a: string, b: string)
    requires WaitsOnTasks(env)
    requires (a, b) in TaskEdges(TasksOf(env))
    ensures a == TRIGGER_AUDIT || IsTerraformName(env.components, a)
    ensures b == END_AUDIT || IsTerraformName(env.components, b)
  {
    var t :| t in TasksOf(env) && a in t.dependencies && b == t.name;
    TaskCases(env, t);
    if t == AuditTask(DestroyAll(env), "1", Names(TerraformOnly(env.components))) {
      EndAuditDependencies(env, a);
    } else {
      var c :| c in env.components && IsTerraform(c) && t == ComponentTask(env, c);
      if a != TRIGGER_AUDIT {
        ComponentDependencies(env, c, a);
        assert MustPrecede(env, a, c);
      }
    }
  }

  lemma ClosedWhenWaitsOnTasks(env: Environment)
    requires UniqueNames(env.components) && NoAuditClash(env.components) && WaitsOnTasks(env)
    ensures Closed(TasksOf(env))
  {
    forall t, d | t in TasksOf(env) && d in t.dependencies ensures d in TaskNames(TasksOf(env)) {
      assert (d, t.name) in TaskEdges(TasksOf(env));
      EdgeCases(env, d, t.name);
      GeneratedNames(env, d);
    }
  }

  lemma OnCycle(env: Environment, p: seq<string>, i: nat)
    requires WaitsOnTasks(env) && Cycle(TaskEdges(TasksOf(env)), p) && i < |p|
    ensures IsTerraformName(env.components, p[i])
  {
    hide WaitsOnTasks, TasksOf, IsTerraformName, TaskEdges;
    var incoming := if i == 0 then |p| - 2 else i - 1;
    var outgoing := if i == |p| - 1 then 0 else i;
    EdgeCases(env, p[incoming], p[incoming + 1]);
    EdgeCases(env, p[outgoing], p[outgoing + 1]);
  }

  /** The audits lie on no cycle: every cycle of the DAG is a cycle among components. */
  lemma CycleAmongComponents(env: Environment, p: seq<string>)
    requires UniqueNames(env.components) && NoAuditClash(env.components) && WaitsOnTasks(env)
    requires Cycle(TaskEdges(TasksOf(env)), p)
    ensures Cycle(ComponentEdges(env), p)
  {
    hide TasksOf, IsTerraformName, WaitsOnTasks;
    forall i | 0 <= i < |p| ensures IsTerraformName(env.components, p[i]) {
      OnCycle(env, p, i);
    }
    hide TaskEdges;
    assert forall i | 0 <= i < |p| - 1 :: (p[i], p[i + 1]) in TaskEdges(TasksOf(env));
  }

  /** A component that waits for the closing audit closes a cycle. */
  lemma WaitingForEndAudit(env: Environment, c: Component)
    requires UniqueNames(env.components) && NoAuditClash(env.components)
    requires c in env.components && IsTerraform(c) && MustPrecede(env, END_AUDIT, c)
    ensures Cycle(TaskEdges(TasksOf(env)), [END_AUDIT, c.name, END_AUDIT])
  {
    var g := TaskEdges(TasksOf(env));
    EndAuditWaits(env, c);
    ComponentWaits(env, c, END_AUDIT);
    hide TasksOf, TaskEdges, MustPrecede, NoAuditClash, UniqueNames;
    assert Walk(g, [END_AUDIT, c.name, END_AUDIT]);
  }

  lemma EndAuditWaits(env: Environment, c: Component)
    requires c in env.components && IsTerraform(c)
    ensures (c.name, END_AUDIT) in TaskEdges(TasksOf(env))
  {
    var end := AuditTask(DestroyAll(env), "1", Names(TerraformOnly(env.components)));
    TaskCases(env, end);
    EndAuditDependencies(env, c.name);
    hide TasksOf, TerraformOnly, Names;
    assert end in TasksOf(env) && c.name in end.dependencies && end.name == END_AUDIT;
  }

  lemma ComponentWaits(env: Environment, c: Component, d: string)
    requires c in env.components && IsTerraform(c) && MustPrecede(env, d, c) && d != TRIGGER_AUDIT
    ensures (d, c.name) in TaskEdges(TasksOf(env))
  {
    var t := ComponentTask(env, c);
    TaskCases(env, t);
    ComponentDependencies(env, c, d);
    hide TasksOf, MustPrecede;
    assert t in TasksOf(env) && d in t.dependencies && t.name == c.name;
  }

  lemma WaitsOnTasksWhenSound(env: Environment)
    requires UniqueNames(env.components) && NoAuditClash(env.components)
    requires Closed(TasksOf(env)) && Acyclic(TaskEdges(TasksOf(env)))
    ensures WaitsOnTasks(env)
  {
    forall c, d | c in env.components && IsTerraform(c) && MustPrecede(env, d, c)
      ensures d == TRIGGER_AUDIT || IsTerraformName(env.components, d)
    {
      if d != TRIGGER_AUDIT {
        ComponentDependencies(env, c, d);
        TaskCases(env, ComponentTask(env, c));
        GeneratedNames(env, d);
        hide TasksOf, TerraformOnly, IsTerraformName;
        if d == END_AUDIT {
          WaitingForEndAudit(env, c);
        }
      }
    }
  }

  /**
   A generated workflow can be run to completion exactly when everything its components wait for is
   a terraform component and the component graph has no cycle.
   */
  lemma WorkflowCompletableIff(env: Environment)
    requires UniqueNames(env.components) && NoAuditClash(env.components)
    ensures (exists log :: IsRun(TasksOf(env), log) && Completed(TasksOf(env), log))
            <==> WaitsOnTasks(env) && Acyclic(ComponentEdges(env))
  {
    TerraformOnlyUnique(env.components);
    UniqueTasksIff(env);
    CompletableIff(TasksOf(env));
    if Closed(TasksOf(env)) && Acyclic(TaskEdges(TasksOf(env))) {
      WaitsOnTasksWhenSound(env);
      forall p ensures !Cycle(ComponentEdges(env), p) {
        assert !Cycle(TaskEdges(TasksOf(env)), p);
      }
    }
    if WaitsOnTasks(env) && Acyclic(ComponentEdges(env)) {
      ClosedWhenWaitsOnTasks(env);
      forall p ensures !Cycle(TaskEdges(TasksOf(env)), p) {
        if Cycle(TaskEdges(TasksOf(env)), p) {
          CycleAmongComponents(env, p);
        }
      }
    }
  }

  /**
   No deadlock and no divergence: under that same condition a failure-free run that can take no
   further step has completed every task, whatever order the executor chose, within 2n events.
   */
  lemma EveryRunCompletes(env: Environment, log: seq<Event>)
    requires UniqueNames(env.components) && NoAuditClash(env.components)
    requires WaitsOnTasks(env) && Acyclic(ComponentEdges(env))
    requires IsRun(TasksOf(env), log) && FailureFree(log)
    ensures |log| <= 2 * |TaskNames(TasksOf(env))|
    ensures Completed(TasksOf(env), log) || exists e: Event :: !e.Fail? && Enabled(TasksOf(env), log, e)
    ensures exists full :: log <= full && IsRun(TasksOf(env), full) && Completed(TasksOf(env), full)
  {
    ClosedWhenWaitsOnTasks(env);
    forall p ensures !Cycle(TaskEdges(TasksOf(env)), p) {
      if Cycle(TaskEdges(TasksOf(env)), p) {
        CycleAmongComponents(env, p);
      }
    }
    RunLength(TasksOf(env), log);
    if !Completed(TasksOf(env), log) {
      var e := Progress(TasksOf(env), log);
    }
    var full := RunToCompletion(TasksOf(env), log);
  }

  /** The condition in the author's terms: all-terraform specs with known dependencies always qualify. */
  lemma AllTerraformWaitsOnTasks(env: Environment)
    requires forall c | c in env.components :: IsTerraform(c)
    requires forall c, d | c in env.components && d in c.dependsOn :: IsTerraformName(env.components, d)
    ensures WaitsOnTasks(env)
  {
  }
}
