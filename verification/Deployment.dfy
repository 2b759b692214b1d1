/**
 What a validated environment guarantees downstream, and what the validator leaves open: name
 uniqueness, cycles, clashes with the audit tasks and dependencies on components without a task.
 */
module Deployment {
  import opened Types
  import opened Graphs
  import opened DagRun
  import opened Strings
  import opened ValueFrom
  import opened Validator
  import opened Workflow

  /** The conditions the validator does not check, apart from cycles. */
  ghost predicate Unchecked(cs: seq<Component>) {
    && UniqueNames(cs)
    && NoAuditClash(cs)
    && forall c | c in cs :: IsTerraform(c)
  }

  lemma ValidatedDependencyIsTask(env: Environment, isCreate: bool, c: Component, d: string)
    requires WellFormed(env, isCreate) && (forall e | e in env.components :: IsTerraform(e))
    requires c in env.components && d in c.dependsOn
    ensures IsTerraformName(env.components, d) && d != c.name
  {
    assert WellFormedComponent(c, env.components, isCreate);
    var e :| e in env.components && e.name == d;
  }

  /** Every dependency names a terraform component other than the one that has it. */
  ghost predicate KnownDependencies(cs: seq<Component>) {
    forall c, d | c in cs && d in c.dependsOn :: IsTerraformName(cs, d) && d != c.name
  }

  /** What a validated spec needs to be deployed and torn down, in terms of its names and dependencies. */
  lemma AcyclicDeploys(env: Environment, log: seq<Event>)
    requires KnownDependencies(env.components) && Unchecked(env.components) && Acyclic(ProvisionGraph(env.components))
    requires IsRun(TasksOf(env), log) && FailureFree(log)
    ensures exists full :: log <= full && IsRun(TasksOf(env), full) && Completed(TasksOf(env), full)
  {
    var cs := env.components;
    forall c, d | c in cs && IsTerraform(c) && MustPrecede(env, d, c) ensures IsTerraformName(cs, d) {
      assert DestroyAll(env) ==> DependsOn(cs, d, c.name);
    }
    if DestroyAll(env) {
      TeardownEdges(env);
      TransposeAcyclic(ProvisionGraph(cs));
      forall p ensures !Cycle(ComponentEdges(env), p) {
        assert !Cycle(Transpose(ProvisionGraph(cs)), p);
      }
    } else {
      ProvisionEdges(env);
    }
    EveryRunCompletes(env, log);
  }

  /**
   A validated environment that also meets the unchecked conditions deploys and tears down: both
   generated workflows can always be run to completion, from any failure-free run.
   */
  lemma ValidatedDeploys(env: Environment, isCreate: bool, log: seq<Event>)
    requires WellFormed(env, isCreate) && Unchecked(env.components) && Acyclic(ProvisionGraph(env.components))
    requires IsRun(TasksOf(env), log) && FailureFree(log)
    ensures exists full :: log <= full && IsRun(TasksOf(env), full) && Completed(TasksOf(env), full)
  {
    ValidatedKnown(env, isCreate);
    AcyclicDeploys(env, log);
  }

  lemma ValidatedKnown(env: Environment, isCreate: bool)
    requires WellFormed(env, isCreate) && forall c | c in env.components :: IsTerraform(c)
    ensures KnownDependencies(env.components)
  {
    forall c, d | c in env.components && d in c.dependsOn ensures IsTerraformName(env.components, d) && d != c.name {
      ValidatedDependencyIsTask(env, isCreate, c, d);
    }
  }

  lemma {:induction false} InverseDependenciesDistinct(cs: seq<Component>, name: string)
    requires UniqueNames(cs)
    ensures Distinct(InverseDependencies(cs, name))
  {
    if cs != [] {
      var init, last := cs[..|cs| - 1], cs[|cs| - 1];
      InverseDependenciesDistinct(init, name);
      InverseDependenciesMembers(init, name, last.name);
    }
  }

  /** Every dependency of every generated task names exactly one task, and is listed once. */
  lemma DependenciesNameTasks(env: Environment, isCreate: bool, c: Component)
    requires WellFormed(env, isCreate) && Unchecked(env.components) && c in env.components
    ensures UniqueTasks(TasksOf(env))
    ensures var deps := ComponentTask(env, c).dependencies;
            Distinct(deps) && forall d | d in deps :: d in TaskNames(TasksOf(env))
  {
    var cs := env.components;
    TerraformOnlyUnique(cs);
    UniqueTasksIff(env);
    var own := if DestroyAll(env) then InverseDependencies(cs, c.name) else c.dependsOn;
    InverseDependenciesDistinct(cs, c.name);
    assert WellFormedComponent(c, cs, isCreate);
    forall d | d in own ensures d != TRIGGER_AUDIT && d in TaskNames(TasksOf(env)) {
      GeneratedNames(env, d);
      if DestroyAll(env) {
        InverseDependenciesMembers(cs, c.name, d);
      } else {
        ValidatedDependencyIsTask(env, isCreate, c, d);
      }
    }
    GeneratedNames(env, TRIGGER_AUDIT);
  }

  /** The Terraform generator can split every reference that the validator accepted. */
  lemma ValidatedReferencesSplit(env: Environment, isCreate: bool, c: Component, v: Variable)
    requires WellFormed(env, isCreate) && c in env.components && v in c.variables && v.valueFrom != ""
    ensures |Split(v.valueFrom, '.')| == 2
  {
    assert WellFormedComponent(c, env.components, isCreate);
    var comp, output, i :| References(v.valueFrom, comp, output) && FirstAt(env.components, comp, i);
    SplitValueFromIff(v.valueFrom, comp, output);
  }

  /******* What the validator lets through *******/

  function Plain(name: string, ctype: string, dependsOn: seq<string>): Component {
    Component(name, ctype, dependsOn, false, false, None, None, [], [])
  }

  function PlainEnvironment(cs: seq<Component>): Environment {
    Environment(cs, false, false, false, None)
  }

  lemma MutualDependencyNeverCompletes(env: Environment, a: Component, b: Component)
    requires UniqueNames(env.components) && NoAuditClash(env.components) && !DestroyAll(env)
    requires a in env.components && IsTerraform(a) && b.name in a.dependsOn
    requires b in env.components && IsTerraform(b) && a.name in b.dependsOn
    ensures !exists log :: IsRun(TasksOf(env), log) && Completed(TasksOf(env), log)
  {
    assert IsTerraformName(env.components, a.name) && IsTerraformName(env.components, b.name);
    assert (a.name, b.name) in ProvisionGraph(env.components) && (b.name, a.name) in ProvisionGraph(env.components);
    assert Cycle(ProvisionGraph(env.components), [a.name, b.name, a.name]);
    ProvisionEdges(env);
    WorkflowCompletableIff(env);
  }

  lemma CyclicSpecAccepted() returns (env: Environment)
    ensures WellFormed(env, true) && UniqueNames(env.components) && NoAuditClash(env.components)
    ensures !exists log :: IsRun(TasksOf(env), log) && Completed(TasksOf(env), log)
  {
    hide TasksOf;
    var a, b := Plain("a", TERRAFORM, ["b"]), Plain("b", TERRAFORM, ["a"]);
    env := PlainEnvironment([a, b]);
    assert a in env.components && b in env.components;
    MutualDependencyNeverCompletes(env, a, b);
  }

  lemma TasklessDependencyAccepted() returns (env: Environment)
    ensures WellFormed(env, true) && UniqueNames(env.components) && NoAuditClash(env.components)
    ensures Acyclic(ProvisionGraph(env.components))
    ensures !exists log :: IsRun(TasksOf(env), log) && Completed(TasksOf(env), log)
  {
    var a, b := Plain("a", TERRAFORM, ["b"]), Plain("b", ARGOCD, []);
    env := PlainEnvironment([a, b]);
    assert a in env.components && b in env.components;
    assert ProvisionGraph(env.components) == {};
    forall p ensures !Cycle({}, p) {
      assert |p| >= 2 ==> (p[0], p[1]) !in ProvisionGraph(env.components);
    }
    assert MustPrecede(env, "b", a) && !IsTerraformName(env.components, "b");
    WorkflowCompletableIff(env);
  }

  lemma ClashingSpecAccepted() returns (env: Environment)
    ensures WellFormed(env, true) && !UniqueTasks(TasksOf(env))
  {
    var a := Plain(END_AUDIT, TERRAFORM, []);
    env := PlainEnvironment([a]);
    assert a in env.components;
    UniqueTasksIff(env);
  }

  lemma TwoTerraform(a: Component)
    requires IsTerraform(a)
    ensures TerraformOnly([a, a]) == [a, a]
  {
    assert [a, a][..1] == [a] && [a][..0] == [];
    assert TerraformOnly([a]) == [a];
  }

  lemma RepeatedNamesAccepted() returns (env: Environment)
    ensures WellFormed(env, true) && NoAuditClash(env.components) && !UniqueTasks(TasksOf(env))
  {
    hide TasksOf, UniqueTasks, TerraformOnly;
    var a := Plain("a", TERRAFORM, []);
    env := PlainEnvironment([a, a]);
    TwoTerraform(a);
    var named := TerraformOnly(env.components);
    assert named[0].name == named[1].name;
    UniqueTasksIff(env);
  }
}
