/**
 From the validated spec to the compiled one: the webhook checks the spec as written
 (il-operator/controller/validator), the operator interpolates it and compiles the result
 (il-operator/controller/environment_controller.go).
 */
module InterpolatedDeployment {
  import opened Types
  import opened Graphs
  import opened DagRun
  import opened Strings
  import opened Labels
  import opened ValueFrom
  import opened Validator
  import opened Workflow
  import opened Deployment
  import I = Interpolation
  import S = Substitution
  import E = EnvironmentInterpolation

  function InterpolatedComponent(c: Component, vars: I.Variables): Component {
    c.(name := E.Text(c.name, vars),
       variables := seq(|c.variables|, i requires 0 <= i < |c.variables| => E.VariableText(c.variables[i], vars)),
       tags := if c.tags.None? then None
               else Some(seq(|c.tags.value|, i requires 0 <= i < |c.tags.value| => E.TagText(c.tags.value[i], vars))))
  }

  function InterpolatedEnvironment(env: Environment, vars: I.Variables): Environment {
    env.(components := seq(|env.components|, i requires 0 <= i < |env.components| =>
                             InterpolatedComponent(env.components[i], vars)))
  }

  /** The component as the in-place pass sees it; a missing tag list is an empty one there. */
  predicate Represents(c: Component, contents: E.Contents) {
    && contents.name == c.name && contents.dependsOn == c.dependsOn && contents.variables == c.variables
    && contents.tags == (if c.tags.None? then [] else c.tags.value)
  }

  /** What the in-place pass leaves represents the interpolated component. */
  lemma InPlaceIsInterpolated(c: Component, was: E.Contents, now: E.Contents, vars: I.Variables)
    requires Represents(c, was) && E.Interpolated(was, now, vars)
    ensures Represents(InterpolatedComponent(c, vars), now)
  {
    hide E.Text, E.VariableText, E.TagText;
    var d := InterpolatedComponent(c, vars);
    assert now.variables == d.variables;
    assert now.tags == (if d.tags.None? then [] else d.tags.value);
  }

  /******* Validated names pass through *******/

  lemma NoTokens(s: string, vars: I.Variables)
    requires '$' !in s
    ensures I.Bodies(s) == [] && E.Text(s, vars) == s && !I.Malformed(s)
  {
    S.PlainPrefix(s, "", vars);
    assert s + "" == s;
  }

  /** No component name of a validated spec, and no dependency, is changed or refused by interpolation. */
  lemma ValidNamesUntouched(env: Environment, isCreate: bool, vars: I.Variables, c: Component)
    requires WellFormed(env, isCreate) && c in env.components
    ensures E.Text(c.name, vars) == c.name && !I.Malformed(c.name)
    ensures forall d | d in c.dependsOn :: E.Text(d, vars) == d
  {
    hide E.Text, I.Malformed, LabelTail;
    assert WellFormedComponent(c, env.components, isCreate);
    LabelIsDollarFree(c.name);
    NoTokens(c.name, vars);
    forall d | d in c.dependsOn ensures E.Text(d, vars) == d {
      var e :| e in env.components && e.name == d;
      assert WellFormedComponent(e, env.components, isCreate);
      LabelIsDollarFree(d);
      NoTokens(d, vars);
    }
  }

  lemma LabelIsDollarFree(s: string)
    requires IsLabel(s)
    ensures '$' !in s
  {
  }

  /** The two specs agree on everything the shape of the DAG is made from. */
  ghost predicate SameShape(a: Environment, b: Environment) {
    && DestroyAll(a) == DestroyAll(b) && a.autoApprove == b.autoApprove && |a.components| == |b.components|
    && forall i | 0 <= i < |a.components| :: SameComponent(a.components[i], b.components[i])
  }

  ghost predicate SameComponent(c: Component, d: Component) {
    && c.name == d.name && c.ctype == d.ctype && c.dependsOn == d.dependsOn
    && c.destroy == d.destroy && c.autoApprove == d.autoApprove
  }

  /** The skip answer may differ: tags are interpolated. */
  ghost predicate SameTask(t: Task, u: Task) {
    && t.name == u.name && t.dependencies == u.dependencies
    && match t.arguments
       case AuditArguments(_, _, _, _) => u.arguments == t.arguments
       case TriggerArguments(configName, isDestroy, autoApprove, _) =>
         && u.arguments.TriggerArguments? && u.arguments.configName == configName
         && u.arguments.isDestroy == isDestroy && u.arguments.autoApprove == autoApprove
  }

  ghost predicate SameTasks(a: seq<Task>, b: seq<Task>) {
    |a| == |b| && forall i | 0 <= i < |a| :: SameTask(a[i], b[i])
  }

  lemma InterpolatedShape(env: Environment, isCreate: bool, vars: I.Variables)
    requires WellFormed(env, isCreate)
    ensures SameShape(env, InterpolatedEnvironment(env, vars))
  {
    hide E.Text, E.VariableText, E.TagText, WellFormed;
    forall i | 0 <= i < |env.components|
      ensures SameComponent(env.components[i], InterpolatedComponent(env.components[i], vars))
    {
      ValidNamesUntouched(env, isCreate, vars, env.components[i]);
    }
  }

  lemma {:induction false} SameInverse(a: seq<Component>, b: seq<Component>, name: string)
    requires |a| == |b| && forall i | 0 <= i < |a| :: SameComponent(a[i], b[i])
    ensures InverseDependencies(a, name) == InverseDependencies(b, name)
  {
    if a != [] {
      SameInverse(a[..|a| - 1], b[..|b| - 1], name);
    }
  }

  lemma {:induction false} SameTerraform(a: seq<Component>, b: seq<Component>)
    requires |a| == |b| && forall i | 0 <= i < |a| :: SameComponent(a[i], b[i])
    ensures var x, y := TerraformOnly(a), TerraformOnly(b); |x| == |y| && forall i | 0 <= i < |x| :: SameComponent(x[i], y[i])
  {
    if a != [] {
      SameTerraform(a[..|a| - 1], b[..|b| - 1]);
    }
  }

  lemma ShapeDecidesTasks(a: Environment, b: Environment)
    requires SameShape(a, b)
    ensures SameTasks(TasksOf(a), TasksOf(b))
  {
    SameTerraform(a.components, b.components);
    hide TerraformOnly;
    var x, y := TerraformOnly(a.components), TerraformOnly(b.components);
    forall i | 0 <= i < |x|
      ensures SameTask(ComponentTask(a, x[i]), ComponentTask(b, y[i]))
    {
      assert SameComponent(x[i], y[i]);
      SameInverse(a.components, b.components, x[i].name);
    }
    assert Names(x) == Names(y) by {
      assert forall i | 0 <= i < |x| :: SameComponent(x[i], y[i]);
    }
  }

  /** The DAG compiled after interpolation has the tasks of the spec that was validated, skip answers apart. */
  lemma InterpolatedDag(env: Environment, isCreate: bool, vars: I.Variables)
    requires WellFormed(env, isCreate)
    ensures SameTasks(TasksOf(env), TasksOf(InterpolatedEnvironment(env, vars)))
  {
    InterpolatedShape(env, isCreate, vars);
    ShapeDecidesTasks(env, InterpolatedEnvironment(env, vars));
  }

  lemma ShapeKeepsConditions(a: Environment, b: Environment)
    requires SameShape(a, b)
    requires KnownDependencies(a.components) && Unchecked(a.components) && Acyclic(ProvisionGraph(a.components))
    ensures KnownDependencies(b.components) && Unchecked(b.components) && Acyclic(ProvisionGraph(b.components))
  {
    var cs, ds := a.components, b.components;
    forall d | d in ds ensures exists c :: c in cs && SameComponent(c, d) {
      var i :| 0 <= i < |ds| && ds[i] == d;
      assert SameComponent(cs[i], d);
    }
    forall c | c in cs ensures exists d :: d in ds && SameComponent(c, d) {
      var i :| 0 <= i < |cs| && cs[i] == c;
      assert SameComponent(c, ds[i]);
    }
    forall n ensures IsTerraformName(cs, n) <==> IsTerraformName(ds, n) {
    }
    assert UniqueNames(ds) by {
      forall i, j | 0 <= i < j < |ds| ensures ds[i].name != ds[j].name {
        assert SameComponent(cs[i], ds[i]) && SameComponent(cs[j], ds[j]);
      }
    }
    assert ProvisionGraph(ds) == ProvisionGraph(cs);
  }

  /** The deployment guarantee, for the workflow that is really compiled. */
  lemma InterpolatedDeploys(env: Environment, isCreate: bool, vars: I.Variables, log: seq<Event>)
    requires WellFormed(env, isCreate) && Unchecked(env.components) && Acyclic(ProvisionGraph(env.components))
    requires IsRun(TasksOf(InterpolatedEnvironment(env, vars)), log) && FailureFree(log)
    ensures var tasks := TasksOf(InterpolatedEnvironment(env, vars));
            exists full :: log <= full && IsRun(tasks, full) && Completed(tasks, full)
  {
    ValidatedKnown(env, isCreate);
    InterpolatedShape(env, isCreate, vars);
    ShapeKeepsConditions(env, InterpolatedEnvironment(env, vars));
    AcyclicDeploys(InterpolatedEnvironment(env, vars), log);
  }

  /******* References *******/

  lemma {:induction false} BodyFromText(s: string, b: string, c: char)
    requires b in I.Bodies(s) && c in b
    ensures c in s
  {
    var n := I.TokenLength(s);
    if n > 0 {
      var first := I.Body(s[..n]);
      if b == first {
        assert c in s[..n];
      } else {
        BodyFromText(s[n..], b, c);
      }
    } else {
      BodyFromText(s[1..], b, c);
    }
  }

  /** A dot belongs to every token that is not malformed, and a reference has its one dot after a name. */
  lemma ReferenceHasNoToken(component: string, output: string, vars: I.Variables)
    requires '$' !in component && '.' !in output && !I.Malformed(component + "." + output)
    ensures var vf := component + "." + output; E.Text(vf, vars) == vf
  {
    var vf := component + "." + output;
    var bodies := I.Bodies(vf);
    S.PlainPrefix(component + ".", output, vars);
    if bodies != [] {
      var b := bodies[0];
      assert b in bodies;
      I.NoDots(b);
      OneDot(b);
      BodyFromText(output, b, '.');
    }
  }

  lemma OneDot(b: string)
    requires I.Dots(b) == 1
    ensures '.' in b
  {
    I.NoDots(b);
  }

  /**
   Where the interpolation of a validated reference succeeds it changes nothing, so the Terraform
   generator can split what it is given.
   */
  lemma InterpolatedReferencesSplit(env: Environment, isCreate: bool, vars: I.Variables, c: Component, v: Variable)
    requires WellFormed(env, isCreate) && c in env.components && v in c.variables && v.valueFrom != ""
    requires !E.BadVariable(v)
    ensures E.VariableText(v, vars).valueFrom == v.valueFrom && |Split(v.valueFrom, '.')| == 2
  {
    hide LabelTail;
    assert WellFormedComponent(c, env.components, isCreate);
    var component, output, i :| References(v.valueFrom, component, output) && FirstAt(env.components, component, i);
    ValidatedReferencesSplit(env, isCreate, c, v);
    assert env.components[i] in env.components && WellFormedComponent(env.components[i], env.components, isCreate);
    LabelIsDollarFree(component);
    var o :| v.valueFrom == component + "." + o && '.' !in o && IndexedName(o, output);
    ReferenceHasNoToken(component, o, vars);
  }

  /******* Specs that were not validated *******/

  ghost predicate Named(cs: seq<Component>, name: string) {
    exists e :: e in cs && e.name == name
  }

  /** The text holds no token of a variable with a value. */
  ghost predicate Untouched(s: string, vars: I.Variables) {
    forall b | b in I.Bodies(s) :: I.Lookup(vars, b) == ""
  }

  ghost predicate DependenciesNamed(cs: seq<Component>) {
    forall c, d | c in cs && d in c.dependsOn :: Named(cs, d)
  }

  ghost predicate DependenciesUntouched(cs: seq<Component>, vars: I.Variables) {
    forall c, d | c in cs && d in c.dependsOn :: Untouched(d, vars)
  }

  lemma {:induction false} UnmappedReplaceNothing(t: string, bodies: seq<string>, vars: I.Variables)
    requires forall b | b in bodies :: I.Lookup(vars, b) == ""
    ensures I.ReplaceEach(t, bodies, vars) == t
  {
    if bodies != [] {
      var init := bodies[..|bodies| - 1];
      assert forall b | b in init :: b in bodies;
      UnmappedReplaceNothing(t, init, vars);
    }
  }

  lemma TextIsSettled(s: string, vars: I.Variables)
    requires E.Tidy(s) && E.DollarFree(vars)
    ensures Untouched(E.Text(s, vars), vars)
  {
    S.DollarFreeNoCapture(vars);
    S.WellFormedBodies(s);
    S.OrderIndependent(s, I.Bodies(s), vars);
    S.SubstitutedTwice(s, vars);
  }

  lemma NamedAfter(env: Environment, vars: I.Variables, n: string)
    ensures Named(InterpolatedEnvironment(env, vars).components, n) <==>
            exists e :: e in env.components && E.Text(e.name, vars) == n
  {
    hide E.Text;
    var cs, ds := env.components, InterpolatedEnvironment(env, vars).components;
    if e :| e in ds && e.name == n {
      var i :| 0 <= i < |ds| && ds[i] == e;
      assert cs[i] in cs && E.Text(cs[i].name, vars) == n;
    }
    if e :| e in cs && E.Text(e.name, vars) == n {
      var i :| 0 <= i < |cs| && cs[i] == e;
      assert ds[i] in ds;
    }
  }

  /** `d` is still a name after interpolation exactly when no variable with a value occurs in it. */
  lemma StillNamedIff(env: Environment, vars: I.Variables, d: string)
    requires E.DollarFree(vars) && (forall c | c in env.components :: E.Tidy(c.name)) && Named(env.components, d)
    ensures Named(InterpolatedEnvironment(env, vars).components, d) <==> Untouched(d, vars)
  {
    NamedAfter(env, vars, d);
    hide I.Bodies, E.Tidy;
    var cs := env.components;
    if e :| e in cs && E.Text(e.name, vars) == d {
      TextIsSettled(e.name, vars);
    }
    if Untouched(d, vars) {
      UnmappedReplaceNothing(d, I.Bodies(d), vars);
    }
  }

  /** Interpolation leaves the dependencies of every component as they are. */
  lemma SameDependencies(env: Environment, vars: I.Variables, deps: seq<string>)
    ensures (exists c :: c in env.components && c.dependsOn == deps) <==>
            exists c :: c in InterpolatedEnvironment(env, vars).components && c.dependsOn == deps
  {
    hide E.Text, E.VariableText, E.TagText;
    var cs, ds := env.components, InterpolatedEnvironment(env, vars).components;
    if c :| c in cs && c.dependsOn == deps {
      var i :| 0 <= i < |cs| && cs[i] == c;
      assert ds[i] in ds;
    }
    if d :| d in ds && d.dependsOn == deps {
      var i :| 0 <= i < |ds| && ds[i] == d;
      assert cs[i] in cs;
    }
  }

  /**
   Interpolation renames components but not dependencies. Where names are well formed and values
   dollar-free, dependencies that named components still do exactly when none of them holds the
   token of a variable with a value.
   */
  lemma DependenciesSurviveIff(env: Environment, vars: I.Variables)
    requires E.DollarFree(vars) && (forall c | c in env.components :: E.Tidy(c.name)) && DependenciesNamed(env.components)
    ensures DependenciesNamed(InterpolatedEnvironment(env, vars).components) <==> DependenciesUntouched(env.components, vars)
  {
    hide Named, Untouched, InterpolatedEnvironment, E.Tidy;
    var cs, ds := env.components, InterpolatedEnvironment(env, vars).components;
    forall c, d | c in cs && d in c.dependsOn ensures Named(ds, d) <==> Untouched(d, vars) {
      StillNamedIff(env, vars, d);
    }
    if DependenciesNamed(ds) {
      forall c, d | c in cs && d in c.dependsOn ensures Untouched(d, vars) {
        SameDependencies(env, vars, c.dependsOn);
        var e :| e in ds && e.dependsOn == c.dependsOn;
      }
    }
    if DependenciesUntouched(cs, vars) {
      forall e, d | e in ds && d in e.dependsOn ensures Named(ds, d) {
        SameDependencies(env, vars, e.dependsOn);
        var c :| c in cs && c.dependsOn == e.dependsOn;
      }
    }
  }

  lemma ScopedToken(name: string, vars: I.Variables)
    requires S.Usable(vars, E.ScopedName(name))
    ensures var t := I.Tok(E.ScopedName(name)); E.Tidy(t) && !Untouched(t, vars)
  {
    var b := E.ScopedName(name);
    S.TokenFirst(b, "", vars);
    S.NothingSubstituted(vars);
    assert I.Tok(b) + "" == I.Tok(b) && [b] + [] == [b];
    assert b in I.Bodies(I.Tok(b));
  }

  lemma PlainIsTidy(s: string, vars: I.Variables)
    requires '$' !in s
    ensures E.Tidy(s)
  {
    NoTokens(s, vars);
    S.PlainPrefix(s, "", vars);
    S.NothingSubstituted(vars);
    assert s + "" == s;
  }

  lemma OneLocal(local: E.LocalVariable)
    requires local.value != "" && '$' !in local.value && forall k | 0 <= k < |local.name| :: I.IsNameChar(local.name[k])
    ensures var vars := E.Locals([local]); S.Usable(vars, E.ScopedName(local.name)) && E.DollarFree(vars)
  {
    E.LocalUsableIff([local], 0);
    E.LocalsAreScoped([local]);
    hide E.Locals, E.ScopedName, S.Usable;
  }

  /**
   Such dependencies exist: a component is named by the token of a local variable, say `${zlocals.a}`, and
   another one depends on it. The dependency names a component, and after interpolation it names none.
   */
  lemma DependencyLost(env: Environment, c: Component, d: Component, local: E.LocalVariable)
    requires local.value != "" && '$' !in local.value && forall k | 0 <= k < |local.name| :: I.IsNameChar(local.name[k])
    requires env.components == [c, d] && c.name == I.Tok(E.ScopedName(local.name)) && c.dependsOn == []
    requires '$' !in d.name && d.dependsOn == [c.name]
    ensures DependenciesNamed(env.components)
    ensures !DependenciesNamed(InterpolatedEnvironment(env, E.Locals([local])).components)
  {
    var vars := E.Locals([local]);
    OneLocal(local);
    ScopedToken(local.name, vars);
    PlainIsTidy(d.name, vars);
    hide InterpolatedEnvironment, Untouched, E.Locals, E.ScopedName, E.Tidy, E.DollarFree, S.Usable, I.IsNameChar;
    assert c in env.components && d in env.components && c.name in d.dependsOn;
    assert DependenciesNamed(env.components);
    DependenciesSurviveIff(env, vars);
    assert !DependenciesUntouched(env.components, vars);
  }
}
