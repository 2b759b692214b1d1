/**
 The component checks of the environment validator
 (il-operator/controller/validator/environment_validator.go). Each check returns what it appends to
 the error list; `WellFormed` says declaratively when that list stays empty.
 */
module Validator {
  import opened Types
  import opened Labels
  import opened ValueFrom

  datatype FieldError =
    | NoComponents
    | BadName(index: nat, name: string)
    | NameTooLong(index: nat, name: string)
    | BadType(index: nat, ctype: string)
    | SelfDependency(index: nat, name: string)
    | UnknownDependency(index: nat, dep: string)
    | DuplicateDependencies(index: nat, duplicates: seq<string>)
    | MalformedValueFrom(component: string, valueFrom: string)
    | UnknownOutput(component: string, valueFrom: string, referenced: string)
    | UnknownReference(component: string, valueFrom: string, referenced: string)
    | InitiallyDestroyed(index: nat)
    | FileProblem(component: string, path: string)

  /** The outcome of the repository file checks of each component, which need a clone. */
  type FileChecks = nat -> seq<FieldError>

  /******* What the checks compute *******/

  function FirstUnknown(deps: seq<string>, cs: seq<Component>): Option<string> {
    if deps == [] then None
    else if deps[0] !in Names(cs) then Some(deps[0])
    else FirstUnknown(deps[1..], cs)
  }

  /** The entries that repeat an earlier entry, in order. */
  function Duplicates(deps: seq<string>): seq<string> {
    if deps == [] then []
    else
      var init, last := deps[..|deps| - 1], deps[|deps| - 1];
      Duplicates(init) + (if last in init then [last] else [])
  }

  function FirstNamed(cs: seq<Component>, name: string): Option<Component> {
    if cs == [] then None
    else if cs[0].name == name then Some(cs[0])
    else FirstNamed(cs[1..], name)
  }

  function ValueFroms(vars: seq<Variable>): seq<string> {
    if vars == [] then []
    else
      ValueFroms(vars[..|vars| - 1])
      + (if vars[|vars| - 1].valueFrom == "" then [] else [vars[|vars| - 1].valueFrom])
  }

  function ReferenceErrors(c: Component, vf: string, cs: seq<Component>): seq<FieldError> {
    match SplitValueFrom(vf)
    case Reference(comp, output) =>
      (match FirstNamed(cs, comp)
       case None => [UnknownReference(c.name, vf, comp)]
       case Some(d) => if Output(output) in d.outputs then [] else [UnknownOutput(c.name, vf, comp)])
    case _ => [MalformedValueFrom(c.name, vf)]
  }

  function ValueFromErrors(c: Component, vfs: seq<string>, cs: seq<Component>): seq<FieldError> {
    if vfs == [] then []
    else ValueFromErrors(c, vfs[..|vfs| - 1], cs) + ReferenceErrors(c, vfs[|vfs| - 1], cs)
  }

  function NameErrors(name: string, i: nat): seq<FieldError> {
    (if IsLabel(name) then [] else [BadName(i, name)])
    + (if |name| > MAX_FIELD_LENGTH then [NameTooLong(i, name)] else [])
  }

  function DependencyErrors(c: Component, cs: seq<Component>, i: nat): seq<FieldError> {
    (if c.name in c.dependsOn then [SelfDependency(i, c.name)] else [])
    + (match FirstUnknown(c.dependsOn, cs) case Some(d) => [UnknownDependency(i, d)] case None => [])
    + (if Duplicates(c.dependsOn) != [] then [DuplicateDependencies(i, Duplicates(c.dependsOn))] else [])
  }

  function ComponentErrors(env: Environment, i: nat, isCreate: bool, files: FileChecks): seq<FieldError>
    requires i < |env.components|
  {
    var c := env.components[i];
    NameErrors(c.name, i)
    + (if c.ctype != ARGOCD && c.ctype != TERRAFORM then [BadType(i, c.ctype)] else [])
    + DependencyErrors(c, env.components, i)
    + ValueFromErrors(c, ValueFroms(c.variables), env.components)
    + (if env.deleting then [] else files(i))
    + (if isCreate && c.destroy then [InitiallyDestroyed(i)] else [])
  }

  function Flatten<T>(ss: seq<seq<T>>): seq<T> {
    if ss == [] then [] else Flatten(ss[..|ss| - 1]) + ss[|ss| - 1]
  }

  /** The errors about the list itself, then those of each component. */
  function ErrorGroups(env: Environment, isCreate: bool, files: FileChecks): seq<seq<FieldError>> {
    [if env.components == [] then [NoComponents] else []]
    + seq(|env.components|, i requires 0 <= i < |env.components| => ComponentErrors(env, i, isCreate, files))
  }

  /** Splitting some reference of component `c` crashes. */
  predicate Crashes(c: Component) {
    exists v | v in c.variables :: v.valueFrom != "" && SplitValueFrom(v.valueFrom).Panics?
  }

  /******* The loops *******/

  method CheckReferencesItself(name: string, deps: seq<string>, i: nat) returns (errs: seq<FieldError>)
    ensures errs == if name in deps then [SelfDependency(i, name)] else []
  {
    for k := 0 to |deps|
      invariant name !in deps[..k]
    {
      if name == deps[k] {
        return [SelfDependency(i, name)];
      }
    }
    return [];
  }

  method CheckDependenciesExist(deps: seq<string>, cs: seq<Component>, i: nat) returns (errs: seq<FieldError>)
    ensures errs == match FirstUnknown(deps, cs) case Some(d) => [UnknownDependency(i, d)] case None => []
  {
    for k := 0 to |deps|
      invariant FirstUnknown(deps, cs) == FirstUnknown(deps[k..], cs)
    {
      var dep := deps[k];
      var exists_ := false;
      for m := 0 to |cs|
        invariant !exists_ && forall j | 0 <= j < m :: cs[j].name != dep
      {
        if dep == cs[m].name {
          exists_ := true;
          break;
        }
      }
      assert exists_ <==> dep in Names(cs) by {
        if exists_ {
          var m :| 0 <= m < |cs| && cs[m].name == dep;
          assert Names(cs)[m] == dep;
        }
      }
      if !exists_ {
        return [UnknownDependency(i, dep)];
      }
    }
    return [];
  }

  method CheckDuplicateDependencies(deps: seq<string>, i: nat) returns (errs: seq<FieldError>)
    ensures errs == if Duplicates(deps) != [] then [DuplicateDependencies(i, Duplicates(deps))] else []
  {
    var found: seq<string> := [];
    var duplicates := [];
    for k := 0 to |deps|
      invariant forall d :: d in found <==> d in deps[..k]
      invariant duplicates == Duplicates(deps[..k])
    {
      assert deps[..k + 1][..k] == deps[..k];
      assert deps[..k + 1] == deps[..k] + [deps[k]];
      if deps[k] in found {
        duplicates := duplicates + [deps[k]];
      } else {
        found := found + [deps[k]];
      }
    }
    assert deps[..|deps|] == deps;
    return if |duplicates| > 0 then [DuplicateDependencies(i, duplicates)] else [];
  }

  method CollectValueFroms(vars: seq<Variable>) returns (vfs: seq<string>)
    ensures vfs == ValueFroms(vars)
  {
    vfs := [];
    for k := 0 to |vars|
      invariant vfs == ValueFroms(vars[..k])
    {
      assert vars[..k + 1][..k] == vars[..k];
      if vars[k].valueFrom == "" {
        continue;
      }
      vfs := vfs + [vars[k].valueFrom];
    }
    assert vars[..|vars|] == vars;
  }

  method CheckReference(c: Component, vf: string, cs: seq<Component>)
    returns (crashed: bool, errs: seq<FieldError>)
    ensures crashed <==> SplitValueFrom(vf).Panics?
    ensures !crashed ==> errs == ReferenceErrors(c, vf, cs)
  {
    var split := SplitValueFrom(vf);
    if split.Panics? {
      return true, [];
    }
    if split.Malformed? {
      return false, [MalformedValueFrom(c.name, vf)];
    }
    for m := 0 to |cs|
      invariant FirstNamed(cs, split.component) == FirstNamed(cs[m..], split.component)
    {
      if split.component == cs[m].name {
        return false, if Output(split.output) in cs[m].outputs then [] else [UnknownOutput(c.name, vf, cs[m].name)];
      }
    }
    return false, [UnknownReference(c.name, vf, split.component)];
  }

  method CheckValueFroms(c: Component, cs: seq<Component>) returns (crashed: bool, errs: seq<FieldError>)
    ensures crashed <==> Crashes(c)
    ensures !crashed ==> errs == ValueFromErrors(c, ValueFroms(c.variables), cs)
  {
    hide SplitValueFrom, ReferenceErrors;
    var vfs := CollectValueFroms(c.variables);
    ValueFromsMembers(c.variables);
    assert Crashes(c) <==> exists vf :: vf in vfs && SplitValueFrom(vf).Panics?;
    errs := [];
    for k := 0 to |vfs|
      invariant errs == ValueFromErrors(c, vfs[..k], cs)
      invariant forall j | 0 <= j < k :: !SplitValueFrom(vfs[j]).Panics?
    {
      var panics, found := CheckReference(c, vfs[k], cs);
      if panics {
        return true, [];
      }
      assert vfs[..k + 1][..k] == vfs[..k];
      errs := errs + found;
    }
    assert vfs[..|vfs|] == vfs;
    crashed := false;
  }

  method CheckDependencies(c: Component, cs: seq<Component>, i: nat) returns (errs: seq<FieldError>)
    ensures errs == DependencyErrors(c, cs, i)
  {
    var self := CheckReferencesItself(c.name, c.dependsOn, i);
    var unknown := CheckDependenciesExist(c.dependsOn, cs, i);
    var duplicates := CheckDuplicateDependencies(c.dependsOn, i);
    errs := self + unknown + duplicates;
  }

  /** The body of the component loop. */
  method CheckComponent(env: Environment, i: nat, isCreate: bool, files: FileChecks)
    returns (crashed: bool, errs: seq<FieldError>)
    requires i < |env.components|
    ensures crashed <==> Crashes(env.components[i])
    ensures !crashed ==> errs == ComponentErrors(env, i, isCreate, files)
  {
    hide Crashes, ValueFroms, ValueFromErrors, DependencyErrors, NameErrors;
    var c := env.components[i];
    var named := NameErrors(c.name, i);
    var typed := if c.ctype != ARGOCD && c.ctype != TERRAFORM then [BadType(i, c.ctype)] else [];
    var dependencies := CheckDependencies(c, env.components, i);
    var panics, references := CheckValueFroms(c, env.components);
    if panics {
      return true, [];
    }
    var absent := if env.deleting then [] else files(i);
    var destroyed := if isCreate && c.destroy then [InitiallyDestroyed(i)] else [];
    errs := named + typed + dependencies + references + absent + destroyed;
    crashed := false;
  }

  lemma FlattenNext<T>(ss: seq<seq<T>>, n: nat)
    requires n < |ss|
    ensures Flatten(ss[..n + 1]) == Flatten(ss[..n]) + ss[n]
  {
    assert ss[..n + 1][..n] == ss[..n];
  }

  lemma GroupAt(env: Environment, isCreate: bool, files: FileChecks, i: nat)
    requires i < |env.components|
    ensures |ErrorGroups(env, isCreate, files)| == |env.components| + 1
    ensures ErrorGroups(env, isCreate, files)[i + 1] == ComponentErrors(env, i, isCreate, files)
  {
    hide ComponentErrors;
  }

  lemma GroupsStart(env: Environment, isCreate: bool, files: FileChecks)
    ensures |ErrorGroups(env, isCreate, files)| == |env.components| + 1
    ensures Flatten(ErrorGroups(env, isCreate, files)[..1]) == if env.components == [] then [NoComponents] else []
  {
    hide ComponentErrors;
  }

  method ValidateEnvironmentComponents(env: Environment, isCreate: bool, files: FileChecks)
    returns (crashed: bool, errs: seq<FieldError>)
    ensures crashed <==> exists i :: 0 <= i < |env.components| && Crashes(env.components[i])
    ensures !crashed ==> errs == Flatten(ErrorGroups(env, isCreate, files))
  {
    hide ComponentErrors, ErrorGroups, Crashes, Flatten;
    ghost var groups := ErrorGroups(env, isCreate, files);
    GroupsStart(env, isCreate, files);
    errs := if |env.components| == 0 then [NoComponents] else [];
    for i := 0 to |env.components|
      invariant errs == Flatten(groups[..i + 1])
      invariant forall j | 0 <= j < i :: !Crashes(env.components[j])
    {
      var panics, found := CheckComponent(env, i, isCreate, files);
      if panics {
        return true, [];
      }
      GroupAt(env, isCreate, files, i);
      FlattenNext(groups, i + 1);
      errs := errs + found;
    }
    assert groups[..|groups|] == groups;
    crashed := false;
  }

  /******* What an empty error list means *******/

  /** `i` is the first component called `name`. */
  ghost predicate FirstAt(cs: seq<Component>, name: string, i: int) {
    0 <= i < |cs| && cs[i].name == name && forall j | 0 <= j < i :: cs[j].name != name
  }

  ghost predicate NamesDeclaredOutput(vf: string, cs: seq<Component>) {
    exists comp, output, i ::
      References(vf, comp, output) && FirstAt(cs, comp, i) && Output(output) in cs[i].outputs
  }

  ghost predicate WellFormedComponent(c: Component, cs: seq<Component>, isCreate: bool) {
    && ValidName(c.name)
    && (c.ctype == TERRAFORM || c.ctype == ARGOCD)
    && c.name !in c.dependsOn
    && (forall d | d in c.dependsOn :: exists e :: e in cs && e.name == d)
    && Distinct(c.dependsOn)
    && (forall v | v in c.variables :: v.valueFrom == "" || NamesDeclaredOutput(v.valueFrom, cs))
    && (isCreate ==> !c.destroy)
  }

  ghost predicate Clean(env: Environment, i: nat, isCreate: bool, files: FileChecks)
    requires i < |env.components|
  {
    WellFormedComponent(env.components[i], env.components, isCreate) && (env.deleting || files(i) == [])
  }

  ghost predicate WellFormed(env: Environment, isCreate: bool) {
    env.components != [] && forall c | c in env.components :: WellFormedComponent(c, env.components, isCreate)
  }

  ghost predicate FilesPresent(env: Environment, files: FileChecks) {
    env.deleting || forall i | 0 <= i < |env.components| :: files(i) == []
  }

  lemma {:induction false} ValueFromsMembers(vars: seq<Variable>)
    ensures forall vf :: vf in ValueFroms(vars) <==> vf != "" && exists v :: v in vars && v.valueFrom == vf
  {
    if vars != [] {
      var init, last := vars[..|vars| - 1], vars[|vars| - 1];
      ValueFromsMembers(init);
      assert vars == init + [last];
      forall vf ensures vf in ValueFroms(vars) <==> vf != "" && exists v :: v in vars && v.valueFrom == vf {
        assert vf in ValueFroms(vars) <==> vf in ValueFroms(init) || (vf == last.valueFrom && vf != "");
      }
    }
  }

  lemma {:induction false} NoUnknownIff(deps: seq<string>, cs: seq<Component>)
    ensures FirstUnknown(deps, cs) == None <==> forall d | d in deps :: d in Names(cs)
  {
    if deps != [] {
      NoUnknownIff(deps[1..], cs);
      assert deps == [deps[0]] + deps[1..];
    }
  }

  lemma NamesMembers(cs: seq<Component>, name: string)
    ensures name in Names(cs) <==> exists c :: c in cs && c.name == name
  {
    if c :| c in cs && c.name == name {
      var i :| 0 <= i < |cs| && cs[i] == c;
      assert Names(cs)[i] == name;
    }
  }

  lemma {:induction false} NoDuplicatesIff(deps: seq<string>)
    ensures Duplicates(deps) == [] <==> Distinct(deps)
  {
    if deps != [] {
      var init := deps[..|deps| - 1];
      NoDuplicatesIff(init);
      assert Distinct(deps) <==> Distinct(init) && deps[|deps| - 1] !in init;
    }
  }

  lemma {:induction false} FirstNamedIff(cs: seq<Component>, name: string)
    ensures match FirstNamed(cs, name)
            case None => forall i | 0 <= i < |cs| :: cs[i].name != name
            case Some(c) => exists i :: FirstAt(cs, name, i) && cs[i] == c
  {
    if cs != [] && cs[0].name == name {
      assert FirstAt(cs, name, 0);
    } else if cs != [] {
      FirstNamedIff(cs[1..], name);
      if FirstNamed(cs, name).Some? {
        var i :| FirstAt(cs[1..], name, i) && cs[1..][i] == FirstNamed(cs, name).value;
        assert forall j | 0 < j < |cs| :: cs[j] == cs[1..][j - 1];
        assert FirstAt(cs, name, i + 1);
      } else {
        assert forall j | 0 < j < |cs| :: cs[j] == cs[1..][j - 1];
      }
    }
  }

  lemma NoReferenceErrorsIff(c: Component, vf: string, cs: seq<Component>)
    ensures ReferenceErrors(c, vf, cs) == [] <==> NamesDeclaredOutput(vf, cs)
  {
    if SplitValueFrom(vf).Reference? {
      var comp, output := SplitValueFrom(vf).component, SplitValueFrom(vf).output;
      SplitValueFromIff(vf, comp, output);
      FirstNamedIff(cs, comp);
    }
    if NamesDeclaredOutput(vf, cs) {
      var comp, output, i :| References(vf, comp, output) && FirstAt(cs, comp, i) && Output(output) in cs[i].outputs;
      SplitValueFromIff(vf, comp, output);
      FirstNamedIff(cs, comp);
    }
  }

  lemma {:induction false} NoValueFromErrorsIff(c: Component, vfs: seq<string>, cs: seq<Component>)
    ensures ValueFromErrors(c, vfs, cs) == [] <==> forall vf | vf in vfs :: NamesDeclaredOutput(vf, cs)
  {
    if vfs != [] {
      var init, last := vfs[..|vfs| - 1], vfs[|vfs| - 1];
      NoValueFromErrorsIff(c, init, cs);
      NoReferenceErrorsIff(c, last, cs);
      assert vfs == init + [last];
    }
  }

  lemma NoDependencyErrorsIff(c: Component, cs: seq<Component>, i: nat)
    ensures DependencyErrors(c, cs, i) == [] <==>
            && c.name !in c.dependsOn && (forall d | d in c.dependsOn :: exists e :: e in cs && e.name == d)
            && Distinct(c.dependsOn)
  {
    NoUnknownIff(c.dependsOn, cs);
    forall d ensures d in Names(cs) <==> exists e :: e in cs && e.name == d {
      NamesMembers(cs, d);
    }
    NoDuplicatesIff(c.dependsOn);
    hide Distinct, Names, FirstUnknown, Duplicates;
  }

  lemma NoComponentErrorsIff(env: Environment, i: nat, isCreate: bool, files: FileChecks)
    requires i < |env.components|
    ensures ComponentErrors(env, i, isCreate, files) == [] <==> Clean(env, i, isCreate, files)
  {
    var c, cs := env.components[i], env.components;
    NoDependencyErrorsIff(c, cs, i);
    NoValueFromErrorsIff(c, ValueFroms(c.variables), cs);
    ValueFromsMembers(c.variables);
    hide DependencyErrors, ValueFromErrors, ValueFroms, IsLabel, NamesDeclaredOutput, Distinct;
    assert (forall vf | vf in ValueFroms(c.variables) :: NamesDeclaredOutput(vf, cs))
           <==> forall v | v in c.variables :: v.valueFrom == "" || NamesDeclaredOutput(v.valueFrom, cs);
  }

  lemma {:induction false} FlattenEmptyIff<T>(ss: seq<seq<T>>)
    ensures Flatten(ss) == [] <==> forall i | 0 <= i < |ss| :: ss[i] == []
  {
    if ss != [] {
      var init := ss[..|ss| - 1];
      FlattenEmptyIff(init);
      assert forall i | 0 <= i < |init| :: init[i] == ss[i];
      assert Flatten(ss) == Flatten(init) + ss[|ss| - 1];
    }
  }

  lemma WellFormedNeverCrashes(env: Environment, isCreate: bool, c: Component)
    requires WellFormed(env, isCreate) && c in env.components
    ensures !Crashes(c)
  {
    forall v | v in c.variables && v.valueFrom != "" ensures !SplitValueFrom(v.valueFrom).Panics? {
      var comp, output, i :| References(v.valueFrom, comp, output) && FirstAt(env.components, comp, i);
      SplitValueFromIff(v.valueFrom, comp, output);
    }
  }

  lemma NoErrorGroupsIff(env: Environment, isCreate: bool, files: FileChecks)
    ensures Flatten(ErrorGroups(env, isCreate, files)) == [] <==>
            env.components != [] && forall i: nat | i < |env.components| :: Clean(env, i, isCreate, files)
  {
    hide Clean, ComponentErrors, Flatten;
    var groups := ErrorGroups(env, isCreate, files);
    FlattenEmptyIff(groups);
    forall i: nat | i < |env.components| ensures groups[i + 1] == [] <==> Clean(env, i, isCreate, files) {
      NoComponentErrorsIff(env, i, isCreate, files);
    }
    assert groups[0] == [] <==> env.components != [];
    if env.components != [] && forall i: nat | i < |env.components| :: Clean(env, i, isCreate, files) {
      forall i | 0 <= i < |groups| ensures groups[i] == [] {
        assert i > 0 ==> Clean(env, i - 1, isCreate, files);
      }
    }
  }

  /** The validator accepts exactly the well-formed environments whose files are present. */
  lemma AcceptsIff(env: Environment, isCreate: bool, files: FileChecks)
    ensures (forall i | 0 <= i < |env.components| :: !Crashes(env.components[i]))
            && Flatten(ErrorGroups(env, isCreate, files)) == []
            <==> WellFormed(env, isCreate) && FilesPresent(env, files)
  {
    hide Crashes, WellFormedComponent, ErrorGroups;
    NoErrorGroupsIff(env, isCreate, files);
    if Flatten(ErrorGroups(env, isCreate, files)) == [] {
      forall i: nat | i < |env.components|
        ensures WellFormedComponent(env.components[i], env.components, isCreate)
        ensures env.deleting || files(i) == []
      {
        assert Clean(env, i, isCreate, files);
      }
    }
    if WellFormed(env, isCreate) {
      forall c | c in env.components ensures !Crashes(c) {
        WellFormedNeverCrashes(env, isCreate, c);
      }
    }
  }
}
