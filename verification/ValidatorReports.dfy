/**
 Which errors the environment validator reports (il-operator/controller/validator), each with the reason
 for it in terms of the spec.
 */
module ValidatorReports {
  import opened Types
  import opened Labels
  import opened ValueFrom
  import opened Validator

  /** Letters, digits and single inner hyphens, starting with a letter. */
  ghost predicate NameShape(s: string) {
    && s != ""
    && ('a' <= s[0] <= 'z' || 'A' <= s[0] <= 'Z')
    && (forall k | 0 <= k < |s| ::
          'a' <= s[k] <= 'z' || 'A' <= s[k] <= 'Z' || '0' <= s[k] <= '9' || s[k] == '-')
    && (forall k | 0 <= k < |s| && s[k] == '-' :: k < |s| - 1 && s[k + 1] != '-')
  }

  /** No component has the name. */
  ghost predicate Undeclared(cs: seq<Component>, name: string) {
    forall j | 0 <= j < |cs| :: cs[j].name != name
  }

  /** The entry at `k` is the first that names no component. */
  ghost predicate FirstUndeclared(deps: seq<string>, cs: seq<Component>, k: int) {
    0 <= k < |deps| && Undeclared(cs, deps[k]) && forall j | 0 <= j < k :: !Undeclared(cs, deps[j])
  }

  /** `at` lists, in order, the positions of the entries that repeat an earlier one. */
  ghost predicate RepeatsAt(deps: seq<string>, at: seq<int>) {
    && (forall k | 0 <= k < |at| :: 0 <= at[k] < |deps|)
    && (forall k, m | 0 <= k < m < |at| :: at[k] < at[m])
    && (forall j | 0 <= j < |deps| :: j in at <==> deps[j] in deps[..j])
  }

  ghost predicate Repeats(deps: seq<string>, repeats: seq<string>) {
    exists at: seq<int> ::
      RepeatsAt(deps, at) && |repeats| == |at| && forall k | 0 <= k < |at| :: repeats[k] == deps[at[k]]
  }

  /** Some variable of a component called `name` refers to `vf`. */
  ghost predicate Refers(cs: seq<Component>, name: string, vf: string) {
    vf != "" && exists i, k :: RefersAt(cs, name, vf, i, k)
  }

  ghost predicate RefersAt(cs: seq<Component>, name: string, vf: string, i: int, k: int) {
    0 <= i < |cs| && cs[i].name == name && 0 <= k < |cs[i].variables| && cs[i].variables[k].valueFrom == vf
  }

  /** The reason for each error that is not one of the file checks. */
  ghost predicate Deserved(env: Environment, isCreate: bool, err: FieldError) {
    var cs := env.components;
    match err
    case NoComponents => cs == []
    case BadName(i, name) => i < |cs| && name == cs[i].name && !NameShape(name)
    case NameTooLong(i, name) => i < |cs| && name == cs[i].name && |name| > 63
    case BadType(i, ctype) => i < |cs| && ctype == cs[i].ctype && ctype != "terraform" && ctype != "argocd"
    case SelfDependency(i, name) => i < |cs| && name == cs[i].name && name in cs[i].dependsOn
    case UnknownDependency(i, dep) =>
      i < |cs| && exists k :: FirstUndeclared(cs[i].dependsOn, cs, k) && cs[i].dependsOn[k] == dep
    case DuplicateDependencies(i, repeats) => i < |cs| && repeats != [] && Repeats(cs[i].dependsOn, repeats)
    case MalformedValueFrom(name, vf) => Refers(cs, name, vf) && forall comp, output :: !References(vf, comp, output)
    case UnknownReference(name, vf, comp) =>
      Refers(cs, name, vf) && Undeclared(cs, comp) && exists output :: References(vf, comp, output)
    case UnknownOutput(name, vf, comp) =>
      Refers(cs, name, vf) &&
      exists output, m :: References(vf, comp, output) && FirstAt(cs, comp, m) && Output(output) !in cs[m].outputs
    case InitiallyDestroyed(i) => isCreate && i < |cs| && cs[i].destroy
    case FileProblem(_, _) => false
  }

  /******* One check after the other *******/

  lemma ShapeIsLabel(s: string)
    ensures IsLabel(s) <==> NameShape(s)
  {
    if NameShape(s) {
      assert forall k | 0 <= k < |s| - 1 :: !(s[k] == '-' && s[k + 1] == '-');
    }
    if IsLabel(s) {
      forall k | 0 <= k < |s| && s[k] == '-' ensures k < |s| - 1 && s[k + 1] != '-' {
        assert k < |s| - 1 ==> !(s[k] == '-' && s[k + 1] == '-');
      }
    }
  }

  lemma {:induction false} UnknownIsFirst(deps: seq<string>, cs: seq<Component>, d: string)
    ensures FirstUnknown(deps, cs) == Some(d) <==> exists k :: FirstUndeclared(deps, cs, k) && deps[k] == d
  {
    if deps != [] {
      NameDeclared(cs, deps[0]);
      UnknownIsFirst(deps[1..], cs, d);
      hide FirstUnknown, Undeclared, Names;
      FirstLater(deps, cs, d);
    }
  }

  lemma NameDeclared(cs: seq<Component>, name: string)
    ensures name in Names(cs) <==> !Undeclared(cs, name)
  {
    if j :| 0 <= j < |cs| && cs[j].name == name {
      assert Names(cs)[j] == name;
    }
  }

  lemma FirstLater(deps: seq<string>, cs: seq<Component>, d: string)
    requires deps != []
    ensures (exists k :: FirstUndeclared(deps, cs, k) && deps[k] == d) <==>
            if Undeclared(cs, deps[0]) then deps[0] == d
            else exists k :: FirstUndeclared(deps[1..], cs, k) && deps[1..][k] == d
  {
    hide Undeclared;
    if Undeclared(cs, deps[0]) {
      assert FirstUndeclared(deps, cs, 0);
    } else {
      assert forall j | 0 <= j < |deps| - 1 :: deps[1..][j] == deps[j + 1];
      if k :| FirstUndeclared(deps, cs, k) && deps[k] == d {
        assert FirstUndeclared(deps[1..], cs, k - 1);
      }
      if k :| FirstUndeclared(deps[1..], cs, k) && deps[1..][k] == d {
        forall j | 0 <= j < k + 1 ensures !Undeclared(cs, deps[j]) {
          assert j > 0 ==> deps[j] == deps[1..][j - 1];
        }
        assert FirstUndeclared(deps, cs, k + 1);
      }
    }
  }

  /** Strictly ascending positions: no more of them than there are places, and the last is the greatest. */
  lemma {:induction false} PositionsBounded(at: seq<int>, n: nat)
    requires forall k | 0 <= k < |at| :: 0 <= at[k] < n
    requires forall k, m | 0 <= k < m < |at| :: at[k] < at[m]
    ensures |at| <= n && forall k | 0 <= k < |at| :: at[k] <= at[|at| - 1]
  {
    if at != [] {
      PositionsBounded(at[..|at| - 1], at[|at| - 1]);
    }
  }

  /** The last entry is one more position, if it is a repeat, and no other one. */
  lemma WithLast(deps: seq<string>, init: seq<int>)
    requires deps != [] && RepeatsAt(deps[..|deps| - 1], init)
    ensures RepeatsAt(deps, init + (if deps[|deps| - 1] in deps[..|deps| - 1] then [|deps| - 1] else []))
  {
    var n := |deps| - 1;
    var at := init + (if deps[n] in deps[..n] then [n] else []);
    assert forall k | 0 <= k < |init| :: init[k] < n;
    forall j | 0 <= j < |deps| ensures j in at <==> deps[j] in deps[..j] {
      if j < n {
        assert deps[..n][j] == deps[j] && deps[..n][..j] == deps[..j];
      } else {
        assert n !in init;
      }
    }
  }

  lemma WithoutLast(deps: seq<string>, at: seq<int>) returns (init: seq<int>)
    requires deps != [] && RepeatsAt(deps, at)
    ensures RepeatsAt(deps[..|deps| - 1], init)
    ensures at == init + (if deps[|deps| - 1] in deps[..|deps| - 1] then [|deps| - 1] else [])
  {
    var n := |deps| - 1;
    PositionsBounded(at, |deps|);
    if deps[n] in deps[..n] {
      assert n in at;
      init := at[..|at| - 1];
      assert at == init + [at[|at| - 1]] && at[|at| - 1] == n;
    } else {
      assert n !in at;
      init := at;
    }
    EarlierRepeats(deps, at, init);
  }

  lemma EarlierRepeats(deps: seq<string>, at: seq<int>, init: seq<int>)
    requires deps != [] && RepeatsAt(deps, at)
    requires at == init || at == init + [|deps| - 1]
    requires |deps| - 1 !in init
    ensures RepeatsAt(deps[..|deps| - 1], init)
  {
    var n := |deps| - 1;
    forall k | 0 <= k < |init| ensures 0 <= init[k] < n {
      assert init[k] == at[k] && init[k] in init;
    }
    assert init == at[..|init|];
    forall j | 0 <= j < n ensures j in init <==> deps[..n][j] in deps[..n][..j] {
      assert deps[..n][j] == deps[j] && deps[..n][..j] == deps[..j];
      assert j in at <==> j in init;
    }
  }

  lemma {:induction false} RepeatsPicked(deps: seq<string>) returns (at: seq<int>)
    ensures RepeatsAt(deps, at)
    ensures |Duplicates(deps)| == |at| && forall k | 0 <= k < |at| :: Duplicates(deps)[k] == deps[at[k]]
  {
    at := [];
    if deps != [] {
      var n := |deps| - 1;
      var init := RepeatsPicked(deps[..n]);
      WithLast(deps, init);
      at := init + (if deps[n] in deps[..n] then [n] else []);
      assert forall k | 0 <= k < |init| :: Duplicates(deps[..n])[k] == deps[init[k]];
    }
  }

  /** There is one such list of positions, so the repeats are determined. */
  lemma {:induction false} SamePositions(deps: seq<string>, a: seq<int>, b: seq<int>)
    requires RepeatsAt(deps, a) && RepeatsAt(deps, b)
    ensures a == b
  {
    if deps == [] {
      PositionsBounded(a, 0);
      PositionsBounded(b, 0);
    } else {
      var c := WithoutLast(deps, a);
      var d := WithoutLast(deps, b);
      SamePositions(deps[..|deps| - 1], c, d);
    }
  }

  lemma DuplicatesAreRepeats(deps: seq<string>, repeats: seq<string>)
    ensures Duplicates(deps) == repeats <==> Repeats(deps, repeats)
  {
    var at := RepeatsPicked(deps);
    if Repeats(deps, repeats) {
      var bt: seq<int> :| RepeatsAt(deps, bt) && |repeats| == |bt| && forall k | 0 <= k < |bt| :: repeats[k] == deps[bt[k]];
      SamePositions(deps, at, bt);
    }
  }

  lemma ReferenceReports(c: Component, vf: string, cs: seq<Component>, err: FieldError)
    ensures err in ReferenceErrors(c, vf, cs) <==>
            match err
            case MalformedValueFrom(name, t) => (name, t) == (c.name, vf) && forall comp, output :: !References(vf, comp, output)
            case UnknownReference(name, t, comp) =>
              (name, t) == (c.name, vf) && Undeclared(cs, comp) && exists output :: References(vf, comp, output)
            case UnknownOutput(name, t, comp) =>
              (name, t) == (c.name, vf) &&
              exists output, m :: References(vf, comp, output) && FirstAt(cs, comp, m) && Output(output) !in cs[m].outputs
            case _ => false
  {
    forall comp, output ensures References(vf, comp, output) <==> SplitValueFrom(vf) == Reference(comp, output) {
      SplitValueFromIff(vf, comp, output);
    }
    hide SplitValueFrom, References;
    if SplitValueFrom(vf).Reference? {
      var comp, output := SplitValueFrom(vf).component, SplitValueFrom(vf).output;
      assert References(vf, comp, output);
      FirstNamedIff(cs, comp);
      hide FirstNamed;
      forall m, n | FirstAt(cs, comp, m) && FirstAt(cs, comp, n) ensures m == n {
      }
    }
  }

  lemma {:induction false} ReferencesReport(c: Component, vfs: seq<string>, cs: seq<Component>, err: FieldError)
    ensures err in ValueFromErrors(c, vfs, cs) <==> exists vf :: vf in vfs && err in ReferenceErrors(c, vf, cs)
  {
    if vfs != [] {
      var init, last := vfs[..|vfs| - 1], vfs[|vfs| - 1];
      ReferencesReport(c, init, cs, err);
      hide ReferenceErrors;
      assert vfs == init + [last];
    }
  }

  /** The reason for each error reported on the component at `i`. */
  ghost predicate DeservedAt(env: Environment, isCreate: bool, i: nat, err: FieldError)
    requires i < |env.components|
  {
    var c, cs := env.components[i], env.components;
    match err
    case NoComponents => false
    case BadName(j, name) => j == i && name == c.name && !NameShape(name)
    case NameTooLong(j, name) => j == i && name == c.name && |name| > 63
    case BadType(j, ctype) => j == i && ctype == c.ctype && ctype != "terraform" && ctype != "argocd"
    case SelfDependency(j, name) => j == i && name == c.name && name in c.dependsOn
    case UnknownDependency(j, dep) => j == i && exists k :: FirstUndeclared(c.dependsOn, cs, k) && c.dependsOn[k] == dep
    case DuplicateDependencies(j, repeats) => j == i && repeats != [] && Repeats(c.dependsOn, repeats)
    case InitiallyDestroyed(j) => j == i && isCreate && c.destroy
    case FileProblem(_, _) => false
    case _ => exists v :: v in c.variables && v.valueFrom != "" && err in ReferenceErrors(c, v.valueFrom, cs)
  }

  lemma DependenciesReport(c: Component, cs: seq<Component>, i: nat, err: FieldError)
    ensures err in DependencyErrors(c, cs, i) <==>
            match err
            case SelfDependency(j, name) => j == i && name == c.name && name in c.dependsOn
            case UnknownDependency(j, dep) => j == i && exists k :: FirstUndeclared(c.dependsOn, cs, k) && c.dependsOn[k] == dep
            case DuplicateDependencies(j, repeats) => j == i && repeats != [] && Repeats(c.dependsOn, repeats)
            case _ => false
  {
    if err.UnknownDependency? {
      UnknownIsFirst(c.dependsOn, cs, err.dep);
    } else if err.DuplicateDependencies? {
      DuplicatesAreRepeats(c.dependsOn, err.duplicates);
    }
    hide FirstUndeclared, Repeats, FirstUnknown, Duplicates;
  }

  lemma VariablesReport(c: Component, cs: seq<Component>, err: FieldError)
    ensures err in ValueFromErrors(c, ValueFroms(c.variables), cs) <==>
            exists v :: v in c.variables && v.valueFrom != "" && err in ReferenceErrors(c, v.valueFrom, cs)
  {
    ReferencesReport(c, ValueFroms(c.variables), cs, err);
    ValueFromsMembers(c.variables);
    hide ValueFroms, ReferenceErrors, ValueFromErrors;
    if vf :| vf in ValueFroms(c.variables) && err in ReferenceErrors(c, vf, cs) {
      var v :| v in c.variables && v.valueFrom == vf;
    }
    if v :| v in c.variables && v.valueFrom != "" && err in ReferenceErrors(c, v.valueFrom, cs) {
      assert v.valueFrom in ValueFroms(c.variables);
    }
  }

  lemma OnlyReferences(c: Component, cs: seq<Component>, vf: string, err: FieldError)
    ensures err in ReferenceErrors(c, vf, cs) ==> err.MalformedValueFrom? || err.UnknownReference? || err.UnknownOutput?
  {
  }

  lemma ComponentReports(env: Environment, i: nat, isCreate: bool, files: FileChecks, err: FieldError)
    requires i < |env.components|
    ensures err in ComponentErrors(env, i, isCreate, files) <==>
            DeservedAt(env, isCreate, i, err) || (!env.deleting && err in files(i))
  {
    var c, cs := env.components[i], env.components;
    DependenciesReport(c, cs, i, err);
    VariablesReport(c, cs, err);
    SixChecks(env, i, isCreate, files, err);
    NamesReport(c.name, i, err);
    forall v | v in c.variables && err in ReferenceErrors(c, v.valueFrom, cs)
      ensures err.MalformedValueFrom? || err.UnknownReference? || err.UnknownOutput?
    {
      OnlyReferences(c, cs, v.valueFrom, err);
    }
    hide ComponentErrors, IsLabel, NameShape, NameErrors, DependencyErrors, ValueFromErrors, ReferenceErrors, ValueFroms;
    hide Repeats, FirstUndeclared;
  }

  lemma SixChecks(env: Environment, i: nat, isCreate: bool, files: FileChecks, err: FieldError)
    requires i < |env.components|
    ensures var c, cs := env.components[i], env.components;
            err in ComponentErrors(env, i, isCreate, files) <==>
            || err in NameErrors(c.name, i)
            || (err == BadType(i, c.ctype) && c.ctype != "argocd" && c.ctype != "terraform")
            || err in DependencyErrors(c, cs, i) || err in ValueFromErrors(c, ValueFroms(c.variables), cs)
            || (!env.deleting && err in files(i))
            || (err == InitiallyDestroyed(i) && isCreate && c.destroy)
  {
    var c, cs := env.components[i], env.components;
    hide NameErrors, DependencyErrors, ValueFromErrors, ValueFroms;
    InOneOfSix(NameErrors(c.name, i), if c.ctype != ARGOCD && c.ctype != TERRAFORM then [BadType(i, c.ctype)] else [],
               DependencyErrors(c, cs, i), ValueFromErrors(c, ValueFroms(c.variables), cs),
               if env.deleting then [] else files(i), if isCreate && c.destroy then [InitiallyDestroyed(i)] else [], err);
  }

  lemma InOneOfSix(a: seq<FieldError>, b: seq<FieldError>, c: seq<FieldError>, d: seq<FieldError>, e: seq<FieldError>,
                   f: seq<FieldError>, err: FieldError)
    ensures err in a + b + c + d + e + f <==> err in a || err in b || err in c || err in d || err in e || err in f
  {
  }

  lemma NamesReport(name: string, i: nat, err: FieldError)
    ensures err in NameErrors(name, i) <==>
            (err == BadName(i, name) && !NameShape(name)) || (err == NameTooLong(i, name) && |name| > 63)
  {
    ShapeIsLabel(name);
    hide IsLabel, NameShape;
  }

  lemma {:induction false} FlattenHas<T>(ss: seq<seq<T>>, x: T)
    ensures x in Flatten(ss) <==> exists i :: 0 <= i < |ss| && x in ss[i]
  {
    if ss != [] {
      var n := |ss| - 1;
      FlattenHas(ss[..n], x);
      assert forall i | 0 <= i < n :: ss[..n][i] == ss[i];
    }
  }

  /** Over the whole list: the error is reported for the reason above, or it is one of a file check that is made. */
  lemma GroupsReport(env: Environment, isCreate: bool, files: FileChecks, err: FieldError)
    ensures err in Flatten(ErrorGroups(env, isCreate, files)) <==>
            || (err == NoComponents && env.components == [])
            || (exists i: nat :: i < |env.components| && DeservedAt(env, isCreate, i, err))
            || (exists i: nat :: i < |env.components| && !env.deleting && err in files(i))
  {
    var groups := ErrorGroups(env, isCreate, files);
    FlattenHas(groups, err);
    hide Flatten, ComponentErrors, DeservedAt;
    assert |groups| == |env.components| + 1;
    assert groups[0] == if env.components == [] then [NoComponents] else [];
    if k :| 0 <= k < |groups| && err in groups[k] {
      if k > 0 {
        var i: nat := k - 1;
        assert groups[k] == ComponentErrors(env, i, isCreate, files);
        ComponentReports(env, i, isCreate, files, err);
      }
    }
    if i: nat :| i < |env.components| && (DeservedAt(env, isCreate, i, err) || (!env.deleting && err in files(i))) {
      ComponentReports(env, i, isCreate, files, err);
      assert err in groups[i + 1];
    }
    if err == NoComponents && env.components == [] {
      assert err in groups[0];
    }
  }

  lemma DeservedSomewhere(env: Environment, isCreate: bool, err: FieldError)
    ensures Deserved(env, isCreate, err) <==>
            || (err == NoComponents && env.components == [])
            || exists i: nat :: i < |env.components| && DeservedAt(env, isCreate, i, err)
  {
    hide NameShape, FirstUndeclared, Repeats, References, FirstAt, Undeclared, ReferenceErrors;
    var cs := env.components;
    match err
    case MalformedValueFrom(name, vf) => ReferredSomewhere(env, isCreate, name, vf, err);
    case UnknownReference(name, vf, comp) => ReferredSomewhere(env, isCreate, name, vf, err);
    case UnknownOutput(name, vf, comp) => ReferredSomewhere(env, isCreate, name, vf, err);
    case NoComponents =>
    case BadName(i, name) => assert i < |cs| ==> (Deserved(env, isCreate, err) <==> DeservedAt(env, isCreate, i, err));
    case NameTooLong(i, name) => assert i < |cs| ==> (Deserved(env, isCreate, err) <==> DeservedAt(env, isCreate, i, err));
    case BadType(i, ctype) => assert i < |cs| ==> (Deserved(env, isCreate, err) <==> DeservedAt(env, isCreate, i, err));
    case SelfDependency(i, name) => assert i < |cs| ==> (Deserved(env, isCreate, err) <==> DeservedAt(env, isCreate, i, err));
    case UnknownDependency(i, dep) => assert i < |cs| ==> (Deserved(env, isCreate, err) <==> DeservedAt(env, isCreate, i, err));
    case DuplicateDependencies(i, ds) => assert i < |cs| ==> (Deserved(env, isCreate, err) <==> DeservedAt(env, isCreate, i, err));
    case InitiallyDestroyed(i) => assert i < |cs| ==> (Deserved(env, isCreate, err) <==> DeservedAt(env, isCreate, i, err));
    case FileProblem(_, _) =>
  }

  /** A reference error is reported on the components with that name and that reference. */
  lemma ReferredSomewhere(env: Environment, isCreate: bool, name: string, vf: string, err: FieldError)
    requires err == MalformedValueFrom(name, vf) || (err.UnknownReference? && (err.component, err.valueFrom) == (name, vf))
             || (err.UnknownOutput? && (err.component, err.valueFrom) == (name, vf))
    ensures Deserved(env, isCreate, err) <==> exists i: nat :: i < |env.components| && DeservedAt(env, isCreate, i, err)
  {
    var cs := env.components;
    if i: nat :| i < |cs| && DeservedAt(env, isCreate, i, err) {
      var v :| v in cs[i].variables && v.valueFrom != "" && err in ReferenceErrors(cs[i], v.valueFrom, cs);
      var k :| 0 <= k < |cs[i].variables| && cs[i].variables[k] == v;
      ReferenceReports(cs[i], v.valueFrom, cs, err);
      assert RefersAt(cs, name, vf, i, k);
    }
    if Deserved(env, isCreate, err) {
      var i, k :| RefersAt(cs, name, vf, i, k);
      ReferenceReports(cs[i], vf, cs, err);
      assert cs[i].variables[k] in cs[i].variables;
      assert DeservedAt(env, isCreate, i, err);
    }
  }

  /******* Main result *******/

  /** An error is reported exactly when there is the reason for it, or a file check that is made reports it. */
  lemma ReportedIff(env: Environment, isCreate: bool, files: FileChecks, err: FieldError)
    ensures err in Flatten(ErrorGroups(env, isCreate, files)) <==>
            Deserved(env, isCreate, err) || exists i: nat :: i < |env.components| && !env.deleting && err in files(i)
  {
    GroupsReport(env, isCreate, files, err);
    DeservedSomewhere(env, isCreate, err);
  }

  /** The well-formed environments are those for which there is no reason to report anything. */
  lemma WellFormedIff(env: Environment, isCreate: bool)
    ensures WellFormed(env, isCreate) <==> forall err :: !Deserved(env, isCreate, err)
  {
    var files: FileChecks := i => [];
    NoErrorGroupsIff(env, isCreate, files);
    hide Deserved, Flatten, ErrorGroups, WellFormedComponent;
    var errs := Flatten(ErrorGroups(env, isCreate, files));
    forall err ensures err in errs <==> Deserved(env, isCreate, err) {
      ReportedIff(env, isCreate, files, err);
    }
    if errs != [] {
      assert Deserved(env, isCreate, errs[0]);
    }
    assert forall i: nat | i < |env.components| ::
        Clean(env, i, isCreate, files) <==> WellFormedComponent(env.components[i], env.components, isCreate);
  }

  /******* The order of the errors *******/

  /** Where an error about a component belongs: by component, then by check. Reference and file errors have no place. */
  function Place(err: FieldError): Option<int> {
    match err
    case NoComponents => Some(-1)
    case BadName(i, _) => Some(10 * i)
    case NameTooLong(i, _) => Some(10 * i + 1)
    case BadType(i, _) => Some(10 * i + 2)
    case SelfDependency(i, _) => Some(10 * i + 3)
    case UnknownDependency(i, _) => Some(10 * i + 4)
    case DuplicateDependencies(i, _) => Some(10 * i + 5)
    case InitiallyDestroyed(i) => Some(10 * i + 6)
    case _ => None
  }

  /** Errors that have a place come in that order, no two at the same one. */
  ghost predicate InOrder(errs: seq<FieldError>) {
    forall p, q | 0 <= p < q < |errs| && Place(errs[p]).Some? && Place(errs[q]).Some? ::
      Place(errs[p]).value < Place(errs[q]).value
  }

  /** All places are at least `low` and below `high`. */
  ghost predicate Within(errs: seq<FieldError>, low: int, high: int) {
    forall p | 0 <= p < |errs| && Place(errs[p]).Some? :: low <= Place(errs[p]).value < high
  }

  lemma Appended(a: seq<FieldError>, b: seq<FieldError>, low: int, mid: int, high: int)
    requires low <= mid <= high && InOrder(a) && InOrder(b) && Within(a, low, mid) && Within(b, mid, high)
    ensures InOrder(a + b) && Within(a + b, low, high)
  {
    var ab := a + b;
    assert forall p | 0 <= p < |ab| :: ab[p] == if p < |a| then a[p] else b[p - |a|];
  }

  /** The errors of a list have no place. */
  ghost predicate Placeless(errs: seq<FieldError>) {
    forall p | 0 <= p < |errs| :: Place(errs[p]).None?
  }

  lemma {:induction false} ReferencesPlaceless(c: Component, vfs: seq<string>, cs: seq<Component>)
    ensures Placeless(ValueFromErrors(c, vfs, cs))
  {
    if vfs != [] {
      ReferencesPlaceless(c, vfs[..|vfs| - 1], cs);
    }
  }

  lemma ComponentInOrder(env: Environment, i: nat, isCreate: bool, files: FileChecks)
    requires i < |env.components| && Placeless(files(i))
    ensures InOrder(ComponentErrors(env, i, isCreate, files))
    ensures Within(ComponentErrors(env, i, isCreate, files), 10 * i, 10 * i + 10)
  {
    var c, cs := env.components[i], env.components;
    var names := NameErrors(c.name, i);
    var types := if c.ctype != ARGOCD && c.ctype != TERRAFORM then [BadType(i, c.ctype)] else [];
    var dependencies := DependencyErrors(c, cs, i);
    var references := ValueFromErrors(c, ValueFroms(c.variables), cs);
    var absent := if env.deleting then [] else files(i);
    var destroyed := if isCreate && c.destroy then [InitiallyDestroyed(i)] else [];
    ReferencesPlaceless(c, ValueFroms(c.variables), cs);
    hide InOrder, Within, Placeless, NameErrors, DependencyErrors, ValueFromErrors, ValueFroms;
    NamesInOrder(c.name, i);
    AtMostOne(types, 10 * i + 2, 10 * i + 3);
    DependenciesInOrder(c, cs, i);
    NoPlaces(references, 10 * i + 6);
    PlacelessUnlessDeleting(env.deleting, files(i));
    NoPlaces(absent, 10 * i + 6);
    AtMostOne(destroyed, 10 * i + 6, 10 * i + 10);
    SixInOrder(names, types, dependencies, references, absent, destroyed, 10 * i);
  }

  lemma SixInOrder(a: seq<FieldError>, b: seq<FieldError>, c: seq<FieldError>, d: seq<FieldError>, e: seq<FieldError>,
                   f: seq<FieldError>, k: int)
    requires InOrder(a) && Within(a, k, k + 2) && InOrder(b) && Within(b, k + 2, k + 3)
    requires InOrder(c) && Within(c, k + 3, k + 6) && InOrder(d) && Within(d, k + 6, k + 6)
    requires InOrder(e) && Within(e, k + 6, k + 6) && InOrder(f) && Within(f, k + 6, k + 10)
    ensures InOrder(a + b + c + d + e + f) && Within(a + b + c + d + e + f, k, k + 10)
  {
    hide InOrder, Within;
    Appended(a, b, k, k + 2, k + 3);
    Appended(a + b, c, k, k + 3, k + 6);
    Appended(a + b + c, d, k, k + 6, k + 6);
    Appended(a + b + c + d, e, k, k + 6, k + 6);
    Appended(a + b + c + d + e, f, k, k + 6, k + 10);
  }

  lemma NamesInOrder(name: string, i: nat)
    ensures InOrder(NameErrors(name, i)) && Within(NameErrors(name, i), 10 * i, 10 * i + 2)
  {
  }

  lemma AtMostOne(errs: seq<FieldError>, low: int, high: int)
    requires |errs| <= 1 && forall p | 0 <= p < |errs| :: Place(errs[p]).Some? && low <= Place(errs[p]).value < high
    ensures InOrder(errs) && Within(errs, low, high)
  {
  }

  lemma NoPlaces(errs: seq<FieldError>, k: int)
    requires Placeless(errs)
    ensures InOrder(errs) && Within(errs, k, k)
  {
  }

  lemma PlacelessUnlessDeleting(deleting: bool, errs: seq<FieldError>)
    requires Placeless(errs)
    ensures Placeless(if deleting then [] else errs)
  {
  }

  lemma DependenciesInOrder(c: Component, cs: seq<Component>, i: nat)
    ensures InOrder(DependencyErrors(c, cs, i)) && Within(DependencyErrors(c, cs, i), 10 * i + 3, 10 * i + 6)
  {
    hide FirstUnknown, Duplicates;
  }

  lemma {:induction false} GroupsInOrder(env: Environment, isCreate: bool, files: FileChecks, n: nat)
    requires n <= |env.components| && forall i: nat | i < n :: Placeless(files(i))
    ensures var part := Flatten(ErrorGroups(env, isCreate, files)[..n + 1]); InOrder(part) && Within(part, -1, 10 * n)
  {
    var groups := ErrorGroups(env, isCreate, files);
    if n == 0 {
      assert groups[..1][..0] == [];
    } else {
      GroupsInOrder(env, isCreate, files, n - 1);
      ComponentInOrder(env, n - 1, isCreate, files);
      FlattenNext(groups, n);
      GroupAt(env, isCreate, files, n - 1);
      hide InOrder, Within, Flatten, ErrorGroups, ComponentErrors;
      Appended(Flatten(groups[..n]), groups[n], -1, 10 * (n - 1), 10 * n);
    }
  }

  /** Errors are reported by component and, for one component, in the order of the checks, each at most once. */
  lemma ReportedInOrder(env: Environment, isCreate: bool, files: FileChecks)
    requires forall i: nat | i < |env.components| :: Placeless(files(i))
    ensures InOrder(Flatten(ErrorGroups(env, isCreate, files)))
  {
    hide InOrder, Within, Placeless, Flatten, ComponentErrors;
    var groups := ErrorGroups(env, isCreate, files);
    GroupsInOrder(env, isCreate, files, |env.components|);
    assert groups[..|env.components| + 1] == groups;
  }
}
