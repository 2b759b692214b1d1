/**
 Interpolation of a whole environment (il-operator/controller/codegen/interpolator/interpolator.go).
 The environment and each component are copied, but their slices share the caller's arrays: names
 are changed in the copy, list entries in place.
 */
module EnvironmentInterpolation {
  import opened Types
  import opened Interpolation
  import opened Substitution

  datatype LocalVariable = LocalVariable(name: string, value: string)

  datatype VariablesFile = VariablesFile(source: string, path: string, ref: string)

  datatype EnvironmentComponent = EnvironmentComponent(
    name: string,
    dependsOn: seq<string>,
    variablesFile: Option<VariablesFile>,
    variables: array<Variable>,
    tags: array<Tag>)

  /******* The map of local variables *******/

  function ScopedName(name: string): string {
    "zlocals." + name
  }

  function Locals(zlocals: seq<LocalVariable>): Variables {
    if zlocals == [] then map[]
    else
      var l := zlocals[|zlocals| - 1];
      Locals(zlocals[..|zlocals| - 1])[ScopedName(l.name) := l.value]
  }

  method BuildZLocalsVariableMap(zlocals: seq<LocalVariable>) returns (vars: Variables)
    ensures vars == Locals(zlocals)
  {
    vars := map[];
    for i := 0 to |zlocals|
      invariant vars == Locals(zlocals[..i])
    {
      assert zlocals[..i + 1][..i] == zlocals[..i];
      vars := vars[ScopedName(zlocals[i].name) := zlocals[i].value];
    }
    assert zlocals[..|zlocals|] == zlocals;
  }

  /** A variable is the value of the last local of that name, and there are no other variables. */
  lemma {:induction false} LocalsLastWins(zlocals: seq<LocalVariable>, i: nat)
    requires i < |zlocals| && forall j | i < j < |zlocals| :: zlocals[j].name != zlocals[i].name
    ensures ScopedName(zlocals[i].name) in Locals(zlocals)
    ensures Locals(zlocals)[ScopedName(zlocals[i].name)] == zlocals[i].value
  {
    var n := |zlocals| - 1;
    if i < n {
      LocalsLastWins(zlocals[..n], i);
      assert ScopedName(zlocals[n].name)[8..] == zlocals[n].name && ScopedName(zlocals[i].name)[8..] == zlocals[i].name;
    }
  }

  lemma {:induction false} LocalsAreScoped(zlocals: seq<LocalVariable>)
    ensures forall k | k in Locals(zlocals) ::
              exists l | l in zlocals :: k == ScopedName(l.name) && Locals(zlocals)[k] == l.value
  {
    if zlocals != [] {
      LocalsAreScoped(zlocals[..|zlocals| - 1]);
      assert zlocals[|zlocals| - 1] in zlocals;
      assert forall l | l in zlocals[..|zlocals| - 1] :: l in zlocals;
    }
  }

  lemma ScopedIsBody(name: string)
    ensures IsBody(ScopedName(name)) <==> IsBody(name)
  {
    var s := ScopedName(name);
    assert forall k | 0 <= k < |name| :: s[8 + k] == name[k];
    assert forall k | 0 <= k < 8 :: s[k] == "zlocals."[k];
    assert forall k | 8 <= k < |s| :: s[k] == name[k - 8];
  }

  /** A text of body characters without a dot has name characters only. */
  lemma DotlessBody(name: string)
    ensures IsBody(name) && '.' !in name <==> forall k | 0 <= k < |name| :: IsNameChar(name[k])
  {
  }

  /** Which locals a template can use: those whose name has only letters and 1 to 9 and whose last value is not empty. */
  lemma LocalUsableIff(zlocals: seq<LocalVariable>, i: nat)
    requires i < |zlocals| && forall j | i < j < |zlocals| :: zlocals[j].name != zlocals[i].name
    ensures Usable(Locals(zlocals), ScopedName(zlocals[i].name)) <==>
            zlocals[i].value != "" && forall k | 0 <= k < |zlocals[i].name| :: IsNameChar(zlocals[i].name[k])
  {
    LocalsLastWins(zlocals, i);
    var name := zlocals[i].name;
    ScopedDots(name);
    ScopedIsBody(name);
    NoDots(name);
    DotlessBody(name);
    hide IsBody, Dots, Locals, ScopedName, IsNameChar;
  }

  lemma ScopedDots(name: string)
    ensures Dots(ScopedName(name)) == 1 + Dots(name)
  {
    DotsAppend("zlocals.", name);
    assert Dots("zlocals.") == 1 by {
      assert "zlocals."[1..] == "locals.";
      NoDots("zlocals");
      DotsAppend("zlocals", ".");
      assert "zlocals" + "." == "zlocals.";
    }
  }

  /** A letter, or a digit other than 0. */
  ghost predicate LocalName(name: string) {
    forall k | 0 <= k < |name| :: 'a' <= name[k] <= 'z' || 'A' <= name[k] <= 'Z' || '1' <= name[k] <= '9'
  }

  lemma TokenOfLocal(name: string)
    requires LocalName(name)
    ensures "${zlocals." + name + "}" == Tok(ScopedName(name)) && IsBody(ScopedName(name)) && Dots(ScopedName(name)) == 1
  {
    ScopedIsBody(name);
    ScopedDots(name);
    NoDots(name);
    assert "${" + ("zlocals." + name) + "}" == "${zlocals." + name + "}";
  }

  /** In dollar-free surroundings the token of a local becomes the last value given to that name. */
  lemma LocalReplaced(zlocals: seq<LocalVariable>, i: nat, before: string, rest: string)
    requires i < |zlocals| && LocalName(zlocals[i].name) && zlocals[i].value != "" && '$' !in before
    requires forall j | i < j < |zlocals| :: zlocals[j].name != zlocals[i].name
    ensures Simultaneous(before + ("${zlocals." + zlocals[i].name + "}" + rest), Locals(zlocals)) ==
            before + (zlocals[i].value + Simultaneous(rest, Locals(zlocals)))
  {
    var token := "${zlocals." + zlocals[i].name + "}";
    TokenOfLocal(zlocals[i].name);
    LocalsLastWins(zlocals, i);
    hide Simultaneous, Locals, ScopedName, Tok, IsBody;
    PlainPrefix(before, token + rest, Locals(zlocals));
    TokenFirst(ScopedName(zlocals[i].name), rest, Locals(zlocals));
  }

  /** A text that is such a token is accepted and becomes that value, whatever the value holds. */
  lemma LocalTokenText(zlocals: seq<LocalVariable>, i: nat)
    requires i < |zlocals| && LocalName(zlocals[i].name) && zlocals[i].value != ""
    requires forall j | i < j < |zlocals| :: zlocals[j].name != zlocals[i].name
    ensures var token := "${zlocals." + zlocals[i].name + "}";
            !Malformed(token) && ReplaceEach(token, Bodies(token), Locals(zlocals)) == zlocals[i].value
  {
    var b := ScopedName(zlocals[i].name);
    TokenOfLocal(zlocals[i].name);
    LocalsLastWins(zlocals, i);
    hide Locals, ScopedName, IsBody;
    TokenFirst(b, "", Locals(zlocals));
    NothingSubstituted(Locals(zlocals));
    assert Tok(b) + "" == Tok(b) && [b] + [] == [b] && [b][..0] == [];
    assert ReplaceEach(Tok(b), [], Locals(zlocals)) == Tok(b);
    LoneToken(b, zlocals[i].value);
  }

  /** The token of a name that no local has, or whose last value is empty, is left as it is. */
  lemma UnknownLocalKept(zlocals: seq<LocalVariable>, name: string, before: string, rest: string)
    requires LocalName(name) && '$' !in before
    requires || (forall l | l in zlocals :: l.name != name)
             || (exists i | 0 <= i < |zlocals| ::
                   zlocals[i] == LocalVariable(name, "") && forall j | i < j < |zlocals| :: zlocals[j].name != name)
    ensures Simultaneous(before + ("${zlocals." + name + "}" + rest), Locals(zlocals)) ==
            before + ("${zlocals." + name + "}" + Simultaneous(rest, Locals(zlocals)))
  {
    TokenOfLocal(name);
    var b := ScopedName(name);
    if forall l | l in zlocals :: l.name != name {
      NoSuchLocal(zlocals, name);
    } else {
      var i :| 0 <= i < |zlocals| && zlocals[i] == LocalVariable(name, "")
               && forall j | i < j < |zlocals| :: zlocals[j].name != name;
      LocalsLastWins(zlocals, i);
    }
    assert Lookup(Locals(zlocals), b) == "";
    hide Simultaneous, Locals, ScopedName, Tok, IsBody;
    PlainPrefix(before, "${zlocals." + name + "}" + rest, Locals(zlocals));
    TokenFirst(b, rest, Locals(zlocals));
  }

  lemma {:induction false} NoSuchLocal(zlocals: seq<LocalVariable>, name: string)
    requires forall l | l in zlocals :: l.name != name
    ensures ScopedName(name) !in Locals(zlocals)
  {
    if zlocals != [] {
      var n := |zlocals| - 1;
      assert zlocals[n] in zlocals && forall l | l in zlocals[..n] :: l in zlocals;
      NoSuchLocal(zlocals[..n], name);
      assert ScopedName(zlocals[n].name)[8..] == zlocals[n].name && ScopedName(name)[8..] == name;
    }
  }

  /******* What interpolation means for each entity *******/

  /** The interpolated text; the method of the Interpolation module returns it unless the text is malformed. */
  function Text(s: string, vars: Variables): string {
    ReplaceEach(s, Bodies(s), vars)
  }

  function VariableText(v: Variable, vars: Variables): Variable {
    Variable(Text(v.name, vars), Text(v.value, vars), Text(v.valueFrom, vars))
  }

  ghost predicate BadVariable(v: Variable) {
    Malformed(v.name) || Malformed(v.value) || Malformed(v.valueFrom)
  }

  function TagText(t: Tag, vars: Variables): Tag {
    Tag(Text(t.name, vars), Text(t.value, vars))
  }

  ghost predicate BadTag(t: Tag) {
    Malformed(t.name) || Malformed(t.value)
  }

  function FileText(f: VariablesFile, vars: Variables): VariablesFile {
    VariablesFile(Text(f.source, vars), Text(f.path, vars), Text(f.ref, vars))
  }

  ghost predicate BadFile(f: VariablesFile) {
    Malformed(f.source) || Malformed(f.path) || Malformed(f.ref)
  }

  /** A list of which the first `k` entries are done and the rest are as before. */
  ghost predicate VariablesDone(was: seq<Variable>, now: seq<Variable>, k: nat, vars: Variables) {
    && |now| == |was|
    && forall i | 0 <= i < |was| :: now[i] == if i < k then VariableText(was[i], vars) else was[i]
  }

  ghost predicate TagsDone(was: seq<Tag>, now: seq<Tag>, k: nat, vars: Variables) {
    && |now| == |was|
    && forall i | 0 <= i < |was| :: now[i] == if i < k then TagText(was[i], vars) else was[i]
  }

  /******* The loops *******/

  method InterpolateVariable(v: Variable, vars: Variables) returns (r: Option<Variable>)
    ensures r.None? <==> BadVariable(v)
    ensures r.Some? ==> r.value == VariableText(v, vars)
  {
    var name := Interpolate(v.name, vars);
    if name.None? {
      return None;
    }
    var value := Interpolate(v.value, vars);
    if value.None? {
      return None;
    }
    var valueFrom := Interpolate(v.valueFrom, vars);
    if valueFrom.None? {
      return None;
    }
    return Some(Variable(name.value, value.value, valueFrom.value));
  }

  method InterpolateTag(t: Tag, vars: Variables) returns (r: Option<Tag>)
    ensures r.None? <==> BadTag(t)
    ensures r.Some? ==> r.value == TagText(t, vars)
  {
    var name := Interpolate(t.name, vars);
    if name.None? {
      return None;
    }
    var value := Interpolate(t.value, vars);
    if value.None? {
      return None;
    }
    return Some(Tag(name.value, value.value));
  }

  method InterpolateVariablesFile(f: VariablesFile, vars: Variables) returns (r: Option<VariablesFile>)
    ensures r.None? <==> BadFile(f)
    ensures r.Some? ==> r.value == FileText(f, vars)
  {
    var source := Interpolate(f.source, vars);
    if source.None? {
      return None;
    }
    var path := Interpolate(f.path, vars);
    if path.None? {
      return None;
    }
    var ref := Interpolate(f.ref, vars);
    if ref.None? {
      return None;
    }
    return Some(VariablesFile(source.value, path.value, ref.value));
  }

  /** Entries are replaced one by one; the first malformed one stops the loop and leaves the earlier ones replaced. */
  method InterpolateVariables(list: array<Variable>, vars: Variables) returns (done: nat)
    modifies list
    ensures done <= list.Length && VariablesDone(old(list[..]), list[..], done, vars)
    ensures forall i | 0 <= i < done :: !BadVariable(old(list[i]))
    ensures done < list.Length ==> BadVariable(old(list[done]))
  {
    hide Text, BadVariable, VariableText;
    done := 0;
    while done < list.Length
      invariant done <= list.Length && VariablesDone(old(list[..]), list[..], done, vars)
      invariant forall i | 0 <= i < done :: !BadVariable(old(list[i]))
    {
      var interpolated := InterpolateVariable(list[done], vars);
      if interpolated.None? {
        return;
      }
      list[done] := interpolated.value;
      done := done + 1;
    }
  }

  method InterpolateTags(list: array<Tag>, vars: Variables) returns (done: nat)
    modifies list
    ensures done <= list.Length && TagsDone(old(list[..]), list[..], done, vars)
    ensures forall i | 0 <= i < done :: !BadTag(old(list[i]))
    ensures done < list.Length ==> BadTag(old(list[done]))
  {
    hide Text, BadTag, TagText;
    done := 0;
    while done < list.Length
      invariant done <= list.Length && TagsDone(old(list[..]), list[..], done, vars)
      invariant forall i | 0 <= i < done :: !BadTag(old(list[i]))
    {
      var interpolated := InterpolateTag(list[done], vars);
      if interpolated.None? {
        return;
      }
      list[done] := interpolated.value;
      done := done + 1;
    }
  }

  /******* A component *******/

  /** A component with the contents of its lists. */
  datatype Contents = Contents(name: string, dependsOn: seq<string>, variablesFile: Option<VariablesFile>,
                               variables: seq<Variable>, tags: seq<Tag>)

  function ContentsOf(c: EnvironmentComponent): Contents
    reads c.variables, c.tags
  {
    Contents(c.name, c.dependsOn, c.variablesFile, c.variables[..], c.tags[..])
  }

  ghost predicate BadComponent(c: Contents) {
    || Malformed(c.name)
    || (c.variablesFile.Some? && BadFile(c.variablesFile.value))
    || (exists v :: v in c.variables && BadVariable(v))
    || (exists t :: t in c.tags && BadTag(t))
  }

  /** Everything but the dependencies is interpolated. */
  ghost predicate Interpolated(was: Contents, now: Contents, vars: Variables) {
    && now.name == Text(was.name, vars)
    && now.dependsOn == was.dependsOn
    && now.variablesFile == (if was.variablesFile.None? then None else Some(FileText(was.variablesFile.value, vars)))
    && VariablesDone(was.variables, now.variables, |was.variables|, vars)
    && TagsDone(was.tags, now.tags, |was.tags|, vars)
  }

  /** `k` is the index of the first malformed entry. */
  ghost predicate FirstBadVariable(list: seq<Variable>, k: nat) {
    k < |list| && (forall i | 0 <= i < k :: !BadVariable(list[i])) && BadVariable(list[k])
  }

  ghost predicate FirstBadTag(list: seq<Tag>, k: nat) {
    k < |list| && (forall i | 0 <= i < k :: !BadTag(list[i])) && BadTag(list[k])
  }

  /**
   What a failure leaves of the component it happened in: the name and file as before, and the entries
   before the first malformed text replaced, variables coming before tags.
   */
  ghost predicate BrokenOff(was: Contents, now: Contents, vars: Variables) {
    && now.name == was.name && now.dependsOn == was.dependsOn && now.variablesFile == was.variablesFile
    && if Malformed(was.name) || (was.variablesFile.Some? && BadFile(was.variablesFile.value))
       then now.variables == was.variables && now.tags == was.tags
       else ListsBrokenOff(was, now, vars)
  }

  ghost predicate ListsBrokenOff(was: Contents, now: Contents, vars: Variables) {
    if exists v :: v in was.variables && BadVariable(v) then
      && now.tags == was.tags
      && exists k | 0 <= k < |was.variables| ::
           FirstBadVariable(was.variables, k) && VariablesDone(was.variables, now.variables, k, vars)
    else
      && VariablesDone(was.variables, now.variables, |was.variables|, vars)
      && exists m | 0 <= m < |was.tags| :: FirstBadTag(was.tags, m) && TagsDone(was.tags, now.tags, m, vars)
  }

  method InterpolateComponent(ec: EnvironmentComponent, vars: Variables) returns (r: Option<EnvironmentComponent>)
    modifies ec.variables, ec.tags
    ensures r.None? <==> BadComponent(old(ContentsOf(ec)))
    ensures r.Some? ==> r.value.variables == ec.variables && r.value.tags == ec.tags
    ensures r.Some? ==> Interpolated(old(ContentsOf(ec)), ContentsOf(r.value), vars)
    ensures r.None? ==> BrokenOff(old(ContentsOf(ec)), ContentsOf(ec), vars)
  {
    hide Text, Malformed, BadVariable, BadTag, BadFile, VariableText, TagText, FileText;
    ghost var was := ContentsOf(ec);
    assert VariablesDone(was.variables, ec.variables[..], 0, vars) && TagsDone(was.tags, ec.tags[..], 0, vars);
    var name := InterpolateText(ec.name, vars);
    if name.None? {
      return None;
    }
    var file := ec.variablesFile;
    if file.Some? {
      var interpolated := InterpolateVariablesFile(file.value, vars);
      if interpolated.None? {
        return None;
      }
      file := interpolated;
    }
    var variablesDone := InterpolateVariables(ec.variables, vars);
    assert TagsDone(was.tags, ec.tags[..], 0, vars);
    if variablesDone < ec.variables.Length {
      assert was.variables[variablesDone] in was.variables;
      return None;
    }
    var tagsDone := InterpolateTags(ec.tags, vars);
    if tagsDone < ec.tags.Length {
      assert was.tags[tagsDone] in was.tags;
      return None;
    }
    return Some(EnvironmentComponent(name.value, ec.dependsOn, file, ec.variables, ec.tags));
  }

  method InterpolateText(s: string, vars: Variables) returns (r: Option<string>)
    ensures r.None? <==> Malformed(s)
    ensures r.Some? ==> r.value == Text(s, vars)
  {
    r := Interpolate(s, vars);
  }

  /******* The environment *******/

  /** Lists decoded from one document: no two components share an array. */
  ghost predicate OwnLists(cs: seq<EnvironmentComponent>) {
    forall i, j | 0 <= i < j < |cs| :: cs[i].variables != cs[j].variables && cs[i].tags != cs[j].tags
  }

  ghost function ListsOf(cs: seq<EnvironmentComponent>): set<object> {
    (set i | 0 <= i < |cs| :: cs[i].variables as object) + (set i | 0 <= i < |cs| :: cs[i].tags as object)
  }

  /** The loop body: entry `i` is replaced, or broken off and left in place; no other entry changes. */
  method InterpolateEntry(components: array<EnvironmentComponent>, i: nat, vars: Variables) returns (ok: bool)
    requires i < components.Length && OwnLists(components[..])
    modifies components, components[i].variables, components[i].tags
    ensures ok <==> !BadComponent(old(ContentsOf(components[i])))
    ensures ok ==> Interpolated(old(ContentsOf(components[i])), ContentsOf(components[i]), vars)
    ensures !ok ==> BrokenOff(old(ContentsOf(components[i])), ContentsOf(components[i]), vars)
    ensures SameLists(old(components[..]), components[..])
    ensures forall j | 0 <= j < components.Length && j != i :: ContentsOf(components[j]) == old(ContentsOf(components[j]))
  {
    hide BadComponent, Interpolated, BrokenOff;
    assert forall j | 0 <= j < components.Length && j != i ::
        components[..][j].variables != components[..][i].variables && components[..][j].tags != components[..][i].tags;
    hide OwnLists;
    var interpolated := InterpolateComponent(components[i], vars);
    ok := interpolated.Some?;
    if ok {
      components[i] := interpolated.value;
    }
  }

  ghost predicate SameLists(was: seq<EnvironmentComponent>, now: seq<EnvironmentComponent>) {
    && |now| == |was|
    && forall i | 0 <= i < |was| :: now[i].variables == was[i].variables && now[i].tags == was[i].tags
  }

  lemma ListsKept(was: seq<EnvironmentComponent>, now: seq<EnvironmentComponent>)
    requires SameLists(was, now) && OwnLists(was)
    ensures OwnLists(now) && ListsOf(now) == ListsOf(was)
  {
  }

  /******* What success means for the caller's lists *******/

  ghost predicate NoDollarValues(zlocals: seq<LocalVariable>) {
    forall l | l in zlocals :: '$' !in l.value
  }

  /** All tokens of the locals are replaced at once in the name and in the texts of the variables file. */
  ghost predicate SubstitutedHead(was: EnvironmentComponent, now: EnvironmentComponent, zlocals: seq<LocalVariable>) {
    && now.name == Simultaneous(was.name, Locals(zlocals)) && now.dependsOn == was.dependsOn
    && match was.variablesFile
       case None => now.variablesFile == None
       case Some(f) =>
         && now.variablesFile.Some?
         && now.variablesFile.value.source == Simultaneous(f.source, Locals(zlocals))
         && now.variablesFile.value.path == Simultaneous(f.path, Locals(zlocals))
         && now.variablesFile.value.ref == Simultaneous(f.ref, Locals(zlocals))
  }

  ghost predicate SubstitutedVariable(was: Variable, now: Variable, zlocals: seq<LocalVariable>) {
    && now.name == Simultaneous(was.name, Locals(zlocals))
    && now.value == Simultaneous(was.value, Locals(zlocals))
    && now.valueFrom == Simultaneous(was.valueFrom, Locals(zlocals))
  }

  ghost predicate SubstitutedTag(was: Tag, now: Tag, zlocals: seq<LocalVariable>) {
    now.name == Simultaneous(was.name, Locals(zlocals)) && now.value == Simultaneous(was.value, Locals(zlocals))
  }

  ghost predicate SubstitutedLists(vs: seq<Variable>, ws: seq<Variable>, ts: seq<Tag>, us: seq<Tag>,
                                   zlocals: seq<LocalVariable>)
  {
    && |ws| == |vs| && (forall k | 0 <= k < |vs| :: SubstitutedVariable(vs[k], ws[k], zlocals))
    && |us| == |ts| && (forall k | 0 <= k < |ts| :: SubstitutedTag(ts[k], us[k], zlocals))
  }

  lemma LocalsDollarFree(zlocals: seq<LocalVariable>)
    requires NoDollarValues(zlocals)
    ensures DollarFree(Locals(zlocals))
  {
    LocalsAreScoped(zlocals);
  }

  lemma TextIsSimultaneous(s: string, zlocals: seq<LocalVariable>)
    requires NoDollarValues(zlocals) && WellDelimited(s) && !Malformed(s)
    ensures Text(s, Locals(zlocals)) == Simultaneous(s, Locals(zlocals))
  {
    LocalsDollarFree(zlocals);
    DollarFreeNoCapture(Locals(zlocals));
    WellFormedBodies(s);
    OrderIndependent(s, Bodies(s), Locals(zlocals));
  }

  lemma NamesSubstituted(team: string, env: string, zlocals: seq<LocalVariable>)
    requires NoDollarValues(zlocals) && !Malformed(team) && !Malformed(env)
    ensures WellDelimited(team) ==> Text(team, Locals(zlocals)) == Simultaneous(team, Locals(zlocals))
    ensures WellDelimited(env) ==> Text(env, Locals(zlocals)) == Simultaneous(env, Locals(zlocals))
  {
    hide Text, Malformed;
    if WellDelimited(team) {
      TextIsSimultaneous(team, zlocals);
    }
    if WellDelimited(env) {
      TextIsSimultaneous(env, zlocals);
    }
  }

  /** Every dollar in the component's texts opens a token. */
  ghost predicate DelimitedContents(c: Contents) {
    && WellDelimited(c.name)
    && (c.variablesFile.Some? ==>
          && WellDelimited(c.variablesFile.value.source) && WellDelimited(c.variablesFile.value.path)
          && WellDelimited(c.variablesFile.value.ref))
    && (forall v | v in c.variables :: WellDelimited(v.name) && WellDelimited(v.value) && WellDelimited(v.valueFrom))
    && (forall t | t in c.tags :: WellDelimited(t.name) && WellDelimited(t.value))
  }

  lemma FileSubstituted(f: VariablesFile, zlocals: seq<LocalVariable>)
    requires NoDollarValues(zlocals) && !BadFile(f)
    requires WellDelimited(f.source) && WellDelimited(f.path) && WellDelimited(f.ref)
    ensures FileText(f, Locals(zlocals)) ==
            VariablesFile(Simultaneous(f.source, Locals(zlocals)), Simultaneous(f.path, Locals(zlocals)),
                          Simultaneous(f.ref, Locals(zlocals)))
  {
    hide Text, Malformed;
    TextIsSimultaneous(f.source, zlocals);
    TextIsSimultaneous(f.path, zlocals);
    TextIsSimultaneous(f.ref, zlocals);
  }

  lemma ListsSubstituted(was: Contents, now: Contents, zlocals: seq<LocalVariable>)
    requires NoDollarValues(zlocals) && DelimitedContents(was) && !BadComponent(was)
    requires Interpolated(was, now, Locals(zlocals))
    ensures SubstitutedLists(was.variables, now.variables, was.tags, now.tags, zlocals)
  {
    hide Text, Malformed, FileText, BadFile;
    forall k | 0 <= k < |was.variables| ensures SubstitutedVariable(was.variables[k], now.variables[k], zlocals) {
      var v := was.variables[k];
      assert v in was.variables && !BadVariable(v);
      TextIsSimultaneous(v.name, zlocals);
      TextIsSimultaneous(v.value, zlocals);
      TextIsSimultaneous(v.valueFrom, zlocals);
    }
    forall k | 0 <= k < |was.tags| ensures SubstitutedTag(was.tags[k], now.tags[k], zlocals) {
      var t := was.tags[k];
      assert t in was.tags && !BadTag(t);
      TextIsSimultaneous(t.name, zlocals);
      TextIsSimultaneous(t.value, zlocals);
    }
  }

  lemma HeadSubstituted(was: EnvironmentComponent, now: EnvironmentComponent, a: Contents, b: Contents,
                        zlocals: seq<LocalVariable>)
    requires NoDollarValues(zlocals) && DelimitedContents(a) && !BadComponent(a) && Interpolated(a, b, Locals(zlocals))
    requires (a.name, a.dependsOn, a.variablesFile) == (was.name, was.dependsOn, was.variablesFile)
    requires (b.name, b.dependsOn, b.variablesFile) == (now.name, now.dependsOn, now.variablesFile)
    ensures SubstitutedHead(was, now, zlocals)
  {
    hide Text, Malformed, BadFile;
    TextIsSimultaneous(was.name, zlocals);
    if was.variablesFile.Some? {
      FileSubstituted(was.variablesFile.value, zlocals);
    }
  }

  /**
   Interpolate over an environment. On success every component is interpolated in the caller's own
   lists. On failure the caller is left with the components before the malformed one interpolated,
   that one broken off part-way, and the rest untouched.
   */
  method InterpolateEnvironment(teamName: string, envName: string, components: array<EnvironmentComponent>,
                                zlocals: seq<LocalVariable>)
    returns (names: Option<(string, string)>, ghost at: nat)
    requires OwnLists(components[..])
    modifies components, ListsOf(components[..])
    ensures names.Some? <==>
            !Malformed(teamName) && !Malformed(envName)
            && forall i | 0 <= i < components.Length :: !BadComponent(old(ContentsOf(components[i])))
    ensures names.Some? ==>
              && at == components.Length
              && names.value == (Text(teamName, Locals(zlocals)), Text(envName, Locals(zlocals)))
    ensures at <= components.Length && SameLists(old(components[..]), components[..])
    ensures forall i | 0 <= i < at :: Interpolated(old(ContentsOf(components[i])), ContentsOf(components[i]), Locals(zlocals))
    ensures at < components.Length && !Malformed(teamName) && !Malformed(envName) ==>
              && BadComponent(old(ContentsOf(components[at])))
              && BrokenOff(old(ContentsOf(components[at])), ContentsOf(components[at]), Locals(zlocals))
    ensures forall i | at < i < components.Length :: ContentsOf(components[i]) == old(ContentsOf(components[i]))
    ensures Malformed(teamName) || Malformed(envName) ==>
              forall i | 0 <= i < components.Length :: ContentsOf(components[i]) == old(ContentsOf(components[i]))
    ensures names.Some? && NoDollarValues(zlocals) ==>
              && (WellDelimited(teamName) ==> names.value.0 == Simultaneous(teamName, Locals(zlocals)))
              && (WellDelimited(envName) ==> names.value.1 == Simultaneous(envName, Locals(zlocals)))
              && forall i | 0 <= i < components.Length && DelimitedContents(old(ContentsOf(components[i]))) ::
                   && SubstitutedHead(old(components[i]), components[i], zlocals)
                   && (forall k | 0 <= k < components[i].variables.Length ::
                         SubstitutedVariable(old(components[i].variables[..])[k], components[i].variables[k], zlocals))
                   && (forall k | 0 <= k < components[i].tags.Length ::
                         SubstitutedTag(old(components[i].tags[..])[k], components[i].tags[k], zlocals))
  {
    hide Text, Malformed, BadComponent, Interpolated, BrokenOff, Locals, OwnLists, ListsOf, SubstitutedHead, DelimitedContents;
    var vars := BuildZLocalsVariableMap(zlocals);
    at := 0;
    var team := InterpolateText(teamName, vars);
    if team.None? {
      return None, 0;
    }
    var env := InterpolateText(envName, vars);
    if env.None? {
      return None, 0;
    }
    var i := 0;
    while i < components.Length
      invariant i <= components.Length
      invariant SameLists(old(components[..]), components[..])
      invariant forall j | 0 <= j < i :: !BadComponent(old(ContentsOf(components[j])))
      invariant forall j | 0 <= j < i :: Interpolated(old(ContentsOf(components[j])), ContentsOf(components[j]), vars)
      invariant forall j | i <= j < components.Length :: ContentsOf(components[j]) == old(ContentsOf(components[j]))
    {
      ListsKept(old(components[..]), components[..]);
      ListsContain(components[..], i);
      var ok := InterpolateEntry(components, i, vars);
      if !ok {
        return None, i;
      }
      i := i + 1;
    }
    if NoDollarValues(zlocals) {
      NamesSubstituted(teamName, envName, zlocals);
      forall i | 0 <= i < components.Length && DelimitedContents(old(ContentsOf(components[i])))
        ensures SubstitutedHead(old(components[i]), components[i], zlocals)
        ensures SubstitutedLists(old(components[i].variables[..]), components[i].variables[..],
                                 old(components[i].tags[..]), components[i].tags[..], zlocals)
      {
        HeadSubstituted(old(components[i]), components[i], old(ContentsOf(components[i])), ContentsOf(components[i]), zlocals);
        ListsSubstituted(old(ContentsOf(components[i])), ContentsOf(components[i]), zlocals);
      }
    }
    return Some((team.value, env.value)), i;
  }

  lemma ListsContain(cs: seq<EnvironmentComponent>, i: nat)
    requires i < |cs|
    ensures cs[i].variables in ListsOf(cs) && cs[i].tags in ListsOf(cs)
  {
  }

  /******* The object seen again *******/

  /** A text whose every dollar opens a token of one dot. */
  ghost predicate Tidy(s: string) {
    WellDelimited(s) && !Malformed(s)
  }

  ghost predicate TidyVariable(v: Variable) {
    Tidy(v.name) && Tidy(v.value) && Tidy(v.valueFrom)
  }

  ghost predicate TidyTag(t: Tag) {
    Tidy(t.name) && Tidy(t.value)
  }

  ghost predicate TidyComponent(c: Contents) {
    && Tidy(c.name)
    && (c.variablesFile.Some? ==> var f := c.variablesFile.value; Tidy(f.source) && Tidy(f.path) && Tidy(f.ref))
    && (forall i | 0 <= i < |c.variables| :: TidyVariable(c.variables[i]))
    && (forall i | 0 <= i < |c.tags| :: TidyTag(c.tags[i]))
  }

  ghost predicate DollarFree(vars: Variables) {
    forall k | k in vars :: '$' !in vars[k]
  }

  lemma TextSettles(s: string, vars: Variables)
    requires Tidy(s) && DollarFree(vars)
    ensures !Malformed(Text(s, vars)) && Text(Text(s, vars), vars) == Text(s, vars)
  {
    Idempotent(s, vars);
  }

  /**
   Because lists are changed in place, a later reconcile may see an object that was interpolated
   before: with dollar-free locals it accepts it and changes nothing.
   */
  lemma SecondPassIsIdle(was: Contents, now: Contents, vars: Variables)
    requires TidyComponent(was) && DollarFree(vars) && Interpolated(was, now, vars)
    ensures !BadComponent(now) && Interpolated(now, now, vars)
  {
    hide Text, Tidy, Malformed, DollarFree;
    TextSettles(was.name, vars);
    if was.variablesFile.Some? {
      TextSettles(was.variablesFile.value.source, vars);
      TextSettles(was.variablesFile.value.path, vars);
      TextSettles(was.variablesFile.value.ref, vars);
    }
    forall i | 0 <= i < |now.variables|
      ensures !BadVariable(now.variables[i]) && VariableText(now.variables[i], vars) == now.variables[i]
    {
      var v := was.variables[i];
      assert TidyVariable(v) && now.variables[i] == VariableText(v, vars);
      TextSettles(v.name, vars);
      TextSettles(v.value, vars);
      TextSettles(v.valueFrom, vars);
    }
    forall i | 0 <= i < |now.tags| ensures !BadTag(now.tags[i]) && TagText(now.tags[i], vars) == now.tags[i] {
      var t := was.tags[i];
      assert TidyTag(t) && now.tags[i] == TagText(t, vars);
      TextSettles(t.name, vars);
      TextSettles(t.value, vars);
    }
  }
}
