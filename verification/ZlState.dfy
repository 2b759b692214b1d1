/**
 The component lists kept in S3 (state-manager/app/zlstate/s3.go), as a refinement of a map from name
 to component. DeleteComponent removes from the slice it is ranging over, so its loop is modelled on
 the backing array.
 */
module ZlState {

  /** Zero is Go's zero time. */
  type Time = nat

  /** `spec` stands for the fields that no operation looks at. */
  datatype Component = Component(name: string, status: string, spec: string, createdAt: Time, updatedAt: Time)

  datatype State = State(company: string, team: string, environment: string,
                         components: seq<Component>, createdAt: Time, updatedAt: Time)

  datatype Outcome =
    | Done(state: State)
    | KeyNotExists
    | KeyAlreadyExists
    | ComponentNotFound
    | Panic

  ghost predicate UniqueComponents(cs: seq<Component>) {
    forall i, j | 0 <= i < j < |cs| :: cs[i].name != cs[j].name
  }

  predicate Named(cs: seq<Component>, name: string) {
    exists i | 0 <= i < |cs| :: cs[i].name == name
  }

  /** The map a list stands for; the last of several equal names wins. */
  function ToMap(cs: seq<Component>): map<string, Component> {
    if cs == [] then map[] else ToMap(cs[..|cs| - 1])[cs[|cs| - 1].name := cs[|cs| - 1]]
  }

  /******* What the three operations do to a list *******/

  function Patched(cs: seq<Component>, name: string, status: string, now: Time): seq<Component> {
    if cs == [] then []
    else if cs[0].name == name then [cs[0].(status := status, updatedAt := now)] + cs[1..]
    else [cs[0]] + Patched(cs[1..], name, status, now)
  }

  function Replaced(cs: seq<Component>, c: Component): seq<Component> {
    seq(|cs|, i requires 0 <= i < |cs| => if cs[i].name == c.name then c else cs[i])
  }

  function Upserted(cs: seq<Component>, c: Component): seq<Component> {
    if Named(cs, c.name) then Replaced(cs, c) else cs + [c]
  }

  /** What deletion is for. */
  function Without(cs: seq<Component>, name: string): seq<Component> {
    if cs == [] then []
    else (if cs[0].name == name then [] else [cs[0]]) + Without(cs[1..], name)
  }

  /** What the loop computes: it never looks at the entry that follows a removed one. */
  function Skim(cs: seq<Component>, name: string): seq<Component> {
    if cs == [] then []
    else if cs[0].name != name then [cs[0]] + Skim(cs[1..], name)
    else if |cs| == 1 then []
    else [cs[1]] + Skim(cs[2..], name)
  }

  /** The last entry is to be removed, and so is an earlier one. */
  predicate DeletePanics(cs: seq<Component>, name: string) {
    cs != [] && cs[|cs| - 1].name == name && Named(cs[..|cs| - 1], name)
  }

  /** `append(c[:i], c[i+1:]...)` on a slice of length `len`: the tail moves down, the array keeps its end. */
  function Shifted(arr: seq<Component>, i: nat, len: nat): seq<Component>
    requires i < len <= |arr|
  {
    arr[..i] + arr[i + 1..len] + arr[len - 1..]
  }

  /** The backing array `arr` and slice length `len` when the range is about to read index `i`. */
  ghost predicate AtIndex(s: seq<Component>, name: string, arr: seq<Component>, len: nat, i: nat) {
    && |arr| == |s| && len <= |s| && i <= |s|
    && (if i <= len
        then arr[i..len] == s[i + |s| - len..] && Skim(s, name) == arr[..i] + Skim(s[i + |s| - len..], name)
        else Skim(s, name) == arr[..len])
    && (forall p | len <= p < |s| :: arr[p] == s[|s| - 1])
    && (len < |s| <==> Named(s[..i], name))
  }

  lemma NamedNext(s: seq<Component>, name: string, i: nat)
    requires i < |s|
    ensures Named(s[..i + 1], name) <==> Named(s[..i], name) || s[i].name == name
  {
    assert forall j | 0 <= j < i :: s[..i + 1][j] == s[..i][j];
    if s[i].name == name {
      assert s[..i + 1][i].name == name;
    }
    if j :| 0 <= j < i && s[..i][j].name == name {
      assert s[..i + 1][j].name == name;
    }
  }

  lemma ReadsAhead(s: seq<Component>, name: string, arr: seq<Component>, len: nat, i: nat)
    requires AtIndex(s, name, arr, len, i) && i < |s|
    ensures i < len ==> arr[i] == s[i + |s| - len]
  {
    if i < len {
      assert arr[i] == arr[i..len][0];
    }
  }

  lemma SkimKeeps(rest: seq<Component>, name: string)
    requires rest != [] && rest[0].name != name
    ensures Skim(rest, name) == [rest[0]] + Skim(rest[1..], name)
  {
  }

  lemma KeepStep(s: seq<Component>, name: string, arr: seq<Component>, len: nat, i: nat)
    requires AtIndex(s, name, arr, len, i) && i < |s| && arr[i].name != name
    ensures AtIndex(s, name, arr, len, i + 1)
    ensures i + 1 == |s| ==> !DeletePanics(s, name)
  {
    ReadsAhead(s, name, arr, len, i);
    NamedNext(s, name, i);
    if i < len {
      var rest := s[i + |s| - len..];
      SkimKeeps(rest, name);
      hide Skim, Named;
      assert arr[i..len][1..] == arr[i + 1..len] && rest[1..] == s[i + 1 + |s| - len..];
      assert arr[..i + 1] == arr[..i] + [arr[i]];
    }
  }

  lemma ShiftedParts(arr: seq<Component>, i: nat, len: nat)
    requires i < len <= |arr|
    ensures var next := Shifted(arr, i, len);
            && |next| == |arr| && next[..i] == arr[..i] && next[i..len - 1] == arr[i + 1..len]
            && forall p | len - 1 <= p < |arr| :: next[p] == arr[p]
  {
  }

  /** The entry moved to the place of a removed one is passed over. */
  lemma DeleteKeepsSkim(s: seq<Component>, name: string, rest: seq<Component>, arr: seq<Component>,
                        next: seq<Component>, len: nat, i: nat)
    requires i < len <= |arr| == |next| && rest == arr[i..len] && rest[0].name == name
    requires Skim(s, name) == arr[..i] + Skim(rest, name)
    requires next[..i] == arr[..i] && next[i..len - 1] == arr[i + 1..len]
    ensures if i + 1 <= len - 1
            then next[i + 1..len - 1] == rest[2..] && Skim(s, name) == next[..i + 1] + Skim(rest[2..], name)
            else Skim(s, name) == next[..len - 1]
  {
    if i + 1 < len {
      assert next[i] == next[i..len - 1][0] == rest[1];
      assert next[i + 1..len - 1] == next[i..len - 1][1..];
      assert next[..i + 1] == arr[..i] + [rest[1]];
    }
  }

  lemma NotNamedNoPanic(s: seq<Component>, name: string, i: nat)
    requires i < |s| && (i + 1 == |s| ==> s[i].name != name || !Named(s[..i], name))
    ensures i + 1 == |s| ==> !DeletePanics(s, name)
  {
  }

  lemma DeletedSkims(s: seq<Component>, name: string, arr: seq<Component>, len: nat, i: nat)
    requires AtIndex(s, name, arr, len, i) && i < len && arr[i].name == name
    ensures var next := Shifted(arr, i, len);
            if i + 1 <= len - 1
            then next[i + 1..len - 1] == s[i + 1 + |s| - (len - 1)..]
                 && Skim(s, name) == next[..i + 1] + Skim(s[i + 1 + |s| - (len - 1)..], name)
            else Skim(s, name) == next[..len - 1]
  {
    ReadsAhead(s, name, arr, len, i);
    var next, rest := Shifted(arr, i, len), s[i + |s| - len..];
    ShiftedParts(arr, i, len);
    DeleteKeepsSkim(s, name, rest, arr, next, len, i);
    hide Skim, Named, Shifted;
    assert i + 1 < len ==> rest[2..] == s[i + 1 + |s| - (len - 1)..];
  }

  lemma DeleteStep(s: seq<Component>, name: string, arr: seq<Component>, len: nat, i: nat)
    requires AtIndex(s, name, arr, len, i) && i < len && arr[i].name == name
    ensures AtIndex(s, name, Shifted(arr, i, len), len - 1, i + 1)
    ensures i + 1 == |s| ==> !DeletePanics(s, name)
  {
    ReadsAhead(s, name, arr, len, i);
    NamedNext(s, name, i);
    DeletedSkims(s, name, arr, len, i);
    ShiftedParts(arr, i, len);
    NotNamedNoPanic(s, name, i);
    hide Skim, Named, Shifted, DeletePanics;
    assert Shifted(arr, i, len)[len - 1] == arr[len - 1] == arr[i..len][len - 1 - i] == s[|s| - 1];
  }

  lemma PanicStep(s: seq<Component>, name: string, arr: seq<Component>, len: nat, i: nat)
    requires AtIndex(s, name, arr, len, i) && len <= i < |s| && arr[i].name == name
    ensures DeletePanics(s, name)
  {
    var j :| 0 <= j < i && s[..i][j].name == name;
    assert s[..|s| - 1][j].name == name;
  }

  lemma Entered(s: seq<Component>, name: string)
    ensures AtIndex(s, name, s, |s|, 0)
    ensures s == [] ==> !DeletePanics(s, name)
  {
    assert s[..0] + Skim(s, name) == Skim(s, name) && s[0..] == s;
  }

  lemma Finished(s: seq<Component>, name: string, arr: seq<Component>, len: nat)
    requires AtIndex(s, name, arr, len, |s|)
    ensures arr[..len] == Skim(s, name)
  {
    if len == |s| {
      assert s[|s|..] == [] && arr[..len] + [] == arr[..len];
    }
  }

  /**
   The deleting loop over a backing array: `append` moves the tail in place, while the range goes on
   over the original length; slicing beyond the shortened length is Go's run-time panic.
   */
  method DeleteInPlace(a: array<Component>, name: string) returns (len: nat, panicked: bool)
    modifies a
    ensures panicked <==> DeletePanics(old(a[..]), name)
    ensures !panicked ==> len <= a.Length && a[..len] == Skim(old(a[..]), name)
  {
    hide AtIndex, Skim, DeletePanics;
    ghost var s := a[..];
    len := a.Length;
    Entered(s, name);
    for i := 0 to a.Length
      invariant len <= a.Length && AtIndex(s, name, a[..], len, i)
      invariant i == a.Length ==> !DeletePanics(s, name)
    {
      ghost var arr := a[..];
      if a[i].name == name {
        if i + 1 > len {
          PanicStep(s, name, arr, len, i);
          return len, true;
        }
        DeleteStep(s, name, arr, len, i);
        forall j | i <= j < len - 1 {
          a[j] := a[j + 1];
        }
        assert a[..] == Shifted(arr, i, len);
        len := len - 1;
      } else {
        KeepStep(s, name, arr, len, i);
      }
    }
    Finished(s, name, a[..], len);
    assert a[..][..len] == a[..len];
    panicked := false;
  }

  /******* Deletion meets its purpose exactly when ... *******/

  ghost predicate AdjacentMatches(cs: seq<Component>, name: string) {
    exists i :: 0 <= i < |cs| - 1 && cs[i].name == name && cs[i + 1].name == name
  }

  lemma {:induction false} SkimIsWithoutIff(cs: seq<Component>, name: string)
    ensures Skim(cs, name) == Without(cs, name) <==> !AdjacentMatches(cs, name)
    decreases |cs|
  {
    if |cs| >= 2 && cs[0].name == name {
      if cs[1].name == name {
        WithoutFree(cs, name);
        assert Skim(cs, name)[0].name == name;
      } else {
        SkimIsWithoutIff(cs[2..], name);
        assert Without(cs, name) == [cs[1]] + Without(cs[2..], name) by {
          assert cs[1..][1..] == cs[2..];
        }
        AdjacentTail(cs, name);
        AdjacentTail(cs[1..], name);
        assert cs[1..][1..] == cs[2..];
        assert Skim(cs, name)[1..] == Skim(cs[2..], name) && Without(cs, name)[1..] == Without(cs[2..], name);
      }
    } else if cs != [] && cs[0].name != name {
      SkimIsWithoutIff(cs[1..], name);
      AdjacentTail(cs, name);
      assert Skim(cs, name)[1..] == Skim(cs[1..], name) && Without(cs, name)[1..] == Without(cs[1..], name);
    }
  }

  lemma AdjacentTail(cs: seq<Component>, name: string)
    requires cs != []
    ensures AdjacentMatches(cs, name) <==>
            (|cs| >= 2 && cs[0].name == name && cs[1].name == name) || AdjacentMatches(cs[1..], name)
  {
    if i :| 0 <= i < |cs| - 1 && cs[i].name == name && cs[i + 1].name == name && i > 0 {
      assert cs[1..][i - 1].name == name && cs[1..][i - 1 + 1].name == name;
    }
    if i :| 0 <= i < |cs[1..]| - 1 && cs[1..][i].name == name && cs[1..][i + 1].name == name {
      assert cs[i + 1].name == name && cs[i + 1 + 1].name == name;
    }
  }

  lemma {:induction false} WithoutFree(cs: seq<Component>, name: string)
    ensures forall c | c in Without(cs, name) :: c.name != name && c in cs
    ensures forall c | c in cs && c.name != name :: c in Without(cs, name)
  {
    if cs != [] {
      WithoutFree(cs[1..], name);
      assert cs == [cs[0]] + cs[1..];
    }
  }

  /** Without repeated names the loop neither crashes nor skips a match. */
  lemma UniqueDeletes(cs: seq<Component>, name: string)
    requires UniqueComponents(cs)
    ensures !DeletePanics(cs, name) && Skim(cs, name) == Without(cs, name)
  {
    SkimIsWithoutIff(cs, name);
    if cs != [] {
      assert forall i | 0 <= i < |cs| - 1 :: cs[..|cs| - 1][i] == cs[i];
    }
  }

  /******* Refinement of the map *******/

  lemma {:induction false} ToMapLookup(cs: seq<Component>, name: string)
    requires UniqueComponents(cs)
    ensures name in ToMap(cs) <==> exists c :: c in cs && c.name == name
    ensures forall c | c in cs && c.name == name :: ToMap(cs)[name] == c
  {
    if cs != [] {
      var init, last := cs[..|cs| - 1], cs[|cs| - 1];
      ToMapLookup(init, name);
      assert cs == init + [last];
    }
  }

  /** Two unique lists with the same members stand for the same map; used to compare results. */
  lemma ToMapIs(cs: seq<Component>, m: map<string, Component>)
    requires UniqueComponents(cs)
    requires forall c :: c in cs <==> c.name in m && m[c.name] == c
    requires forall k | k in m :: m[k].name == k
    ensures ToMap(cs) == m
  {
    forall k ensures k in ToMap(cs) <==> k in m {
      ToMapLookup(cs, k);
    }
    forall k | k in m ensures ToMap(cs)[k] == m[k] {
      ToMapLookup(cs, k);
      assert m[k] in cs;
    }
  }

  lemma ToMapMembers(cs: seq<Component>)
    requires UniqueComponents(cs)
    ensures forall c :: c in cs <==> c.name in ToMap(cs) && ToMap(cs)[c.name] == c
    ensures forall k | k in ToMap(cs) :: ToMap(cs)[k].name == k
  {
    forall c ensures c in cs <==> c.name in ToMap(cs) && ToMap(cs)[c.name] == c {
      ToMapLookup(cs, c.name);
    }
    forall k | k in ToMap(cs) ensures ToMap(cs)[k].name == k {
      ToMapLookup(cs, k);
    }
  }

  function ComponentNames(cs: seq<Component>): seq<string> {
    seq(|cs|, i requires 0 <= i < |cs| => cs[i].name)
  }

  lemma {:induction false} WithoutUnique(cs: seq<Component>, name: string)
    requires UniqueComponents(cs)
    ensures UniqueComponents(Without(cs, name))
  {
    if cs != [] {
      WithoutUnique(cs[1..], name);
      WithoutFree(cs[1..], name);
      assert forall c | c in cs[1..] :: c.name != cs[0].name by {
        assert forall i | 0 <= i < |cs[1..]| :: cs[1..][i] == cs[i + 1];
      }
    }
  }

  /** Deleting removes one key; the order of the rest is that of the filter. */
  lemma DeleteRefines(cs: seq<Component>, name: string)
    requires UniqueComponents(cs)
    ensures UniqueComponents(Skim(cs, name)) && ToMap(Skim(cs, name)) == ToMap(cs) - {name}
  {
    UniqueDeletes(cs, name);
    WithoutUnique(cs, name);
    WithoutFree(cs, name);
    ToMapMembers(cs);
    ToMapIs(Without(cs, name), ToMap(cs) - {name});
  }

  /** Overwriting one entry by another of the same name sets that key. */
  lemma {:induction false} PointUpdate(cs: seq<Component>, i: nat, c: Component)
    requires UniqueComponents(cs) && i < |cs| && cs[i].name == c.name
    ensures UniqueComponents(cs[i := c]) && ComponentNames(cs[i := c]) == ComponentNames(cs)
    ensures ToMap(cs[i := c]) == ToMap(cs)[c.name := c]
  {
    var n := |cs| - 1;
    if i == n {
      assert cs[i := c][..n] == cs[..n];
    } else {
      assert cs[i := c][..n] == cs[..n][i := c];
      PointUpdate(cs[..n], i, c);
    }
  }

  lemma ReplacedUnique(cs: seq<Component>, i: nat, c: Component)
    requires UniqueComponents(cs) && i < |cs| && cs[i].name == c.name
    ensures Replaced(cs, c) == cs[i := c]
  {
  }

  /** Upserting sets one key; names keep their places and a new one goes last. */
  lemma UpsertRefines(cs: seq<Component>, c: Component)
    requires UniqueComponents(cs)
    ensures UniqueComponents(Upserted(cs, c)) && ToMap(Upserted(cs, c)) == ToMap(cs)[c.name := c]
    ensures ComponentNames(Upserted(cs, c)) ==
            if Named(cs, c.name) then ComponentNames(cs) else ComponentNames(cs) + [c.name]
  {
    if Named(cs, c.name) {
      var i :| 0 <= i < |cs| && cs[i].name == c.name;
      ReplacedUnique(cs, i, c);
      PointUpdate(cs, i, c);
    } else {
      assert (cs + [c])[..|cs|] == cs;
    }
  }

  /** Patching updates one key of the map in place. */
  lemma PatchRefines(cs: seq<Component>, name: string, status: string, now: Time)
    requires UniqueComponents(cs) && Named(cs, name)
    ensures var r := Patched(cs, name, status, now);
            && UniqueComponents(r) && ComponentNames(r) == ComponentNames(cs) && name in ToMap(cs)
            && ToMap(r) == ToMap(cs)[name := ToMap(cs)[name].(status := status, updatedAt := now)]
  {
    var i :| 0 <= i < |cs| && cs[i].name == name;
    assert cs[i] in cs;
    ToMapLookup(cs, name);
    PatchedFirst(cs, name, status, now, i);
    PointUpdate(cs, i, cs[i].(status := status, updatedAt := now));
  }

  /******* The backend *******/

  function Stamped(t: Time, now: Time): Time {
    if t == 0 then now else t
  }

  function WithDefaults(s: State, now: Time): State {
    s.(createdAt := Stamped(s.createdAt, now), updatedAt := Stamped(s.updatedAt, now),
       components := seq(|s.components|, i requires 0 <= i < |s.components| => StampedComponent(s.components[i], now)))
  }

  function StampedComponent(c: Component, now: Time): Component {
    c.(createdAt := Stamped(c.createdAt, now), updatedAt := Stamped(c.updatedAt, now))
  }

  /** The component with its zero times, and no others, set to the clock reading. */
  predicate FilledComponent(was: Component, now: Component, clock: Time) {
    && now.name == was.name && now.status == was.status && now.spec == was.spec
    && now.createdAt == (if was.createdAt == 0 then clock else was.createdAt)
    && now.updatedAt == (if was.updatedAt == 0 then clock else was.updatedAt)
  }

  /** The list holds exactly the components of the map, up to their zero times. */
  ghost predicate Holds(cs: seq<Component>, m: map<string, Component>, clock: Time) {
    && UniqueComponents(cs)
    && (forall i | 0 <= i < |cs| :: cs[i].name in m && FilledComponent(m[cs[i].name], cs[i], clock))
    && (forall name | name in m :: exists i :: 0 <= i < |cs| && cs[i].name == name)
  }

  /** The same state, with the zero times of the state and of its components set to the clock reading. */
  ghost predicate FilledState(was: State, now: State, clock: Time) {
    && now.company == was.company && now.team == was.team && now.environment == was.environment
    && now.createdAt == (if was.createdAt == 0 then clock else was.createdAt)
    && now.updatedAt == (if was.updatedAt == 0 then clock else was.updatedAt)
    && |now.components| == |was.components|
    && forall i | 0 <= i < |was.components| :: FilledComponent(was.components[i], now.components[i], clock)
  }

  /** Whose state it is, and its times, `updated` being the one to store unless it is zero. */
  predicate OwnFields(was: State, now: State, updated: Time, clock: Time) {
    && now.company == was.company && now.team == was.team && now.environment == was.environment
    && now.createdAt == (if was.createdAt == 0 then clock else was.createdAt)
    && now.updatedAt == (if updated == 0 then clock else updated)
  }

  lemma DefaultsFill(s: State, clock: Time)
    ensures FilledState(s, WithDefaults(s, clock), clock)
  {
  }

  /** A filled list holds what the list stood for. */
  lemma FilledHolds(was: State, now: State, clock: Time)
    requires FilledState(was, now, clock) && UniqueComponents(was.components)
    ensures Holds(now.components, ToMap(was.components), clock)
    ensures ComponentNames(now.components) == ComponentNames(was.components)
  {
    var cs, m := was.components, ToMap(was.components);
    MapPlaces(cs);
    assert forall i | 0 <= i < |cs| :: FilledComponent(cs[i], now.components[i], clock);
    hide ToMap, FilledState;
    SameNamesUnique(cs, now.components);
    forall name | name in m ensures exists i :: 0 <= i < |cs| && now.components[i].name == name {
      var i :| 0 <= i < |cs| && cs[i].name == name;
      assert FilledComponent(cs[i], now.components[i], clock);
    }
    hide UniqueComponents;
  }

  lemma SameNamesUnique(a: seq<Component>, b: seq<Component>)
    requires UniqueComponents(a) && |b| == |a| && forall i | 0 <= i < |a| :: b[i].name == a[i].name
    ensures UniqueComponents(b) && ComponentNames(b) == ComponentNames(a)
  {
  }

  /** Every entry of a unique list is in its map, and every key has its place in the list. */
  lemma MapPlaces(cs: seq<Component>)
    requires UniqueComponents(cs)
    ensures forall i | 0 <= i < |cs| :: cs[i].name in ToMap(cs) && ToMap(cs)[cs[i].name] == cs[i]
    ensures forall name | name in ToMap(cs) :: exists i :: 0 <= i < |cs| && cs[i].name == name
  {
    forall i | 0 <= i < |cs| ensures cs[i].name in ToMap(cs) && ToMap(cs)[cs[i].name] == cs[i] {
      ToMapLookup(cs, cs[i].name);
      assert cs[i] in cs;
    }
    forall name | name in ToMap(cs) ensures exists i :: 0 <= i < |cs| && cs[i].name == name {
      ToMapLookup(cs, name);
      var c :| c in cs && c.name == name;
      var i :| 0 <= i < |cs| && cs[i] == c;
    }
  }

  /** Every entry of the name is replaced; if there is none, the component is appended. */
  ghost predicate UpsertedEverywhere(was: seq<Component>, c: Component, now: seq<Component>, clock: Time) {
    && |now| == |was| + (if exists i | 0 <= i < |was| :: was[i].name == c.name then 0 else 1)
    && (forall i | 0 <= i < |was| :: FilledComponent(if was[i].name == c.name then c else was[i], now[i], clock))
    && (|now| > |was| ==> FilledComponent(c, now[|was|], clock))
  }

  /** The first entry of the name, and no other, has the new status and time. */
  ghost predicate PatchedOnce(was: seq<Component>, name: string, status: string, now: seq<Component>, clock: Time) {
    |now| == |was| && exists i | 0 <= i < |was| ::
      && was[i].name == name && (forall j | 0 <= j < i :: was[j].name != name)
      && FilledComponent(was[i].(status := status, updatedAt := clock), now[i], clock)
      && forall j | 0 <= j < |was| && j != i :: FilledComponent(was[j], now[j], clock)
  }

  lemma StoredUpsert(s: State, c: Component, t: State, clock: Time)
    requires t == WithDefaults(s.(components := Upserted(s.components, c)), clock)
    ensures UpsertedEverywhere(s.components, c, t.components, clock)
  {
    var u := s.(components := Upserted(s.components, c));
    DefaultsFill(u, clock);
    hide WithDefaults;
  }

  lemma StoredPatch(s: State, i: nat, name: string, status: string, t: State, clock: Time)
    requires i < |s.components| && s.components[i].name == name && forall j | 0 <= j < i :: s.components[j].name != name
    requires t == WithDefaults(s.(components := Patched(s.components, name, status, clock), updatedAt := clock), clock)
    ensures PatchedOnce(s.components, name, status, t.components, clock)
  {
    PatchedFirst(s.components, name, status, clock, i);
    var u := s.(components := Patched(s.components, name, status, clock), updatedAt := clock);
    DefaultsFill(u, clock);
    hide WithDefaults, Patched;
  }

  /** What patching, upserting and deleting store for a list of unique names. */
  lemma StoredRefines(s: State, t: State, clock: Time)
    requires UniqueComponents(s.components)
    ensures forall name, status | Named(s.components, name) &&
              t == WithDefaults(s.(components := Patched(s.components, name, status, clock), updatedAt := clock), clock) ::
              && name in ToMap(s.components)
              && Holds(t.components, ToMap(s.components)[name := ToMap(s.components)[name].(status := status, updatedAt := clock)],
                       clock)
              && ComponentNames(t.components) == ComponentNames(s.components)
    ensures forall c | t == WithDefaults(s.(components := Upserted(s.components, c)), clock) ::
              && Holds(t.components, ToMap(s.components)[c.name := c], clock)
              && ComponentNames(t.components) ==
                 ComponentNames(s.components) + (if Named(s.components, c.name) then [] else [c.name])
    ensures forall name | t == WithDefaults(s.(components := Skim(s.components, name)), clock) ::
              Holds(t.components, ToMap(s.components) - {name}, clock)
  {
    hide ToMap, Holds, WithDefaults, FilledState, UniqueComponents, Named;
    forall name, status | Named(s.components, name) &&
      t == WithDefaults(s.(components := Patched(s.components, name, status, clock), updatedAt := clock), clock)
      ensures name in ToMap(s.components)
      ensures Holds(t.components, ToMap(s.components)[name := ToMap(s.components)[name].(status := status, updatedAt := clock)],
                    clock)
      ensures ComponentNames(t.components) == ComponentNames(s.components)
    {
      var u := s.(components := Patched(s.components, name, status, clock), updatedAt := clock);
      PatchRefines(s.components, name, status, clock);
      DefaultsFill(u, clock);
      FilledHolds(u, t, clock);
    }
    forall c | t == WithDefaults(s.(components := Upserted(s.components, c)), clock)
      ensures Holds(t.components, ToMap(s.components)[c.name := c], clock)
      ensures ComponentNames(t.components) ==
              ComponentNames(s.components) + (if Named(s.components, c.name) then [] else [c.name])
    {
      var u := s.(components := Upserted(s.components, c));
      UpsertRefines(s.components, c);
      DefaultsFill(u, clock);
      FilledHolds(u, t, clock);
    }
    forall name | t == WithDefaults(s.(components := Skim(s.components, name)), clock)
      ensures Holds(t.components, ToMap(s.components) - {name}, clock)
    {
      var u := s.(components := Skim(s.components, name));
      DeleteRefines(s.components, name);
      DefaultsFill(u, clock);
      FilledHolds(u, t, clock);
    }
  }

  /** The bucket; `now` is the clock reading of the call. */
  class S3Backend {
    var objects: map<string, State>

    constructor ()
      ensures objects == map[]
    {
      objects := map[];
    }

    method Get(key: string) returns (r: Outcome)
      ensures r == if key in objects then Done(objects[key]) else KeyNotExists
    {
      if key !in objects {
        return KeyNotExists;
      }
      return Done(objects[key]);
    }

    method AddDefaults(s: State, now: Time) returns (r: State)
      ensures r == WithDefaults(s, now) && FilledState(s, r, now)
    {
      var cs := s.components;
      for i := 0 to |cs|
        invariant |cs| == |s.components|
        invariant forall j | 0 <= j < |cs| :: cs[j] == if j < i then StampedComponent(s.components[j], now) else s.components[j]
      {
        cs := cs[i := cs[i].(createdAt := Stamped(cs[i].createdAt, now), updatedAt := Stamped(cs[i].updatedAt, now))];
      }
      r := s.(createdAt := Stamped(s.createdAt, now), updatedAt := Stamped(s.updatedAt, now), components := cs);
      assert r == WithDefaults(s, now);
      DefaultsFill(s, now);
    }

    /** Without force an existing state is never replaced. */
    method Put(key: string, state: State, force: bool, now: Time) returns (r: Outcome)
      modifies this
      ensures !force && key in old(objects) ==> r == KeyAlreadyExists && objects == old(objects)
      ensures force || key !in old(objects) ==>
                r == Done(WithDefaults(state, now)) && objects == old(objects)[key := WithDefaults(state, now)]
      ensures r.Done? ==> key in objects && r.state == objects[key] && FilledState(state, objects[key], now)
      ensures forall k | k != key :: k in objects <==> k in old(objects)
      ensures forall k | k in old(objects) && k != key :: objects[k] == old(objects)[k]
    {
      if !force && key in objects {
        return KeyAlreadyExists;
      }
      var stamped := AddDefaults(state, now);
      objects := objects[key := stamped];
      r := Done(stamped);
    }

    method PatchComponent(key: string, name: string, status: string, now: Time) returns (r: Outcome)
      modifies this
      ensures key !in old(objects) ==> r == KeyNotExists && objects == old(objects)
      ensures key in old(objects) && !Named(old(objects)[key].components, name) ==>
                r == ComponentNotFound && objects == old(objects)
      ensures key in old(objects) && Named(old(objects)[key].components, name) ==>
                var s := old(objects)[key];
                var t := s.(components := Patched(s.components, name, status, now), updatedAt := now);
                r == Done(WithDefaults(t, now)) && objects == old(objects)[key := WithDefaults(t, now)]
      ensures r.Done? ==> key in old(objects) && key in objects && r.state == objects[key]
                          && OwnFields(old(objects)[key], objects[key], now, now)
      ensures r.Done? && UniqueComponents(old(objects)[key].components) ==>
                var m := ToMap(old(objects)[key].components);
                && name in m && Holds(objects[key].components, m[name := m[name].(status := status, updatedAt := now)], now)
                && ComponentNames(objects[key].components) == ComponentNames(old(objects)[key].components)
      ensures r.Done? ==> PatchedOnce(old(objects)[key].components, name, status, objects[key].components, now)
    {
      var got := Get(key);
      if !got.Done? {
        return got;
      }
      var cs := got.state.components;
      for i := 0 to |cs|
        invariant forall j | 0 <= j < i :: cs[j].name != name
      {
        if cs[i].name != name {
          continue;
        }
        PatchedFirst(cs, name, status, now, i);
        var patched := cs[i := cs[i].(status := status, updatedAt := now)];
        r := Put(key, got.state.(components := patched, updatedAt := now), true, now);
        ghost var s := got.state;
        StoredPatch(s, i, name, status, r.state, now);
        if UniqueComponents(s.components) {
          StoredRefines(s, r.state, now);
        }
        return;
      }
      r := ComponentNotFound;
    }

    method UpsertComponent(key: string, c: Component, now: Time) returns (r: Outcome)
      modifies this
      ensures key !in old(objects) ==> r == KeyNotExists && objects == old(objects)
      ensures key in old(objects) ==>
                var s := old(objects)[key];
                var t := s.(components := Upserted(s.components, c));
                r == Done(WithDefaults(t, now)) && objects == old(objects)[key := WithDefaults(t, now)]
      ensures r.Done? ==> key in old(objects) && key in objects && r.state == objects[key]
                          && OwnFields(old(objects)[key], objects[key], old(objects)[key].updatedAt, now)
      ensures r.Done? && UniqueComponents(old(objects)[key].components) ==>
                var cs := old(objects)[key].components;
                && Holds(objects[key].components, ToMap(cs)[c.name := c], now)
                && ComponentNames(objects[key].components) ==
                   ComponentNames(cs) + (if exists i :: 0 <= i < |cs| && cs[i].name == c.name then [] else [c.name])
      ensures r.Done? ==> UpsertedEverywhere(old(objects)[key].components, c, objects[key].components, now)
    {
      var got := Get(key);
      if !got.Done? {
        return got;
      }
      var cs, patched := ReplaceNamed(got.state.components, c);
      if !patched {
        cs := cs + [c];
      }
      r := Put(key, got.state.(components := cs), true, now);
      ghost var s := got.state;
      StoredUpsert(s, c, r.state, now);
      if UniqueComponents(s.components) {
        StoredRefines(s, r.state, now);
      }
    }

    /** The replacing loop, which does not stop at the first match. */
    method ReplaceNamed(list: seq<Component>, c: Component) returns (cs: seq<Component>, patched: bool)
      ensures patched == Named(list, c.name)
      ensures cs == if patched then Replaced(list, c) else list
      ensures |cs| == |list| && forall i | 0 <= i < |list| :: cs[i] == if list[i].name == c.name then c else list[i]
    {
      cs, patched := list, false;
      for i := 0 to |list|
        invariant |cs| == |list|
        invariant forall j | 0 <= j < |list| :: cs[j] == if j < i && list[j].name == c.name then c else list[j]
        invariant patched <==> exists j | 0 <= j < i :: list[j].name == c.name
      {
        if list[i].name == c.name {
          cs := cs[i := c];
          patched := true;
        }
      }
    }

    method DeleteComponent(key: string, name: string, now: Time) returns (r: Outcome)
      modifies this
      ensures key !in old(objects) ==> r == KeyNotExists && objects == old(objects)
      ensures key in old(objects) && DeletePanics(old(objects)[key].components, name) ==>
                r == Panic && objects == old(objects)
      ensures key in old(objects) && !DeletePanics(old(objects)[key].components, name) ==>
                var s := old(objects)[key];
                var t := s.(components := Skim(s.components, name));
                r == Done(WithDefaults(t, now)) && objects == old(objects)[key := WithDefaults(t, now)]
      ensures r.Done? ==> key in old(objects) && key in objects && r.state == objects[key]
                          && OwnFields(old(objects)[key], objects[key], old(objects)[key].updatedAt, now)
      ensures r.Done? && UniqueComponents(old(objects)[key].components) ==>
                Holds(objects[key].components, ToMap(old(objects)[key].components) - {name}, now)
    {
      var got := Get(key);
      if !got.Done? {
        return got;
      }
      var cs := got.state.components;
      var a := new Component[|cs|](i requires 0 <= i < |cs| => cs[i]);
      assert a[..] == cs;
      var len, panicked := DeleteInPlace(a, name);
      if panicked {
        return Panic;
      }
      r := Put(key, got.state.(components := a[..len]), true, now);
      ghost var s := got.state;
      if UniqueComponents(s.components) {
        StoredRefines(s, r.state, now);
      }
    }
  }

  lemma {:induction false} PatchedFirst(cs: seq<Component>, name: string, status: string, now: Time, i: nat)
    requires i < |cs| && cs[i].name == name && forall j | 0 <= j < i :: cs[j].name != name
    ensures Patched(cs, name, status, now) == cs[i := cs[i].(status := status, updatedAt := now)]
  {
    if i > 0 {
      PatchedFirst(cs[1..], name, status, now, i - 1);
    }
  }
}
