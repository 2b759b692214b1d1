/**
 Posting an environment spec (api/src/environment/environment.controller.ts): the stored component
 rows are brought in step with the posted list, and the `dag` column is rewritten from both.
 */
module SpecPosts {

  /** A posted component; `spec` stands for its type and dependencies. */
  datatype Dto = Dto(name: string, spec: string)

  datatype Row = Row(id: nat, name: string)

  /** One environment. `rows` is in id order, `nextId` is the id generator of the component table. */
  datatype Stored = Stored(exists_: bool, rows: seq<Row>, dag: seq<Dto>, nextId: nat)

  /** The unique index identifies names with equal keys; MySQL's default collation, for one, ignores case. */
  type Collation = string -> string

  function DtoNames(ds: seq<Dto>): seq<string> {
    seq(|ds|, i requires 0 <= i < |ds| => ds[i].name)
  }

  function RowNames(rows: seq<Row>): seq<string> {
    seq(|rows|, i requires 0 <= i < |rows| => rows[i].name)
  }

  predicate HasRow(rows: seq<Row>, name: string) {
    exists i | 0 <= i < |rows| :: rows[i].name == name
  }

  predicate HasDto(ds: seq<Dto>, name: string) {
    exists i | 0 <= i < |ds| :: ds[i].name == name
  }

  /** incoming.find(...) */
  function Find(ds: seq<Dto>, name: string): Dto
    requires HasDto(ds, name)
  {
    if ds[0].name == name then ds[0] else Find(ds[1..], name)
  }

  /** The posted components without a row, in posted order. */
  function NewOf(rows: seq<Row>, incoming: seq<Dto>): seq<Dto> {
    if incoming == [] then []
    else
      var d := incoming[|incoming| - 1];
      NewOf(rows, incoming[..|incoming| - 1]) + (if HasRow(rows, d.name) then [] else [d])
  }

  /** For each row that is still posted, the first posted component of its name. */
  function ExistingOf(rows: seq<Row>, incoming: seq<Dto>): seq<Dto> {
    if rows == [] then []
    else
      var r := rows[|rows| - 1];
      ExistingOf(rows[..|rows| - 1], incoming) + (if HasDto(incoming, r.name) then [Find(incoming, r.name)] else [])
  }

  function KeptRows(rows: seq<Row>, incoming: seq<Dto>): seq<Row> {
    if rows == [] then []
    else
      var r := rows[|rows| - 1];
      KeptRows(rows[..|rows| - 1], incoming) + (if HasDto(incoming, r.name) then [r] else [])
  }

  function Numbered(names: seq<string>, from: nat): seq<Row> {
    seq(|names|, i requires 0 <= i < |names| => Row(from + i, names[i]))
  }

  predicate HasRepeats(key: Collation, names: seq<string>) {
    exists i, j | 0 <= i < j < |names| :: key(names[i]) == key(names[j])
  }

  predicate NoneNamed(key: Collation, rows: seq<Row>, names: seq<string>) {
    forall i, j | 0 <= i < |rows| && 0 <= j < |names| :: key(rows[i].name) != key(names[j])
  }

  /** The index takes all the names beside the rows. */
  predicate Insertable(key: Collation, rows: seq<Row>, names: seq<string>) {
    !HasRepeats(key, names) && NoneNamed(key, rows, names)
  }

  /**
   The effect of a post. The `dag` is saved first; creating rows comes before deleting some and fails as
   a whole on a name the index knows, and then nothing is deleted either.
   */
  function Posted(key: Collation, s: Stored, incoming: seq<Dto>): Stored {
    var current := Current(s);
    var created := NewOf(current, incoming);
    var t := Stored(true, current, if s.exists_ then ExistingOf(current, incoming) + created else incoming, s.nextId);
    if !Insertable(key, current, DtoNames(created)) then t
    else t.(rows := KeptRows(current, incoming) + Numbered(DtoNames(created), s.nextId), nextId := s.nextId + |created|)
  }

  function Current(s: Stored): seq<Row> {
    if s.exists_ then s.rows else []
  }

  predicate Accepted(key: Collation, s: Stored, incoming: seq<Dto>) {
    Insertable(key, Current(s), DtoNames(NewOf(Current(s), incoming)))
  }

  class EnvironmentController {
    const collation: Collation
    var exists_: bool
    var rows: seq<Row>
    var dag: seq<Dto>
    var nextId: nat

    constructor (collation: Collation, nextId: nat)
      ensures View() == Stored(false, [], [], nextId) && this.collation == collation
    {
      this.collation := collation;
      exists_, rows, dag, this.nextId := false, [], [], nextId;
    }

    ghost function View(): Stored
      reads this
    {
      Stored(exists_, rows, dag, nextId)
    }

    /** One insert statement for all names; the unique index rejects it as a whole. */
    method BatchCreateComponents(names: seq<string>) returns (ok: bool)
      modifies this`rows, this`nextId
      ensures ok <==> Insertable(collation, old(rows), names)
      ensures rows == old(rows) + (if ok then Numbered(names, old(nextId)) else [])
      ensures nextId == old(nextId) + (if ok then |names| else 0)
    {
      if !Insertable(collation, rows, names) {
        return false;
      }
      rows := rows + Numbered(names, nextId);
      nextId := nextId + |names|;
      return true;
    }

    method SaveOrUpdate(incoming: seq<Dto>) returns (ok: bool)
      modifies this
      ensures View() == Posted(collation, old(View()), incoming)
      ensures ok <==> Accepted(collation, old(View()), incoming)
    {
      if !exists_ {
        exists_, rows, dag := true, [], incoming;
        AllNew(incoming);
        ok := BatchCreateComponents(DtoNames(incoming));
        return;
      }
      var currentComps := rows;
      var newComponents := FilterNew(currentComps, incoming);
      var kept, existingComponents := SplitCurrent(currentComps, incoming);
      dag := existingComponents + newComponents;
      hide NewOf, KeptRows, ExistingOf;
      ok := BatchCreateComponents(DtoNames(newComponents));
      if ok {
        rows := kept + rows[|currentComps|..];
      }
    }

    /** incoming.filter(...) */
    method FilterNew(currentComps: seq<Row>, incoming: seq<Dto>) returns (newComponents: seq<Dto>)
      ensures newComponents == NewOf(currentComps, incoming)
    {
      newComponents := [];
      for i := 0 to |incoming|
        invariant newComponents == NewOf(currentComps, incoming[..i])
      {
        assert incoming[..i + 1][..i] == incoming[..i];
        if !HasRow(currentComps, incoming[i].name) {
          newComponents := newComponents + [incoming[i]];
        }
      }
      assert incoming[..|incoming|] == incoming;
    }

    /** The loop over the current components; the rows it does not keep are the missing ones. */
    method SplitCurrent(currentComps: seq<Row>, incoming: seq<Dto>)
      returns (kept: seq<Row>, existingComponents: seq<Dto>)
      ensures kept == KeptRows(currentComps, incoming)
      ensures existingComponents == ExistingOf(currentComps, incoming)
    {
      kept, existingComponents := [], [];
      for i := 0 to |currentComps|
        invariant kept == KeptRows(currentComps[..i], incoming)
        invariant existingComponents == ExistingOf(currentComps[..i], incoming)
      {
        var comp := currentComps[i];
        assert currentComps[..i + 1][..i] == currentComps[..i];
        if !HasDto(incoming, comp.name) {
          continue;
        }
        kept := kept + [comp];
        existingComponents := existingComponents + [Find(incoming, comp.name)];
      }
      assert currentComps[..|currentComps|] == currentComps;
    }
  }

  /******* The lists *******/

  lemma NewStep(rows: seq<Row>, incoming: seq<Dto>, d: Dto)
    ensures NewOf(rows, incoming + [d]) == NewOf(rows, incoming) + (if HasRow(rows, d.name) then [] else [d])
  {
    assert (incoming + [d])[..|incoming|] == incoming;
  }

  lemma {:induction false} AllNew(incoming: seq<Dto>)
    ensures NewOf([], incoming) == incoming
  {
    if incoming != [] {
      var init, d := incoming[..|incoming| - 1], incoming[|incoming| - 1];
      AllNew(init);
      NewStep([], init, d);
      hide NewOf;
      assert incoming == init + [d];
    }
  }

  lemma {:induction false} NewHaveNoRow(rows: seq<Row>, incoming: seq<Dto>)
    ensures forall d :: d in NewOf(rows, incoming) <==> d in incoming && !HasRow(rows, d.name)
    ensures forall j | 0 <= j < |NewOf(rows, incoming)| :: !HasRow(rows, NewOf(rows, incoming)[j].name)
  {
    if incoming != [] {
      NewHaveNoRow(rows, incoming[..|incoming| - 1]);
      assert incoming == incoming[..|incoming| - 1] + [incoming[|incoming| - 1]];
    }
  }

  lemma {:induction false} FindFirst(ds: seq<Dto>, name: string)
    requires HasDto(ds, name)
    ensures Find(ds, name).name == name && Find(ds, name) in ds
  {
    if ds[0].name != name {
      assert ds[1..] == ds[1..];
      var i :| 0 <= i < |ds| && ds[i].name == name;
      assert ds[1..][i - 1].name == name;
      FindFirst(ds[1..], name);
    }
  }

  lemma DtoNamesAppend(a: seq<Dto>, b: seq<Dto>)
    ensures DtoNames(a + b) == DtoNames(a) + DtoNames(b)
  {
  }

  lemma RowNamesAppend(a: seq<Row>, b: seq<Row>)
    ensures RowNames(a + b) == RowNames(a) + RowNames(b)
  {
  }

  lemma {:induction false} ExistingMatchesKept(rows: seq<Row>, incoming: seq<Dto>)
    ensures DtoNames(ExistingOf(rows, incoming)) == RowNames(KeptRows(rows, incoming))
    ensures forall r :: r in KeptRows(rows, incoming) <==> r in rows && HasDto(incoming, r.name)
  {
    if rows != [] {
      var init, r := rows[..|rows| - 1], rows[|rows| - 1];
      ExistingMatchesKept(init, incoming);
      assert rows == init + [r];
      if HasDto(incoming, r.name) {
        FindFirst(incoming, r.name);
        DtoNamesAppend(ExistingOf(init, incoming), [Find(incoming, r.name)]);
        RowNamesAppend(KeptRows(init, incoming), [r]);
        assert DtoNames([Find(incoming, r.name)]) == [r.name];
        assert RowNames([r]) == [r.name];
      } else {
        assert ExistingOf(rows, incoming) == ExistingOf(init, incoming);
        assert KeptRows(rows, incoming) == KeptRows(init, incoming);
      }
    }
  }

  /******* What every post keeps *******/

  ghost predicate OrderedRows(key: Collation, rows: seq<Row>, nextId: nat) {
    && (forall i, j | 0 <= i < j < |rows| :: rows[i].id < rows[j].id && key(rows[i].name) != key(rows[j].name))
    && (forall i | 0 <= i < |rows| :: rows[i].id < nextId)
  }

  /** Rows are distinct to the index and grow in id, whatever was posted and whether or not it was accepted. */
  ghost predicate RowsSound(key: Collation, s: Stored) {
    if s.exists_ then OrderedRows(key, s.rows, s.nextId) else s.rows == []
  }

  lemma OrderedSnoc(key: Collation, kept: seq<Row>, last: Row, nextId: nat)
    requires OrderedRows(key, kept, nextId) && last.id < nextId
    requires forall r | r in kept :: r.id < last.id && key(r.name) != key(last.name)
    ensures OrderedRows(key, kept + [last], nextId)
  {
  }

  lemma OrderedInit(key: Collation, rows: seq<Row>, nextId: nat)
    requires OrderedRows(key, rows, nextId) && rows != []
    ensures OrderedRows(key, rows[..|rows| - 1], nextId) && rows[|rows| - 1].id < nextId
    ensures forall r | r in rows[..|rows| - 1] :: r.id < rows[|rows| - 1].id && key(r.name) != key(rows[|rows| - 1].name)
  {
  }

  lemma {:induction false} KeptOrdered(key: Collation, rows: seq<Row>, incoming: seq<Dto>, nextId: nat)
    requires OrderedRows(key, rows, nextId)
    ensures OrderedRows(key, KeptRows(rows, incoming), nextId)
  {
    if rows != [] {
      OrderedInit(key, rows, nextId);
      hide OrderedRows;
      var init, last := rows[..|rows| - 1], rows[|rows| - 1];
      var kept := KeptRows(init, incoming);
      KeptOrdered(key, init, incoming, nextId);
      ExistingMatchesKept(init, incoming);
      assert forall r | r in kept :: r in init;
      OrderedSnoc(key, kept, last, nextId);
      assert kept + [] == kept;
    }
  }

  lemma NumberedOrdered(key: Collation, kept: seq<Row>, names: seq<string>, nextId: nat)
    requires OrderedRows(key, kept, nextId) && !HasRepeats(key, names)
    requires NoneNamed(key, kept, names)
    ensures OrderedRows(key, kept + Numbered(names, nextId), nextId + |names|)
  {
    var all := kept + Numbered(names, nextId);
    assert forall i | 0 <= i < |all| :: all[i] == if i < |kept| then kept[i] else Row(nextId + i - |kept|, names[i - |kept|]);
    assert forall i, j | 0 <= i < j < |names| :: key(names[i]) != key(names[j]);
  }

  lemma KeptAvoid(key: Collation, rows: seq<Row>, incoming: seq<Dto>, names: seq<string>)
    requires NoneNamed(key, rows, names)
    ensures NoneNamed(key, KeptRows(rows, incoming), names)
  {
    ExistingMatchesKept(rows, incoming);
    hide KeptRows;
    var kept := KeptRows(rows, incoming);
    forall i, j | 0 <= i < |kept| && 0 <= j < |names| ensures key(kept[i].name) != key(names[j]) {
      assert kept[i] in kept && kept[i] in rows;
    }
  }

  lemma PostKeepsRowsSound(key: Collation, s: Stored, incoming: seq<Dto>)
    requires RowsSound(key, s)
    ensures RowsSound(key, Posted(key, s, incoming))
  {
    var current := Current(s);
    if Accepted(key, s, incoming) {
      var created, kept := NewOf(current, incoming), KeptRows(current, incoming);
      hide NewOf, KeptRows, OrderedRows, HasRepeats, NoneNamed;
      KeptOrdered(key, current, incoming, s.nextId);
      KeptAvoid(key, current, incoming, DtoNames(created));
      NumberedOrdered(key, kept, DtoNames(created), s.nextId);
    }
  }

  /** An accepted post leaves rows and dag with the same names in the same order. */
  lemma AcceptedAgrees(key: Collation, s: Stored, incoming: seq<Dto>)
    requires RowsSound(key, s) && Accepted(key, s, incoming)
    ensures RowNames(Posted(key, s, incoming).rows) == DtoNames(Posted(key, s, incoming).dag)
  {
    var current := Current(s);
    ExistingMatchesKept(current, incoming);
    AllNew(incoming);
    var created := NewOf(current, incoming);
    assert RowNames(Numbered(DtoNames(created), s.nextId)) == DtoNames(created);
    RowNamesAppend(KeptRows(current, incoming), Numbered(DtoNames(created), s.nextId));
    DtoNamesAppend(ExistingOf(current, incoming), created);
  }

  lemma NamesDisagree(rows: seq<Row>, kept: seq<Dto>, created: seq<Dto>)
    requires created != [] && !HasRow(rows, created[0].name)
    ensures RowNames(rows) != DtoNames(kept + created)
  {
    assert DtoNames(kept + created)[|kept|] == created[0].name;
    if |rows| == |kept + created| {
      assert RowNames(rows)[|kept|] == rows[|kept|].name;
    }
  }

  /** What a refused post stores. */
  lemma RefusedStores(key: Collation, s: Stored, incoming: seq<Dto>)
    requires RowsSound(key, s) && !Accepted(key, s, incoming)
    ensures var t, current := Posted(key, s, incoming), Current(s);
            && t.rows == current == s.rows && t.nextId == s.nextId && NewOf(current, incoming) != []
            && t.dag == (if s.exists_ then ExistingOf(current, incoming) else []) + NewOf(current, incoming)
  {
    AllNew(incoming);
    hide NewOf, ExistingOf;
    assert [] + NewOf([], incoming) == NewOf([], incoming);
  }

  /** A refused one leaves the rows alone, while the dag already lists the components it meant to create. */
  lemma RefusedDisagrees(key: Collation, s: Stored, incoming: seq<Dto>)
    requires RowsSound(key, s) && !Accepted(key, s, incoming)
    ensures var t := Posted(key, s, incoming);
            && t.rows == s.rows && t.nextId == s.nextId
            && RowNames(t.rows) != DtoNames(t.dag)
  {
    var current := Current(s);
    var created := NewOf(current, incoming);
    RefusedStores(key, s, incoming);
    NewHaveNoRow(current, incoming);
    hide Posted, NewOf, ExistingOf, RowsSound, Accepted, HasRow;
    assert created[0] in created;
    NamesDisagree(current, if s.exists_ then ExistingOf(current, incoming) else [], created);
  }

  /******* Runs of posts *******/

  function PostAll(key: Collation, s: Stored, posts: seq<seq<Dto>>): Stored {
    if posts == [] then s else Posted(key, PostAll(key, s, posts[..|posts| - 1]), posts[|posts| - 1])
  }

  lemma {:induction false} RunKeepsRowsSound(key: Collation, s: Stored, posts: seq<seq<Dto>>)
    requires RowsSound(key, s)
    ensures RowsSound(key, PostAll(key, s, posts))
  {
    if posts != [] {
      RunKeepsRowsSound(key, s, posts[..|posts| - 1]);
      PostKeepsRowsSound(key, PostAll(key, s, posts[..|posts| - 1]), posts[|posts| - 1]);
    }
  }

  /**
   After any run of posts, refused ones included, rows have distinct names in id order; and rows and
   dag name the same components in the same order exactly when the last post was accepted.
   */
  lemma RowsMatchDagIff(key: Collation, s: Stored, posts: seq<seq<Dto>>)
    requires RowsSound(key, s) && posts != []
    ensures var before, t := PostAll(key, s, posts[..|posts| - 1]), PostAll(key, s, posts);
            && OrderedRows(key, t.rows, t.nextId)
            && (RowNames(t.rows) == DtoNames(t.dag) <==> Accepted(key, before, posts[|posts| - 1]))
  {
    var before, last := PostAll(key, s, posts[..|posts| - 1]), posts[|posts| - 1];
    RunKeepsRowsSound(key, s, posts);
    RunKeepsRowsSound(key, s, posts[..|posts| - 1]);
    if Accepted(key, before, last) {
      AcceptedAgrees(key, before, last);
    } else {
      RefusedDisagrees(key, before, last);
    }
  }

  ghost predicate DistinctNames(ds: seq<Dto>) {
    forall i, j | 0 <= i < j < |ds| :: ds[i].name != ds[j].name
  }

  /** The index identifies no two different names among the stored and the posted ones. */
  ghost predicate Separates(key: Collation, rows: seq<Row>, incoming: seq<Dto>) {
    forall x, y | Named(rows, incoming, x) && Named(rows, incoming, y) && key(x) == key(y) :: x == y
  }

  predicate Named(rows: seq<Row>, incoming: seq<Dto>, name: string) {
    HasRow(rows, name) || HasDto(incoming, name)
  }

  /** Two entries of the posted list without a row that the index takes for one. */
  predicate NewPair(key: Collation, rows: seq<Row>, incoming: seq<Dto>, i: int, j: int) {
    && 0 <= i < j < |incoming| && key(incoming[i].name) == key(incoming[j].name)
    && !HasRow(rows, incoming[i].name) && !HasRow(rows, incoming[j].name)
  }

  /** The index takes one of the names for `name`. */
  predicate Knows(key: Collation, names: seq<string>, name: string) {
    exists k | 0 <= k < |names| :: key(names[k]) == key(name)
  }

  predicate KnowsNew(key: Collation, rows: seq<Row>, incoming: seq<Dto>, name: string) {
    exists i | 0 <= i < |incoming| :: !HasRow(rows, incoming[i].name) && key(incoming[i].name) == key(name)
  }

  lemma RepeatsGrow(key: Collation, names: seq<string>, name: string)
    ensures HasRepeats(key, names + [name]) <==> HasRepeats(key, names) || Knows(key, names, name)
  {
    var all := names + [name];
    if i, j :| 0 <= i < j < |all| && key(all[i]) == key(all[j]) {
      assert key(names[i]) == key(if j < |names| then names[j] else name);
    }
    if i, j :| 0 <= i < j < |names| && key(names[i]) == key(names[j]) {
      assert key(all[i]) == key(all[j]);
    }
    if k :| 0 <= k < |names| && key(names[k]) == key(name) {
      assert key(all[k]) == key(all[|names|]);
    }
  }

  lemma NewPairsGrow(key: Collation, rows: seq<Row>, incoming: seq<Dto>)
    requires incoming != []
    ensures var init, d := incoming[..|incoming| - 1], incoming[|incoming| - 1];
            (exists i, j :: NewPair(key, rows, incoming, i, j)) <==>
            (exists i, j :: NewPair(key, rows, init, i, j)) || (!HasRow(rows, d.name) && KnowsNew(key, rows, init, d.name))
  {
    hide HasRow;
    var n := |incoming| - 1;
    var init := incoming[..n];
    if i, j :| NewPair(key, rows, incoming, i, j) {
      assert init[i] == incoming[i];
      assert j < n ==> NewPair(key, rows, init, i, j);
    }
    if i, j :| NewPair(key, rows, init, i, j) {
      assert NewPair(key, rows, incoming, i, j);
    }
    if !HasRow(rows, incoming[n].name) && KnowsNew(key, rows, init, incoming[n].name) {
      var i :| 0 <= i < n && !HasRow(rows, init[i].name) && key(init[i].name) == key(incoming[n].name);
      assert NewPair(key, rows, incoming, i, n);
    }
  }

  lemma {:induction false} NewRepeatsIff(key: Collation, rows: seq<Row>, incoming: seq<Dto>)
    ensures HasRepeats(key, DtoNames(NewOf(rows, incoming))) <==> exists i, j :: NewPair(key, rows, incoming, i, j)
  {
    if incoming != [] {
      var init, d := incoming[..|incoming| - 1], incoming[|incoming| - 1];
      NewRepeatsIff(key, rows, init);
      NewPairsGrow(key, rows, incoming);
      if HasRow(rows, d.name) {
        assert NewOf(rows, incoming) == NewOf(rows, init);
      } else {
        DtoNamesAppend(NewOf(rows, init), [d]);
        assert DtoNames([d]) == [d.name];
        RepeatsGrow(key, DtoNames(NewOf(rows, init)), d.name);
        NewWithKey(key, rows, init, d.name);
      }
    }
  }

  lemma NewWithKey(key: Collation, rows: seq<Row>, incoming: seq<Dto>, name: string)
    ensures Knows(key, DtoNames(NewOf(rows, incoming)), name) <==> KnowsNew(key, rows, incoming, name)
  {
    NewHaveNoRow(rows, incoming);
    hide NewOf, HasRow;
    var created := NewOf(rows, incoming);
    var names := DtoNames(created);
    if k :| 0 <= k < |names| && key(names[k]) == key(name) {
      assert created[k] in created;
      var i :| 0 <= i < |incoming| && incoming[i] == created[k];
      assert !HasRow(rows, incoming[i].name);
    }
    if i :| 0 <= i < |incoming| && !HasRow(rows, incoming[i].name) && key(incoming[i].name) == key(name) {
      assert incoming[i] in created;
      var k :| 0 <= k < |created| && created[k] == incoming[i];
      assert names[k] == incoming[i].name;
    }
  }

  /** A new name is posted once only. */
  ghost predicate NewOnce(rows: seq<Row>, incoming: seq<Dto>) {
    forall i, j | 0 <= i < j < |incoming| && incoming[i].name == incoming[j].name :: HasRow(rows, incoming[i].name)
  }

  lemma SeparateInsertable(key: Collation, rows: seq<Row>, incoming: seq<Dto>)
    requires Separates(key, rows, incoming) && NewOnce(rows, incoming)
    ensures Insertable(key, rows, DtoNames(NewOf(rows, incoming)))
  {
    var names := DtoNames(NewOf(rows, incoming));
    forall i, j ensures !NewPair(key, rows, incoming, i, j) {
      if 0 <= i < j < |incoming| && key(incoming[i].name) == key(incoming[j].name) {
        assert Named(rows, incoming, incoming[i].name) && Named(rows, incoming, incoming[j].name);
      }
    }
    NewRepeatsIff(key, rows, incoming);
    NewHaveNoRow(rows, incoming);
    hide NewOf, HasRepeats, NewPair, NewOnce;
    forall i, j | 0 <= i < |rows| && 0 <= j < |names| ensures key(rows[i].name) != key(names[j]) {
      var d := NewOf(rows, incoming)[j];
      assert d in NewOf(rows, incoming) && d in incoming && !HasRow(rows, d.name);
      assert HasDto(incoming, d.name) && HasRow(rows, rows[i].name);
      assert Named(rows, incoming, d.name) && Named(rows, incoming, rows[i].name);
    }
  }

  /** Of two names that the index identifies, one has a row and is the other, or the index refuses. */
  lemma InsertableSeparates(key: Collation, rows: seq<Row>, incoming: seq<Dto>, nextId: nat, x: string, y: string)
    requires OrderedRows(key, rows, nextId) && Insertable(key, rows, DtoNames(NewOf(rows, incoming)))
    requires Named(rows, incoming, x) && Named(rows, incoming, y) && key(x) == key(y)
    ensures x == y
  {
    var names := DtoNames(NewOf(rows, incoming));
    NewRepeatsIff(key, rows, incoming);
    if HasRow(rows, x) && HasRow(rows, y) {
      var i, j :| 0 <= i < |rows| && rows[i].name == x && 0 <= j < |rows| && rows[j].name == y;
      assert i == j;
    } else if HasRow(rows, x) {
      RowAndNewDiffer(key, rows, incoming, x, y);
    } else if HasRow(rows, y) {
      RowAndNewDiffer(key, rows, incoming, y, x);
    } else {
      var i, j :| 0 <= i < |incoming| && incoming[i].name == x && 0 <= j < |incoming| && incoming[j].name == y;
      assert !NewPair(key, rows, incoming, i, j) && !NewPair(key, rows, incoming, j, i);
    }
  }

  lemma RowAndNewDiffer(key: Collation, rows: seq<Row>, incoming: seq<Dto>, x: string, y: string)
    requires NoneNamed(key, rows, DtoNames(NewOf(rows, incoming)))
    requires HasRow(rows, x) && HasDto(incoming, y) && !HasRow(rows, y)
    ensures key(x) != key(y)
  {
    NewHaveNoRow(rows, incoming);
    hide NewOf;
    var created := NewOf(rows, incoming);
    var i, j :| 0 <= i < |rows| && rows[i].name == x && 0 <= j < |incoming| && incoming[j].name == y;
    assert incoming[j] in created;
    var k :| 0 <= k < |created| && created[k] == incoming[j];
    assert key(rows[i].name) != key(DtoNames(created)[k]);
  }

  /**
   A post is accepted exactly when no new name is posted twice and the index identifies no two
   different names among the stored and the posted ones.
   */
  lemma AcceptedIff(key: Collation, s: Stored, incoming: seq<Dto>)
    requires RowsSound(key, s)
    ensures Accepted(key, s, incoming) <==> NewOnce(Current(s), incoming) && Separates(key, Current(s), incoming)
  {
    var rows := Current(s);
    hide Separates;
    if NewOnce(rows, incoming) && Separates(key, rows, incoming) {
      SeparateInsertable(key, rows, incoming);
    }
    if Accepted(key, s, incoming) {
      assert OrderedRows(key, rows, s.nextId);
      InsertedSeparates(key, rows, incoming, s.nextId);
    }
  }

  lemma InsertedSeparates(key: Collation, rows: seq<Row>, incoming: seq<Dto>, nextId: nat)
    requires OrderedRows(key, rows, nextId) && Insertable(key, rows, DtoNames(NewOf(rows, incoming)))
    ensures NewOnce(rows, incoming) && Separates(key, rows, incoming)
  {
    NewRepeatsIff(key, rows, incoming);
    hide OrderedRows, NewOf, HasRow, Named;
    forall i, j | 0 <= i < j < |incoming| && incoming[i].name == incoming[j].name ensures HasRow(rows, incoming[i].name) {
      assert !NewPair(key, rows, incoming, i, j);
    }
    forall x, y | Named(rows, incoming, x) && Named(rows, incoming, y) && key(x) == key(y) ensures x == y {
      InsertableSeparates(key, rows, incoming, nextId, x, y);
    }
  }

  /** Lists of distinct names are refused only on account of the index. */
  lemma DistinctAcceptedIff(key: Collation, s: Stored, incoming: seq<Dto>)
    requires RowsSound(key, s) && DistinctNames(incoming)
    ensures Accepted(key, s, incoming) <==> Separates(key, Current(s), incoming)
  {
    AcceptedIff(key, s, incoming);
  }

  /**
   A component renamed to a name that the index identifies with its old one, say by a change of case, is
   refused: the old row is deleted only after the new one has been created.
   */
  lemma RenameRefused(key: Collation, s: Stored, row: Row, incoming: seq<Dto>, name: string)
    requires RowsSound(key, s) && row in Current(s) && HasDto(incoming, name)
    requires name != row.name && key(name) == key(row.name)
    ensures !Accepted(key, s, incoming)
  {
    var rows := Current(s);
    var i :| 0 <= i < |rows| && rows[i] == row;
    assert rows[i].name == row.name;
    assert Named(rows, incoming, row.name) && Named(rows, incoming, name);
    AcceptedIff(key, s, incoming);
  }

  lemma {:induction false} KeptHas(rows: seq<Row>, incoming: seq<Dto>, name: string)
    ensures HasRow(KeptRows(rows, incoming), name) <==> HasRow(rows, name) && HasDto(incoming, name)
  {
    ExistingMatchesKept(rows, incoming);
    hide KeptRows;
    var kept := KeptRows(rows, incoming);
    if i :| 0 <= i < |kept| && kept[i].name == name {
      assert kept[i] in kept;
    }
    if i :| 0 <= i < |rows| && rows[i].name == name && HasDto(incoming, name) {
      assert rows[i] in kept;
    }
  }

  lemma CreatedHas(rows: seq<Row>, incoming: seq<Dto>, name: string, from: nat)
    ensures HasRow(Numbered(DtoNames(NewOf(rows, incoming)), from), name) <==> HasDto(incoming, name) && !HasRow(rows, name)
  {
    NewHaveNoRow(rows, incoming);
    hide NewOf;
    var created := NewOf(rows, incoming);
    var added := Numbered(DtoNames(created), from);
    if i :| 0 <= i < |added| && added[i].name == name {
      assert created[i] in created && created[i].name == name;
    }
    if HasDto(incoming, name) && !HasRow(rows, name) {
      var j :| 0 <= j < |incoming| && incoming[j].name == name;
      assert incoming[j] in created;
      var k :| 0 <= k < |created| && created[k] == incoming[j];
      assert added[k].name == name;
    }
  }

  lemma HasRowAppend(a: seq<Row>, b: seq<Row>, name: string)
    ensures HasRow(a + b, name) <==> HasRow(a, name) || HasRow(b, name)
  {
    if i :| 0 <= i < |a| && a[i].name == name {
      assert (a + b)[i].name == name;
    }
    if i :| 0 <= i < |b| && b[i].name == name {
      assert (a + b)[|a| + i].name == name;
    }
  }

  /** Exactly the posted components have rows afterwards, and rows that stay keep their identity. */
  lemma RowsAfterPost(key: Collation, s: Stored, incoming: seq<Dto>, name: string)
    requires RowsSound(key, s) && Accepted(key, s, incoming)
    ensures HasRow(Posted(key, s, incoming).rows, name) <==> HasDto(incoming, name)
    ensures forall r | r in Posted(key, s, incoming).rows :: r in s.rows || r.id >= s.nextId
    ensures forall r | r in s.rows && HasDto(incoming, r.name) :: r in Posted(key, s, incoming).rows
  {
    var current := Current(s);
    var kept, added := KeptRows(current, incoming), Numbered(DtoNames(NewOf(current, incoming)), s.nextId);
    assert Posted(key, s, incoming).rows == kept + added;
    ExistingMatchesKept(current, incoming);
    hide NewOf, KeptRows, Posted, HasRow, HasDto;
    KeptHas(current, incoming, name);
    CreatedHas(current, incoming, name, s.nextId);
    HasRowAppend(kept, added, name);
  }

  /******* Posting a list of distinct names *******/

  lemma {:induction false} FindSelf(ds: seq<Dto>, d: Dto)
    requires DistinctNames(ds) && d in ds
    ensures HasDto(ds, d.name) && Find(ds, d.name) == d
  {
    var i :| 0 <= i < |ds| && ds[i] == d;
    assert ds[i].name == d.name;
    FindFirst(ds, d.name);
  }

  lemma {:induction false} ExistingMembers(rows: seq<Row>, incoming: seq<Dto>, d: Dto)
    requires DistinctNames(incoming)
    ensures d in ExistingOf(rows, incoming) <==> d in incoming && HasRow(rows, d.name)
  {
    if rows != [] {
      var init, r := rows[..|rows| - 1], rows[|rows| - 1];
      ExistingMembers(init, incoming, d);
      assert HasRow(rows, d.name) <==> HasRow(init, d.name) || r.name == d.name by {
        assert rows == init + [r];
        HasRowAppend(init, [r], d.name);
        assert HasRow([r], d.name) <==> r.name == d.name;
      }
      if HasDto(incoming, r.name) {
        FindFirst(incoming, r.name);
        if d in incoming && r.name == d.name {
          FindSelf(incoming, d);
        }
      } else if d in incoming {
        FindSelf(incoming, d);
      }
    }
  }

  lemma {:induction false} NewDistinct(rows: seq<Row>, incoming: seq<Dto>)
    requires DistinctNames(incoming)
    ensures DistinctNames(NewOf(rows, incoming))
  {
    if incoming != [] {
      var init, d := incoming[..|incoming| - 1], incoming[|incoming| - 1];
      NewDistinct(rows, init);
      NewHaveNoRow(rows, init);
      assert forall c | c in init :: c.name != d.name;
    }
  }

  lemma ExistingDistinct(key: Collation, rows: seq<Row>, incoming: seq<Dto>, nextId: nat)
    requires OrderedRows(key, rows, nextId)
    ensures DistinctNames(ExistingOf(rows, incoming))
  {
    KeptOrdered(key, rows, incoming, nextId);
    ExistingMatchesKept(rows, incoming);
    hide KeptRows, ExistingOf;
    var existing, kept := ExistingOf(rows, incoming), KeptRows(rows, incoming);
    assert |DtoNames(existing)| == |RowNames(kept)|;
    forall i, j | 0 <= i < j < |existing| ensures existing[i].name != existing[j].name {
      assert DtoNames(existing)[i] == RowNames(kept)[i] && DtoNames(existing)[j] == RowNames(kept)[j];
    }
  }

  /** Whether or not the post is accepted, the stored dag is a permutation of a posted list of distinct names. */
  lemma DagPermutesPost(key: Collation, s: Stored, incoming: seq<Dto>)
    requires RowsSound(key, s) && DistinctNames(incoming)
    ensures multiset(Posted(key, s, incoming).dag) == multiset(incoming)
  {
    var existing, created := ExistingOf(s.rows, incoming), NewOf(s.rows, incoming);
    hide NewOf, ExistingOf;
    if s.exists_ {
      ExistingDistinct(key, s.rows, incoming, s.nextId);
      NewDistinct(s.rows, incoming);
      NewHaveNoRow(s.rows, incoming);
      forall d ensures (d in existing <==> d in incoming && HasRow(s.rows, d.name)) {
        ExistingMembers(s.rows, incoming, d);
      }
      hide HasRow, DistinctNames;
      DistinctMultiset(existing);
      DistinctMultiset(created);
      DistinctMultiset(incoming);
      assert forall d :: multiset(existing + created)[d] == multiset(incoming)[d];
    }
  }

  lemma {:induction false} DistinctMultiset(ds: seq<Dto>)
    requires DistinctNames(ds)
    ensures forall d :: multiset(ds)[d] == if d in ds then 1 else 0
  {
    if ds != [] {
      var init, last := ds[..|ds| - 1], ds[|ds| - 1];
      DistinctMultiset(init);
      assert ds == init + [last];
      assert last !in init;
    }
  }

  lemma PostedHaveRows(key: Collation, s: Stored, incoming: seq<Dto>)
    requires RowsSound(key, s) && DistinctNames(incoming) && Accepted(key, s, incoming)
    ensures forall d | d in incoming :: HasRow(Posted(key, s, incoming).rows, d.name)
    ensures forall r | r in Posted(key, s, incoming).rows :: HasDto(incoming, r.name)
  {
    var rows := Posted(key, s, incoming).rows;
    hide Posted, RowsSound, Accepted;
    forall d | d in incoming ensures HasRow(rows, d.name) {
      FindSelf(incoming, d);
      RowsAfterPost(key, s, incoming, d.name);
    }
    forall r | r in rows ensures HasDto(incoming, r.name) {
      var i :| 0 <= i < |rows| && rows[i] == r;
      assert HasRow(rows, r.name);
      RowsAfterPost(key, s, incoming, r.name);
    }
  }

  lemma RefusedAgain(key: Collation, s: Stored, incoming: seq<Dto>)
    requires RowsSound(key, s) && !Accepted(key, s, incoming)
    ensures Posted(key, Posted(key, s, incoming), incoming) == Posted(key, s, incoming)
  {
    AllNew(incoming);
    assert [] + incoming == incoming;
    hide NewOf;
  }

  lemma AcceptedAgain(key: Collation, s: Stored, incoming: seq<Dto>)
    requires RowsSound(key, s) && DistinctNames(incoming) && Accepted(key, s, incoming)
    ensures Posted(key, Posted(key, s, incoming), incoming) == Posted(key, s, incoming)
  {
    var t := Posted(key, s, incoming);
    PostedHaveRows(key, s, incoming);
    AcceptedAgrees(key, s, incoming);
    DagPermutesPost(key, s, incoming);
    assert t.exists_;
    hide Posted, RowsSound, Accepted;
    AllInMultiset(t.dag, incoming);
    NothingNew(t.rows, incoming);
    AllKept(t.rows, t.dag, incoming);
    NothingPosted(key, t, incoming);
  }

  /** Posting the same list again, accepted or refused, changes nothing. */
  lemma RepeatedPostIsIdle(key: Collation, s: Stored, incoming: seq<Dto>)
    requires RowsSound(key, s) && DistinctNames(incoming)
    ensures Posted(key, Posted(key, s, incoming), incoming) == Posted(key, s, incoming)
  {
    if Accepted(key, s, incoming) {
      AcceptedAgain(key, s, incoming);
    } else {
      RefusedAgain(key, s, incoming);
    }
  }

  lemma NothingPosted(key: Collation, t: Stored, incoming: seq<Dto>)
    requires t.exists_ && NewOf(t.rows, incoming) == []
    requires KeptRows(t.rows, incoming) == t.rows && ExistingOf(t.rows, incoming) == t.dag
    ensures Posted(key, t, incoming) == t
  {
    hide NewOf, KeptRows, ExistingOf;
    assert DtoNames([]) == [] && Numbered([], t.nextId) == [];
  }

  lemma AllInMultiset(a: seq<Dto>, b: seq<Dto>)
    requires multiset(a) == multiset(b)
    ensures forall d | d in a :: d in b
  {
    assert forall d | d in a :: d in multiset(a) && d in multiset(b);
  }

  lemma {:induction false} NothingNew(rows: seq<Row>, incoming: seq<Dto>)
    requires forall d | d in incoming :: HasRow(rows, d.name)
    ensures NewOf(rows, incoming) == []
  {
    if incoming != [] {
      NothingNew(rows, incoming[..|incoming| - 1]);
    }
  }

  lemma {:induction false} AllKept(rows: seq<Row>, dag: seq<Dto>, incoming: seq<Dto>)
    requires DistinctNames(incoming) && RowNames(rows) == DtoNames(dag)
    requires forall d | d in dag :: d in incoming
    ensures KeptRows(rows, incoming) == rows && ExistingOf(rows, incoming) == dag
  {
    if rows != [] {
      var n := |rows| - 1;
      assert |RowNames(rows)| == |DtoNames(dag)|;
      assert RowNames(rows[..n]) == RowNames(rows)[..n] && DtoNames(dag[..n]) == DtoNames(dag)[..n];
      AllKept(rows[..n], dag[..n], incoming);
      assert RowNames(rows)[n] == DtoNames(dag)[n];
      FindSelf(incoming, dag[n]);
      assert rows == rows[..n] + [rows[n]] && dag == dag[..n] + [dag[n]];
    } else {
      assert |RowNames(rows)| == |DtoNames(dag)|;
    }
  }

  /******* The stored lists, entry by entry *******/

  ghost predicate Ascending(at: seq<int>, n: nat) {
    && (forall k | 0 <= k < |at| :: 0 <= at[k] < n)
    && (forall k, m | 0 <= k < m < |at| :: at[k] < at[m])
  }

  /** The positions of the rows whose name is posted. */
  ghost predicate StillPostedAt(rows: seq<Row>, incoming: seq<Dto>, at: seq<int>) {
    && Ascending(at, |rows|)
    && forall i | 0 <= i < |rows| :: i in at <==> exists j | 0 <= j < |incoming| :: incoming[j].name == rows[i].name
  }

  /** The positions of the posted components that have no row. */
  ghost predicate NewAt(rows: seq<Row>, incoming: seq<Dto>, at: seq<int>) {
    && Ascending(at, |incoming|)
    && forall j | 0 <= j < |incoming| :: j in at <==> forall i | 0 <= i < |rows| :: rows[i].name != incoming[j].name
  }

  /** `d` is the first posted component of that name. */
  ghost predicate FirstPosted(incoming: seq<Dto>, name: string, d: Dto) {
    exists j | 0 <= j < |incoming| ::
      incoming[j] == d && d.name == name && forall k | 0 <= k < j :: incoming[k].name != name
  }

  lemma {:induction false} FindIsFirst(ds: seq<Dto>, name: string)
    requires HasDto(ds, name)
    ensures FirstPosted(ds, name, Find(ds, name))
  {
    if ds[0].name != name {
      var i :| 0 <= i < |ds| && ds[i].name == name;
      assert ds[1..][i - 1].name == name;
      FindIsFirst(ds[1..], name);
      var j :| 0 <= j < |ds[1..]| && ds[1..][j] == Find(ds, name) && ds[1..][j].name == name
               && forall k | 0 <= k < j :: ds[1..][k].name != name;
      assert forall k | 1 <= k <= j :: ds[k] == ds[1..][k - 1];
      assert ds[j + 1] == Find(ds, name);
    }
  }

  lemma StillPostedStep(rows: seq<Row>, incoming: seq<Dto>, init: seq<int>)
    requires rows != [] && StillPostedAt(rows[..|rows| - 1], incoming, init)
    ensures var n := |rows| - 1;
            StillPostedAt(rows, incoming, init + (if HasDto(incoming, rows[n].name) then [n] else []))
  {
    var n := |rows| - 1;
    var at := init + (if HasDto(incoming, rows[n].name) then [n] else []);
    assert forall k | 0 <= k < |init| :: init[k] < n;
    forall i | 0 <= i < |rows| ensures i in at <==> HasDto(incoming, rows[i].name) {
      if i < n {
        assert rows[..n][i] == rows[i];
      } else {
        assert n !in init;
      }
    }
  }

  lemma {:induction false} KeptPicked(rows: seq<Row>, incoming: seq<Dto>) returns (at: seq<int>)
    ensures StillPostedAt(rows, incoming, at)
    ensures |KeptRows(rows, incoming)| == |ExistingOf(rows, incoming)| == |at|
    ensures forall k | 0 <= k < |at| :: KeptRows(rows, incoming)[k] == rows[at[k]]
    ensures forall k | 0 <= k < |at| :: FirstPosted(incoming, rows[at[k]].name, ExistingOf(rows, incoming)[k])
  {
    at := [];
    if rows != [] {
      var n := |rows| - 1;
      var init := KeptPicked(rows[..n], incoming);
      StillPostedStep(rows, incoming, init);
      if HasDto(incoming, rows[n].name) {
        FindIsFirst(incoming, rows[n].name);
      }
      at := init + (if HasDto(incoming, rows[n].name) then [n] else []);
      KeptStep(rows, incoming);
      assert forall k | 0 <= k < |init| :: 0 <= init[k] < n && rows[..n][init[k]] == rows[init[k]];
      hide FirstPosted, StillPostedAt, HasDto, KeptRows, ExistingOf;
    }
  }

  lemma KeptStep(rows: seq<Row>, incoming: seq<Dto>)
    requires rows != []
    ensures var init, r := rows[..|rows| - 1], rows[|rows| - 1];
            && KeptRows(rows, incoming) == KeptRows(init, incoming) + (if HasDto(incoming, r.name) then [r] else [])
            && ExistingOf(rows, incoming) ==
               ExistingOf(init, incoming) + (if HasDto(incoming, r.name) then [Find(incoming, r.name)] else [])
  {
  }

  lemma NewAtStep(rows: seq<Row>, incoming: seq<Dto>, init: seq<int>)
    requires incoming != [] && NewAt(rows, incoming[..|incoming| - 1], init)
    ensures var n := |incoming| - 1;
            NewAt(rows, incoming, init + (if HasRow(rows, incoming[n].name) then [] else [n]))
  {
    var n := |incoming| - 1;
    var at := init + (if HasRow(rows, incoming[n].name) then [] else [n]);
    assert forall k | 0 <= k < |init| :: init[k] < n;
    forall j | 0 <= j < |incoming| ensures j in at <==> !HasRow(rows, incoming[j].name) {
      if j < n {
        assert incoming[..n][j] == incoming[j];
      } else {
        assert n !in init;
      }
    }
  }

  lemma {:induction false} NewPicked(rows: seq<Row>, incoming: seq<Dto>) returns (at: seq<int>)
    ensures NewAt(rows, incoming, at)
    ensures |NewOf(rows, incoming)| == |at| && forall k | 0 <= k < |at| :: NewOf(rows, incoming)[k] == incoming[at[k]]
  {
    at := [];
    if incoming != [] {
      var n := |incoming| - 1;
      var init := NewPicked(rows, incoming[..n]);
      NewAtStep(rows, incoming, init);
      at := init + (if HasRow(rows, incoming[n].name) then [] else [n]);
      NewStep(rows, incoming[..n], incoming[n]);
      assert incoming == incoming[..n] + [incoming[n]];
      assert forall k | 0 <= k < |init| :: 0 <= init[k] < n && incoming[..n][init[k]] == incoming[init[k]];
      hide NewAt, HasRow, NewOf;
    }
  }

  /** The dag of an environment that exists: the rows still posted, in row order, then the new ones as posted. */
  ghost predicate DagListed(rows: seq<Row>, incoming: seq<Dto>, at: seq<int>, bt: seq<int>, dag: seq<Dto>)
    requires Ascending(at, |rows|) && Ascending(bt, |incoming|)
  {
    && |dag| == |at| + |bt|
    && (forall k | 0 <= k < |at| :: FirstPosted(incoming, rows[at[k]].name, dag[k]))
    && (forall k | 0 <= k < |bt| :: dag[|at| + k] == incoming[bt[k]])
  }

  /** The rows after an accepted post: those still posted as they were, then a new one for each new name. */
  ghost predicate RowsListed(rows: seq<Row>, incoming: seq<Dto>, at: seq<int>, bt: seq<int>, now: seq<Row>, nextId: nat)
    requires Ascending(at, |rows|) && Ascending(bt, |incoming|)
  {
    && |now| == |at| + |bt|
    && (forall k | 0 <= k < |at| :: now[k] == rows[at[k]])
    && (forall k | 0 <= k < |bt| :: now[|at| + k] == Row(nextId + k, incoming[bt[k]].name))
  }

  /** Everything a post stores, in terms of the stored rows and the posted list. */
  lemma PostListed(key: Collation, s: Stored, incoming: seq<Dto>) returns (at: seq<int>, bt: seq<int>)
    requires RowsSound(key, s)
    ensures StillPostedAt(s.rows, incoming, at) && NewAt(s.rows, incoming, bt)
    ensures var t := Posted(key, s, incoming);
            && t.exists_
            && (if s.exists_ then DagListed(s.rows, incoming, at, bt, t.dag) else t.dag == incoming)
            && (if Accepted(key, s, incoming)
                then RowsListed(s.rows, incoming, at, bt, t.rows, s.nextId) && t.nextId == s.nextId + |bt|
                else t.rows == s.rows && t.nextId == s.nextId)
  {
    assert Current(s) == s.rows;
    at := KeptPicked(s.rows, incoming);
    bt := NewPicked(s.rows, incoming);
    var existing, created, kept := ExistingOf(s.rows, incoming), NewOf(s.rows, incoming), KeptRows(s.rows, incoming);
    assert Ascending(at, |s.rows|) && Ascending(bt, |incoming|);
    hide KeptRows, ExistingOf, NewOf, FirstPosted, Insertable, StillPostedAt, NewAt, Ascending;
    RowsAreListed(s.rows, incoming, at, bt, kept, created, s.nextId);
    DagIsListed(s.rows, incoming, at, bt, existing, created);
    hide RowsListed, DagListed;
  }

  lemma DagIsListed(rows: seq<Row>, incoming: seq<Dto>, at: seq<int>, bt: seq<int>, existing: seq<Dto>, created: seq<Dto>)
    requires Ascending(at, |rows|) && Ascending(bt, |incoming|)
    requires |existing| == |at| && forall k | 0 <= k < |at| :: FirstPosted(incoming, rows[at[k]].name, existing[k])
    requires |created| == |bt| && forall k | 0 <= k < |bt| :: created[k] == incoming[bt[k]]
    ensures DagListed(rows, incoming, at, bt, existing + created)
  {
    hide Ascending, FirstPosted;
  }

  lemma RowsAreListed(rows: seq<Row>, incoming: seq<Dto>, at: seq<int>, bt: seq<int>, kept: seq<Row>,
                      created: seq<Dto>, nextId: nat)
    requires Ascending(at, |rows|) && Ascending(bt, |incoming|)
    requires |kept| == |at| && forall k | 0 <= k < |at| :: kept[k] == rows[at[k]]
    requires |created| == |bt| && forall k | 0 <= k < |bt| :: created[k] == incoming[bt[k]]
    ensures RowsListed(rows, incoming, at, bt, kept + Numbered(DtoNames(created), nextId), nextId)
  {
    hide Ascending;
  }
}
