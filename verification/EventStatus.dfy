/**
 The status calculation of the event service (event-service/internal/status/service.go): events
 are grouped, sorted newest first, and reduced to one status per object and family.
 */
module EventStatus {
  import opened Events

  datatype Outcome<+T> = Ok(value: T) | Error | Panics

  datatype State = StateOK | StateError

  datatype Status = Status(state: State, family: Family, errors: seq<string>, timestamp: int)

  datatype ObjectStatus = ObjectStatus(events: seq<Event>, object_: string, meta: Meta, status: map<Family, Status>)

  datatype TeamStatus = TeamStatus(object_: string, company: string, team: string, status: ObjectStatus)

  datatype EnvironmentStatus =
    EnvironmentStatus(object_: string, company: string, team: string, environment: string, status: ObjectStatus)

  type TeamGroups = map<string, seq<Event>>
  type EnvironmentGroups = map<string, map<string, seq<Event>>>
  type EnvironmentStatusMap = map<string, map<string, EnvironmentStatus>>

  datatype Response = Response(teams: map<string, TeamStatus>, environments: EnvironmentStatusMap)

  /******* Grouping *******/

  function ScopeOf(e: Event): Scope { e.scope }
  function ObjectOf(e: Event): string { e.object_ }
  function FamilyOf(e: Event): Family { e.family }
  function TeamOf(e: Event): string { e.meta.team }

  /** The events with the given key, in their order. */
  function WithKey<K(==)>(key: Event -> K, k: K, events: seq<Event>): seq<Event> {
    if events == [] then []
    else
      var e := events[|events| - 1];
      WithKey(key, k, events[..|events| - 1]) + (if key(e) == k then [e] else [])
  }

  lemma {:induction false} WithKeyCounts<K>(key: Event -> K, k: K, events: seq<Event>, e: Event)
    ensures multiset(WithKey(key, k, events))[e] == if key(e) == k then multiset(events)[e] else 0
  {
    if events != [] {
      var init := events[..|events| - 1];
      WithKeyCounts(key, k, init, e);
      assert events == init + [events[|events| - 1]];
    }
  }

  lemma WithKeyMembers<K>(key: Event -> K, k: K, events: seq<Event>, e: Event)
    ensures e in WithKey(key, k, events) <==> e in events && key(e) == k
  {
    WithKeyCounts(key, k, events, e);
    assert e in WithKey(key, k, events) <==> e in multiset(WithKey(key, k, events));
    assert e in events <==> e in multiset(events);
  }

  /** `m` is the grouping of `events` by `key`: no empty group, every group in the order of the events. */
  ghost predicate GroupedBy<K(!new)>(key: Event -> K, events: seq<Event>, m: map<K, seq<Event>>) {
    forall k :: (k in m <==> WithKey(key, k, events) != []) && (k in m ==> m[k] == WithKey(key, k, events))
  }

  lemma GroupStep<K(!new)>(key: Event -> K, events: seq<Event>, e: Event, m: map<K, seq<Event>>)
    requires GroupedBy(key, events, m)
    ensures GroupedBy(key, events + [e], m[key(e) := (if key(e) in m then m[key(e)] else []) + [e]])
  {
    assert (events + [e])[..|events|] == events;
  }

  method GroupEventsByFamily(events: seq<Event>) returns (grouped: map<Family, seq<Event>>)
    ensures GroupedBy(FamilyOf, events, grouped)
  {
    grouped := map[];
    for i := 0 to |events|
      invariant GroupedBy(FamilyOf, events[..i], grouped)
    {
      var e := events[i];
      GroupStep(FamilyOf, events[..i], e, grouped);
      assert events[..i + 1] == events[..i] + [e];
      grouped := grouped[e.family := (if e.family in grouped then grouped[e.family] else []) + [e]];
    }
    assert events[..|events|] == events;
  }

  /******* Sorting *******/

  ghost predicate NewestFirst(s: seq<Event>) {
    forall i, j | 0 <= i < j < |s| :: s[i].at >= s[j].at
  }

  /** What sort.Slice promises: the same events, newest first; equal timestamps in any order. */
  ghost predicate SortOf(events: seq<Event>, sorted: seq<Event>) {
    multiset(sorted) == multiset(events) && NewestFirst(sorted)
  }

  lemma InsertedIsSorted(s: seq<Event>, k: nat, e: Event)
    requires NewestFirst(s) && k <= |s|
    requires forall j | 0 <= j < k :: s[j].at >= e.at
    requires k < |s| ==> s[k].at <= e.at
    ensures NewestFirst(s[..k] + [e] + s[k..])
  {
    var r := s[..k] + [e] + s[k..];
    forall i, j | 0 <= i < j < |r| ensures r[i].at >= r[j].at {
      assert i < k ==> r[i] == s[i];
      assert i > k ==> r[i] == s[i - 1];
      assert j < k ==> r[j] == s[j];
      assert j > k ==> r[j] == s[j - 1];
    }
  }

  lemma Inserted(events: seq<Event>, s: seq<Event>, k: nat, e: Event)
    requires SortOf(events, s) && k <= |s|
    requires forall j | 0 <= j < k :: s[j].at >= e.at
    requires k < |s| ==> s[k].at <= e.at
    ensures SortOf(events + [e], s[..k] + [e] + s[k..])
  {
    InsertedIsSorted(s, k, e);
    hide NewestFirst;
    SameElements(s, k, e);
  }

  lemma SameElements(s: seq<Event>, k: nat, e: Event)
    requires k <= |s|
    ensures multiset(s[..k] + [e] + s[k..]) == multiset(s) + multiset{e}
  {
    assert s == s[..k] + s[k..];
  }

  method InsertionPoint(sorted: seq<Event>, e: Event) returns (k: nat)
    ensures k <= |sorted| && (k < |sorted| ==> sorted[k].at <= e.at)
    ensures forall j | 0 <= j < k :: sorted[j].at >= e.at
  {
    k := 0;
    while k < |sorted| && sorted[k].at > e.at
      invariant k <= |sorted|
      invariant forall j | 0 <= j < k :: sorted[j].at >= e.at
    {
      k := k + 1;
    }
  }

  /** Stands for the library sort; callers rely on its contract only. */
  method SortEventsByDescTimestamp(events: seq<Event>) returns (sorted: seq<Event>)
    ensures SortOf(events, sorted)
  {
    sorted := [];
    assert SortOf(events[..0], sorted);
    hide SortOf;
    for i := 0 to |events|
      invariant SortOf(events[..i], sorted)
    {
      var k := InsertionPoint(sorted, events[i]);
      Inserted(events[..i], sorted, k, events[i]);
      assert events[..i + 1] == events[..i] + [events[i]];
      sorted := sorted[..k] + [events[i]] + sorted[k..];
    }
    assert events[..|events|] == events;
  }

  /******* One status *******/

  /** newStatus on the newest event of a family. */
  function StatusFrom(latest: Event, family: Family): Outcome<Status> {
    if IsErrorEvent(latest.etype) then
      if latest.messages.None? then Error else Ok(Status(StateError, family, latest.messages.value, latest.at))
    else Ok(Status(StateOK, family, [], latest.at))
  }

  ghost predicate IsNewest(e: Event, events: seq<Event>) {
    e in events && forall x | x in events :: x.at <= e.at
  }

  /** Some newest event of the family decides its status; with equal timestamps any of them may. */
  ghost predicate FamilyStatus(events: seq<Event>, f: Family, r: Outcome<Status>) {
    exists e :: IsNewest(e, WithKey(FamilyOf, f, events)) && StatusFrom(e, f) == r
  }

  ghost predicate FamilyStatuses(events: seq<Event>, m: map<Family, Status>) {
    forall f :: (f in m <==> WithKey(FamilyOf, f, events) != []) && (f in m ==> FamilyStatus(events, f, Ok(m[f])))
  }

  ghost predicate SomeFamilyUnreadable(events: seq<Event>) {
    exists f :: FamilyStatus(events, f, Error)
  }

  lemma SortedHeadIsNewest(events: seq<Event>, sorted: seq<Event>)
    requires SortOf(events, sorted) && events != []
    ensures sorted != [] && IsNewest(sorted[0], events)
  {
    assert |multiset(sorted)| == |sorted| && |multiset(events)| == |events|;
    forall x | x in events ensures x.at <= sorted[0].at {
      assert x in multiset(sorted);
      assert x in sorted;
    }
    assert sorted[0] in multiset(events);
  }

  method NewGroupedStatusByFamily(events: seq<Event>) returns (r: Outcome<map<Family, Status>>)
    ensures !r.Panics?
    ensures r.Ok? ==> FamilyStatuses(events, r.value)
    ensures r.Error? ==> SomeFamilyUnreadable(events)
  {
    var grouped := GroupEventsByFamily(events);
    var statuses: map<Family, Status> := map[];
    var left := grouped.Keys;
    while left != {}
      invariant left <= grouped.Keys
      invariant statuses.Keys == grouped.Keys - left
      invariant forall f | f in statuses :: FamilyStatus(events, f, Ok(statuses[f]))
      decreases |left|
    {
      var family :| family in left;
      left := left - {family};
      var sorted := SortEventsByDescTimestamp(grouped[family]);
      SortedHeadIsNewest(grouped[family], sorted);
      var status := StatusFrom(sorted[0], family);
      assert FamilyStatus(events, family, status);
      if status.Error? {
        return Error;
      }
      statuses := statuses[family := status.value];
    }
    return Ok(statuses);
  }

  /** Truncate slices, and a negative limit panics. */
  function Truncate(events: seq<Event>, n: int): Outcome<seq<Event>> {
    var limit := if |events| < n then |events| else n;
    if limit < 0 then Panics else Ok(events[..limit])
  }

  /** The object status of a group that is sorted already. */
  ghost predicate ObjectStatusOf(sorted: seq<Event>, entries: int, s: ObjectStatus)
    requires sorted != []
  {
    && Truncate(sorted, entries) == Ok(s.events)
    && s.object_ == sorted[0].object_ && s.meta == sorted[0].meta
    && FamilyStatuses(sorted, s.status)
  }

  method NewObjectStatus(events: seq<Event>, entries: int) returns (r: Outcome<ObjectStatus>)
    requires events != []
    ensures r.Ok? ==> ObjectStatusOf(events, entries, r.value)
    ensures r.Error? ==> SomeFamilyUnreadable(events)
    ensures r.Panics? <==> entries < 0 && !r.Error?
  {
    var status := NewGroupedStatusByFamily(events);
    if status.Error? {
      return Error;
    }
    var latest := events[0];
    var shown := Truncate(events, entries);
    if shown.Panics? {
      return Panics;
    }
    return Ok(ObjectStatus(shown.value, latest.object_, latest.meta, status.value));
  }

  ghost predicate TeamStatusOf(sorted: seq<Event>, entries: int, s: TeamStatus)
    requires sorted != []
  {
    var latest := sorted[0];
    && ObjectStatusOf(sorted, entries, s.status)
    && ValidScope(Team, latest.meta)
    && s.object_ == latest.object_ && s.company == latest.meta.company && s.team == latest.meta.team
  }

  method NewTeamStatus(events: seq<Event>, entries: int) returns (r: Outcome<TeamStatus>)
    requires events != []
    ensures r.Ok? ==> TeamStatusOf(events, entries, r.value)
    ensures r.Error? ==> SomeFamilyUnreadable(events) || !ValidScope(Team, events[0].meta)
    ensures r.Panics? <==> entries < 0 && !r.Error?
  {
    var status := NewObjectStatus(events, entries);
    if !status.Ok? {
      return if status.Error? then Error else Panics;
    }
    var latest := events[0];
    if latest.meta.company == "" {
      return Error;
    }
    if latest.meta.team == "" {
      return Error;
    }
    return Ok(TeamStatus(latest.object_, latest.meta.company, latest.meta.team, status.value));
  }

  ghost predicate EnvironmentStatusOf(sorted: seq<Event>, entries: int, s: EnvironmentStatus)
    requires sorted != []
  {
    var latest := sorted[0];
    && ObjectStatusOf(sorted, entries, s.status)
    && ValidScope(Environment, latest.meta)
    && s.object_ == latest.object_ && s.company == latest.meta.company && s.team == latest.meta.team
    && s.environment == latest.meta.environment
  }

  method NewEnvironmentStatus(events: seq<Event>, entries: int) returns (r: Outcome<EnvironmentStatus>)
    requires events != []
    ensures r.Ok? ==> EnvironmentStatusOf(events, entries, r.value)
    ensures r.Error? ==> SomeFamilyUnreadable(events) || !ValidScope(Environment, events[0].meta)
    ensures r.Panics? <==> entries < 0 && !r.Error?
  {
    var status := NewObjectStatus(events, entries);
    if !status.Ok? {
      return if status.Error? then Error else Panics;
    }
    var latest := events[0];
    if latest.meta.company == "" {
      return Error;
    }
    if latest.meta.team == "" {
      return Error;
    }
    if latest.meta.environment == "" {
      return Error;
    }
    return Ok(EnvironmentStatus(latest.object_, latest.meta.company, latest.meta.team, latest.meta.environment, status.value));
  }
}
