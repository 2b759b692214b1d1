/** The whole calculation over a company's events, and what it says about them. */
module StatusCalculation {
  import opened Events
  import opened EventStatus

  const ENVIRONMENT := Scope.Environment

  /******* Groups of teams and environments *******/

  ghost predicate SortedGroups(events: seq<Event>, m: TeamGroups) {
    forall k :: (k in m <==> WithKey(ObjectOf, k, events) != []) && (k in m ==> SortOf(WithKey(ObjectOf, k, events), m[k]))
  }

  ghost predicate Nested(events: seq<Event>, g: EnvironmentGroups) {
    forall t :: (t in g <==> WithKey(TeamOf, t, events) != [])
                && (t in g ==> GroupedBy(ObjectOf, WithKey(TeamOf, t, events), g[t]))
  }

  ghost predicate NestedSorted(events: seq<Event>, g: EnvironmentGroups) {
    forall t :: (t in g <==> WithKey(TeamOf, t, events) != [])
                && (t in g ==> SortedGroups(WithKey(TeamOf, t, events), g[t]))
  }

  method SortGroups(groups: TeamGroups, ghost events: seq<Event>) returns (sorted: TeamGroups)
    requires GroupedBy(ObjectOf, events, groups)
    ensures SortedGroups(events, sorted)
  {
    sorted := map[];
    var left := groups.Keys;
    while left != {}
      invariant left <= groups.Keys && sorted.Keys == groups.Keys - left
      invariant forall k | k in sorted :: SortOf(groups[k], sorted[k])
      decreases |left|
    {
      var k :| k in left;
      left := left - {k};
      var s := SortEventsByDescTimestamp(groups[k]);
      sorted := sorted[k := s];
    }
  }

  method GroupTeamEvents(all: seq<Event>) returns (grouped: TeamGroups)
    ensures SortedGroups(WithKey(ScopeOf, Team, all), grouped)
  {
    var teamEvents := WithKey(ScopeOf, Team, all);
    grouped := map[];
    for i := 0 to |teamEvents|
      invariant GroupedBy(ObjectOf, teamEvents[..i], grouped)
    {
      var e := teamEvents[i];
      GroupStep(ObjectOf, teamEvents[..i], e, grouped);
      assert teamEvents[..i + 1] == teamEvents[..i] + [e];
      grouped := grouped[e.object_ := (if e.object_ in grouped then grouped[e.object_] else []) + [e]];
    }
    assert teamEvents[..|teamEvents|] == teamEvents;
    grouped := SortGroups(grouped, teamEvents);
  }

  lemma WithKeyStep<K>(key: Event -> K, k: K, events: seq<Event>, e: Event)
    ensures WithKey(key, k, events + [e]) == WithKey(key, k, events) + (if key(e) == k then [e] else [])
  {
    assert (events + [e])[..|events|] == events;
  }

  /** The groups of e's team with e added. */
  function Extended(g: EnvironmentGroups, e: Event): TeamGroups {
    var mine: TeamGroups := if e.meta.team in g then g[e.meta.team] else map[];
    mine[e.object_ := (if e.object_ in mine then mine[e.object_] else []) + [e]]
  }

  lemma ExtendedGroups(events: seq<Event>, e: Event, g: EnvironmentGroups)
    requires Nested(events, g)
    ensures GroupedBy(ObjectOf, WithKey(TeamOf, e.meta.team, events) + [e], Extended(g, e))
  {
    var mine: TeamGroups := if e.meta.team in g then g[e.meta.team] else map[];
    assert GroupedBy(ObjectOf, WithKey(TeamOf, e.meta.team, events), mine);
    GroupStep(ObjectOf, WithKey(TeamOf, e.meta.team, events), e, mine);
  }

  lemma NestedStep(events: seq<Event>, e: Event, g: EnvironmentGroups)
    requires Nested(events, g)
    ensures Nested(events + [e], g[e.meta.team := Extended(g, e)])
  {
    ExtendedGroups(events, e, g);
    hide GroupedBy, WithKey, Extended;
    var h := g[e.meta.team := Extended(g, e)];
    forall t ensures (t in h <==> WithKey(TeamOf, t, events + [e]) != [])
                     && (t in h ==> GroupedBy(ObjectOf, WithKey(TeamOf, t, events + [e]), h[t])) {
      WithKeyStep(TeamOf, t, events, e);
      if t != e.meta.team {
        assert WithKey(TeamOf, t, events) + [] == WithKey(TeamOf, t, events);
      }
    }
  }

  method SortEnvironmentGroups(grouped: EnvironmentGroups, ghost events: seq<Event>) returns (sorted: EnvironmentGroups)
    requires Nested(events, grouped)
    ensures NestedSorted(events, sorted)
  {
    hide GroupedBy, SortedGroups, WithKey;
    sorted := map[];
    var left := grouped.Keys;
    while left != {}
      invariant left <= grouped.Keys && sorted.Keys == grouped.Keys - left
      invariant forall t | t in sorted :: SortedGroups(WithKey(TeamOf, t, events), sorted[t])
      decreases |left|
    {
      var t :| t in left;
      left := left - {t};
      var s := SortGroups(grouped[t], WithKey(TeamOf, t, events));
      sorted := sorted[t := s];
    }
  }

  method GroupEnvironmentEvents(all: seq<Event>) returns (r: Outcome<EnvironmentGroups>)
    ensures !r.Panics?
    ensures r.Error? <==> exists e :: e in WithKey(ScopeOf, ENVIRONMENT, all) && e.meta.team == ""
    ensures r.Ok? ==> NestedSorted(WithKey(ScopeOf, ENVIRONMENT, all), r.value)
  {
    var events := WithKey(ScopeOf, ENVIRONMENT, all);
    var grouped: EnvironmentGroups := map[];
    assert Nested(events[..0], grouped);
    hide Nested, NestedSorted, WithKey;
    for i := 0 to |events|
      invariant Nested(events[..i], grouped)
      invariant forall e | e in events[..i] :: e.meta.team != ""
    {
      var e := events[i];
      var team := e.meta.team;
      if team == "" {
        return Error;
      }
      NestedStep(events[..i], e, grouped);
      assert events[..i + 1] == events[..i] + [e];
      var mine: TeamGroups := if team in grouped then grouped[team] else map[];
      grouped := grouped[team := mine[e.object_ := (if e.object_ in mine then mine[e.object_] else []) + [e]]];
    }
    assert events[..|events|] == events;
    var sorted := SortEnvironmentGroups(grouped, events);
    return Ok(sorted);
  }

  /******* The status maps *******/

  ghost predicate TeamReported(group: seq<Event>, entries: int, s: TeamStatus) {
    exists sorted :: SortOf(group, sorted) && sorted != [] && TeamStatusOf(sorted, entries, s)
  }

  ghost predicate EnvironmentReported(group: seq<Event>, entries: int, s: EnvironmentStatus) {
    exists sorted :: SortOf(group, sorted) && sorted != [] && EnvironmentStatusOf(sorted, entries, s)
  }

  /** One status for every object with an event, made from that object's events. */
  ghost predicate TeamsReported(events: seq<Event>, entries: int, m: map<string, TeamStatus>) {
    forall k :: (k in m <==> WithKey(ObjectOf, k, events) != [])
                && (k in m ==> TeamReported(WithKey(ObjectOf, k, events), entries, m[k]))
  }

  ghost predicate ObjectsReported(events: seq<Event>, entries: int, m: map<string, EnvironmentStatus>) {
    forall k :: (k in m <==> WithKey(ObjectOf, k, events) != [])
                && (k in m ==> EnvironmentReported(WithKey(ObjectOf, k, events), entries, m[k]))
  }

  ghost predicate EnvironmentsReported(events: seq<Event>, entries: int, m: EnvironmentStatusMap) {
    forall t :: (t in m <==> WithKey(TeamOf, t, events) != [])
                && (t in m ==> ObjectsReported(WithKey(TeamOf, t, events), entries, m[t]))
  }

  /**
   `e` stands in the way of a status for its object: it lacks meta its scope demands, or it is an
   error event without readable messages and a newest one of its family.
   */
  ghost predicate Blocks(events: seq<Event>, e: Event) {
    && e in events
    && (!ValidScope(e.scope, e.meta)
        || (!Readable(e) && IsNewest(e, WithKey(FamilyOf, e.family, WithKey(ObjectOf, e.object_, events)))))
  }

  /** The events that `e` is grouped with before they are split by object. */
  function Peers(all: seq<Event>, e: Event): seq<Event> {
    var scoped := WithKey(ScopeOf, e.scope, all);
    if e.scope == ENVIRONMENT then WithKey(TeamOf, e.meta.team, scoped) else scoped
  }

  ghost predicate AnyBlocks(all: seq<Event>) {
    exists e: Event :: (e.scope == Team || e.scope == ENVIRONMENT) && Blocks(Peers(all, e), e)
  }

  lemma NewestAlike(group: seq<Event>, sorted: seq<Event>, f: Family, e: Event)
    requires SortOf(group, sorted)
    ensures IsNewest(e, WithKey(FamilyOf, f, sorted)) <==> IsNewest(e, WithKey(FamilyOf, f, group))
  {
    forall x ensures x in WithKey(FamilyOf, f, sorted) <==> x in WithKey(FamilyOf, f, group) {
      WithKeyMembers(FamilyOf, f, sorted, x);
      WithKeyMembers(FamilyOf, f, group, x);
      SortOfMembers(group, sorted, x);
    }
  }

  lemma UnreadableBlocks(events: seq<Event>, k: string, sorted: seq<Event>) returns (e: Event)
    requires SortOf(WithKey(ObjectOf, k, events), sorted) && SomeFamilyUnreadable(sorted)
    ensures Blocks(events, e)
  {
    hide SortOf;
    var f :| FamilyStatus(sorted, f, Error);
    e :| IsNewest(e, WithKey(FamilyOf, f, sorted)) && StatusFrom(e, f) == Error;
    WithKeyMembers(FamilyOf, f, sorted, e);
    GroupMembers(events, k, sorted);
    NewestAlike(WithKey(ObjectOf, k, events), sorted, f, e);
  }

  lemma SortOfMembers(group: seq<Event>, sorted: seq<Event>, e: Event)
    requires SortOf(group, sorted)
    ensures e in sorted <==> e in group
  {
    assert e in multiset(sorted) <==> e in multiset(group);
  }

  /** Members of a sorted group come from the events and have the group's key. */
  lemma GroupMembers(events: seq<Event>, k: string, sorted: seq<Event>)
    requires SortOf(WithKey(ObjectOf, k, events), sorted)
    ensures forall e :: e in sorted <==> e in events && e.object_ == k
  {
    forall e ensures e in sorted <==> e in events && e.object_ == k {
      SortOfMembers(WithKey(ObjectOf, k, events), sorted, e);
      WithKeyMembers(ObjectOf, k, events, e);
    }
  }

  method BuildTeamStatusMap(grouped: TeamGroups, entries: int, ghost events: seq<Event>)
    returns (r: Outcome<map<string, TeamStatus>>)
    requires SortedGroups(events, grouped) && forall e | e in events :: e.scope == Team
    ensures r.Ok? ==> TeamsReported(events, entries, r.value)
    ensures r.Error? ==> exists e :: Blocks(events, e)
    ensures r.Panics? ==> entries < 0 && events != []
  {
    hide SortOf, SomeFamilyUnreadable, TeamStatusOf, IsNewest;
    var m: map<string, TeamStatus> := map[];
    var left := grouped.Keys;
    while left != {}
      invariant left <= grouped.Keys && m.Keys == grouped.Keys - left
      invariant forall k | k in m :: TeamReported(WithKey(ObjectOf, k, events), entries, m[k])
      decreases |left|
    {
      var team :| team in left;
      left := left - {team};
      var sorted := grouped[team];
      GroupMembers(events, team, sorted);
      GroupNonEmpty(events, team, sorted);
      var status := NewTeamStatus(sorted, entries);
      if status.Error? {
        ghost var e := sorted[0];
        if SomeFamilyUnreadable(sorted) {
          e := UnreadableBlocks(events, team, sorted);
        }
        assert Blocks(events, e);
        return Error;
      }
      if status.Panics? {
        return Panics;
      }
      assert TeamReported(WithKey(ObjectOf, team, events), entries, status.value);
      m := m[team := status.value];
    }
    return Ok(m);
  }

  lemma GroupNonEmpty(events: seq<Event>, k: string, sorted: seq<Event>)
    requires SortOf(WithKey(ObjectOf, k, events), sorted) && WithKey(ObjectOf, k, events) != []
    ensures sorted != []
  {
    SortedHeadIsNewest(WithKey(ObjectOf, k, events), sorted);
  }

  method BuildObjectStatusMap(groups: TeamGroups, entries: int, ghost events: seq<Event>)
    returns (r: Outcome<map<string, EnvironmentStatus>>)
    requires SortedGroups(events, groups) && forall e | e in events :: e.scope == ENVIRONMENT
    ensures r.Ok? ==> ObjectsReported(events, entries, r.value)
    ensures r.Error? ==> exists e :: Blocks(events, e)
    ensures r.Panics? ==> entries < 0 && events != []
  {
    hide SortOf, SomeFamilyUnreadable, EnvironmentStatusOf, IsNewest;
    var m: map<string, EnvironmentStatus> := map[];
    var left := groups.Keys;
    while left != {}
      invariant left <= groups.Keys && m.Keys == groups.Keys - left
      invariant forall k | k in m :: EnvironmentReported(WithKey(ObjectOf, k, events), entries, m[k])
      decreases |left|
    {
      var environment :| environment in left;
      left := left - {environment};
      var sorted := groups[environment];
      GroupMembers(events, environment, sorted);
      GroupNonEmpty(events, environment, sorted);
      var status := NewEnvironmentStatus(sorted, entries);
      if status.Error? {
        ghost var e := sorted[0];
        if SomeFamilyUnreadable(sorted) {
          e := UnreadableBlocks(events, environment, sorted);
        }
        assert Blocks(events, e);
        return Error;
      }
      if status.Panics? {
        return Panics;
      }
      assert EnvironmentReported(WithKey(ObjectOf, environment, events), entries, status.value);
      m := m[environment := status.value];
    }
    return Ok(m);
  }

  method BuildEnvironmentStatusMap(grouped: EnvironmentGroups, entries: int, ghost events: seq<Event>)
    returns (r: Outcome<EnvironmentStatusMap>)
    requires NestedSorted(events, grouped) && forall e | e in events :: e.scope == ENVIRONMENT
    ensures r.Ok? ==> EnvironmentsReported(events, entries, r.value)
    ensures r.Error? ==> exists e: Event :: Blocks(WithKey(TeamOf, e.meta.team, events), e)
    ensures r.Panics? ==> entries < 0 && events != []
  {
    hide SortedGroups, ObjectsReported;
    var m: EnvironmentStatusMap := map[];
    var left := grouped.Keys;
    while left != {}
      invariant left <= grouped.Keys && m.Keys == grouped.Keys - left
      invariant forall t | t in m :: ObjectsReported(WithKey(TeamOf, t, events), entries, m[t])
      decreases |left|
    {
      var team :| team in left;
      left := left - {team};
      ghost var mine := WithKey(TeamOf, team, events);
      forall e ensures e in mine <==> e in events && e.meta.team == team {
        WithKeyMembers(TeamOf, team, events, e);
      }
      var status := BuildObjectStatusMap(grouped[team], entries, mine);
      if status.Error? {
        ghost var e :| Blocks(mine, e);
        return Error;
      }
      if status.Panics? {
        return Panics;
      }
      m := m[team := status.value];
    }
    return Ok(m);
  }

  /** What a response says about a company's events. */
  ghost predicate Reported(all: seq<Event>, entries: int, r: Response) {
    && TeamsReported(WithKey(ScopeOf, Team, all), entries, r.teams)
    && EnvironmentsReported(WithKey(ScopeOf, ENVIRONMENT, all), entries, r.environments)
  }
}
