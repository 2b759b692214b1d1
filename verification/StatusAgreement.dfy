/**
 What the calculated status says, and how the status sent for one new event
 (event-service/internal/web/controllers/events.go) agrees with the full calculation.
 */
module StatusAgreement {
  import opened Events
  import opened EventStatus
  import opened StatusCalculation

  /******* Grouping loses and invents nothing *******/

  /** Every team event is in the group of its object as often as in the input, and in no other group. */
  lemma TeamGroupsConserve(all: seq<Event>, grouped: TeamGroups, k: string, e: Event)
    requires SortedGroups(WithKey(ScopeOf, Team, all), grouped)
    ensures k in grouped ==>
              multiset(grouped[k])[e] == if e.scope == Team && e.object_ == k then multiset(all)[e] else 0
    ensures e in all && e.scope == Team ==> e.object_ in grouped
  {
    var events := WithKey(ScopeOf, Team, all);
    WithKeyCounts(ScopeOf, Team, all, e);
    WithKeyCounts(ObjectOf, k, events, e);
    WithKeyMembers(ScopeOf, Team, all, e);
    WithKeyMembers(ObjectOf, e.object_, events, e);
  }

  /** The same for environment events, grouped by team and then by object. */
  lemma EnvironmentGroupsConserve(all: seq<Event>, grouped: EnvironmentGroups, t: string, k: string, e: Event)
    requires NestedSorted(WithKey(ScopeOf, ENVIRONMENT, all), grouped)
    ensures t in grouped && k in grouped[t] ==>
              multiset(grouped[t][k])[e] ==
              if e.scope == ENVIRONMENT && e.meta.team == t && e.object_ == k then multiset(all)[e] else 0
    ensures e in all && e.scope == ENVIRONMENT ==> e.meta.team in grouped && e.object_ in grouped[e.meta.team]
  {
    hide WithKey;
    var events := WithKey(ScopeOf, ENVIRONMENT, all);
    WithKeyCounts(ScopeOf, ENVIRONMENT, all, e);
    WithKeyCounts(TeamOf, t, events, e);
    WithKeyCounts(ObjectOf, k, WithKey(TeamOf, t, events), e);
    WithKeyMembers(ScopeOf, ENVIRONMENT, all, e);
    WithKeyMembers(TeamOf, e.meta.team, events, e);
    WithKeyMembers(ObjectOf, e.object_, WithKey(TeamOf, e.meta.team, events), e);
  }

  /** `s` is built from the events of one team or environment. */
  ghost predicate ObjectReported(group: seq<Event>, entries: int, s: ObjectStatus) {
    exists sorted :: SortOf(group, sorted) && sorted != [] && ObjectStatusOf(sorted, entries, s)
  }

  lemma TeamIsObject(group: seq<Event>, entries: int, t: TeamStatus)
    requires TeamReported(group, entries, t)
    ensures ObjectReported(group, entries, t.status)
  {
    hide SortOf, ObjectStatusOf;
  }

  lemma EnvironmentIsObject(group: seq<Event>, entries: int, t: EnvironmentStatus)
    requires EnvironmentReported(group, entries, t)
    ensures ObjectReported(group, entries, t.status)
  {
    hide SortOf, ObjectStatusOf;
  }

  /** The events shown are the newest of the group: as many as asked for, none newer left out. */
  lemma ShownAreNewest(group: seq<Event>, entries: int, s: ObjectStatus) returns (rest: seq<Event>)
    requires ObjectReported(group, entries, s)
    ensures entries >= 0 && |s.events| == (if |group| < entries then |group| else entries)
    ensures multiset(group) == multiset(s.events) + multiset(rest)
    ensures forall x, y | x in s.events && y in rest :: x.at >= y.at
    ensures NewestFirst(s.events)
  {
    hide FamilyStatuses, NewestFirst;
    var sorted :| SortOf(group, sorted) && sorted != [] && ObjectStatusOf(sorted, entries, s);
    var n := |s.events|;
    rest := sorted[n..];
    SameLength(group, sorted);
    assert sorted == sorted[..n] + rest;
    PrefixIsNewer(sorted, n);
  }

  lemma SameLength(a: seq<Event>, b: seq<Event>)
    requires multiset(a) == multiset(b)
    ensures |a| == |b|
  {
    assert |multiset(a)| == |a| && |multiset(b)| == |b|;
  }

  lemma PrefixIsNewer(sorted: seq<Event>, n: nat)
    requires NewestFirst(sorted) && n <= |sorted|
    ensures NewestFirst(sorted[..n])
    ensures forall x, y | x in sorted[..n] && y in sorted[n..] :: x.at >= y.at
  {
    forall x, y | x in sorted[..n] && y in sorted[n..] ensures x.at >= y.at {
      var i :| 0 <= i < n && sorted[i] == x;
      var j :| n <= j < |sorted| && sorted[j] == y;
    }
  }

  /******* The newest event decides *******/

  ghost predicate StrictlyNewest(e: Event, events: seq<Event>) {
    e in events && forall x | x in events && x != e :: x.at < e.at
  }

  /** One strictly newest event of a family fixes the family's status, whatever the sort does with ties elsewhere. */
  lemma NewestDecides(group: seq<Event>, sorted: seq<Event>, f: Family, e: Event, r: Outcome<Status>)
    requires SortOf(group, sorted) && StrictlyNewest(e, WithKey(FamilyOf, f, group))
    requires FamilyStatus(sorted, f, r)
    ensures r == StatusFrom(e, f)
  {
    var d :| IsNewest(d, WithKey(FamilyOf, f, sorted)) && StatusFrom(d, f) == r;
    WithKeyMembers(FamilyOf, f, sorted, d);
    WithKeyMembers(FamilyOf, f, group, d);
    WithKeyMembers(FamilyOf, f, sorted, e);
    WithKeyMembers(FamilyOf, f, group, e);
    SortOfMembers(group, sorted, d);
    SortOfMembers(group, sorted, e);
  }

  lemma FamilyPresent(group: seq<Event>, sorted: seq<Event>, e: Event)
    requires SortOf(group, sorted) && e in group
    ensures WithKey(FamilyOf, e.family, sorted) != []
  {
    SortOfMembers(group, sorted, e);
    WithKeyMembers(FamilyOf, e.family, sorted, e);
  }

  lemma StatusOfNewest(group: seq<Event>, sorted: seq<Event>, m: map<Family, Status>, f: Family, e: Event)
    requires SortOf(group, sorted) && FamilyStatuses(sorted, m) && StrictlyNewest(e, WithKey(FamilyOf, f, group))
    ensures f in m && Ok(m[f]) == StatusFrom(e, f)
  {
    hide WithKey, SortOf, FamilyStatus, IsNewest;
    WithKeyMembers(FamilyOf, f, group, e);
    FamilyPresent(group, sorted, e);
    NewestDecides(group, sorted, f, e, Ok(m[f]));
  }

  lemma ReportedFamilies(group: seq<Event>, entries: int, s: ObjectStatus) returns (sorted: seq<Event>)
    requires ObjectReported(group, entries, s)
    ensures SortOf(group, sorted) && FamilyStatuses(sorted, s.status)
  {
    hide SortOf, FamilyStatuses;
    sorted :| SortOf(group, sorted) && sorted != [] && ObjectStatusOf(sorted, entries, s);
  }

  /** A family's state is error exactly when its newest event is of an error type; messages and time are that event's. */
  lemma StateIsErrorIff(group: seq<Event>, entries: int, s: ObjectStatus, f: Family, e: Event)
    requires ObjectReported(group, entries, s) && StrictlyNewest(e, WithKey(FamilyOf, f, group))
    ensures f in s.status
    ensures var status := s.status[f];
            && (status.state == StateError <==>
                e.etype in {EnvironmentSpecValidationError, EnvironmentSchemaValidationError, EnvironmentReconcileError,
                            TeamSpecValidationError, TeamSchemaValidationError, TeamReconcileError})
            && status.timestamp == e.at && status.family == f
            && (status.state == StateError ==> e.messages.Some? && status.errors == e.messages.value)
            && (status.state != StateError ==> status.state == StateOK && status.errors == [])
  {
    hide WithKey, SortOf, FamilyStatuses, StrictlyNewest, ObjectReported;
    var sorted := ReportedFamilies(group, entries, s);
    StatusOfNewest(group, sorted, s.status, f, e);
  }

  /** The events that are grouped with `e`. */
  function GroupOf(all: seq<Event>, e: Event): seq<Event> {
    WithKey(ObjectOf, e.object_, Peers(all, e))
  }

  lemma InOwnGroup(all: seq<Event>, e: Event)
    requires e in all
    ensures e in GroupOf(all, e)
  {
    hide WithKey;
    var scoped := WithKey(ScopeOf, e.scope, all);
    WithKeyMembers(ScopeOf, e.scope, all, e);
    WithKeyMembers(ObjectOf, e.object_, scoped, e);
    WithKeyMembers(TeamOf, e.meta.team, scoped, e);
    WithKeyMembers(ObjectOf, e.object_, WithKey(TeamOf, e.meta.team, scoped), e);
  }

  /** The status that a response has for the group of `e`. */
  lemma OwnGroupReported(all: seq<Event>, entries: int, r: Response, e: Event) returns (s: ObjectStatus)
    requires Reported(all, entries, r) && e in all && (e.scope == Team || e.scope == ENVIRONMENT)
    ensures ObjectReported(GroupOf(all, e), entries, s)
  {
    hide WithKey, TeamReported, EnvironmentReported, ObjectReported;
    InOwnGroup(all, e);
    var scoped := WithKey(ScopeOf, e.scope, all);
    if e.scope == Team {
      var t := r.teams[e.object_];
      s := t.status;
      TeamIsObject(GroupOf(all, e), entries, t);
    } else {
      WithKeyMembers(ScopeOf, e.scope, all, e);
      WithKeyMembers(TeamOf, e.meta.team, scoped, e);
      assert ObjectsReported(WithKey(TeamOf, e.meta.team, scoped), entries, r.environments[e.meta.team]);
      var t := r.environments[e.meta.team][e.object_];
      s := t.status;
      EnvironmentIsObject(GroupOf(all, e), entries, t);
    }
  }

  /** One unreadable error event, newest of its object and family, and the whole company gets no status. */
  lemma UnreadableNewestFails(all: seq<Event>, entries: int, r: Response, e: Event)
    requires e in all && (e.scope == Team || e.scope == ENVIRONMENT) && !Readable(e)
    requires StrictlyNewest(e, WithKey(FamilyOf, e.family, GroupOf(all, e)))
    ensures !Reported(all, entries, r)
  {
    hide WithKey, GroupOf, ObjectReported, StrictlyNewest;
    if Reported(all, entries, r) {
      hide Reported;
      var s := OwnGroupReported(all, entries, r, e);
      StateIsErrorIff(GroupOf(all, e), entries, s, e.family, e);
    }
  }

  /** In no object and family do two different events share a timestamp. */
  ghost predicate Untied(all: seq<Event>) {
    forall e, x | e in all && x in WithKey(FamilyOf, e.family, GroupOf(all, e)) && x != e :: x.at != e.at
  }

  lemma PeersAreEvents(all: seq<Event>, e: Event)
    requires e in Peers(all, e)
    ensures e in all
  {
    hide WithKey;
    WithKeyMembers(ScopeOf, e.scope, all, e);
    WithKeyMembers(TeamOf, e.meta.team, WithKey(ScopeOf, e.scope, all), e);
  }

  /**
   Recorded events never miss meta, so together with what Calculate promises: without ties it returns
   a status exactly when no newest event of an object and family is an unreadable error.
   */
  lemma ReportedUnblocked(all: seq<Event>, entries: int, r: Response)
    requires Untied(all) && forall e | e in all :: Recorded(e)
    requires Reported(all, entries, r)
    ensures !AnyBlocks(all)
  {
    hide WithKey, Reported, Peers;
    forall e: Event | e.scope == Team || e.scope == ENVIRONMENT ensures !Blocks(Peers(all, e), e) {
      if e in Peers(all, e) {
        PeersAreEvents(all, e);
        var family := WithKey(FamilyOf, e.family, GroupOf(all, e));
        if !Readable(e) {
          assert IsNewest(e, family) ==> StrictlyNewest(e, family);
          if StrictlyNewest(e, family) {
            UnreadableNewestFails(all, entries, r, e);
          }
        }
      }
    }
  }

  /******* What a response says, in terms of the events *******/

  /** `d` is a newest event of the team object `k`. */
  ghost predicate NewestTeamEvent(all: seq<Event>, k: string, d: Event) {
    && d in all && d.scope == Team && d.object_ == k
    && forall x | x in all && x.scope == Team && x.object_ == k :: x.at <= d.at
  }

  /** The same for the environment object `k` of team `t`. */
  ghost predicate NewestEnvironmentEvent(all: seq<Event>, t: string, k: string, d: Event) {
    && d in all && d.scope == Scope.Environment && d.meta.team == t && d.object_ == k
    && forall x | x in all && x.scope == Scope.Environment && x.meta.team == t && x.object_ == k :: x.at <= d.at
  }

  /** The fields of a status for a group of events come from one of its newest. */
  ghost predicate TeamSays(d: Event, s: TeamStatus) {
    && (s.object_, s.company, s.team) == (d.object_, d.meta.company, d.meta.team)
    && (s.status.object_, s.status.meta) == (d.object_, d.meta)
  }

  ghost predicate EnvironmentSays(d: Event, s: EnvironmentStatus) {
    && (s.object_, s.company, s.team, s.environment) == (d.object_, d.meta.company, d.meta.team, d.meta.environment)
    && (s.status.object_, s.status.meta) == (d.object_, d.meta)
  }

  /** There is a status for every family the group has events of, and for no other. */
  ghost predicate FamiliesOf(group: seq<Event>, s: ObjectStatus) {
    forall f :: f in s.status <==> exists e :: e in group && e.family == f
  }

  lemma ReportedFamiliesOf(group: seq<Event>, entries: int, s: ObjectStatus)
    requires ObjectReported(group, entries, s)
    ensures FamiliesOf(group, s)
  {
    hide ObjectReported;
    var sorted := ReportedFamilies(group, entries, s);
    forall f ensures f in s.status <==> exists e :: e in group && e.family == f {
      var members := WithKey(FamilyOf, f, sorted);
      if members != [] {
        assert members[0] in members;
        WithKeyMembers(FamilyOf, f, sorted, members[0]);
        SortOfMembers(group, sorted, members[0]);
      }
      if e :| e in group && e.family == f {
        FamilyPresent(group, sorted, e);
      }
    }
  }

  lemma TeamSaysNewest(group: seq<Event>, entries: int, s: TeamStatus) returns (d: Event)
    requires TeamReported(group, entries, s)
    ensures IsNewest(d, group) && TeamSays(d, s) && FamiliesOf(group, s.status)
  {
    TeamIsObject(group, entries, s);
    ReportedFamiliesOf(group, entries, s.status);
    hide ObjectReported, FamiliesOf, FamilyStatuses;
    var sorted :| SortOf(group, sorted) && sorted != [] && TeamStatusOf(sorted, entries, s);
    SameLength(group, sorted);
    SortedHeadIsNewest(group, sorted);
    d := sorted[0];
  }

  lemma EnvironmentSaysNewest(group: seq<Event>, entries: int, s: EnvironmentStatus) returns (d: Event)
    requires EnvironmentReported(group, entries, s)
    ensures IsNewest(d, group) && EnvironmentSays(d, s) && FamiliesOf(group, s.status)
  {
    EnvironmentIsObject(group, entries, s);
    ReportedFamiliesOf(group, entries, s.status);
    hide ObjectReported, FamiliesOf, FamilyStatuses;
    var sorted :| SortOf(group, sorted) && sorted != [] && EnvironmentStatusOf(sorted, entries, s);
    SameLength(group, sorted);
    SortedHeadIsNewest(group, sorted);
    d := sorted[0];
  }

  lemma TeamGroup(all: seq<Event>, k: string)
    ensures var group := WithKey(ObjectOf, k, WithKey(ScopeOf, Team, all));
            && (forall e :: e in group <==> e in all && e.scope == Team && e.object_ == k)
            && (group != [] <==> exists e :: e in all && e.scope == Team && e.object_ == k)
  {
    var scoped := WithKey(ScopeOf, Team, all);
    var group := WithKey(ObjectOf, k, scoped);
    forall e ensures e in group <==> e in all && e.scope == Team && e.object_ == k {
      WithKeyMembers(ObjectOf, k, scoped, e);
      WithKeyMembers(ScopeOf, Team, all, e);
    }
    assert group != [] ==> group[0] in group;
  }

  lemma EnvironmentGroup(all: seq<Event>, t: string, k: string)
    ensures var mine := WithKey(TeamOf, t, WithKey(ScopeOf, ENVIRONMENT, all)); var group := WithKey(ObjectOf, k, mine);
            && (forall e :: e in mine <==> e in all && e.scope == Scope.Environment && e.meta.team == t)
            && (mine != [] <==> exists e :: e in all && e.scope == Scope.Environment && e.meta.team == t)
            && (forall e :: e in group <==> e in all && e.scope == Scope.Environment && e.meta.team == t && e.object_ == k)
            && (group != [] <==> exists e :: e in all && e.scope == Scope.Environment && e.meta.team == t && e.object_ == k)
  {
    hide WithKey;
    var scoped := WithKey(ScopeOf, ENVIRONMENT, all);
    var mine := WithKey(TeamOf, t, scoped);
    var group := WithKey(ObjectOf, k, mine);
    forall e
      ensures e in mine <==> e in all && e.scope == Scope.Environment && e.meta.team == t
      ensures e in group <==> e in all && e.scope == Scope.Environment && e.meta.team == t && e.object_ == k
    {
      WithKeyMembers(ScopeOf, ENVIRONMENT, all, e);
      WithKeyMembers(TeamOf, t, scoped, e);
      WithKeyMembers(ObjectOf, k, mine, e);
    }
    assert mine != [] ==> mine[0] in mine;
    assert group != [] ==> group[0] in group;
  }

  /** Exactly the teams with an event are in a response, each with the fields of its newest event. */
  lemma TeamsOfResponse(all: seq<Event>, entries: int, r: Response, k: string)
    requires Reported(all, entries, r)
    ensures k in r.teams <==> exists e :: e in all && e.scope == Team && e.object_ == k
    ensures k in r.teams ==>
              && (exists d :: NewestTeamEvent(all, k, d) && TeamSays(d, r.teams[k]))
              && forall f :: f in r.teams[k].status.status <==>
                             exists e :: e in all && e.scope == Team && e.object_ == k && e.family == f
  {
    TeamGroup(all, k);
    hide WithKey, TeamReported, EnvironmentsReported;
    var group := WithKey(ObjectOf, k, WithKey(ScopeOf, Team, all));
    if k in r.teams {
      var d := TeamSaysNewest(group, entries, r.teams[k]);
      assert NewestTeamEvent(all, k, d);
    }
  }

  /** The same for environments, by team and object. */
  lemma EnvironmentsOfResponse(all: seq<Event>, entries: int, r: Response, t: string, k: string)
    requires Reported(all, entries, r)
    ensures t in r.environments <==> exists e :: e in all && e.scope == Scope.Environment && e.meta.team == t
    ensures t in r.environments ==>
              (k in r.environments[t] <==>
               exists e :: e in all && e.scope == Scope.Environment && e.meta.team == t && e.object_ == k)
    ensures t in r.environments && k in r.environments[t] ==>
              && (exists d :: NewestEnvironmentEvent(all, t, k, d) && EnvironmentSays(d, r.environments[t][k]))
              && forall f :: f in r.environments[t][k].status.status <==>
                   exists e :: e in all && e.scope == Scope.Environment && e.meta.team == t && e.object_ == k && e.family == f
  {
    EnvironmentGroup(all, t, k);
    hide WithKey, TeamsReported, EnvironmentReported;
    var mine := WithKey(TeamOf, t, WithKey(ScopeOf, ENVIRONMENT, all));
    var group := WithKey(ObjectOf, k, mine);
    if t in r.environments {
      assert ObjectsReported(mine, entries, r.environments[t]);
      if k in r.environments[t] {
        var d := EnvironmentSaysNewest(group, entries, r.environments[t][k]);
        assert NewestEnvironmentEvent(all, t, k, d);
      }
    }
  }

  /******* One new event *******/

  datatype Posted = Notified(status: EnvironmentStatus) | Refused | Panicked

  /** The status of one event can be built. */
  predicate Announceable(p: RecordPayload) {
    && p.meta.company != "" && p.meta.team != "" && p.meta.environment != ""
    && (IsErrorEvent(p.etype) ==> p.messages.Some?)
  }

  lemma SingleFamily(e: Event, f: Family)
    ensures WithKey(FamilyOf, f, [e]) == if e.family == f then [e] else []
  {
    assert [e][..0] == [];
  }

  lemma SingleUnreadableIff(e: Event)
    ensures SomeFamilyUnreadable([e]) <==> !Readable(e)
  {
    forall f ensures FamilyStatus([e], f, Error) <==> e.family == f && !Readable(e) {
      SingleFamily(e, f);
      if e.family == f && !Readable(e) {
        assert IsNewest(e, WithKey(FamilyOf, f, [e])) && StatusFrom(e, f) == Error;
      }
    }
    assert FamilyStatus([e], e.family, Error) <==> !Readable(e);
  }

  lemma SingleReported(e: Event, s: EnvironmentStatus)
    requires EnvironmentStatusOf([e], 1, s)
    ensures Readable(e) && s.status.events == [e] && s.status.status.Keys == {e.family}
    ensures StatusFrom(e, e.family) == Ok(s.status.status[e.family])
  {
    forall f ensures f in s.status.status <==> f == e.family {
      SingleFamily(e, f);
    }
    SingleFamily(e, e.family);
  }

  /** The announced status is about the payload's environment, and shows this one event. */
  ghost predicate Announces(p: RecordPayload, id: string, now: int, s: EnvironmentStatus) {
    && (s.object_, s.company, s.team, s.environment) == (p.object_, p.meta.company, p.meta.team, p.meta.environment)
    && (s.status.object_, s.status.meta) == (p.object_, p.meta)
    && |s.status.events| == 1 && s.status.events[0].id == id && s.status.events[0].at == now
    && |s.status.status| == 1
    && forall f | f in s.status.status ::
         && s.status.status[f].family == f && s.status.status[f].timestamp == now
         && (f == Reconcile <==>
             p.etype in {EnvironmentReconcileSuccess, EnvironmentReconcileError, TeamReconcileSuccess, TeamReconcileError})
         && (s.status.status[f].state == StateError <==>
             p.etype in {EnvironmentSpecValidationError, EnvironmentSchemaValidationError, EnvironmentReconcileError,
                         TeamSpecValidationError, TeamSchemaValidationError, TeamReconcileError})
         && s.status.status[f].errors == (if s.status.status[f].state == StateError && p.messages.Some? then p.messages.value else [])
  }

  lemma SingleAnnounced(p: RecordPayload, id: string, now: int, s: EnvironmentStatus)
    requires EnvironmentStatusOf([NewEvent(p, id, now)], 1, s)
    ensures Announces(p, id, now, s)
  {
    SingleReported(NewEvent(p, id, now), s);
    hide FamilyStatuses;
  }

  /**
   postEventsHandler after decoding: the error branch reads fields of the nil status it was given,
   so an event that is recorded but cannot be announced ends in a panic. Team and company events
   without an environment in their meta are such events.
   */
  method PostEvent(p: RecordPayload, id: string, now: int) returns (r: Posted)
    ensures r.Refused? <==> !ValidPayload(p)
    ensures r.Panicked? <==> ValidPayload(p) && !Announceable(p)
    ensures r.Notified? ==> EnvironmentStatusOf([NewEvent(p, id, now)], 1, r.status)
    ensures r.Notified? ==> Announces(p, id, now, r.status)
    ensures ValidPayload(p) ==> Recorded(NewEvent(p, id, now))
  {
    hide EnvironmentStatusOf, SomeFamilyUnreadable;
    if !ValidPayload(p) {
      return Refused;
    }
    var event := NewEvent(p, id, now);
    SingleUnreadableIff(event);
    var status := NewEnvironmentStatus([event], 1);
    if status.Ok? {
      SingleReported(event, status.value);
      SingleMeta(event, status.value);
      SingleAnnounced(p, id, now, status.value);
      return Notified(status.value);
    }
    return Panicked;
  }

  lemma SingleMeta(e: Event, s: EnvironmentStatus)
    requires EnvironmentStatusOf([e], 1, s)
    ensures ValidScope(ENVIRONMENT, e.meta)
  {
  }

  /**
   The status announced for a new event is what a full recomputation says about its environment
   and family, provided the event is strictly newest there.
   */
  lemma AnnouncedAgrees(group: seq<Event>, entries: int, full: EnvironmentStatus, e: Event, announced: EnvironmentStatus)
    requires EnvironmentReported(group, entries, full) && entries >= 1
    requires StrictlyNewest(e, group) && EnvironmentStatusOf([e], 1, announced)
    ensures (full.object_, full.company, full.team, full.environment) ==
            (announced.object_, announced.company, announced.team, announced.environment)
    ensures full.status.object_ == announced.status.object_ && full.status.meta == announced.status.meta
    ensures announced.status.events == [e] && full.status.events != [] && full.status.events[0] == e
    ensures announced.status.status.Keys == {e.family} && e.family in full.status.status
    ensures full.status.status[e.family] == announced.status.status[e.family]
  {
    var sorted :| SortOf(group, sorted) && sorted != [] && EnvironmentStatusOf(sorted, entries, full);
    SortedHeadIsNewest(group, sorted);
    assert sorted[0] == e;
    SingleReported(e, announced);
    FamilyPresent(group, sorted, e);
    WithKeyMembers(FamilyOf, e.family, group, e);
    forall x | x in WithKey(FamilyOf, e.family, group) ensures x in group {
      WithKeyMembers(FamilyOf, e.family, group, x);
    }
    NewestDecides(group, sorted, e.family, e, Ok(full.status.status[e.family]));
  }
}
