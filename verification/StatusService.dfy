/** The status calculation of a company (event-service/internal/status/service.go) and what decides its outcome. */
module StatusService {
  import opened Events
  import opened EventStatus
  import opened StatusCalculation
  import opened StatusAgreement

  ghost predicate AnyScoped(all: seq<Event>) {
    exists e :: e in all && (e.scope == Team || e.scope == ENVIRONMENT)
  }

  /** With an event to report a response shows at least zero events. */
  lemma ReportedLimit(all: seq<Event>, entries: int, r: Response)
    requires Reported(all, entries, r) && AnyScoped(all)
    ensures entries >= 0
  {
    hide Reported, WithKey, ObjectReported;
    var e :| e in all && (e.scope == Team || e.scope == ENVIRONMENT);
    var s := OwnGroupReported(all, entries, r, e);
    var rest := ShownAreNewest(GroupOf(all, e), entries, s);
  }

  /**
   An error names a blocking event. Without one a negative limit panics exactly when there is
   something to report; and for recorded events without ties a status is returned exactly then.
   */
  method Calculate(all: seq<Event>, entries: int) returns (r: Outcome<Response>)
    ensures r.Ok? ==> Reported(all, entries, r.value)
    ensures r.Error? ==> AnyBlocks(all)
    ensures !AnyBlocks(all) ==> (r.Panics? <==> entries < 0 && AnyScoped(all))
    ensures r.Panics? ==> entries < 0 && AnyScoped(all)
    ensures Untied(all) && (forall e | e in all :: Recorded(e)) && entries >= 0 ==> (r.Ok? <==> !AnyBlocks(all))
  {
    hide SortedGroups, NestedSorted, TeamsReported, EnvironmentsReported, Untied, AnyBlocks;
    ghost var teamEvents, environmentEvents := WithKey(ScopeOf, Team, all), WithKey(ScopeOf, ENVIRONMENT, all);
    forall e ensures e in teamEvents <==> e in all && e.scope == Team {
      WithKeyMembers(ScopeOf, Team, all, e);
    }
    forall e ensures e in environmentEvents <==> e in all && e.scope == ENVIRONMENT {
      WithKeyMembers(ScopeOf, ENVIRONMENT, all, e);
    }
    var teamGroups := GroupTeamEvents(all);
    var environmentGroups := GroupEnvironmentEvents(all);
    if environmentGroups.Error? {
      ghost var e :| e in environmentEvents && e.meta.team == "";
      WithKeyMembers(TeamOf, e.meta.team, environmentEvents, e);
      BlocksAll(all, e);
      return Error;
    }
    var teams := BuildTeamStatusMap(teamGroups, entries, teamEvents);
    if teams.Error? {
      ghost var e :| Blocks(teamEvents, e);
      BlocksAll(all, e);
      return Error;
    }
    if teams.Panics? {
      assert teamEvents[0] in teamEvents;
      return Panics;
    }
    var environments := BuildEnvironmentStatusMap(environmentGroups.value, entries, environmentEvents);
    if environments.Error? {
      ghost var e: Event :| Blocks(WithKey(TeamOf, e.meta.team, environmentEvents), e);
      WithKeyMembers(TeamOf, e.meta.team, environmentEvents, e);
      BlocksAll(all, e);
      return Error;
    }
    if environments.Panics? {
      assert environmentEvents[0] in environmentEvents;
      return Panics;
    }
    var response := Response(teams.value, environments.value);
    if Untied(all) && forall e | e in all :: Recorded(e) {
      ReportedUnblocked(all, entries, response);
    }
    if AnyScoped(all) {
      ReportedLimit(all, entries, response);
    }
    return Ok(response);
  }

  lemma BlocksAll(all: seq<Event>, e: Event)
    requires (e.scope == Team || e.scope == ENVIRONMENT) && Blocks(Peers(all, e), e)
    ensures AnyBlocks(all)
  {
  }

  /** Events that are grouped together: one team object, or one environment object of one team. */
  predicate SameGroup(e: Event, x: Event) {
    x.scope == e.scope && x.object_ == e.object_ && (e.scope == Scope.Environment ==> x.meta.team == e.meta.team)
  }

  /** A newest event of its group and family is an error whose messages cannot be read. */
  ghost predicate UnreadableNewest(all: seq<Event>, e: Event) {
    && e in all && (e.scope == Team || e.scope == Scope.Environment) && e.messages.None?
    && e.etype in {EnvironmentSpecValidationError, EnvironmentSchemaValidationError, EnvironmentReconcileError,
                   TeamSpecValidationError, TeamSchemaValidationError, TeamReconcileError}
    && forall x | x in all && SameGroup(e, x) && x.family == e.family :: x.at <= e.at
  }

  lemma PeersAre(all: seq<Event>, e: Event)
    requires e.scope == Team || e.scope == Scope.Environment
    ensures forall x :: x in Peers(all, e) <==>
                        x in all && x.scope == e.scope && (e.scope == Scope.Environment ==> x.meta.team == e.meta.team)
    ensures forall x :: x in WithKey(FamilyOf, e.family, WithKey(ObjectOf, e.object_, Peers(all, e))) <==>
                        x in all && SameGroup(e, x) && x.family == e.family
  {
    hide WithKey;
    var scoped := WithKey(ScopeOf, e.scope, all);
    var group := WithKey(ObjectOf, e.object_, Peers(all, e));
    forall x
      ensures x in Peers(all, e) <==>
              x in all && x.scope == e.scope && (e.scope == Scope.Environment ==> x.meta.team == e.meta.team)
    {
      WithKeyMembers(ScopeOf, e.scope, all, x);
      WithKeyMembers(TeamOf, e.meta.team, scoped, x);
    }
    forall x ensures x in WithKey(FamilyOf, e.family, group) <==> x in all && SameGroup(e, x) && x.family == e.family {
      WithKeyMembers(ObjectOf, e.object_, Peers(all, e), x);
      WithKeyMembers(FamilyOf, e.family, group, x);
    }
  }

  /** Of recorded events exactly those stand in the way of a response. */
  lemma BlockedIff(all: seq<Event>)
    requires forall e | e in all :: Recorded(e)
    ensures AnyBlocks(all) <==> exists e :: UnreadableNewest(all, e)
  {
    hide WithKey, Peers;
    forall e: Event | e.scope == Team || e.scope == Scope.Environment
      ensures Blocks(Peers(all, e), e) <==> UnreadableNewest(all, e)
    {
      PeersAre(all, e);
    }
    if e: Event :| (e.scope == Team || e.scope == ENVIRONMENT) && Blocks(Peers(all, e), e) {
      assert UnreadableNewest(all, e);
    }
    if e :| UnreadableNewest(all, e) {
      assert Blocks(Peers(all, e), e);
    }
  }
}
