/** Events and their validation (event-service/internal/event). */
module Events {
  import opened Types

  datatype EventType =
    | EnvironmentSpecValidationSuccess | EnvironmentSpecValidationError
    | EnvironmentSchemaValidationSuccess | EnvironmentSchemaValidationError
    | EnvironmentReconcileSuccess | EnvironmentReconcileError
    | TeamSpecValidationSuccess | TeamSpecValidationError
    | TeamSchemaValidationSuccess | TeamSchemaValidationError
    | TeamReconcileSuccess | TeamReconcileError
    | Unsupported(name: string)

  datatype Family = Validation | Reconcile

  datatype Scope = Company | Team | Environment | OtherScope(name: string)

  datatype Meta = Meta(company: string, team: string, environment: string)

  /** `messages` is the payload read as a list of strings, None where it cannot be read so. */
  datatype Event = Event(id: string, scope: Scope, object_: string, meta: Meta, at: int,
                         etype: EventType, family: Family, messages: Option<seq<string>>)

  datatype RecordPayload = RecordPayload(scope: Scope, object_: string, meta: Meta, etype: EventType,
                                         messages: Option<seq<string>>)

  predicate IsErrorEvent(t: EventType) {
    || t == EnvironmentSpecValidationError || t == EnvironmentSchemaValidationError || t == EnvironmentReconcileError
    || t == TeamSpecValidationError || t == TeamSchemaValidationError || t == TeamReconcileError
  }

  predicate IsReconcileEvent(t: EventType) {
    || t == EnvironmentReconcileSuccess || t == EnvironmentReconcileError
    || t == TeamReconcileSuccess || t == TeamReconcileError
  }

  /** validateScope: what each scope demands of the meta fields. */
  predicate ValidScope(scope: Scope, meta: Meta) {
    match scope
    case Company => meta.company != ""
    case Team => meta.company != "" && meta.team != ""
    case Environment => meta.company != "" && meta.team != "" && meta.environment != ""
    case OtherScope(_) => false
  }

  /** validateRecordPayload; the one caller always passes a meta value. */
  predicate ValidPayload(p: RecordPayload) {
    !p.etype.Unsupported? && p.object_ != "" && ValidScope(p.scope, p.meta)
  }

  /** NewEvent, with the id and the clock as parameters. */
  function NewEvent(p: RecordPayload, id: string, now: int): Event {
    Event(id, p.scope, p.object_, p.meta, now, p.etype,
          if IsReconcileEvent(p.etype) then Reconcile else Validation, p.messages)
  }

  /** An event as Record stores it. */
  predicate Recorded(e: Event) {
    && !e.etype.Unsupported? && e.object_ != "" && ValidScope(e.scope, e.meta)
    && e.family == (if IsReconcileEvent(e.etype) then Reconcile else Validation)
  }

  /** The status builder can read the messages of an event it takes for an error. */
  predicate Readable(e: Event) {
    IsErrorEvent(e.etype) ==> e.messages.Some?
  }

  /** A payload is accepted exactly with a known type, an object, and the meta fields of its scope. */
  lemma ValidPayloadIff(p: RecordPayload)
    ensures ValidPayload(p) <==>
            && (forall name :: p.etype != Unsupported(name)) && p.object_ != "" && p.meta.company != ""
            && (p.scope == Company
                || (p.scope == Team && p.meta.team != "")
                || (p.scope == Scope.Environment && p.meta.team != "" && p.meta.environment != ""))
  {
    if p.etype.Unsupported? {
      assert p.etype == Unsupported(p.etype.name);
    }
  }

  /** What is not refused is recorded: the payload with its id, the clock reading, and the family of its type. */
  lemma AcceptedIsRecorded(p: RecordPayload, id: string, now: int)
    ensures var e := NewEvent(p, id, now);
            && (ValidPayload(p) ==> Recorded(e))
            && (e.id, e.at) == (id, now) && (e.scope, e.object_, e.meta) == (p.scope, p.object_, p.meta)
            && (e.etype, e.messages) == (p.etype, p.messages)
            && (e.family == Reconcile <==>
                p.etype in {EnvironmentReconcileSuccess, EnvironmentReconcileError, TeamReconcileSuccess, TeamReconcileError})
  {
  }

  /** A recorded event has what its payload needed, and the family of its type. */
  lemma RecordedIff(e: Event)
    ensures Recorded(e) <==>
            && (exists p, now :: ValidPayload(p) && e == NewEvent(p, e.id, now))
  {
    if Recorded(e) {
      var p := RecordPayload(e.scope, e.object_, e.meta, e.etype, e.messages);
      assert ValidPayload(p) && e == NewEvent(p, e.id, e.at);
    }
  }
}
