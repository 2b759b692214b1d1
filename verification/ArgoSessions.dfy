/**
 The ArgoCD session cache of the BFF (bff/src/auth/argo.ts). JavaScript runs one caller at a
 time between two await points, so a step here is the code from one await to the next.
 */
module ArgoSessions {
  import opened Types

  /** Three hours in milliseconds. */
  const TTL: nat := 10800000

  /** A failed login is stored with a null token. */
  datatype Session = Session(token: Option<string>, ttl: nat)

  datatype Phase = Waiting | FetchingPassword | LoggingIn | Resuming | Done(token: Option<string>)

  /** What the request to the secret store comes to; the response may lack the value. */
  datatype Reply = Answered(value: Option<string>) | Failed

  /** getSystemSSMSecret catches every failure and resolves to null (bff/src/utils/helper.ts). */
  function GetSystemSSMSecret(reply: Reply): Option<string> {
    if reply.Failed? then None else reply.value
  }

  /** No password could be had; the empty one counts as none. */
  predicate NoPassword(reply: Reply) {
    GetSystemSSMSecret(reply) == None || GetSystemSSMSecret(reply) == Some("")
  }

  /** The two module-level variables. */
  datatype Shared = Shared(lock: bool, sessions: map<string, Session>)

  predicate Expired(sessions: map<string, Session>, org: string, now: nat) {
    org !in sessions || sessions[org].ttl == 0 || now > sessions[org].ttl
  }

  /******* The four pieces of getArgoToken between its awaits *******/

  /** With the lock free and the session valid, the lock is taken and dropped within the step. */
  function Attempt(m: Shared, org: string, now: nat): (Shared, Phase) {
    if m.lock then (m, Waiting)
    else if Expired(m.sessions, org, now) then (m.(lock := true), FetchingPassword)
    else (m, Done(m.sessions[org].token))
  }

  function Password(m: Shared, reply: Reply): (Shared, Phase) {
    (m, if NoPassword(reply) then Resuming else LoggingIn)
  }

  function Login(m: Shared, org: string, token: Option<string>, now: nat): (Shared, Phase) {
    (m.(sessions := m.sessions[org := Session(token, now + TTL)]), Resuming)
  }

  /** Reading the token of a missing session throws, which is caught: null is returned. */
  function Resume(m: Shared, org: string): (Shared, Phase) {
    (m.(lock := false), Done(if org in m.sessions then m.sessions[org].token else None))
  }

  class ArgoAuth {
    var sessions: map<string, Session>
    var lock: bool

    constructor ()
      ensures State() == Shared(false, map[])
    {
      sessions := map[];
      lock := false;
    }

    function State(): Shared
      reads this
    {
      Shared(lock, sessions)
    }

    method IsExpired(org: string, now: nat) returns (expired: bool)
      ensures expired == Expired(sessions, org, now)
    {
      expired := org !in sessions || sessions[org].ttl == 0;
      if !expired {
        expired := now > sessions[org].ttl;
      }
    }

    method TryEnter(org: string, now: nat) returns (phase: Phase)
      modifies this
      ensures (State(), phase) == Attempt(old(State()), org, now)
    {
      if lock {
        return Waiting;
      }
      lock := true;
      var expired := IsExpired(org, now);
      if expired {
        return FetchingPassword;
      }
      phase := Done(sessions[org].token);
      lock := false;
    }

    method PasswordArrived(reply: Reply) returns (phase: Phase)
      ensures (State(), phase) == Password(State(), reply)
    {
      var argoCdPassword := GetSystemSSMSecret(reply);
      if argoCdPassword.None? || argoCdPassword.value == "" {
        return Resuming;
      }
      phase := LoggingIn;
    }

    method LoggedIn(org: string, token: Option<string>, now: nat) returns (phase: Phase)
      modifies this
      ensures (State(), phase) == Login(old(State()), org, token, now)
    {
      sessions := sessions[org := Session(token, now + TTL)];
      phase := Resuming;
    }

    method Leave(org: string) returns (phase: Phase)
      modifies this
      ensures (State(), phase) == Resume(old(State()), org)
    {
      phase := Done(if org in sessions then sessions[org].token else None);
      lock := false;
    }
  }

  /******* Any number of callers, interleaved *******/

  datatype Caller = Caller(org: string, phase: Phase)

  datatype Stored = Stored(org: string, token: Option<string>, at: nat)

  /** `stored` is history: every session written, with the time its expiry was computed from. */
  datatype World = World(memory: Shared, callers: seq<Caller>, clock: nat, stored: seq<Stored>)

  datatype Step =
    | Arrives(org: string)
    | Tries(i: nat, now: nat)
    | GetsPassword(i: nat, reply: Reply)
    | GetsToken(i: nat, token: Option<string>, now: nat)
    | Leaves(i: nat)

  const START := World(Shared(false, map[]), [], 0, [])

  /** The clock never runs backwards. */
  predicate Enabled(w: World, step: Step) {
    match step
    case Arrives(_) => true
    case Tries(i, now) => i < |w.callers| && w.callers[i].phase == Waiting && now >= w.clock
    case GetsPassword(i, _) => i < |w.callers| && w.callers[i].phase == FetchingPassword
    case GetsToken(i, _, now) => i < |w.callers| && w.callers[i].phase == LoggingIn && now >= w.clock
    case Leaves(i) => i < |w.callers| && w.callers[i].phase == Resuming
  }

  function Move(w: World, i: nat, change: (Shared, Phase)): World
    requires i < |w.callers|
  {
    w.(memory := change.0, callers := w.callers[i := w.callers[i].(phase := change.1)])
  }

  function Apply(w: World, step: Step): World
    requires Enabled(w, step)
  {
    match step
    case Arrives(org) => w.(callers := w.callers + [Caller(org, Waiting)])
    case Tries(i, now) => Move(w, i, Attempt(w.memory, w.callers[i].org, now)).(clock := now)
    case GetsPassword(i, reply) => Move(w, i, Password(w.memory, reply))
    case GetsToken(i, token, now) =>
      Move(w, i, Login(w.memory, w.callers[i].org, token, now))
        .(clock := now, stored := w.stored + [Stored(w.callers[i].org, token, now)])
    case Leaves(i) => Move(w, i, Resume(w.memory, w.callers[i].org))
  }

  predicate IsRun(w: World, steps: seq<Step>)
    decreases |steps|, 0
  {
    steps == [] || (IsRun(w, steps[..|steps| - 1]) && Enabled(After(w, steps[..|steps| - 1]), steps[|steps| - 1]))
  }

  function After(w: World, steps: seq<Step>): World
    requires IsRun(w, steps)
    decreases |steps|, 1
  {
    if steps == [] then w else Apply(After(w, steps[..|steps| - 1]), steps[|steps| - 1])
  }

  /** Step by step: what happens to the memory and to the caller that moves; nobody else is touched. */
  lemma StepCases(w: World, step: Step)
    requires Enabled(w, step)
    ensures var v := Apply(w, step);
            && (forall j | 0 <= j < |w.callers| :: v.callers[j].org == w.callers[j].org)
            && (forall j | 0 <= j < |w.callers| && (step.Arrives? || step.i != j) :: v.callers[j] == w.callers[j])
            && match step
               case Arrives(org) => v.memory == w.memory && v.callers == w.callers + [Caller(org, Waiting)]
               case Tries(i, now) =>
                 var org, sessions := w.callers[i].org, w.memory.sessions;
                 if w.memory.lock then v.memory == w.memory && v.callers[i].phase == Waiting
                 else if org in sessions && 0 < sessions[org].ttl && now <= sessions[org].ttl
                 then v.memory == w.memory && v.callers[i].phase == Done(sessions[org].token)
                 else v.memory == Shared(true, sessions) && v.callers[i].phase == FetchingPassword
               case GetsPassword(i, reply) =>
                 && v.memory == w.memory
                 && v.callers[i].phase ==
                    (if reply == Failed || reply == Answered(None) || reply == Answered(Some("")) then Resuming else LoggingIn)
               case GetsToken(i, token, now) =>
                 && v.memory.lock == w.memory.lock && v.callers[i].phase == Resuming
                 && v.memory.sessions == w.memory.sessions[w.callers[i].org := Session(token, now + 10800000)]
               case Leaves(i) =>
                 var org, sessions := w.callers[i].org, w.memory.sessions;
                 && v.memory == Shared(false, sessions)
                 && v.callers[i].phase == Done(if org in sessions then sessions[org].token else None)
  {
  }

  /** A caller can move at every time: a waiting one may always try again, and one inside has its next step. */
  lemma CanAlwaysMove(w: World, i: nat)
    requires i < |w.callers| && !w.callers[i].phase.Done?
    ensures forall now | w.callers[i].phase == Waiting && now >= w.clock :: Enabled(w, Tries(i, now))
    ensures forall reply | w.callers[i].phase == FetchingPassword :: Enabled(w, GetsPassword(i, reply))
    ensures forall token, now | w.callers[i].phase == LoggingIn && now >= w.clock :: Enabled(w, GetsToken(i, token, now))
    ensures w.callers[i].phase == Resuming ==> Enabled(w, Leaves(i))
  {
  }

  /******* What every step keeps *******/

  predicate Inside(c: Caller) {
    c.phase.FetchingPassword? || c.phase.LoggingIn? || c.phase.Resuming?
  }

  ghost predicate OneHolder(w: World) {
    && (forall i, j | 0 <= i < j < |w.callers| :: !(Inside(w.callers[i]) && Inside(w.callers[j])))
    && (w.memory.lock <==> exists i | 0 <= i < |w.callers| :: Inside(w.callers[i]))
  }

  ghost predicate Spaced(stored: seq<Stored>) {
    forall i, j | 0 <= i < j < |stored| && stored[i].org == stored[j].org :: stored[j].at > stored[i].at + TTL
  }

  ghost predicate SessionsCurrent(w: World) {
    forall k | 0 <= k < |w.stored| ::
      && w.stored[k].org in w.memory.sessions
      && w.stored[k].at + TTL <= w.memory.sessions[w.stored[k].org].ttl
  }

  /** Every session was stored, by now, with an expiry three hours later. */
  ghost predicate SessionsStored(w: World) {
    && (forall k | 0 <= k < |w.stored| :: w.stored[k].at <= w.clock)
    && (forall org | org in w.memory.sessions ::
          exists k :: 0 <= k < |w.stored| && StoredAs(w.stored[k], org, w.memory.sessions[org]))
  }

  predicate StoredAs(s: Stored, org: string, session: Session) {
    s.org == org && session == Session(s.token, s.at + TTL)
  }

  ghost predicate RenewersExpired(w: World) {
    forall i | 0 <= i < |w.callers| && (w.callers[i].phase.FetchingPassword? || w.callers[i].phase.LoggingIn?) ::
      Expired(w.memory.sessions, w.callers[i].org, w.clock)
  }

  ghost predicate Invariant(w: World) {
    OneHolder(w) && Spaced(w.stored) && SessionsCurrent(w) && SessionsStored(w) && RenewersExpired(w)
  }

  lemma HolderKept(w: World, step: Step)
    requires OneHolder(w) && Enabled(w, step)
    ensures OneHolder(Apply(w, step))
  {
    var v := Apply(w, step);
    assert |v.callers| >= |w.callers|;
    if step.Arrives? {
      assert forall i | 0 <= i < |w.callers| :: v.callers[i] == w.callers[i];
    } else {
      var i := step.i;
      assert forall j | 0 <= j < |w.callers| && j != i :: v.callers[j] == w.callers[j];
      assert Inside(v.callers[i]) ==> v.memory.lock;
    }
  }

  lemma StoredKept(w: World, step: Step)
    requires SessionsStored(w) && Enabled(w, step)
    ensures SessionsStored(Apply(w, step))
  {
    var v := Apply(w, step);
    assert forall k | 0 <= k < |w.stored| :: v.stored[k] == w.stored[k];
    forall org | org in v.memory.sessions
      ensures exists k :: 0 <= k < |v.stored| && StoredAs(v.stored[k], org, v.memory.sessions[org])
    {
      if step.GetsToken? && org == w.callers[step.i].org {
        assert StoredAs(v.stored[|w.stored|], org, v.memory.sessions[org]);
      } else {
        var k :| 0 <= k < |w.stored| && StoredAs(w.stored[k], org, w.memory.sessions[org]);
        assert StoredAs(v.stored[k], org, v.memory.sessions[org]);
      }
    }
  }

  lemma RenewersKept(w: World, step: Step)
    requires OneHolder(w) && RenewersExpired(w) && Enabled(w, step)
    ensures RenewersExpired(Apply(w, step))
  {
  }

  lemma SpacedKept(w: World, step: Step)
    requires Spaced(w.stored) && SessionsCurrent(w) && RenewersExpired(w) && Enabled(w, step)
    ensures Spaced(Apply(w, step).stored) && SessionsCurrent(Apply(w, step))
  {
    if step.GetsToken? {
      var org := w.callers[step.i].org;
      assert Expired(w.memory.sessions, org, w.clock);
      forall k | 0 <= k < |w.stored| && w.stored[k].org == org ensures step.now > w.stored[k].at + TTL {
        assert org in w.memory.sessions;
      }
    }
  }

  lemma StepKeeps(w: World, step: Step)
    requires Invariant(w) && Enabled(w, step)
    ensures Invariant(Apply(w, step))
  {
    HolderKept(w, step);
    StoredKept(w, step);
    RenewersKept(w, step);
    SpacedKept(w, step);
    hide SessionsStored, OneHolder, Spaced, SessionsCurrent, RenewersExpired, Apply;
  }

  lemma {:induction false} RunKeeps(w: World, steps: seq<Step>)
    requires Invariant(w) && IsRun(w, steps)
    ensures Invariant(After(w, steps))
  {
    if steps != [] {
      RunKeeps(w, steps[..|steps| - 1]);
      StepKeeps(After(w, steps[..|steps| - 1]), steps[|steps| - 1]);
    }
  }

  /** Mutual exclusion: at most one caller is between taking and releasing, and the flag says whether one is. */
  lemma LockIsHeldByOne(steps: seq<Step>)
    requires IsRun(START, steps)
    ensures var w := After(START, steps);
            && (forall i, j | 0 <= i < j < |w.callers| :: !(Inside(w.callers[i]) && Inside(w.callers[j])))
            && (w.memory.lock <==> exists i | 0 <= i < |w.callers| :: Inside(w.callers[i]))
  {
    RunKeeps(START, steps);
  }

  /** Two sessions stored for one organisation are more than three hours apart, in every interleaving. */
  lemma LoginsAreSpaced(steps: seq<Step>, i: nat, j: nat)
    requires IsRun(START, steps) && i < j < |After(START, steps).stored|
    requires After(START, steps).stored[i].org == After(START, steps).stored[j].org
    ensures After(START, steps).stored[j].at > After(START, steps).stored[i].at + 10800000
  {
    RunKeeps(START, steps);
  }

  /******* The lock is not kept for ever, and what a caller is given *******/

  predicate StepOf(step: Step, i: nat) {
    !step.Arrives? && step.i == i
  }

  /** How many of its own steps a caller inside still needs. */
  function Remaining(c: Caller): nat {
    match c.phase
    case FetchingPassword => 3
    case LoggingIn => 2
    case Resuming => 1
    case _ => 0
  }

  /**
   While caller i is inside, it always has a step to take; each of its steps brings it closer to
   the release, and no step of anyone else touches it, the lock, or the sessions.
   */
  lemma HolderIsUndisturbed(steps: seq<Step>, i: nat, step: Step)
    requires IsRun(START, steps) && i < |After(START, steps).callers| && Inside(After(START, steps).callers[i])
    requires Enabled(After(START, steps), step)
    ensures var w := After(START, steps); var v := Apply(w, step);
            && i < |v.callers|
            && (StepOf(step, i) ==>
                  && Remaining(v.callers[i]) < Remaining(w.callers[i])
                  && (Inside(v.callers[i]) <==> v.memory.lock))
            && (!StepOf(step, i) ==> v.callers[i] == w.callers[i] && v.memory == w.memory)
    ensures exists own :: StepOf(own, i) && Enabled(After(START, steps), own)
  {
    RunKeeps(START, steps);
    var w := After(START, steps);
    hide After, IsRun, SessionsStored, SessionsCurrent, Spaced, RenewersExpired;
    HolderHasStep(w, i);
    if StepOf(step, i) {
      OwnStep(w, i, step);
    } else {
      OthersStep(w, i, step);
    }
  }

  lemma HolderHasStep(w: World, i: nat)
    requires i < |w.callers| && Inside(w.callers[i])
    ensures exists own :: StepOf(own, i) && Enabled(w, own)
  {
    var own := match w.callers[i].phase
      case FetchingPassword => GetsPassword(i, Failed)
      case LoggingIn => GetsToken(i, None, w.clock)
      case _ => Leaves(i);
    assert StepOf(own, i) && Enabled(w, own);
  }

  lemma OwnStep(w: World, i: nat, step: Step)
    requires OneHolder(w) && i < |w.callers| && Inside(w.callers[i]) && Enabled(w, step) && StepOf(step, i)
    ensures var v := Apply(w, step);
            && i < |v.callers| && Remaining(v.callers[i]) < Remaining(w.callers[i])
            && (Inside(v.callers[i]) <==> v.memory.lock)
  {
  }

  /** What the secret store answered to caller i. */
  function OwnReply(steps: seq<Step>, i: nat): Option<Reply> {
    if steps == [] then None
    else
      var last := steps[|steps| - 1];
      if last.GetsPassword? && last.i == i then Some(last.reply) else OwnReply(steps[..|steps| - 1], i)
  }

  /** What ArgoCD answered to caller i. */
  function OwnToken(steps: seq<Step>, i: nat): Option<Option<string>> {
    if steps == [] then None
    else
      var last := steps[|steps| - 1];
      if last.GetsToken? && last.i == i then Some(last.token) else OwnToken(steps[..|steps| - 1], i)
  }

  function Held(sessions: map<string, Session>, org: string): Option<Session> {
    if org in sessions then Some(sessions[org]) else None
  }

  /** What a caller that found the session `old` expired, or none, is handed. */
  function Handed(old_: Option<Session>, reply: Reply, token: Option<Option<string>>): Option<string> {
    if NoPassword(reply) then (if old_.Some? then old_.value.token else None)
    else if token.Some? then token.value
    else None
  }

  /** Where caller i stands in world `v` after the steps since it found `old` expired or missing. */
  ghost predicate Renewing(org: string, old_: Option<Session>, v: World, steps: seq<Step>, i: nat) {
    && i < |v.callers| && v.callers[i].org == org
    && var reply, token := OwnReply(steps, i), OwnToken(steps, i);
       match v.callers[i].phase
       case Waiting => false
       case FetchingPassword => reply == None && token == None && Held(v.memory.sessions, org) == old_
       case LoggingIn =>
         && reply.Some? && !NoPassword(reply.value)
         && token == None && Held(v.memory.sessions, org) == old_
       case Resuming =>
         && reply.Some?
         && (if NoPassword(reply.value) then token == None && Held(v.memory.sessions, org) == old_
             else token.Some? && Held(v.memory.sessions, org) != old_
                  && org in v.memory.sessions && v.memory.sessions[org].token == token.value)
       case Done(x) =>
         && reply.Some? && x == Handed(old_, reply.value, token)
         && (!NoPassword(reply.value) ==> token.Some?)
  }

  lemma OwnSteps(steps: seq<Step>, step: Step, i: nat)
    ensures OwnReply(steps + [step], i) == if step.GetsPassword? && step.i == i then Some(step.reply) else OwnReply(steps, i)
    ensures OwnToken(steps + [step], i) == if step.GetsToken? && step.i == i then Some(step.token) else OwnToken(steps, i)
  {
    assert (steps + [step])[..|steps|] == steps;
  }

  lemma OthersStep(v: World, i: nat, step: Step)
    requires OneHolder(v) && i < |v.callers| && Enabled(v, step) && !StepOf(step, i)
    ensures var u := Apply(v, step);
            i < |u.callers| && u.callers[i] == v.callers[i] && (Inside(v.callers[i]) ==> u.memory == v.memory)
  {
    if Inside(v.callers[i]) && !step.Arrives? {
      assert !Inside(v.callers[step.i]);
    }
  }

  lemma RenewingKept(org: string, old_: Option<Session>, v: World, steps: seq<Step>, i: nat, step: Step)
    requires Invariant(v) && Renewing(org, old_, v, steps, i) && Enabled(v, step)
    ensures Renewing(org, old_, Apply(v, step), steps + [step], i)
  {
    OwnSteps(steps, step, i);
    hide OwnReply, OwnToken;
    if StepOf(step, i) {
      hide OneHolder, SessionsStored, Spaced;
      assert Apply(v, step).callers[i].org == v.callers[i].org;
    } else {
      OthersStep(v, i, step);
      hide Apply, Enabled, Invariant;
    }
  }

  /** The caller at index i finds the lock free and its session expired or missing. */
  ghost predicate FindsExpired(w: World, i: nat, now: nat) {
    && i < |w.callers| && Enabled(w, Tries(i, now))
    && !w.memory.lock && Expired(w.memory.sessions, w.callers[i].org, now)
  }

  lemma RenewingStarts(w: World, i: nat, now: nat)
    requires FindsExpired(w, i, now)
    ensures Renewing(w.callers[i].org, Held(w.memory.sessions, w.callers[i].org), Apply(w, Tries(i, now)), [], i)
  {
  }

  lemma {:induction false} RenewingRun(w: World, i: nat, now: nat, steps: seq<Step>)
    requires Invariant(w) && FindsExpired(w, i, now) && IsRun(Apply(w, Tries(i, now)), steps)
    ensures var v := After(Apply(w, Tries(i, now)), steps);
            Invariant(v) && Renewing(w.callers[i].org, Held(w.memory.sessions, w.callers[i].org), v, steps, i)
  {
    var entered := Apply(w, Tries(i, now));
    StepKeeps(w, Tries(i, now));
    RenewingStarts(w, i, now);
    var org, old_ := w.callers[i].org, Held(w.memory.sessions, w.callers[i].org);
    hide Invariant, Renewing, Apply, Enabled, Held;
    if steps != [] {
      var init, last := steps[..|steps| - 1], steps[|steps| - 1];
      RenewingRun(w, i, now, init);
      RenewingKept(org, old_, After(entered, init), init, i, last);
      StepKeeps(After(entered, init), last);
      assert steps == init + [last];
    }
  }

  predicate Finished(v: World, i: nat) {
    i < |v.callers| && v.callers[i].phase.Done?
  }

  /**
   A caller that found its session expired, in every interleaving: with a password it is handed the
   token of its own login; when none could be had, be it that the store failed, the expired token.
   */
  lemma CallerIsHanded(before: seq<Step>, i: nat, now: nat, steps: seq<Step>)
    requires IsRun(START, before) && FindsExpired(After(START, before), i, now)
    requires IsRun(Apply(After(START, before), Tries(i, now)), steps)
    requires Finished(After(Apply(After(START, before), Tries(i, now)), steps), i)
    ensures var w := After(START, before); var v := After(Apply(w, Tries(i, now)), steps);
            && OwnReply(steps, i).Some?
            && v.callers[i].phase ==
               Done(Handed(Held(w.memory.sessions, w.callers[i].org), OwnReply(steps, i).value, OwnToken(steps, i)))
            && (!NoPassword(OwnReply(steps, i).value) ==> OwnToken(steps, i).Some?)
    ensures var w := After(START, before); var org := w.callers[i].org;
            var handed := After(Apply(w, Tries(i, now)), steps).callers[i].phase;
            exists reply :: GetsPassword(i, reply) in steps &&
              if reply == Failed || reply == Answered(None) || reply == Answered(Some(""))
              then handed == Done(if org in w.memory.sessions then w.memory.sessions[org].token else None)
              else exists token, at :: GetsToken(i, token, at) in steps && handed == Done(token)
  {
    RunKeeps(START, before);
    RenewingRun(After(START, before), i, now, steps);
    OwnAnswers(steps, i);
    hide After, IsRun, Apply, Invariant, FindsExpired, OwnReply, OwnToken;
    var w := After(START, before);
    HandedIs(Held(w.memory.sessions, w.callers[i].org), OwnReply(steps, i).value, OwnToken(steps, i));
  }

  lemma HandedIs(old_: Option<Session>, reply: Reply, token: Option<Option<string>>)
    requires !NoPassword(reply) ==> token.Some?
    ensures NoPassword(reply) <==> reply == Failed || reply == Answered(None) || reply == Answered(Some(""))
    ensures Handed(old_, reply, token) ==
            if NoPassword(reply) then (if old_.Some? then old_.value.token else None) else token.value
  {
  }

  /** The reply and the token that count are answers to this caller. */
  lemma {:induction false} OwnAnswers(steps: seq<Step>, i: nat)
    ensures OwnReply(steps, i).Some? ==> GetsPassword(i, OwnReply(steps, i).value) in steps
    ensures OwnToken(steps, i).Some? ==> exists at :: GetsToken(i, OwnToken(steps, i).value, at) in steps
  {
    if steps != [] {
      var init, last := steps[..|steps| - 1], steps[|steps| - 1];
      OwnAnswers(init, i);
      assert last in steps && forall s | s in init :: s in steps;
      if last.GetsToken? && last.i == i {
        assert GetsToken(i, last.token, last.now) in steps;
      }
    }
  }

  /** At its last step the caller reads the very session it found expired. */
  predicate HandsOutOld(org: string, old_: Option<Session>, v: World, last: Step) {
    last.Leaves? && old_.Some? && Held(v.memory.sessions, org) == old_
  }

  lemma LastStepHands(org: string, old_: Option<Session>, v: World, steps: seq<Step>, i: nat, last: Step)
    requires Renewing(org, old_, v, steps, i) && Enabled(v, last) && StepOf(last, i) && Finished(Apply(v, last), i)
    ensures HandsOutOld(org, old_, v, last) <==>
            OwnReply(steps + [last], i).Some? && NoPassword(OwnReply(steps + [last], i).value) && old_.Some?
  {
    OwnSteps(steps, last, i);
    hide OwnReply, OwnToken;
  }

  /**
   An expired session is handed out exactly when there is one and no password could be had, because
   the secret store has none or because it could not be asked: whatever the other callers do between this caller's first step and its last.
   */
  lemma ExpiredTokenServedIff(before: seq<Step>, i: nat, now: nat, steps: seq<Step>, last: Step)
    requires IsRun(START, before) && FindsExpired(After(START, before), i, now)
    requires IsRun(Apply(After(START, before), Tries(i, now)), steps + [last])
    requires StepOf(last, i) && Finished(After(Apply(After(START, before), Tries(i, now)), steps + [last]), i)
    ensures var w := After(START, before); var org := w.callers[i].org;
            && IsRun(Apply(w, Tries(i, now)), steps)
            && (HandsOutOld(org, Held(w.memory.sessions, org), After(Apply(w, Tries(i, now)), steps), last) <==>
                OwnReply(steps + [last], i).Some? && NoPassword(OwnReply(steps + [last], i).value)
                && org in w.memory.sessions)
  {
    var w := After(START, before);
    RunKeeps(START, before);
    assert (steps + [last])[..|steps|] == steps;
    var entered := Apply(w, Tries(i, now));
    assert After(entered, steps + [last]) == Apply(After(entered, steps), last);
    hide Invariant, Renewing, Apply, Enabled, HandsOutOld, OwnReply, OwnToken, FindsExpired;
    RenewingRun(w, i, now, steps);
    LastStepHands(w.callers[i].org, Held(w.memory.sessions, w.callers[i].org), After(entered, steps), steps, i, last);
  }

  lemma SpacedPair(stored: seq<Stored>, i: nat, j: nat)
    requires Spaced(stored) && i < |stored| && j < |stored| && i != j && stored[i].org == stored[j].org
    ensures stored[j].at > stored[i].at + TTL || stored[i].at > stored[j].at + TTL
  {
  }

  lemma StoringOf(w: World, org: string) returns (m: nat)
    requires SessionsStored(w) && org in w.memory.sessions
    ensures m < |w.stored| && StoredAs(w.stored[m], org, w.memory.sessions[org]) && w.stored[m].at <= w.clock
  {
    m :| 0 <= m < |w.stored| && StoredAs(w.stored[m], org, w.memory.sessions[org]);
  }

  lemma StoredIsHeld(w: World, k: nat)
    requires SessionsCurrent(w) && k < |w.stored|
    ensures w.stored[k].org in w.memory.sessions
    ensures w.stored[k].at + TTL <= w.memory.sessions[w.stored[k].org].ttl
  {
  }

  /** A session no older than the k-th storing, and stored at most three hours after it, is that storing. */
  lemma RecentIsLatest(stored: seq<Stored>, k: nat, m: nat)
    requires Spaced(stored) && k < |stored| && m < |stored| && stored[k].org == stored[m].org
    requires stored[k].at <= stored[m].at <= stored[k].at + TTL
    ensures k == m
  {
    if k != m {
      SpacedPair(stored, k, m);
    }
  }

  /** A session stored within the last three hours is the session of its organisation. */
  lemma SessionIsRecent(w: World, k: nat, now: nat)
    requires Invariant(w)
    requires k < |w.stored| && w.clock <= now <= w.stored[k].at + TTL
    ensures w.stored[k].org in w.memory.sessions
    ensures StoredAs(w.stored[k], w.stored[k].org, w.memory.sessions[w.stored[k].org])
  {
    StoredIsHeld(w, k);
    hide SessionsCurrent, OneHolder, RenewersExpired;
    var m := StoringOf(w, w.stored[k].org);
    hide SessionsStored, Spaced;
    RecentIsLatest(w.stored, k, m);
  }

  lemma ValidSessionServed(w: World, i: nat, now: nat, s: Stored)
    requires Enabled(w, Tries(i, now)) && !w.memory.lock && w.callers[i].org == s.org
    requires s.org in w.memory.sessions && StoredAs(s, s.org, w.memory.sessions[s.org]) && now <= s.at + TTL
    ensures Apply(w, Tries(i, now)).callers[i].phase == Done(s.token) && Apply(w, Tries(i, now)).memory == w.memory
  {
  }

  /** Caller i enters within three hours of the k-th storing, which was for its organisation. */
  predicate RecentlyStored(w: World, k: nat, i: nat, now: nat) {
    && Enabled(w, Tries(i, now)) && !w.memory.lock
    && k < |w.stored| && w.stored[k].org == w.callers[i].org && now <= w.stored[k].at + 10800000
  }

  /**
   What a login returned, be it a token or null, is what every caller of that organisation is
   handed on entry for the next three hours.
   */
  lemma LoginServesUntilExpiry(steps: seq<Step>, k: nat, i: nat, now: nat)
    requires IsRun(START, steps) && RecentlyStored(After(START, steps), k, i, now)
    ensures var w := After(START, steps);
            && Apply(w, Tries(i, now)).callers[i].phase == Done(w.stored[k].token)
            && Apply(w, Tries(i, now)).memory == w.memory
  {
    RunKeeps(START, steps);
    var w := After(START, steps);
    hide After, IsRun, Spaced, SessionsCurrent, SessionsStored, OneHolder, RenewersExpired, Apply;
    SessionIsRecent(w, k, now);
    ValidSessionServed(w, i, now, w.stored[k]);
  }
}
