/**
 The server-sent-event broker (event-service/internal/stream/sse.go) as a transition system. The
 select loop is idle, or ranges over the registry with some clients still owed the current event,
 or is blocked sending to one of them; everything between two channel operations is one step.
 */
module BrokerProtocol {

  type Channel = nat
  type Message = string

  /** make(chan []byte, 1), for the notifier and for every client. */
  const CAPACITY := 1

  datatype Phase =
    | Idle
    | Broadcasting(event: Message, owed: set<Channel>)
    | Sending(event: Message, target: Channel, owed: set<Channel>)

  datatype State = State(
    notifier: seq<Message>,
    clients: set<Channel>,
    phase: Phase,
    queues: map<Channel, seq<Message>>)

  datatype Action =
    | Notify(msg: Message)
    | NewConnection(c: Channel)
    | CloseConnection(c: Channel)
    | Dequeue
    | Pick(c: Channel)
    | Send
    | EndBroadcast
    | Receive(c: Channel)

  function Queue(s: State, c: Channel): seq<Message> {
    if c in s.queues then s.queues[c] else []
  }

  predicate Enabled(s: State, a: Action) {
    match a
    case Notify(_) => true
    case NewConnection(_) => s.phase.Idle?
    case CloseConnection(_) => s.phase.Idle?
    case Dequeue => s.phase.Idle? && s.notifier != []
    case Pick(c) => s.phase.Broadcasting? && c in s.phase.owed
    case Send => s.phase.Sending? && |Queue(s, s.phase.target)| < CAPACITY
    case EndBroadcast => s.phase.Broadcasting? && s.phase.owed == {}
    case Receive(c) => Queue(s, c) != []
  }

  function Apply(s: State, a: Action): State
    requires Enabled(s, a)
  {
    match a
    case Notify(msg) => if |s.notifier| < CAPACITY then s.(notifier := s.notifier + [msg]) else s
    case NewConnection(c) => s.(clients := s.clients + {c})
    case CloseConnection(c) => s.(clients := s.clients - {c})
    case Dequeue => s.(notifier := s.notifier[1..], phase := Broadcasting(s.notifier[0], s.clients))
    case Pick(c) => s.(phase := Sending(s.phase.event, c, s.phase.owed - {c}))
    case Send =>
      s.(phase := Broadcasting(s.phase.event, s.phase.owed),
         queues := s.queues[s.phase.target := Queue(s, s.phase.target) + [s.phase.event]])
    case EndBroadcast => s.(phase := Idle)
    case Receive(c) => s.(queues := s.queues[c := Queue(s, c)[1..]])
  }

  /******* Observed history *******/

  /** The registration of a client: how much had been broadcast, and what it had got, at that time. */
  datatype Enrolment = Enrolment(start: nat, before: seq<Message>, closed: bool, end: nat)

  /** The broker with a record of what went through it. */
  datatype System = System(
    core: State,
    accepted: seq<Message>,
    dequeued: seq<Message>,
    received: map<Channel, seq<Message>>,
    enrolled: map<Channel, Enrolment>)

  const START := System(State([], {}, Idle, map[]), [], [], map[], map[])

  function Received(s: System, c: Channel): seq<Message> {
    if c in s.received then s.received[c] else []
  }

  /** What reached client `c`: what it read, then what waits in its channel. */
  function Got(s: System, c: Channel): seq<Message> {
    Received(s, c) + Queue(s.core, c)
  }

  function Next(s: System, a: Action): System
    requires Enabled(s.core, a)
  {
    var t := s.(core := Apply(s.core, a));
    match a
    case Notify(msg) => if |s.core.notifier| < CAPACITY then t.(accepted := s.accepted + [msg]) else t
    case NewConnection(c) =>
      if c in s.core.clients then t
      else t.(enrolled := s.enrolled[c := Enrolment(|s.dequeued|, Got(s, c), false, 0)])
    case CloseConnection(c) =>
      if c in s.core.clients && c in s.enrolled
      then t.(enrolled := s.enrolled[c := s.enrolled[c].(closed := true, end := |s.dequeued|)])
      else t
    case Dequeue => t.(dequeued := s.dequeued + [s.core.notifier[0]])
    case Receive(c) => t.(received := s.received[c := Received(s, c) + [Queue(s.core, c)[0]]])
    case _ => t
  }

  predicate Runs(s: System, actions: seq<Action>)
    decreases |actions|
  {
    actions == [] || (Enabled(s.core, actions[0]) && Runs(Next(s, actions[0]), actions[1..]))
  }

  function After(s: System, actions: seq<Action>): System
    requires Runs(s, actions)
    decreases |actions|
  {
    if actions == [] then s else After(Next(s, actions[0]), actions[1..])
  }

  /******* Invariant *******/

  /** Client `c` has not been sent the event that is being broadcast. */
  predicate Owed(s: State, c: Channel) {
    match s.phase
    case Idle => false
    case Broadcasting(_, owed) => c in owed
    case Sending(_, target, owed) => c == target || c in owed
  }

  /** Up to which broadcast the client has been served. */
  function ServedTo(s: System, c: Channel): int
    requires c in s.enrolled
  {
    if s.enrolled[c].closed then s.enrolled[c].end
    else if Owed(s.core, c) then |s.dequeued| - 1
    else |s.dequeued|
  }

  predicate Delivered(s: System, c: Channel)
    requires c in s.enrolled
  {
    var e := s.enrolled[c];
    && e.start <= ServedTo(s, c) <= |s.dequeued|
    && Got(s, c) == e.before + s.dequeued[e.start..ServedTo(s, c)]
  }

  /** Buffers stay bounded, and the phase, the registry and the enrolments fit together. */
  ghost predicate Consistent(s: System) {
    && s.accepted == s.dequeued + s.core.notifier
    && |s.core.notifier| <= CAPACITY
    && (forall c :: |Queue(s.core, c)| <= CAPACITY)
    && (!s.core.phase.Idle? ==> s.dequeued != [] && s.dequeued[|s.dequeued| - 1] == s.core.phase.event)
    && (s.core.phase.Sending? ==> s.core.phase.target !in s.core.phase.owed)
    && (forall c | Owed(s.core, c) :: c in s.core.clients)
    && (forall c | c in s.core.clients :: c in s.enrolled && !s.enrolled[c].closed)
    && (forall c | c in s.enrolled && c !in s.core.clients :: s.enrolled[c].closed)
  }

  ghost predicate Inv(s: System) {
    && Consistent(s)
    && (forall c | c in s.enrolled :: Delivered(s, c))
    && (forall c | c !in s.enrolled :: Got(s, c) == [])
  }

  lemma GotKept(s: System, a: Action, c: Channel)
    requires Enabled(s.core, a) && (a.Send? ==> c != s.core.phase.target)
    ensures Got(Next(s, a), c) == Got(s, c)
  {
    if a == Receive(c) {
      assert [Queue(s.core, c)[0]] + Queue(s.core, c)[1..] == Queue(s.core, c);
    }
  }

  /** The send step: the target gets the event it was owed, and no other client's account changes. */
  lemma SendServes(s: System)
    requires Consistent(s) && Enabled(s.core, Send) && s.core.phase.target in s.enrolled
    ensures var c, t := s.core.phase.target, Next(s, Send);
            && t.enrolled == s.enrolled && t.dequeued == s.dequeued && s.dequeued != []
            && Got(t, c) == Got(s, c) + [s.dequeued[|s.dequeued| - 1]]
            && ServedTo(s, c) == |s.dequeued| - 1 && ServedTo(t, c) == |s.dequeued|
  {
    assert Owed(s.core, s.core.phase.target);
  }

  lemma RunExtends(before: seq<Message>, d: seq<Message>, start: nat)
    requires start < |d|
    ensures before + d[start..|d|] == before + d[start..|d| - 1] + [d[|d| - 1]]
  {
    assert d[start..|d|] == d[start..|d| - 1] + [d[|d| - 1]];
  }

  lemma SentDelivers(s: System)
    requires Inv(s) && Enabled(s.core, Send)
    ensures Delivered(Next(s, Send), s.core.phase.target)
  {
    var c := s.core.phase.target;
    assert Owed(s.core, c) && c in s.enrolled && Delivered(s, c);
    SendServes(s);
    hide Inv, Consistent, Got, Next, ServedTo, Owed, Enabled;
    RunExtends(s.enrolled[c].before, s.dequeued, s.enrolled[c].start);
  }

  lemma ServedToKept(s: System, a: Action, c: Channel)
    requires Inv(s) && Enabled(s.core, a) && c in s.enrolled
    requires !(a.Send? && c == s.core.phase.target)
    requires !(a == NewConnection(c) && c !in s.core.clients)
    ensures var t := Next(s, a);
            && c in t.enrolled
            && t.enrolled[c].start == s.enrolled[c].start && t.enrolled[c].before == s.enrolled[c].before
            && ServedTo(t, c) == ServedTo(s, c)
  {
    hide Delivered, Got;
  }

  lemma EnrolmentDelivers(s: System, c: Channel)
    requires Inv(s) && Enabled(s.core, NewConnection(c)) && c !in s.core.clients
    ensures Delivered(Next(s, NewConnection(c)), c)
  {
    var t := Next(s, NewConnection(c));
    assert t.dequeued[|t.dequeued|..|t.dequeued|] == [];
  }

  lemma DequeuedGrows(s: System, a: Action)
    requires Enabled(s.core, a)
    ensures s.dequeued <= Next(s, a).dequeued
  {
  }

  lemma DeliveredKept(s: System, a: Action, c: Channel)
    requires Inv(s) && Enabled(s.core, a) && c in s.enrolled
    requires !(a.Send? && c == s.core.phase.target)
    requires !(a == NewConnection(c) && c !in s.core.clients)
    ensures c in Next(s, a).enrolled && Delivered(Next(s, a), c)
  {
    hide Next, Got, ServedTo;
    var t := Next(s, a);
    assert Delivered(s, c);
    GotKept(s, a, c);
    ServedToKept(s, a, c);
    DequeuedGrows(s, a);
    var e, to := s.enrolled[c], ServedTo(s, c);
    assert t.dequeued[e.start..to] == s.dequeued[e.start..to];
  }

  lemma ConsistentNext(s: System, a: Action)
    requires Consistent(s) && Enabled(s.core, a)
    ensures Consistent(Next(s, a))
  {
    var t := Next(s, a);
    forall c ensures |Queue(t.core, c)| <= CAPACITY {
      assert |Queue(s.core, c)| <= CAPACITY;
    }
    forall c | Owed(t.core, c) ensures c in t.core.clients {
      assert Owed(s.core, c) || a.Dequeue?;
    }
    assert t.accepted == t.dequeued + t.core.notifier;
  }

  lemma InvNext(s: System, a: Action)
    requires Inv(s) && Enabled(s.core, a)
    ensures Inv(Next(s, a))
  {
    var t := Next(s, a);
    ConsistentNext(s, a);
    forall c | c in t.enrolled ensures Delivered(t, c) {
      if a.Send? && c == s.core.phase.target {
        SentDelivers(s);
      } else if a == NewConnection(c) && c !in s.core.clients {
        EnrolmentDelivers(s, c);
      } else {
        DeliveredKept(s, a, c);
      }
    }
    forall c | c !in t.enrolled ensures Got(t, c) == [] {
      GotKept(s, a, c);
    }
  }

  lemma {:induction false} InvAfter(s: System, actions: seq<Action>)
    requires Inv(s) && Runs(s, actions)
    ensures Inv(After(s, actions))
    decreases |actions|
  {
    if actions != [] {
      InvNext(s, actions[0]);
      InvAfter(Next(s, actions[0]), actions[1..]);
    }
  }

  lemma InvStart()
    ensures Inv(START)
  {
  }

  /******* Theorems over every interleaving *******/

  /**
   First in, first out, without loss or duplicate: in every interleaving what reached a client since
   it registered is the unbroken run of broadcast events from then until it left, or until now,
   without the last one while that is still owed to it.
   */
  lemma DeliveryIsContiguous(actions: seq<Action>, c: Channel)
    requires Runs(START, actions)
    ensures var s := After(START, actions);
            && (c in s.enrolled ==> Delivered(s, c))
            && (c !in s.enrolled ==> Got(s, c) == [])
  {
    InvStart();
    InvAfter(START, actions);
  }

  /** Events are lost nowhere but in Notify: what it accepted was broadcast or waits in the notifier. */
  lemma AcceptedIsNeverLost(actions: seq<Action>, c: Channel)
    requires Runs(START, actions)
    ensures var s := After(START, actions);
            && s.accepted == s.dequeued + s.core.notifier
            && (s.core.phase.Idle? && s.core.notifier == [] && c in s.core.clients ==>
                  c in s.enrolled && s.enrolled[c].start <= |s.accepted|
                  && Got(s, c) == s.enrolled[c].before + s.accepted[s.enrolled[c].start..])
  {
    InvStart();
    InvAfter(START, actions);
    var s := After(START, actions);
    if s.core.phase.Idle? && s.core.notifier == [] && c in s.core.clients {
      assert Delivered(s, c);
      assert s.accepted == s.dequeued && s.dequeued[s.enrolled[c].start..|s.dequeued|] == s.dequeued[s.enrolled[c].start..];
    }
  }

  /** The idle loop takes any request, and an event if there is one; posting and reading need no turn. */
  lemma IdleTakesRequests(s: State, c: Channel, m: Message)
    ensures s.phase == Idle ==> Enabled(s, NewConnection(c)) && Enabled(s, CloseConnection(c))
    ensures s.phase == Idle ==> (Enabled(s, Dequeue) <==> s.notifier != [])
    ensures Enabled(s, Notify(m)) && (Enabled(s, Receive(c)) <==> Queue(s, c) != [])
  {
  }

  /** The client registered in this run, and did not leave after that. */
  ghost predicate Registered(actions: seq<Action>, c: Channel) {
    exists k :: RegisteredAt(actions, c, k)
  }

  ghost predicate RegisteredAt(actions: seq<Action>, c: Channel, k: int) {
    0 <= k < |actions| && actions[k] == NewConnection(c) && forall m | k < m < |actions| :: actions[m] != CloseConnection(c)
  }

  lemma RegisteredFirst(actions: seq<Action>, c: Channel)
    requires actions != []
    ensures Registered(actions, c) <==>
            Registered(actions[1..], c) || (actions[0] == NewConnection(c) && CloseConnection(c) !in actions[1..])
  {
    var rest := actions[1..];
    assert forall m | 0 <= m < |rest| :: rest[m] == actions[m + 1];
    if k :| RegisteredAt(actions, c, k) {
      if k > 0 {
        assert RegisteredAt(rest, c, k - 1);
      }
    }
    if k :| RegisteredAt(rest, c, k) {
      forall m | k + 1 < m < |actions| ensures actions[m] != CloseConnection(c) {
        assert actions[m] == rest[m - 1];
      }
      assert RegisteredAt(actions, c, k + 1);
    }
    if actions[0] == NewConnection(c) && CloseConnection(c) !in rest {
      assert forall m | 0 < m < |actions| :: actions[m] == rest[m - 1];
      assert RegisteredAt(actions, c, 0);
    }
  }

  /** The registry holds exactly the clients whose last request was to be registered. */
  lemma {:induction false} RegistryIff(s: System, actions: seq<Action>, c: Channel)
    requires Runs(s, actions)
    ensures c in After(s, actions).core.clients <==>
            Registered(actions, c) || (c in s.core.clients && CloseConnection(c) !in actions)
    decreases |actions|
  {
    if actions != [] {
      RegistryIff(Next(s, actions[0]), actions[1..], c);
      RegisteredFirst(actions, c);
      RegistryStep(s, actions[0], c);
      hide Registered, Next, Enabled;
      assert actions == [actions[0]] + actions[1..];
    }
  }

  lemma RegistryStep(s: System, a: Action, c: Channel)
    requires Enabled(s.core, a)
    ensures c in Next(s, a).core.clients <==> a == NewConnection(c) || (c in s.core.clients && a != CloseConnection(c))
  {
  }

  /** A broadcast to clients with empty channels needs nobody to read. */
  lemma SendToAll(s: System) returns (actions: seq<Action>)
    requires s.core.phase.Broadcasting? && forall c | c in s.core.phase.owed :: Queue(s.core, c) == []
    ensures Runs(s, actions) && After(s, actions).core.phase == Idle && forall c :: Receive(c) !in actions
    ensures forall c :: Got(After(s, actions), c) ==
                        Got(s, c) + (if c in s.core.phase.owed then [s.core.phase.event] else [])
    decreases |s.core.phase.owed|
  {
    if c :| c in s.core.phase.owed {
      var t := Next(s, Pick(c));
      SentTo(s, c);
      hide Next, Enabled, Got, Queue;
      var u := Next(t, Send);
      var rest := SendToAll(u);
      RunsConcat(t, Send, rest);
      RunsConcat(s, Pick(c), [Send] + rest);
      actions := [Pick(c)] + ([Send] + rest);
    } else {
      actions := BroadcastEnds(s);
    }
  }

  lemma BroadcastEnds(s: System) returns (actions: seq<Action>)
    requires s.core.phase.Broadcasting? && s.core.phase.owed == {}
    ensures Runs(s, actions) && After(s, actions).core.phase == Idle && forall c :: Receive(c) !in actions
    ensures forall c :: Got(After(s, actions), c) == Got(s, c)
  {
    var t := Next(s, EndBroadcast);
    assert Runs(t, []) && After(t, []) == t;
    RunsConcat(s, EndBroadcast, []);
    actions := [EndBroadcast] + [];
  }

  lemma SentTo(s: System, c: Channel)
    requires s.core.phase.Broadcasting? && c in s.core.phase.owed && Queue(s.core, c) == []
    ensures Enabled(s.core, Pick(c)) && Enabled(Next(s, Pick(c)).core, Send)
    ensures var t := Next(s, Pick(c)); var u := Next(t, Send);
            && u.core.phase == Broadcasting(s.core.phase.event, s.core.phase.owed - {c})
            && (forall d :: Got(u, d) == Got(s, d) + (if d == c then [s.core.phase.event] else []))
            && (forall d | d != c :: Queue(u.core, d) == Queue(s.core, d))
  {
    var t := Next(s, Pick(c));
    assert Enabled(t.core, Send);
    var u := Next(t, Send);
    assert forall d | d != c :: Queue(u.core, d) == Queue(s.core, d);
    assert Got(u, c) == Received(s, c) + [s.core.phase.event] && Got(s, c) == Received(s, c);
  }

  /** An event posted to the idle loop can reach every registered client, and nobody else, before anyone reads. */
  lemma EventReachesEveryone(s: System, m: Message) returns (actions: seq<Action>)
    requires s.core.phase == Idle && s.core.notifier == [] && forall c | c in s.core.clients :: Queue(s.core, c) == []
    ensures Runs(s, actions) && After(s, actions).core.phase == Idle && forall c :: Receive(c) !in actions
    ensures forall c :: Got(After(s, actions), c) == Got(s, c) + (if c in s.core.clients then [m] else [])
  {
    var t := Next(s, Notify(m));
    var u := Next(t, Dequeue);
    assert u.core.phase == Broadcasting(m, s.core.clients);
    assert forall c :: Queue(u.core, c) == Queue(s.core, c) && Got(u, c) == Got(s, c);
    assert Enabled(s.core, Notify(m)) && Enabled(t.core, Dequeue);
    hide Next, Enabled, Got, Queue;
    var rest := SendToAll(u);
    RunsConcat(t, Dequeue, rest);
    RunsConcat(s, Notify(m), [Dequeue] + rest);
    actions := [Notify(m)] + ([Dequeue] + rest);
  }

  /** Notify drops its event exactly when another one is already waiting. */
  lemma NotifyDropsIff(s: System, msg: Message)
    requires Inv(s)
    ensures Next(s, Notify(msg)).accepted == s.accepted + [msg] <==> s.core.notifier == []
    ensures s.core.notifier != [] ==> Next(s, Notify(msg)) == s
  {
    if s.core.notifier != [] {
      assert |s.accepted + [msg]| != |s.accepted|;
    }
  }

  lemma UnregisteredStep(s: System, a: Action, c: Channel)
    requires Inv(s) && c !in s.core.clients
    requires Enabled(s.core, a) && a != NewConnection(c)
    ensures Got(Next(s, a), c) == Got(s, c) && c !in Next(s, a).core.clients
  {
    assert a.Send? ==> Owed(s.core, s.core.phase.target);
    GotKept(s, a, c);
  }

  /** After its removal nothing more reaches a client, until it registers again. */
  lemma {:induction false} NothingAfterRemoval(s: System, actions: seq<Action>, c: Channel)
    requires Inv(s) && c !in s.core.clients
    requires Runs(s, actions) && NewConnection(c) !in actions
    ensures Got(After(s, actions), c) == Got(s, c)
    decreases |actions|
  {
    if actions != [] {
      UnregisteredStep(s, actions[0], c);
      InvNext(s, actions[0]);
      hide Inv, Next, Got;
      NothingAfterRemoval(Next(s, actions[0]), actions[1..], c);
    }
  }

  /** Closing a connection that is not registered, for the second time or at all, changes nothing. */
  lemma SecondCloseChangesNothing(s: System, c: Channel)
    requires Enabled(s.core, CloseConnection(c))
    ensures Enabled(Next(s, CloseConnection(c)).core, CloseConnection(c))
    ensures Next(Next(s, CloseConnection(c)), CloseConnection(c)) == Next(s, CloseConnection(c))
  {
    var t := Next(s, CloseConnection(c));
    assert t.core.clients - {c} == t.core.clients;
  }

  /** The loop is blocked on a client whose channel is full. */
  predicate Stalled(s: State, c: Channel) {
    s.phase.Sending? && s.phase.target == c && |Queue(s, c)| >= CAPACITY
  }

  /**
   Head-of-line blocking: until the client it is blocked on reads, the broker broadcasts nothing,
   registers nobody, removes nobody (that very client included) and nothing reaches anyone.
   */
  lemma {:induction false} StalledUntilReceive(s: System, actions: seq<Action>, c: Channel, d: Channel)
    requires Stalled(s.core, c)
    requires Runs(s, actions) && Receive(c) !in actions
    ensures var t := After(s, actions);
            && Stalled(t.core, c) && t.core.phase == s.core.phase && t.core.clients == s.core.clients
            && t.dequeued == s.dequeued && Got(t, d) == Got(s, d)
            && !Enabled(t.core, CloseConnection(d)) && !Enabled(t.core, NewConnection(d))
    decreases |actions|
  {
    if actions != [] {
      GotKept(s, actions[0], d);
      StalledUntilReceive(Next(s, actions[0]), actions[1..], c, d);
    }
  }

  lemma RunsConcat(s: System, a: Action, rest: seq<Action>)
    requires Enabled(s.core, a) && Runs(Next(s, a), rest)
    ensures Runs(s, [a] + rest) && After(s, [a] + rest) == After(Next(s, a), rest)
  {
    assert ([a] + rest)[1..] == rest;
  }

  function Distance(s: State): nat {
    match s.phase
    case Idle => 0
    case Broadcasting(_, owed) => 4 * |owed| + 1
    case Sending(_, target, owed) => 4 * |owed| + 3 + (if |Queue(s, target)| < CAPACITY then 0 else 1)
  }

  /** The current event is still due to a client whose channel is full, whether or not its turn has come. */
  predicate Blocked(s: State, c: Channel) {
    Owed(s, c) && |Queue(s, c)| >= CAPACITY
  }

  /** Until such a client reads, the broker takes no other event, registers nobody and removes nobody. */
  lemma {:induction false} BlockedUntilReceive(s: System, actions: seq<Action>, c: Channel, d: Channel)
    requires Blocked(s.core, c)
    requires Runs(s, actions) && Receive(c) !in actions
    ensures var t := After(s, actions);
            && Blocked(t.core, c) && t.core.clients == s.core.clients && t.dequeued == s.dequeued
            && !Enabled(t.core, CloseConnection(d)) && !Enabled(t.core, NewConnection(d)) && !Enabled(t.core, Dequeue)
    decreases |actions|
  {
    if actions != [] {
      BlockedStep(s, actions[0], c);
      hide Blocked, Next, Enabled;
      BlockedUntilReceive(Next(s, actions[0]), actions[1..], c, d);
    }
  }

  lemma BlockedStep(s: System, a: Action, c: Channel)
    requires Blocked(s.core, c) && Enabled(s.core, a) && a != Receive(c)
    ensures var t := Next(s, a); Blocked(t.core, c) && t.core.clients == s.core.clients && t.dequeued == s.dequeued
  {
  }

  /** One step towards idle that does not ask client `c` to read. */
  lemma StepTowardsIdle(s: System, c: Channel) returns (a: Action)
    requires Inv(s) && !s.core.phase.Idle? && !Blocked(s.core, c)
    ensures Enabled(s.core, a) && a != Receive(c)
    ensures Distance(Next(s, a).core) < Distance(s.core) && !Blocked(Next(s, a).core, c)
    ensures a.Pick? || a.Send? || a.EndBroadcast? || a.Receive?
  {
    if s.core.phase.Broadcasting? {
      if d :| d in s.core.phase.owed {
        a := Pick(d);
        assert s.core.phase.owed == (s.core.phase.owed - {d}) + {d};
      } else {
        a := EndBroadcast;
      }
    } else if |Queue(s.core, s.core.phase.target)| < CAPACITY {
      a := Send;
    } else {
      assert |Queue(s.core, s.core.phase.target)| <= CAPACITY;
      a := Receive(s.core.phase.target);
    }
  }

  /** A schedule back to idle in which every client may read but `c`. */
  lemma BroadcastCanFinish(s: System, c: Channel) returns (actions: seq<Action>)
    requires Inv(s) && !Blocked(s.core, c)
    ensures Runs(s, actions) && After(s, actions).core.phase.Idle?
    ensures forall a | a in actions :: a.Pick? || a.Send? || a.EndBroadcast? || a.Receive?
    ensures Receive(c) !in actions
    decreases Distance(s.core)
  {
    if s.core.phase.Idle? {
      return [];
    }
    var a := StepTowardsIdle(s, c);
    InvNext(s, a);
    var rest := BroadcastCanFinish(Next(s, a), c);
    RunsConcat(s, a, rest);
    actions := [a] + rest;
  }

  /**
   In any reachable state the loop can get back to its select without client `c` reading exactly
   when `c` is not owed the current event with its channel full.
   */
  lemma FinishesWithoutIff(s: System, c: Channel)
    requires Inv(s)
    ensures (exists actions :: Runs(s, actions) && After(s, actions).core.phase.Idle? && Receive(c) !in actions)
            <==> !Blocked(s.core, c)
  {
    if Blocked(s.core, c) {
      forall actions | Runs(s, actions) && Receive(c) !in actions ensures !After(s, actions).core.phase.Idle? {
        BlockedUntilReceive(s, actions, c, c);
      }
    } else {
      var actions := BroadcastCanFinish(s, c);
    }
  }

  /** The broker can be brought there: two events for a client that never reads. */
  lemma BlockedIsReachable(c: Channel, m: Message, n: Message) returns (actions: seq<Action>)
    ensures Runs(START, actions) && Receive(c) !in actions
    ensures Stalled(After(START, actions).core, c) && Blocked(After(START, actions).core, c)
  {
    var s1 := Next(START, NewConnection(c));
    var s2 := FirstServed(s1, c, m);
    var rest := BlockingRuns(s2, c, n);
    ServingRuns(s1, c, m, rest);
    hide Next, Serving, FirstServed;
    RunsConcat(START, NewConnection(c), Serving(c, m) + rest);
    actions := [NewConnection(c)] + (Serving(c, m) + rest);
    ServingHasNoReceive(c, m);
  }

  lemma ServingHasNoReceive(c: Channel, m: Message)
    ensures Receive(c) !in Serving(c, m)
  {
  }

  /** A second event for a client that has not read the first. */
  lemma BlockingRuns(s: System, c: Channel, n: Message) returns (actions: seq<Action>)
    requires s.core.notifier == [] && s.core.clients == {c} && s.core.phase == Idle && |Queue(s.core, c)| == CAPACITY
    ensures Runs(s, actions) && Receive(c) !in actions
    ensures Stalled(After(s, actions).core, c) && Blocked(After(s, actions).core, c)
  {
    var s3 := Next(s, Notify(n));
    var s4 := Next(s3, Dequeue);
    assert s4.core.phase == Broadcasting(n, {c}) && Queue(s4.core, c) == Queue(s.core, c);
    var s5 := Next(s4, Pick(c));
    assert Runs(s5, []) && After(s5, []) == s5 && Stalled(s5.core, c) && Blocked(s5.core, c);
    RunsConcat(s4, Pick(c), []);
    RunsConcat(s3, Dequeue, [Pick(c)] + []);
    RunsConcat(s, Notify(n), [Dequeue] + ([Pick(c)] + []));
    actions := [Notify(n)] + ([Dequeue] + ([Pick(c)] + []));
  }

  /** One event for the only client. */
  function Serving(c: Channel, m: Message): seq<Action> {
    [Notify(m)] + ([Dequeue] + ([Pick(c)] + ([Send] + [EndBroadcast])))
  }

  function FirstServed(s: System, c: Channel, m: Message): (t: System)
    requires s.core == State([], {c}, Idle, map[])
    ensures t.core.notifier == [] && t.core.clients == {c} && t.core.phase == Idle && Queue(t.core, c) == [m]
  {
    var s3 := Next(Next(Next(s, Notify(m)), Dequeue), Pick(c));
    assert s3.core.notifier == [] && s3.core.phase == Sending(m, c, {}) && Queue(s3.core, c) == [];
    Next(Next(s3, Send), EndBroadcast)
  }

  lemma ServingRuns(s: System, c: Channel, m: Message, rest: seq<Action>)
    requires s.core == State([], {c}, Idle, map[]) && Runs(FirstServed(s, c, m), rest)
    ensures Runs(s, Serving(c, m) + rest) && After(s, Serving(c, m) + rest) == After(FirstServed(s, c, m), rest)
  {
    var s1 := Next(s, Notify(m));
    var s2 := Next(s1, Dequeue);
    var s3 := Next(s2, Pick(c));
    var s4 := Next(s3, Send);
    assert Enabled(s1.core, Dequeue) && Enabled(s2.core, Pick(c)) && Enabled(s3.core, Send) && Enabled(s4.core, EndBroadcast);
    assert FirstServed(s, c, m) == Next(s4, EndBroadcast);
    hide Next, Enabled, Runs, After, FirstServed;
    var r4, r3, r2 := [EndBroadcast] + rest, [Send] + ([EndBroadcast] + rest), [Pick(c)] + ([Send] + ([EndBroadcast] + rest));
    RunsConcat(s4, EndBroadcast, rest);
    RunsConcat(s3, Send, r4);
    RunsConcat(s2, Pick(c), r3);
    RunsConcat(s1, Dequeue, r2);
    RunsConcat(s, Notify(m), [Dequeue] + r2);
    assert Serving(c, m) + rest == [Notify(m)] + ([Dequeue] + r2);
  }

  /******* The broker object *******/

  /** The Go object with the channels it sends on; every method is one atomic step of the protocol. */
  class Broker {
    var notifier: seq<Message>
    var clients: set<Channel>
    var phase: Phase
    var queues: map<Channel, seq<Message>>

    ghost function View(): State
      reads this
    {
      State(notifier, clients, phase, queues)
    }

    constructor ()
      ensures View() == START.core
    {
      notifier, clients, phase, queues := [], {}, Idle, map[];
    }

    /** The select with a default branch: the event is dropped when the notifier is full. */
    method Notify(msg: Message)
      modifies this`notifier
      ensures View() == Apply(old(View()), Action.Notify(msg))
    {
      if |notifier| < CAPACITY {
        notifier := notifier + [msg];
      }
    }

    /** The broker's side of an accepted connection. */
    method Register(c: Channel)
      requires Enabled(View(), NewConnection(c))
      modifies this`clients
      ensures View() == Apply(old(View()), NewConnection(c))
    {
      clients := clients + {c};
    }

    method Unregister(c: Channel)
      requires Enabled(View(), CloseConnection(c))
      modifies this`clients
      ensures View() == Apply(old(View()), CloseConnection(c))
    {
      clients := clients - {c};
    }

    method TakeEvent()
      requires Enabled(View(), Dequeue)
      modifies this`notifier, this`phase
      ensures View() == Apply(old(View()), Dequeue)
    {
      phase := Broadcasting(notifier[0], clients);
      notifier := notifier[1..];
    }

    /**
     One whole broadcast, in the arbitrary order of a Go map range. A send to a full channel waits
     until its client has read; `read` says what was read meanwhile. Each registered client gets the
     event once and no other channel changes.
     */
    method Broadcast() returns (read: map<Channel, Message>)
      requires phase.Broadcasting?
      requires forall c | c in phase.owed :: |Queue(View(), c)| <= CAPACITY
      modifies this`phase, this`queues
      ensures phase == Idle
      ensures forall c :: c in read <==> c in old(phase.owed) && |old(Queue(View(), c))| == CAPACITY
      ensures forall c :: (if c in read then [read[c]] else []) + Queue(View(), c) ==
                old(Queue(View(), c)) + (if c in old(phase.owed) then [old(phase.event)] else [])
    {
      var event, owed := phase.event, phase.owed;
      ghost var sent: set<Channel> := {};
      read := map[];
      while owed != {}
        invariant phase == Broadcasting(event, owed)
        invariant sent !! owed && sent + owed == old(phase.owed)
        invariant forall c | c !in sent :: Queue(View(), c) == old(Queue(View(), c))
        invariant forall c :: c in read <==> c in sent && |old(Queue(View(), c))| == CAPACITY
        invariant forall c | c in sent ::
                    (if c in read then [read[c]] else []) + Queue(View(), c) == old(Queue(View(), c)) + [event]
        decreases owed
      {
        var c :| c in owed;
        var waiting := if c in queues then queues[c] else [];
        if |waiting| == CAPACITY {
          read := read[c := waiting[0]];
          waiting := waiting[1..];
        }
        queues := queues[c := waiting + [event]];
        owed := owed - {c};
        sent := sent + {c};
        phase := Broadcasting(event, owed);
      }
      phase := Idle;
    }
  }
}
