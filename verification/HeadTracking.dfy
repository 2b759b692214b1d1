/** What any number of reconcile ticks at a fixed head commit guarantees. */
module HeadTracking {
  import opened Types
  import opened Retry
  import opened GitReconciler

  /**
   The subscriber list of one tick and the cluster's answers to it. `renewed` says that the
   repository's entry was made anew since the tick before, after a NotFound answer had removed it;
   a new entry has no stored head.
   */
  datatype Round = Round(subscribers: seq<ObjectKey>, script: nat -> Response, renewed: bool)

  /** The stored head of the repository, with the effect of the ticks so far. */
  datatype Watch = Watch(stored: string, effect: Effect)

  function StoredBefore(w: Watch, r: Round): string {
    if r.renewed then "" else w.stored
  }

  function RunRound(w: Watch, r: Round, source: string, head: string): Watch {
    var stored := StoredBefore(w, r);
    if stored == head then w.(stored := stored)
    else
      var e := Tick(w.effect.(failed := false), r.subscribers, r.script, source, head);
      Watch(if e.failed then stored else head, e)
  }

  function RunRounds(w: Watch, rounds: seq<Round>, source: string, head: string): Watch {
    if rounds == [] then w
    else RunRound(RunRounds(w, rounds[..|rounds| - 1], source, head), rounds[|rounds| - 1], source, head)
  }

  ghost predicate NoneRenewed(rounds: seq<Round>) {
    forall r | r in rounds :: !r.renewed
  }

  /** From `a` to `b`: writes were only added, each for an environment not recorded before. */
  ghost predicate Extends(a: Effect, b: Effect, source: string, head: string) {
    && a.writes <= b.writes
    && (forall k | Recorded(a.statuses, k, source, head) :: Recorded(b.statuses, k, source, head))
    && (forall i | |a.writes| <= i < |b.writes| :: !Recorded(a.statuses, b.writes[i], source, head))
    && (forall i | |a.writes| <= i < |b.writes| :: Recorded(b.statuses, b.writes[i], source, head))
    && (forall i, j | |a.writes| <= i < j < |b.writes| :: b.writes[i] != b.writes[j])
  }

  lemma WriteExtends(a: Effect, b: Effect, k: ObjectKey, source: string, head: string)
    requires Extends(a, b, source, head) && !Recorded(b.statuses, k, source, head)
    ensures Extends(a, b.(statuses := Record(b.statuses, k, source, head), writes := b.writes + [k]), source, head)
  {
    var c := b.(statuses := Record(b.statuses, k, source, head), writes := b.writes + [k]);
    forall i | |a.writes| <= i < |c.writes|
      ensures !Recorded(a.statuses, c.writes[i], source, head) && Recorded(c.statuses, c.writes[i], source, head)
    {
      assert i < |b.writes| ==> c.writes[i] == b.writes[i] && b.writes[i] != k;
    }
  }

  lemma VisitExtends(a: Effect, b: Effect, k: ObjectKey, r: Response, source: string, head: string)
    requires Extends(a, b, source, head)
    ensures Extends(a, Visit(b, k, r, source, head), source, head)
  {
    if !b.failed && r.fetch.Fetched? && !Recorded(b.statuses, k, source, head) && UpdateSucceeds(r.attempts) {
      WriteExtends(a, b, k, source, head);
    }
  }

  lemma {:induction false} TickExtends(a: Effect, e: Effect, subscribers: seq<ObjectKey>, script: nat -> Response,
                                       source: string, head: string)
    requires Extends(a, e, source, head)
    ensures Extends(a, Tick(e, subscribers, script, source, head), source, head)
  {
    if subscribers != [] {
      var n := |subscribers| - 1;
      TickExtends(a, e, subscribers[..n], script, source, head);
      VisitExtends(a, Tick(e, subscribers[..n], script, source, head), subscribers[n], script(n), source, head);
    }
  }

  lemma {:induction false} RoundsExtend(w: Watch, rounds: seq<Round>, source: string, head: string)
    ensures Extends(w.effect, RunRounds(w, rounds, source, head).effect, source, head)
  {
    if rounds != [] {
      var init, last := rounds[..|rounds| - 1], rounds[|rounds| - 1];
      RoundsExtend(w, init, source, head);
      var v := RunRounds(w, init, source, head);
      TickExtends(w.effect, v.effect.(failed := false), last.subscribers, last.script, source, head);
    }
  }

  /**
   Over any number of ticks at one head, whatever fails, whoever subscribes in between, and however
   often the repository is removed and watched again, an environment's status is written at most
   once, and never if it already recorded the head; so a tick that failed midway is resumed without
   rewriting what it had written.
   */
  lemma AtMostOneWrite(statuses: Statuses, stored: string, rounds: seq<Round>, n: nat, source: string, head: string)
    requires n <= |rounds|
    ensures var start := Watch(stored, Effect(statuses, [], false, false));
            var mid, end := RunRounds(start, rounds[..n], source, head), RunRounds(start, rounds, source, head);
            && Distinct(end.effect.writes)
            && (forall k | k in end.effect.writes :: !Recorded(statuses, k, source, head))
            && (forall k | k in end.effect.writes :: Recorded(end.effect.statuses, k, source, head))
            && mid.effect.writes <= end.effect.writes
            && (forall k | k in end.effect.writes[|mid.effect.writes|..] :: k !in mid.effect.writes)
  {
    var start := Watch(stored, Effect(statuses, [], false, false));
    RoundsExtend(start, rounds, source, head);
    RoundsSplit(start, rounds, n, source, head);
    RoundsExtend(RunRounds(start, rounds[..n], source, head), rounds[n..], source, head);
  }

  lemma {:induction false} RoundsSplit(w: Watch, rounds: seq<Round>, n: nat, source: string, head: string)
    requires n <= |rounds|
    ensures RunRounds(w, rounds, source, head) == RunRounds(RunRounds(w, rounds[..n], source, head), rounds[n..], source, head)
  {
    if n == |rounds| {
      assert rounds[..n] == rounds;
    } else {
      var init := rounds[..|rounds| - 1];
      RoundsSplit(w, init, n, source, head);
      assert init[..n] == rounds[..n] && rounds[n..][..|rounds[n..]| - 1] == init[n..];
    }
  }

  /** `k` is read successfully at some position. */
  ghost predicate FetchedSomewhere(subscribers: seq<ObjectKey>, script: nat -> Response, k: ObjectKey) {
    exists i :: 0 <= i < |subscribers| && subscribers[i] == k && script(i).fetch == Fetched
  }

  /** A tick that did not fail: exactly those read, or recorded before, record the head. */
  lemma {:induction false} SuccessfulTick(e: Effect, subscribers: seq<ObjectKey>, script: nat -> Response,
                                          source: string, head: string, k: ObjectKey)
    requires !Tick(e, subscribers, script, source, head).failed
    ensures !e.failed
    ensures Recorded(Tick(e, subscribers, script, source, head).statuses, k, source, head) <==>
            Recorded(e.statuses, k, source, head) || FetchedSomewhere(subscribers, script, k)
  {
    if subscribers != [] {
      var n := |subscribers| - 1;
      var init := subscribers[..n];
      SuccessfulTick(e, init, script, source, head, k);
      assert FetchedSomewhere(subscribers, script, k) <==>
             FetchedSomewhere(init, script, k) || (subscribers[n] == k && script(n).fetch == Fetched) by {
        if i :| 0 <= i < |init| && init[i] == k && script(i).fetch == Fetched {
          assert subscribers[i] == k;
        }
      }
    }
  }

  /**
   The stored head moves exactly when the tick does not fail, and then every subscriber that was read
   records it. One that could not be read and did not record it is skipped for good: as long as the
   entry is kept no later tick at this head does anything.
   */
  lemma StoredHeadMoves(w: Watch, r: Round, later: seq<Round>, source: string, head: string, k: ObjectKey)
    requires StoredBefore(w, r) != head && RunRound(w, r, source, head).stored == head && NoneRenewed(later)
    ensures var v := RunRound(w, r, source, head);
            && (FetchedSomewhere(r.subscribers, r.script, k) ==> Recorded(v.effect.statuses, k, source, head))
            && RunRounds(v, later, source, head) == v
            && (k in r.subscribers && !FetchedSomewhere(r.subscribers, r.script, k)
                && !Recorded(w.effect.statuses, k, source, head)
                ==> !Recorded(RunRounds(v, later, source, head).effect.statuses, k, source, head))
  {
    var v := RunRound(w, r, source, head);
    SuccessfulTick(w.effect.(failed := false), r.subscribers, r.script, source, head, k);
    QuietAtHead(v, later, source, head);
  }

  lemma {:induction false} QuietAtHead(w: Watch, rounds: seq<Round>, source: string, head: string)
    requires w.stored == head && NoneRenewed(rounds)
    ensures RunRounds(w, rounds, source, head) == w
  {
    if rounds != [] {
      assert rounds[|rounds| - 1] in rounds;
      QuietAtHead(w, rounds[..|rounds| - 1], source, head);
    }
  }

  /** A subscriber that is read, does not record the head yet, and whose update does not go through. */
  ghost predicate Stuck(e: Effect, k: ObjectKey, r: Response, source: string, head: string) {
    r.fetch == Fetched && !Recorded(e.statuses, k, source, head) && !UpdateSucceeds(r.attempts)
  }

  lemma {:induction false} OthersUntouched(e: Effect, subscribers: seq<ObjectKey>, script: nat -> Response,
                                           source: string, head: string, k: ObjectKey, s: string, h: string)
    requires k !in subscribers || s != source
    ensures Recorded(Tick(e, subscribers, script, source, head).statuses, k, s, h) <==> Recorded(e.statuses, k, s, h)
  {
    if subscribers != [] {
      var n := |subscribers| - 1;
      OthersUntouched(e, subscribers[..n], script, source, head, k, s, h);
      assert subscribers[n] in subscribers;
    }
  }

  /** A tick over distinct subscribers fails exactly when one of them is stuck. */
  lemma {:induction false} TickFailsIff(e: Effect, subscribers: seq<ObjectKey>, script: nat -> Response,
                                        source: string, head: string)
    requires Distinct(subscribers) && !e.failed
    ensures Tick(e, subscribers, script, source, head).failed <==>
            exists i :: 0 <= i < |subscribers| && Stuck(e, subscribers[i], script(i), source, head)
  {
    if subscribers != [] {
      var n := |subscribers| - 1;
      var init := subscribers[..n];
      TickFailsIff(e, init, script, source, head);
      OthersUntouched(e, init, script, source, head, subscribers[n], source, head);
      assert forall i | 0 <= i < n :: subscribers[i] == init[i];
    }
  }

  /******* One subscriber's turn, and the stored head, case by case *******/

  /** The status of `k` already records the head of this repository. */
  predicate HasHead(statuses: Statuses, k: ObjectKey, source: string, head: string) {
    k in statuses && source in statuses[k] && statuses[k][source] == head
  }

  /** The update goes through at the first attempt, or after one or two lock conflicts. */
  predicate GoesThrough(attempts: nat -> Attempt) {
    || attempts(1) == Updated
    || (attempts(1) == LockConflict && attempts(2) == Updated)
    || (attempts(1) == LockConflict && attempts(2) == LockConflict && attempts(3) == Updated)
  }

  /** From `a` to `b` the entry of `k` for this repository is set to the head, and nothing else changes. */
  ghost predicate OnlySets(a: Statuses, b: Statuses, k: ObjectKey, source: string, head: string) {
    && HasHead(b, k, source, head) && b.Keys == a.Keys + {k}
    && (forall j | j in a && j != k :: b[j] == a[j])
    && (forall s | k in a && s in a[k] && s != source :: s in b[k] && b[k][s] == a[k][s])
    && (forall s | s in b[k] && s != source :: k in a && s in a[k])
  }

  /** What a tick makes of its last subscriber, whatever the cluster answers for it. */
  lemma LastSubscriber(e: Effect, subscribers: seq<ObjectKey>, script: nat -> Response, source: string, head: string)
    requires subscribers != []
    ensures var n := |subscribers| - 1; var k := subscribers[n];
            var a, b := Tick(e, subscribers[..n], script, source, head), Tick(e, subscribers, script, source, head);
            if a.failed then b == a
            else match script(n).fetch
                 case NotFound => b == Effect(a.statuses, a.writes, true, false)
                 case FetchError => b == a
                 case Fetched =>
                   if HasHead(a.statuses, k, source, head) then b == a
                   else if GoesThrough(script(n).attempts) then
                     b.writes == a.writes + [k] && b.removed == a.removed && !b.failed
                     && OnlySets(a.statuses, b.statuses, k, source, head)
                   else b == Effect(a.statuses, a.writes, a.removed, true)
  {
    hide UpdateSucceeds;
    UpdateSucceedsIff(script(|subscribers| - 1).attempts);
  }

  /** A lock conflict, another one, then success: the subscriber is recorded in this tick. */
  lemma ThirdAttemptCounts(statuses: Statuses, k: ObjectKey, script: nat -> Response, source: string, head: string)
    requires script(0).fetch == Fetched && !HasHead(statuses, k, source, head)
    requires script(0).attempts(1) == LockConflict && script(0).attempts(2) == LockConflict
    ensures var e := Tick(Effect(statuses, [], false, false), [k], script, source, head);
            if script(0).attempts(3) == Updated
            then !e.failed && e.writes == [k] && OnlySets(statuses, e.statuses, k, source, head)
            else e.failed && e.writes == [] && e.statuses == statuses
  {
    var start := Effect(statuses, [], false, false);
    assert [k][..0] == [] && Tick(start, [], script, source, head) == start;
    LastSubscriber(start, [k], script, source, head);
  }

  /** The entry is dropped exactly when some subscriber is reported missing before the tick fails. */
  lemma {:induction false} RemovedIff(e: Effect, subscribers: seq<ObjectKey>, script: nat -> Response,
                                      source: string, head: string)
    ensures Tick(e, subscribers, script, source, head).removed <==>
            e.removed || exists i :: 0 <= i < |subscribers| && script(i).fetch == NotFound
                                     && !Tick(e, subscribers[..i], script, source, head).failed
  {
    if subscribers != [] {
      var n := |subscribers| - 1;
      var init := subscribers[..n];
      RemovedIff(e, init, script, source, head);
      assert forall i | 0 <= i < n :: init[..i] == subscribers[..i];
      LastSubscriber(e, subscribers, script, source, head);
    }
  }

  /** A subscriber that keeps the tick from succeeding. */
  ghost predicate HoldsUp(statuses: Statuses, k: ObjectKey, r: Response, source: string, head: string) {
    r.fetch == Fetched && !HasHead(statuses, k, source, head) && !GoesThrough(r.attempts)
  }

  /** After a tick the head is stored exactly when it was before, or nobody held the tick up. */
  lemma HeadStoredIff(w: Watch, r: Round, source: string, head: string)
    requires Distinct(r.subscribers)
    ensures var v, stored := RunRound(w, r, source, head), if r.renewed then "" else w.stored;
            if stored == head || forall i | 0 <= i < |r.subscribers| ::
                                   !HoldsUp(w.effect.statuses, r.subscribers[i], r.script(i), source, head)
            then v.stored == head
            else v.stored == stored
  {
    var e := w.effect.(failed := false);
    TickFailsIff(e, r.subscribers, r.script, source, head);
    forall i | 0 <= i < |r.subscribers|
      ensures Stuck(e, r.subscribers[i], r.script(i), source, head) <==>
              HoldsUp(w.effect.statuses, r.subscribers[i], r.script(i), source, head)
    {
      UpdateSucceedsIff(r.script(i).attempts);
    }
  }
}
