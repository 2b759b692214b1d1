/**
 The git reconciler (il-operator/controller/services/gitreconciler/reconciler.go): a table of watched
 repositories with their subscribers, and the tick that records a new head commit in the status of
 every subscribed environment.
 */
module GitReconciler {
  import opened Types
  import opened Retry

  datatype ObjectKey = ObjectKey(namespace_: string, name: string)

  /** Overwrite the entry with the last one and drop the last one. */
  function SwapRemove(s: seq<ObjectKey>, i: nat): (r: seq<ObjectKey>)
    requires i < |s|
  {
    s[i := s[|s| - 1]][..|s| - 1]
  }

  lemma SwapRemoveDistinct(s: seq<ObjectKey>, i: nat)
    requires i < |s| && Distinct(s)
    ensures Distinct(SwapRemove(s, i))
    ensures forall k :: k in SwapRemove(s, i) <==> k in s && k != s[i]
  {
    var r, last := SwapRemove(s, i), |s| - 1;
    forall k | k in s && k != s[i] ensures k in r {
      var j :| 0 <= j < |s| && s[j] == k;
      assert r[if j == last then i else j] == k;
    }
  }

  lemma DistinctSnoc(s: seq<ObjectKey>, k: ObjectKey)
    requires Distinct(s) && k !in s
    ensures Distinct(s + [k])
  {
  }

  lemma DistinctOne(k: ObjectKey)
    ensures Distinct([k])
  {
  }

  /******* Recording a new head commit *******/

  datatype Fetch = Fetched | NotFound | FetchError

  /** How the cluster answers for one subscriber: to the read, and to each attempt at the update. */
  datatype Response = Response(fetch: Fetch, attempts: nat -> Attempt)

  /** For every environment, the head commit its status records for each repository. */
  type Statuses = map<ObjectKey, map<string, string>>

  predicate Recorded(statuses: Statuses, k: ObjectKey, source: string, head: string) {
    k in statuses && source in statuses[k] && statuses[k][source] == head
  }

  function Record(statuses: Statuses, k: ObjectKey, source: string, head: string): Statuses {
    statuses[k := (if k in statuses then statuses[k] else map[])[source := head]]
  }

  /** The effect of a tick so far; `writes` lists the successful status updates in order. */
  datatype Effect = Effect(statuses: Statuses, writes: seq<ObjectKey>, removed: bool, failed: bool)

  function Visit(e: Effect, k: ObjectKey, r: Response, source: string, head: string): Effect {
    if e.failed then e
    else
      match r.fetch
      case NotFound => e.(removed := true)
      case FetchError => e
      case Fetched =>
        if Recorded(e.statuses, k, source, head) then e
        else if UpdateSucceeds(r.attempts) then
          e.(statuses := Record(e.statuses, k, source, head), writes := e.writes + [k])
        else e.(failed := true)
  }

  /** One tick over the subscriber list; `script` answers by position. */
  function Tick(e: Effect, subscribers: seq<ObjectKey>, script: nat -> Response, source: string, head: string): Effect {
    if subscribers == [] then e
    else
      var n := |subscribers| - 1;
      Visit(Tick(e, subscribers[..n], script, source, head), subscribers[n], script(n), source, head)
  }

  lemma TickStep(e: Effect, subscribers: seq<ObjectKey>, script: nat -> Response, source: string, head: string)
    requires subscribers != []
    ensures var n := |subscribers| - 1;
            Tick(e, subscribers, script, source, head) ==
            Visit(Tick(e, subscribers[..n], script, source, head), subscribers[n], script(n), source, head)
  {
  }

  class Cluster {
    var statuses: Statuses
    ghost var writes: seq<ObjectKey>

    constructor (statuses: Statuses)
      ensures this.statuses == statuses && writes == []
    {
      this.statuses := statuses;
      writes := [];
    }
  }

  /** Nothing happens after the failure of a tick. */
  lemma {:induction false} TickFailsForGood(e: Effect, subscribers: seq<ObjectKey>, n: nat, script: nat -> Response,
                                            source: string, head: string)
    requires n <= |subscribers|
    ensures var part := Tick(e, subscribers[..n], script, source, head);
            part.failed ==> Tick(e, subscribers, script, source, head) == part
  {
    if n == |subscribers| {
      assert subscribers[..n] == subscribers;
    } else {
      var init := subscribers[..|subscribers| - 1];
      TickFailsForGood(e, init, n, script, source, head);
      assert init[..n] == subscribers[..n];
    }
  }

  class WatchedRepository {
    const source: string
    var headCommitHash: string
    var subscribers: seq<ObjectKey>

    constructor (source: string, subscriber: ObjectKey)
      ensures this.source == source && headCommitHash == "" && subscribers == [subscriber]
    {
      this.source := source;
      headCommitHash := "";
      subscribers := [subscriber];
    }

    /** The search loop of Subscribe. */
    method Knows(subscriber: ObjectKey) returns (known: bool)
      ensures known <==> subscriber in subscribers
    {
      for i := 0 to |subscribers|
        invariant subscriber !in subscribers[..i]
      {
        if subscribers[i] == subscriber {
          return true;
        }
      }
      return false;
    }

    /** The search-and-remove loop that Unsubscribe and UnsubscribeAll share. */
    method Drop(subscriber: ObjectKey)
      requires Distinct(subscribers)
      modifies this`subscribers
      ensures Distinct(subscribers)
      ensures forall k :: k in subscribers <==> k in old(subscribers) && k != subscriber
      ensures subscriber !in old(subscribers) ==> subscribers == old(subscribers)
    {
      for i := 0 to |subscribers|
        invariant subscribers == old(subscribers)
        invariant subscriber !in subscribers[..i]
      {
        if subscribers[i] == subscriber {
          SwapRemoveDistinct(subscribers, i);
          subscribers := SwapRemove(subscribers, i);
          return;
        }
      }
    }
  }

  /** The abstract table: each live repository with the set of its subscribers. */
  type Table = map<string, set<ObjectKey>>

  class Reconciler {
    /** An entry is nil after Remove. */
    var state: map<string, WatchedRepository?>

    ghost function Repr(): set<object>
      reads this
    {
      set url | url in state && state[url] != null :: state[url]
    }

    ghost predicate Live(url: string)
      reads this
    {
      url in state && state[url] != null
    }

    /** Every live entry is filed under its own source and lists nobody twice. */
    ghost predicate Valid()
      reads this, Repr()
    {
      forall url | Live(url) :: state[url].source == url && Distinct(state[url].subscribers)
    }

    ghost function Subscribers(url: string): set<ObjectKey>
      requires Live(url)
      reads this, Repr()
    {
      set k | k in state[url].subscribers
    }

    ghost function View(): Table
      reads this, Repr()
    {
      map url | url in state && state[url] != null :: Subscribers(url)
    }

    constructor ()
      ensures Valid() && View() == map[] && fresh(Repr())
    {
      state := map[];
    }

    /** A watched repository: the subscriber is appended unless it is there. */
    method SubscribeWatched(url: string, subscriber: ObjectKey) returns (subscribed: bool)
      requires Valid() && Live(url)
      modifies Repr()
      ensures Valid()
      ensures subscribed <==> subscriber in old(View())[url]
      ensures View() == old(View())[url := old(View())[url] + {subscriber}]
      ensures !subscribed ==> state[url].subscribers == old(state[url].subscribers) + [subscriber]
    {
      hide Distinct;
      var wr := state[url];
      subscribed := wr.Knows(subscriber);
      if !subscribed {
        DistinctSnoc(wr.subscribers, subscriber);
        wr.subscribers := wr.subscribers + [subscriber];
      }
      assert Subscribers(url) == old(Subscribers(url)) + {subscriber};
    }

    /** An absent or nil entry: the repository is registered with its first subscriber. */
    method Watch(url: string, subscriber: ObjectKey)
      requires Valid() && !Live(url)
      modifies this`state
      ensures Valid() && fresh(Repr() - old(Repr()))
      ensures View() == old(View())[url := {subscriber}]
    {
      hide Distinct;
      DistinctOne(subscriber);
      var wr := new WatchedRepository(url, subscriber);
      state := state[url := wr];
      assert Subscribers(url) == {subscriber} && url !in old(View());
      hide Subscribers;
      assert View().Keys == old(View()).Keys + {url};
    }

    method Subscribe(url: string, subscriber: ObjectKey) returns (subscribed: bool)
      requires Valid()
      modifies this, Repr()
      ensures Valid() && fresh(Repr() - old(Repr()))
      ensures subscribed <==> url in old(View()) && subscriber in old(View())[url]
      ensures View() == old(View())[url := (if url in old(View()) then old(View())[url] else {}) + {subscriber}]
      ensures old(Live(url)) && !subscribed ==>
                Live(url) && state[url].subscribers == old(state[url].subscribers) + [subscriber]
    {
      if url in state && state[url] != null {
        subscribed := SubscribeWatched(url, subscriber);
      } else {
        Watch(url, subscriber);
        subscribed := false;
        assert {} + {subscriber} == {subscriber};
      }
    }

    method Unsubscribe(url: string, subscriber: ObjectKey)
      requires Valid()
      modifies Repr()
      ensures Valid()
      ensures View() == if url in old(View()) then old(View())[url := old(View())[url] - {subscriber}] else old(View())
    {
      if url !in state || state[url] == null {
        return;
      }
      var wr := state[url];
      wr.Drop(subscriber);
      assert Subscribers(url) == old(Subscribers(url)) - {subscriber};
    }

    /** The set of one repository with and without the subscriber, whichever it is by now. */
    ghost predicate PartlyDropped(before: Table, subscriber: ObjectKey)
      reads this, Repr()
    {
      && View().Keys == before.Keys
      && forall url | url in before :: View()[url] == before[url] || View()[url] == before[url] - {subscriber}
    }

    /**
     Dereferences every entry, so it panics exactly when one is nil; some repositories are done by
     then, in the arbitrary order of a Go map range.
     */
    method UnsubscribeAll(subscriber: ObjectKey) returns (panicked: bool)
      requires Valid()
      modifies Repr()
      ensures Valid()
      ensures panicked <==> exists url :: url in state && state[url] == null
      ensures !panicked ==> View() == map url | url in old(View()) :: old(View())[url] - {subscriber}
      ensures panicked ==> PartlyDropped(old(View()), subscriber)
    {
      hide Distinct;
      ghost var before := View();
      var rest := state.Keys;
      while rest != {}
        invariant rest <= state.Keys && Valid() && View().Keys == before.Keys
        invariant forall url | url in state && url !in rest :: state[url] != null
        invariant forall url | Live(url) :: Subscribers(url) == if url in rest then before[url] else before[url] - {subscriber}
        decreases rest
      {
        var url :| url in rest;
        if state[url] == null {
          return true;
        }
        label L:
        state[url].Drop(subscriber);
        assert Subscribers(url) == old@L(Subscribers(url)) - {subscriber};
        rest := rest - {url};
      }
      return false;
    }

    /** Keeps the key with a nil entry. */
    method Remove(url: string)
      requires Valid()
      modifies this`state
      ensures Valid() && state == old(state)[url := null]
      ensures View() == old(View()) - {url}
    {
      hide Distinct;
      state := state[url := null];
    }

    /** The loop over the subscribers, up to the first update that fails. */
    method VisitSubscribers(wr: WatchedRepository, head: string, cluster: Cluster, script: nat -> Response)
      returns (removed: bool, failed: bool)
      requires Valid()
      modifies this`state, cluster
      ensures Valid()
      ensures Tick(Effect(old(cluster.statuses), old(cluster.writes), false, false), wr.subscribers, script, wr.source, head)
           == Effect(cluster.statuses, cluster.writes, removed, failed)
      ensures state == if removed then old(state)[wr.source := null] else old(state)
    {
      ghost var start := Effect(cluster.statuses, cluster.writes, false, false);
      removed := false;
      assert Tick(start, wr.subscribers[..0], script, wr.source, head) == start;
      hide Distinct, Tick, Visit;
      for i := 0 to |wr.subscribers|
        invariant Tick(start, wr.subscribers[..i], script, wr.source, head)
               == Effect(cluster.statuses, cluster.writes, removed, false)
        invariant state == if removed then old(state)[wr.source := null] else old(state)
        invariant Valid()
      {
        TickStep(start, wr.subscribers[..i + 1], script, wr.source, head);
        assert wr.subscribers[..i + 1][..i] == wr.subscribers[..i];
        TickFailsForGood(start, wr.subscribers, i + 1, script, wr.source, head);
        var gone, broken := VisitNext(wr.subscribers[i], wr.source, head, cluster, script(i), removed);
        removed := removed || gone;
        if broken {
          return removed, true;
        }
      }
      assert wr.subscribers[..|wr.subscribers|] == wr.subscribers;
      return removed, false;
    }

    /** The loop body for one subscriber. */
    method VisitNext(k: ObjectKey, source: string, head: string, cluster: Cluster, response: Response, ghost removed: bool)
      returns (gone: bool, broken: bool)
      requires Valid()
      modifies this`state, cluster
      ensures Valid()
      ensures Visit(Effect(old(cluster.statuses), old(cluster.writes), removed, false), k, response, source, head)
           == Effect(cluster.statuses, cluster.writes, removed || gone, broken)
      ensures state == if gone then old(state)[source := null] else old(state)
    {
      hide Distinct, Recorded, Record, UpdateSucceeds;
      if response.fetch == NotFound {
        Remove(source);
        return true, false;
      }
      if response.fetch == FetchError {
        return false, false;
      }
      var ok := VisitOne(k, source, head, cluster, response, removed);
      return false, !ok;
    }

    /** A subscriber that was read: its status is updated unless it records the head already. */
    method VisitOne(k: ObjectKey, source: string, head: string, cluster: Cluster, response: Response, ghost removed: bool)
      returns (ok: bool)
      requires response.fetch == Fetched
      modifies cluster
      ensures Visit(Effect(old(cluster.statuses), old(cluster.writes), removed, false), k, response, source, head)
           == Effect(cluster.statuses, cluster.writes, removed, !ok)
    {
      if k in cluster.statuses && source in cluster.statuses[k] && cluster.statuses[k][source] == head {
        return true;
      }
      var gitState := if k in cluster.statuses then cluster.statuses[k] else map[];
      var err, calls := UpdateStatus(response.attempts);
      if err != None {
        return false;
      }
      cluster.statuses := cluster.statuses[k := gitState[source := head]];
      cluster.writes := cluster.writes + [k];
      return true;
    }

    /** One tick for one repository; `fetched` is its head commit, None when no clone could be had. */
    method Reconcile(wr: WatchedRepository, fetched: Option<string>, cluster: Cluster, script: nat -> Response)
      returns (updated: bool, failed: bool)
      requires Valid()
      modifies this`state, wr`headCommitHash, cluster
      ensures Valid()
      ensures fetched.None? || fetched == Some(old(wr.headCommitHash)) ==>
                && !updated && failed == fetched.None? && state == old(state)
                && wr.headCommitHash == old(wr.headCommitHash)
                && cluster.statuses == old(cluster.statuses) && cluster.writes == old(cluster.writes)
      ensures fetched.Some? && fetched.value != old(wr.headCommitHash) ==>
                var e := Tick(Effect(old(cluster.statuses), old(cluster.writes), false, false),
                              wr.subscribers, script, wr.source, fetched.value);
                && cluster.statuses == e.statuses && cluster.writes == e.writes
                && failed == e.failed && updated == !e.failed
                && wr.headCommitHash == (if e.failed then old(wr.headCommitHash) else fetched.value)
                && state == if e.removed then old(state)[wr.source := null] else old(state)
    {
      hide Tick;
      if fetched.None? {
        return false, true;
      }
      if wr.headCommitHash == fetched.value {
        return false, false;
      }
      var removed, broken := VisitSubscribers(wr, fetched.value, cluster, script);
      if broken {
        return false, true;
      }
      wr.headCommitHash := fetched.value;
      return true, false;
    }
  }
}
