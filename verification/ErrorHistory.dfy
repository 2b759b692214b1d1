/**
 The validation-error history of an environment (api/src/errors/errors.service.ts): an error post adds
 a `validation_failed` reconcile, and the next clean post copies the last good one back on top.
 */
module ErrorHistory {
  import opened Types

  const VALIDATION_FAILED := "validation_failed"

  /** A row of environment_reconcile. A reconcile still under way has no end time. */
  datatype Recon = Recon(status: string, endTime: Option<nat>, cost: int, errors: Option<seq<string>>)

  /** The rows in id order, and the row that latestEnvRecon points to. */
  datatype History = History(rows: seq<Recon>, latest: Option<nat>)

  /** A post carries the error messages, or none. */
  datatype Post = Post(errors: Option<seq<string>>, now: nat)

  ghost predicate Valid(h: History) {
    h.latest.Some? ==> h.latest.value < |h.rows|
  }

  predicate Failed(r: Recon) {
    r.status == VALIDATION_FAILED
  }

  /** Descending order of the nullable end time: missing ones come last. */
  predicate Later(a: Option<nat>, b: Option<nat>) {
    a.Some? && (b.None? || a.value > b.value)
  }

  /** A row that the query for the newest non-failed reconcile may return; ties are broken arbitrarily. */
  predicate IsNewestGood(rows: seq<Recon>, i: nat) {
    i < |rows| && !Failed(rows[i]) &&
    forall j | 0 <= j < |rows| :: Failed(rows[j]) || !Later(rows[j].endTime, rows[i].endTime)
  }

  function Insert(h: History, r: Recon): History {
    History(h.rows + [r], Some(|h.rows|))
  }

  function Latest(h: History): Recon
    requires h.latest.Some? && h.latest.value < |h.rows|
  {
    h.rows[h.latest.value]
  }

  ghost predicate ValidPost(h: History, now: nat, h': History)
    requires Valid(h)
  {
    if h.latest.None? || !Failed(Latest(h)) then h' == h
    else if forall i | 0 <= i < |h.rows| :: Failed(h.rows[i]) then h' == h
    else exists i: nat :: IsNewestGood(h.rows, i) && h' == Insert(h, Recon(h.rows[i].status, Some(now), h.rows[i].cost, None))
  }

  ghost predicate InvalidPost(h: History, errors: seq<string>, now: nat, h': History)
    requires Valid(h)
  {
    if h.latest.Some? && Latest(h).errors == Some(errors) then h' == h
    else h' == Insert(h, Recon(VALIDATION_FAILED, Some(now), 0, Some(errors)))
  }

  ghost predicate Step(h: History, p: Post, h': History) {
    Valid(h) && match p.errors
                case None => ValidPost(h, p.now, h')
                case Some(errors) => InvalidPost(h, errors, p.now, h')
  }

  /** Some row is not failed, so one of them is newest. */
  lemma {:induction false} NewestGoodExists(rows: seq<Recon>) returns (i: nat)
    requires exists j :: 0 <= j < |rows| && !Failed(rows[j])
    ensures IsNewestGood(rows, i)
  {
    var n := |rows| - 1;
    if j :| 0 <= j < n && !Failed(rows[j]) {
      assert rows[..n][j] == rows[j];
      var k := NewestGoodExists(rows[..n]);
      assert forall m | 0 <= m < n :: rows[..n][m] == rows[m];
      i := if !Failed(rows[n]) && Later(rows[n].endTime, rows[k].endTime) then n else k;
    } else {
      i := n;
    }
  }

  class ErrorsService {
    var rows: seq<Recon>
    var latest: Option<nat>

    ghost function View(): History
      reads this
    {
      History(rows, latest)
    }

    method CreateErrorEnvRecon(status: string, now: nat, cost: int, errors: Option<seq<string>>)
      modifies this
      ensures View() == Insert(old(View()), Recon(status, Some(now), cost, errors))
    {
      latest := Some(|rows|);
      rows := rows + [Recon(status, Some(now), cost, errors)];
    }

    method ProcessValidRecon(now: nat)
      requires Valid(View())
      modifies this
      ensures Valid(View()) && ValidPost(old(View()), now, View())
    {
      if latest.None? || rows[latest.value].status != VALIDATION_FAILED {
        return;
      }
      if forall i | 0 <= i < |rows| :: Failed(rows[i]) {
        return;
      }
      ghost var witness_ := NewestGoodExists(rows);
      var i: nat :| i < |rows| && IsNewestGood(rows, i);
      CreateErrorEnvRecon(rows[i].status, now, rows[i].cost, None);
    }

    method ProcessInvalidRecon(errors: seq<string>, now: nat)
      requires Valid(View())
      modifies this
      ensures Valid(View()) && InvalidPost(old(View()), errors, now, View())
    {
      if latest.Some? && rows[latest.value].errors == Some(errors) {
        return;
      }
      CreateErrorEnvRecon(VALIDATION_FAILED, now, 0, Some(errors));
    }

    method SaveOrUpdate(p: Post)
      requires Valid(View())
      modifies this
      ensures Valid(View()) && Step(old(View()), p, View())
    {
      if p.errors.None? {
        ProcessValidRecon(p.now);
      } else {
        ProcessInvalidRecon(p.errors.value, p.now);
      }
    }
  }

  /******* Runs of posts *******/

  ghost predicate ClockAhead(rows: seq<Recon>, now: nat) {
    forall i | 0 <= i < |rows| && rows[i].endTime.Some? :: rows[i].endTime.value < now
  }

  ghost predicate IncreasingClock(rows: seq<Recon>, posts: seq<Post>) {
    && (posts != [] ==> ClockAhead(rows, posts[0].now))
    && forall i, j | 0 <= i < j < |posts| :: posts[i].now < posts[j].now
  }

  /** `states` runs through the posts, one state before and after each. */
  ghost predicate Run(states: seq<History>, posts: seq<Post>) {
    |states| == |posts| + 1 && forall i | 0 <= i < |posts| :: Step(states[i], posts[i], states[i + 1])
  }

  /** The latest reconcile is a good one without errors. */
  ghost predicate GoodStart(h: History) {
    Valid(h) && h.latest.Some? && !Failed(Latest(h)) && Latest(h).errors == None
  }

  /** Whatever row the query may return has the latest row's status and cost. */
  ghost predicate NewestAgrees(h: History)
    requires GoodStart(h)
  {
    forall i: nat | IsNewestGood(h.rows, i) :: h.rows[i].status == Latest(h).status && h.rows[i].cost == Latest(h).cost
  }

  /** The outcome after a run: the errors of the last post; the start is an outcome without errors. */
  function Outcome(posts: seq<Post>): Option<seq<string>> {
    if posts == [] then None else posts[|posts| - 1].errors
  }

  function Changes(posts: seq<Post>): nat {
    if posts == [] then 0
    else
      var init := posts[..|posts| - 1];
      Changes(init) + (if Outcome(init) == Outcome(posts) then 0 else 1)
  }

  /** What holds after every post, given the starting row and the number of rows at the start. */
  ghost predicate Restorable(h: History, start: Recon, n: nat, posts: seq<Post>) {
    && Valid(h) && h.latest.Some?
    && |h.rows| == n + Changes(posts)
    && Latest(h).errors == Outcome(posts)
    && (Failed(Latest(h)) <==> Outcome(posts) != None)
    && (Outcome(posts) == None ==> Latest(h).status == start.status && Latest(h).cost == start.cost)
    && (exists i: nat :: IsNewestGood(h.rows, i))
    && (forall i: nat | IsNewestGood(h.rows, i) :: h.rows[i].status == start.status && h.rows[i].cost == start.cost)
  }

  lemma FailedInsertKeepsGood(rows: seq<Recon>, r: Recon, i: nat)
    requires Failed(r)
    ensures IsNewestGood(rows + [r], i) <==> IsNewestGood(rows, i)
  {
    assert forall j | 0 <= j < |rows| :: (rows + [r])[j] == rows[j];
  }

  lemma InsertedIsNewest(rows: seq<Recon>, r: Recon, now: nat, i: nat)
    requires ClockAhead(rows, now) && r.endTime == Some(now) && !Failed(r)
    ensures IsNewestGood(rows + [r], i) <==> i == |rows|
  {
    var all := rows + [r];
    assert all[|rows|] == r && forall j | 0 <= j < |rows| :: all[j] == rows[j];
    if i < |rows| {
      assert Later(all[|rows|].endTime, all[i].endTime);
    }
  }

  lemma RestorableStep(h: History, p: Post, h': History, start: Recon, n: nat, posts: seq<Post>)
    requires Restorable(h, start, n, posts) && !Failed(start) && Step(h, p, h') && ClockAhead(h.rows, p.now)
    ensures Restorable(h', start, n, posts + [p])
    ensures h' != h ==> h'.rows[..|h.rows|] == h.rows && |h'.rows| == |h.rows| + 1 && Latest(h').endTime == Some(p.now)
  {
    var all := posts + [p];
    assert all[..|all| - 1] == posts && Outcome(all) == p.errors;
    if h' != h {
      var r := Latest(h');
      assert h'.rows == h.rows + [r];
      if Failed(r) {
        forall i: nat ensures IsNewestGood(h'.rows, i) <==> IsNewestGood(h.rows, i) {
          FailedInsertKeepsGood(h.rows, r, i);
        }
        assert forall i | 0 <= i < |h.rows| :: h'.rows[i] == h.rows[i];
      } else {
        forall i: nat ensures IsNewestGood(h'.rows, i) <==> i == |h.rows| {
          InsertedIsNewest(h.rows, r, p.now, i);
        }
        assert IsNewestGood(h'.rows, |h.rows|);
      }
    }
  }

  lemma StepKeepsClock(h: History, p: Post, h': History, now: nat)
    requires Valid(h) && Step(h, p, h') && ClockAhead(h.rows, p.now) && p.now < now
    ensures ClockAhead(h'.rows, now)
  {
    if h' != h {
      assert |h'.rows| == |h.rows| + 1 && h'.rows[|h.rows|].endTime == Some(p.now);
      assert forall i | 0 <= i < |h.rows| :: h'.rows[i] == h.rows[i];
    }
  }

  lemma RunInit(states: seq<History>, posts: seq<Post>, n: nat)
    requires Run(states, posts) && n <= |posts|
    ensures Run(states[..n + 1], posts[..n])
  {
    forall i | 0 <= i < n ensures Step(states[..n + 1][i], posts[..n][i], states[..n + 1][i + 1]) {
      assert Step(states[i], posts[i], states[i + 1]);
    }
  }

  /** The clock stays ahead of every row for all later posts. */
  lemma {:induction false} RunKeepsClock(states: seq<History>, posts: seq<Post>, now: nat)
    requires Run(states, posts) && IncreasingClock(states[0].rows, posts)
    requires if posts == [] then ClockAhead(states[0].rows, now) else posts[|posts| - 1].now < now
    ensures ClockAhead(states[|posts|].rows, now)
  {
    if posts != [] {
      var n := |posts| - 1;
      RunInit(states, posts, n);
      assert Step(states[n], posts[n], states[n + 1]);
      RunKeepsClock(states[..n + 1], posts[..n], posts[n].now);
      hide Run, IncreasingClock, ClockAhead;
      StepKeepsClock(states[n], posts[n], states[n + 1], now);
    }
  }

  lemma StartIsRestorable(h: History)
    requires GoodStart(h) && NewestAgrees(h)
    ensures Restorable(h, Latest(h), |h.rows|, [])
  {
    var i := NewestGoodExists(h.rows);
  }

  lemma {:induction false} RestorableRun(states: seq<History>, posts: seq<Post>)
    requires Run(states, posts) && GoodStart(states[0]) && NewestAgrees(states[0])
    requires IncreasingClock(states[0].rows, posts)
    ensures Restorable(states[|posts|], Latest(states[0]), |states[0].rows|, posts)
  {
    var h := states[0];
    if posts == [] {
      StartIsRestorable(h);
    } else {
      var n := |posts| - 1;
      var init, p := posts[..n], posts[n];
      RunInit(states, posts, n);
      assert Step(states[n], p, states[n + 1]);
      hide NewestAgrees, Restorable, Step;
      RunKeepsClock(states[..n + 1], init, p.now);
      RestorableRun(states[..n + 1], init);
      hide Run, IncreasingClock, ClockAhead;
      RestorableStep(states[n], p, states[n + 1], Latest(h), |h.rows|, init);
      assert init + [p] == posts;
    }
  }

  /**
   After any sequence of posts at increasing times the latest reconcile is `validation_failed` exactly
   when the last post carried errors; otherwise it shows the starting status and cost. One row is
   inserted for every change of outcome.
   */
  lemma HistoryShowsOutcome(states: seq<History>, posts: seq<Post>)
    requires Run(states, posts) && GoodStart(states[0]) && NewestAgrees(states[0])
    requires IncreasingClock(states[0].rows, posts)
    ensures var end, start := states[|posts|], Latest(states[0]);
            && Valid(end) && end.latest.Some?
            && (Latest(end).status == "validation_failed" <==> Outcome(posts) != None)
            && (Outcome(posts) == None ==> Latest(end).status == start.status && Latest(end).cost == start.cost)
            && Latest(end).errors == Outcome(posts)
            && |end.rows| == |states[0].rows| + Changes(posts)
  {
    RestorableRun(states, posts);
  }

  /** A finished, or unfinished, row that is not failed and that no other such row ended after. */
  ghost predicate NewestGoodRow(rows: seq<Recon>, r: Recon) {
    && r in rows && r.status != "validation_failed"
    && forall q | q in rows && q.status != "validation_failed" && q.endTime.Some? ::
         r.endTime.Some? && q.endTime.value <= r.endTime.value
  }

  /** What one post leaves behind: the history as it was, or one more row on top. */
  lemma PostCases(h: History, p: Post, h': History)
    requires Step(h, p, h')
    ensures h' == h || (|h'.rows| == |h.rows| + 1 && h'.rows[..|h.rows|] == h.rows && h'.latest == Some(|h.rows|))
    ensures p.errors.Some? ==>
              if h.latest.Some? && h.rows[h.latest.value].errors == p.errors then h' == h
              else h' != h && h'.rows[|h.rows|] == Recon("validation_failed", Some(p.now), 0, p.errors)
    ensures p.errors.None? ==>
              if h.latest.Some? && h.rows[h.latest.value].status == "validation_failed"
                 && exists r :: r in h.rows && r.status != "validation_failed"
              then h' != h && exists r :: NewestGoodRow(h.rows, r)
                                          && h'.rows[|h.rows|] == Recon(r.status, Some(p.now), r.cost, None)
              else h' == h
  {
    if p.errors.None? && h' != h {
      var i: nat :| IsNewestGood(h.rows, i) && h' == Insert(h, Recon(h.rows[i].status, Some(p.now), h.rows[i].cost, None));
      var r := h.rows[i];
      forall q | q in h.rows && q.status != "validation_failed" && q.endTime.Some?
        ensures r.endTime.Some? && q.endTime.value <= r.endTime.value
      {
        var j :| 0 <= j < |h.rows| && h.rows[j] == q;
        assert Failed(h.rows[j]) || !Later(h.rows[j].endTime, r.endTime);
      }
      assert NewestGoodRow(h.rows, r);
    }
    if p.errors.None? && h' == h {
      forall r | r in h.rows && r.status != "validation_failed"
        ensures !(h.latest.Some? && h.rows[h.latest.value].status == "validation_failed")
      {
        var j :| 0 <= j < |h.rows| && h.rows[j] == r;
        assert !Failed(h.rows[j]);
      }
    }
  }

  /** The history gets back to its start after every run that ends clean. */
  ghost predicate AlwaysRestored(h: History)
    requires GoodStart(h)
  {
    forall states: seq<History>, posts: seq<Post> |
      Run(states, posts) && states[0] == h && IncreasingClock(h.rows, posts) && Outcome(posts) == None ::
      Valid(states[|posts|]) && states[|posts|].latest.Some?
      && Latest(states[|posts|]).status == Latest(h).status && Latest(states[|posts|]).cost == Latest(h).cost
  }

  /** One failure and its repair bring back whichever newest row the query returned. */
  lemma RepairRestoresPicked(h: History, i: nat, now: nat) returns (states: seq<History>, posts: seq<Post>)
    requires GoodStart(h) && IsNewestGood(h.rows, i) && ClockAhead(h.rows, now)
    ensures Run(states, posts) && states[0] == h && IncreasingClock(h.rows, posts) && Outcome(posts) == None
    ensures Valid(states[|posts|]) && states[|posts|].latest.Some?
    ensures Latest(states[|posts|]).status == h.rows[i].status && Latest(states[|posts|]).cost == h.rows[i].cost
  {
    var failed := Recon(VALIDATION_FAILED, Some(now), 0, Some([]));
    var h1 := Insert(h, failed);
    FailedInsertKeepsGood(h.rows, failed, i);
    var h2 := Insert(h1, Recon(h.rows[i].status, Some(now + 1), h.rows[i].cost, None));
    states, posts := [h, h1, h2], [Post(Some([]), now), Post(None, now + 1)];
    assert h1.rows[i] == h.rows[i] && Failed(Latest(h1));
    assert Step(h, posts[0], h1) && Step(h1, posts[1], h2);
  }

  lemma {:induction false} SomeLaterTime(rows: seq<Recon>) returns (now: nat)
    ensures ClockAhead(rows, now)
  {
    if rows == [] {
      now := 0;
    } else {
      var n := |rows| - 1;
      now := SomeLaterTime(rows[..n]);
      assert forall i | 0 <= i < n :: rows[i] == rows[..n][i];
      if rows[n].endTime.Some? && rows[n].endTime.value >= now {
        now := rows[n].endTime.value + 1;
      }
    }
  }

  /**
   The good state is always restored exactly when the newest finished good row already shows it; a
   latest reconcile that is still under way, say, is replaced by an older one.
   */
  lemma AlwaysRestoredIff(h: History)
    requires GoodStart(h)
    ensures AlwaysRestored(h) <==> NewestAgrees(h)
  {
    if NewestAgrees(h) {
      forall states: seq<History>, posts: seq<Post> |
        Run(states, posts) && states[0] == h && IncreasingClock(h.rows, posts) && Outcome(posts) == None
        ensures Valid(states[|posts|]) && states[|posts|].latest.Some?
        ensures Latest(states[|posts|]).status == Latest(h).status && Latest(states[|posts|]).cost == Latest(h).cost
      {
        HistoryShowsOutcome(states, posts);
      }
    } else {
      var i: nat :| IsNewestGood(h.rows, i) && !(h.rows[i].status == Latest(h).status && h.rows[i].cost == Latest(h).cost);
      var now := SomeLaterTime(h.rows);
      var states, posts := RepairRestoresPicked(h, i, now);
    }
  }

  /** Where no reconcile ever succeeded, a failed one stays on top whatever is posted. */
  lemma {:induction false} FailureSticks(states: seq<History>, posts: seq<Post>)
    requires Run(states, posts) && Valid(states[0]) && states[0].latest.Some?
    requires forall r | r in states[0].rows :: Failed(r)
    ensures var end := states[|posts|];
            Valid(end) && end.latest.Some? && Latest(end).status == "validation_failed" && forall r | r in end.rows :: Failed(r)
  {
    var h := states[0];
    assert Latest(h) in h.rows;
    if posts != [] {
      assert Step(states[0], posts[0], states[1]);
      var h1 := states[1];
      assert forall r | r in h1.rows :: r in h.rows || r == h1.rows[|h1.rows| - 1];
      forall i | 0 <= i < |posts[1..]| ensures Step(states[1..][i], posts[1..][i], states[1..][i + 1]) {
        assert Step(states[i + 1], posts[i + 1], states[i + 1 + 1]);
      }
      FailureSticks(states[1..], posts[1..]);
    }
  }
}
