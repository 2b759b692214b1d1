/** The bounded retry loop (il-operator/controller/util/retry.go) and the status update it guards. */
module Retry {
  import opened Types

  const MAX_RETRIES := 10
  const UPDATE_ATTEMPTS := 3

  datatype Error = RetryLimit | OptimisticLock | OtherError

  /** What a retried function answers to its n-th call: whether to go on, and its error. */
  datatype Answer = Answer(retry: bool, err: Option<Error>)

  type Func = nat -> Answer

  /** The call ends the loop. */
  predicate Stops(fn: Func, attempt: nat) {
    !fn(attempt).retry || fn(attempt).err == None
  }

  /** The n-th call is the first that asks for no other one, or has no error. */
  predicate EndsAt(fn: Func, n: nat) {
    (!fn(n).retry || fn(n).err == None) && forall a | 1 <= a < n :: fn(a).retry && fn(a).err != None
  }

  lemma FirstEnd(fn: Func, attempt: nat)
    requires 1 <= attempt && Stops(fn, attempt) && forall a | 1 <= a < attempt :: !Stops(fn, a)
    ensures forall n | 1 <= n && EndsAt(fn, n) :: n == attempt
  {
    forall n | 1 <= n && EndsAt(fn, n) ensures n == attempt {
      assert Stops(fn, n);
      assert n > attempt ==> fn(attempt).retry && fn(attempt).err != None;
    }
  }

  method Retry(fn: Func) returns (err: Option<Error>, calls: nat)
    ensures 1 <= calls <= MAX_RETRIES
    ensures forall a | 1 <= a < calls :: !Stops(fn, a)
    ensures err == if Stops(fn, calls) then fn(calls).err else Some(RetryLimit)
    ensures !Stops(fn, calls) ==> calls == MAX_RETRIES
    ensures err == None <==> fn(calls).err == None
    ensures calls <= 10
    ensures (forall a | 1 <= a <= 10 :: fn(a).retry && fn(a).err != None) ==> err == Some(RetryLimit) && calls == 10
    ensures forall n | 1 <= n <= 10 && EndsAt(fn, n) :: calls == n && err == fn(n).err
  {
    var attempt := 1;
    while true
      invariant 1 <= attempt <= MAX_RETRIES
      invariant forall a | 1 <= a < attempt :: !Stops(fn, a)
      decreases MAX_RETRIES - attempt
    {
      var answer := fn(attempt);
      if !answer.retry || answer.err == None {
        FirstEnd(fn, attempt);
        return answer.err, attempt;
      }
      attempt := attempt + 1;
      if attempt > MAX_RETRIES {
        assert forall n | 1 <= n <= 10 && EndsAt(fn, n) :: Stops(fn, n);
        return Some(RetryLimit), attempt - 1;
      }
    }
  }

  /** What the cluster answers to one status update. */
  datatype Attempt = Updated | LockConflict | Refused

  function RetryableUpdate(attempts: nat -> Attempt): Func {
    (attempt: nat) =>
      match attempts(attempt)
      case Updated => Answer(false, None)
      case LockConflict => Answer(attempt < UPDATE_ATTEMPTS, Some(OptimisticLock))
      case Refused => Answer(false, Some(OtherError))
  }

  /** Some attempt up to the third succeeds, and only lock conflicts come before it. */
  predicate UpdateSucceeds(attempts: nat -> Attempt) {
    exists n | 1 <= n <= UPDATE_ATTEMPTS :: SucceedsAt(attempts, n)
  }

  predicate SucceedsAt(attempts: nat -> Attempt, n: nat) {
    attempts(n) == Updated && forall a | 1 <= a < n :: attempts(a) == LockConflict
  }

  /** An update is given three attempts, and only a lock conflict is tried again. */
  lemma UpdateSucceedsIff(attempts: nat -> Attempt)
    ensures UpdateSucceeds(attempts) <==>
            || attempts(1) == Updated
            || (attempts(1) == LockConflict && attempts(2) == Updated)
            || (attempts(1) == LockConflict && attempts(2) == LockConflict && attempts(3) == Updated)
  {
    if n: nat :| 1 <= n <= UPDATE_ATTEMPTS && SucceedsAt(attempts, n) {
      assert n == 1 || n == 2 || n == 3;
    }
    if attempts(1) == Updated {
      assert SucceedsAt(attempts, 1);
    } else if attempts(2) == Updated && attempts(1) == LockConflict {
      assert SucceedsAt(attempts, 2);
    } else if attempts(3) == Updated && attempts(2) == LockConflict && attempts(1) == LockConflict {
      assert SucceedsAt(attempts, 3);
    }
  }

  /** The guarded update: at most three attempts, and the retry limit is never what it reports. */
  method UpdateStatus(attempts: nat -> Attempt) returns (err: Option<Error>, calls: nat)
    ensures 1 <= calls <= UPDATE_ATTEMPTS
    ensures forall a | 1 <= a < calls :: attempts(a) == LockConflict
    ensures err != Some(RetryLimit)
    ensures err == None <==> UpdateSucceeds(attempts)
    ensures err == None ==> attempts(calls) == Updated
    ensures err == Some(OptimisticLock) ==> calls == UPDATE_ATTEMPTS
    ensures (err, calls) == match (attempts(1), attempts(2), attempts(3))
                            case (Updated, _, _) => (None, 1)
                            case (Refused, _, _) => (Some(OtherError), 1)
                            case (LockConflict, Updated, _) => (None, 2)
                            case (LockConflict, Refused, _) => (Some(OtherError), 2)
                            case (LockConflict, LockConflict, Updated) => (None, 3)
                            case (LockConflict, LockConflict, Refused) => (Some(OtherError), 3)
                            case (LockConflict, LockConflict, LockConflict) => (Some(OptimisticLock), 3)
  {
    var fn := RetryableUpdate(attempts);
    err, calls := Retry(fn);
    assert Stops(fn, UPDATE_ATTEMPTS);
    forall a | 1 <= a < calls ensures attempts(a) == LockConflict {
      assert !Stops(fn, a);
    }
    forall n | 1 <= n <= UPDATE_ATTEMPTS && SucceedsAt(attempts, n) ensures n == calls {
      assert Stops(fn, n);
    }
    if err == None {
      assert SucceedsAt(attempts, calls);
    }
  }
}
