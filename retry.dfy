/** Bounded retry with an aggregate deadline and stop-listed errors.

    The worker goroutine and its two one-slot channels only enforce a strict
    ping-pong between the caller and the operation, so the model runs the
    attempts as a plain sequential loop. The operation is known only through
    the results its successive invocations return, and the wall clock only
    through an oracle saying, per attempt, whether the deadline won the
    `select` against that attempt's result. */
module Retry {
  import opened Wrappers

  /** Error values, compared by identity as Go compares interface values.
      The package's three sentinels are distinct values; every other error
      the operation can return is told apart by its identity `id`. The
      operation may also return one of the sentinels itself. */
  datatype Err = InvalidTimes | InvalidTimeout | RetryTimeout | Raised(id: nat)

  /** The operation to retry: either nil, or a function whose invocation
      number `i` (counting from 0) returns `results(i)`. */
  datatype RetryableFunc = Nil | Func(results: nat -> Option<Err>)

  /** What one call of `Do` amounts to: the error it returns and how many
      attempt indices it handed to the worker, each of which is one
      invocation of the operation. */
  datatype Report = Report(err: Option<Err>, invocations: nat)

  /** Identity membership of `err` in `errs`, scanning front to back. */
  function Contains(errs: seq<Err>, err: Err): (b: bool)
    ensures b <==> exists i :: 0 <= i < |errs| && errs[i] == err
  {
    if errs == [] then false
    else if errs[0] == err then true
    else Contains(errs[1..], err)
  }

  /** A result that ends the retry sequence: success (nil) or a stop-listed error. */
  predicate Terminal(result: Option<Err>, stopErrors: seq<Err>)
  {
    result.None? || Contains(stopErrors, result.value)
  }

  /** Attempt `k` ends the sequence: the deadline wins, or its result is terminal. */
  predicate Stops(k: nat, results: nat -> Option<Err>, deadlineWins: nat -> bool, stopErrors: seq<Err>)
  {
    deadlineWins(k) || Terminal(results(k), stopErrors)
  }

  /** What `Do` returns when attempt `k` is the last one it makes. */
  function LastOutcome(k: nat, results: nat -> Option<Err>, deadlineWins: nat -> bool): Option<Err>
  {
    if deadlineWins(k) then Some(RetryTimeout) else results(k)
  }

  /** The attempts from index `i` on, up to `times - 1`. */
  function AttemptFrom(i: nat, times: int, results: nat -> Option<Err>, deadlineWins: nat -> bool,
                       stopErrors: seq<Err>): (r: Report)
    requires i < times
    decreases times - i
    ensures i < r.invocations <= times
    ensures forall j :: i <= j < r.invocations - 1 ==> !Stops(j, results, deadlineWins, stopErrors)
    ensures r.invocations < times ==> Stops(r.invocations - 1, results, deadlineWins, stopErrors)
    ensures r.err == LastOutcome(r.invocations - 1, results, deadlineWins)
  {
    if deadlineWins(i) then Report(Some(RetryTimeout), i + 1)
    else if Terminal(results(i), stopErrors) || i == times - 1 then Report(results(i), i + 1)
    else AttemptFrom(i + 1, times, results, deadlineWins, stopErrors)
  }

  /** The report of `Do(info, times, timeout, run, stopErrors...)`. */
  function Expected(times: int, timeout: int, run: RetryableFunc, deadlineWins: nat -> bool,
                    stopErrors: seq<Err>): Report
  {
    if times < 1 then Report(Some(InvalidTimes), 0)
    else if timeout <= 0 then Report(Some(InvalidTimeout), 0)
    else if run.Nil? then Report(None, 0)
    else AttemptFrom(0, times, run.results, deadlineWins, stopErrors)
  }

  /** The retry loop. `timeout` is the deadline in nanoseconds; `info` only
      labels the progress notice, which is not modelled. Besides the returned
      error, the method yields the attempt indices it handed to the worker. */
  method Do(info: string, times: int, timeout: int, run: RetryableFunc, deadlineWins: nat -> bool,
            stopErrors: seq<Err>)
    returns (err: Option<Err>, indices: seq<nat>)
    ensures Report(err, |indices|) == Expected(times, timeout, run, deadlineWins, stopErrors)
    ensures forall j :: 0 <= j < |indices| ==> indices[j] == j
  {
    if times < 1 {
      return Some(InvalidTimes), [];
    }
    if timeout <= 0 {
      return Some(InvalidTimeout), [];
    }
    if run.Nil? {
      return None, [];
    }
    err, indices := None, [];
    var i: nat := 0;
    while i < times
      invariant i <= times
      invariant |indices| == i
      invariant forall j :: 0 <= j < i ==> indices[j] == j
      invariant i < times ==>
        Expected(times, timeout, run, deadlineWins, stopErrors)
        == AttemptFrom(i, times, run.results, deadlineWins, stopErrors)
      invariant i == times ==> Report(err, i) == Expected(times, timeout, run, deadlineWins, stopErrors)
    {
      indices := indices + [i];
      if deadlineWins(i) {
        return Some(RetryTimeout), indices;
      }
      err := run.results(i);
      if err.None? || Contains(stopErrors, err.value) {
        return;
      }
      i := i + 1;
    }
  }

  // ---------------------------------------------------------------------
  // Properties of the specification

  /** Reordering the stop list never changes the membership answer. */
  lemma ContainsPermutation(errs: seq<Err>, others: seq<Err>, err: Err)
    requires multiset(errs) == multiset(others)
    ensures Contains(errs, err) == Contains(others, err)
  {
    assert Contains(errs, err) <==> err in multiset(errs);
    assert Contains(others, err) <==> err in multiset(others);
  }

  /** `times` is checked before anything else. */
  lemma InvalidTimesFirst(times: int, timeout: int, run: RetryableFunc, deadlineWins: nat -> bool,
                          stopErrors: seq<Err>)
    requires times < 1
    ensures Expected(times, timeout, run, deadlineWins, stopErrors) == Report(Some(InvalidTimes), 0)
  {
  }

  /** With valid `times`, a non-positive `timeout` is rejected before `run` is looked at. */
  lemma InvalidTimeoutSecond(times: int, timeout: int, run: RetryableFunc, deadlineWins: nat -> bool,
                             stopErrors: seq<Err>)
    requires times >= 1 && timeout <= 0
    ensures Expected(times, timeout, run, deadlineWins, stopErrors) == Report(Some(InvalidTimeout), 0)
  {
  }

  /** With valid inputs, a nil operation is a successful no-op. */
  lemma NilRunIsNoOp(times: int, timeout: int, deadlineWins: nat -> bool, stopErrors: seq<Err>)
    requires times >= 1 && timeout > 0
    ensures Expected(times, timeout, Nil, deadlineWins, stopErrors) == Report(None, 0)
  {
  }

  /** The operation runs at least once and at most `times` times; with
      invalid inputs or a nil operation it never runs. */
  lemma InvocationsBounded(times: int, timeout: int, run: RetryableFunc, deadlineWins: nat -> bool,
                           stopErrors: seq<Err>)
    ensures var r := Expected(times, timeout, run, deadlineWins, stopErrors);
      if times >= 1 && timeout > 0 && run.Func? then 1 <= r.invocations <= times
      else r.invocations == 0
  {
  }

  /** The sequence stops at the first attempt whose result is nil or
      stop-listed, and returns that very result: a stop-listed error is
      reported, not turned into success. */
  lemma StopsAtFirstTerminal(times: int, timeout: int, results: nat -> Option<Err>,
                             deadlineWins: nat -> bool, stopErrors: seq<Err>, k: nat)
    requires times >= 1 && timeout > 0 && k < times
    requires forall j :: 0 <= j < k ==> !Stops(j, results, deadlineWins, stopErrors)
    requires !deadlineWins(k) && Terminal(results(k), stopErrors)
    ensures Expected(times, timeout, Func(results), deadlineWins, stopErrors) == Report(results(k), k + 1)
  {
    FirstStopDecides(times, results, deadlineWins, stopErrors, k);
  }

  /** When the deadline wins at attempt `k`, the call ends with `RetryTimeout`
      and no index after `k` is issued. */
  lemma DeadlineEndsSequence(times: int, timeout: int, results: nat -> Option<Err>,
                             deadlineWins: nat -> bool, stopErrors: seq<Err>, k: nat)
    requires times >= 1 && timeout > 0 && k < times
    requires forall j :: 0 <= j < k ==> !Stops(j, results, deadlineWins, stopErrors)
    requires deadlineWins(k)
    ensures Expected(times, timeout, Func(results), deadlineWins, stopErrors) == Report(Some(RetryTimeout), k + 1)
  {
    FirstStopDecides(times, results, deadlineWins, stopErrors, k);
  }

  /** When no attempt stops the sequence, all `times` attempts run and the
      last one's error is returned unchanged. */
  lemma ExhaustionReturnsLastError(times: int, timeout: int, results: nat -> Option<Err>,
                                   deadlineWins: nat -> bool, stopErrors: seq<Err>)
    requires times >= 1 && timeout > 0
    requires forall j :: 0 <= j < times ==> !Stops(j, results, deadlineWins, stopErrors)
    ensures Expected(times, timeout, Func(results), deadlineWins, stopErrors) == Report(results(times - 1), times)
  {
    var r := AttemptFrom(0, times, results, deadlineWins, stopErrors);
    assert !Stops(r.invocations - 1, results, deadlineWins, stopErrors);
  }

  /** The first stopping attempt `k` fixes the number of invocations at `k + 1`. */
  lemma FirstStopDecides(times: int, results: nat -> Option<Err>, deadlineWins: nat -> bool,
                         stopErrors: seq<Err>, k: nat)
    requires k < times
    requires forall j :: 0 <= j < k ==> !Stops(j, results, deadlineWins, stopErrors)
    requires Stops(k, results, deadlineWins, stopErrors)
    ensures AttemptFrom(0, times, results, deadlineWins, stopErrors).invocations == k + 1
  {
    var last: nat := AttemptFrom(0, times, results, deadlineWins, stopErrors).invocations - 1;
    // an earlier stop would be a continuing attempt; a later one would skip attempt k
    assert last < k ==> !Stops(last, results, deadlineWins, stopErrors);
    assert k < last ==> !Stops(k, results, deadlineWins, stopErrors);
  }

  /** Attempts from `i` on do not depend on the order of the stop list. */
  lemma {:induction false} AttemptFromStopOrder(i: nat, times: int, results: nat -> Option<Err>,
                                                deadlineWins: nat -> bool, stopErrors: seq<Err>,
                                                reordered: seq<Err>)
    requires i < times
    requires multiset(stopErrors) == multiset(reordered)
    decreases times - i
    ensures AttemptFrom(i, times, results, deadlineWins, stopErrors)
         == AttemptFrom(i, times, results, deadlineWins, reordered)
  {
    if results(i).Some? {
      ContainsPermutation(stopErrors, reordered, results(i).value);
    }
    if i + 1 < times {
      AttemptFromStopOrder(i + 1, times, results, deadlineWins, stopErrors, reordered);
    }
  }

  /** The order of the stop errors never affects what `Do` does. */
  lemma StopErrorOrderIrrelevant(times: int, timeout: int, run: RetryableFunc, deadlineWins: nat -> bool,
                                 stopErrors: seq<Err>, reordered: seq<Err>)
    requires multiset(stopErrors) == multiset(reordered)
    ensures Expected(times, timeout, run, deadlineWins, stopErrors)
         == Expected(times, timeout, run, deadlineWins, reordered)
  {
    if times >= 1 && timeout > 0 && run.Func? {
      AttemptFromStopOrder(0, times, run.results, deadlineWins, stopErrors, reordered);
    }
  }

  // ---------------------------------------------------------------------
  // Scenarios

  /** An operation that always succeeds runs once, whatever `times` allows. */
  lemma AlwaysSucceedingRunsOnce(timeout: int, deadlineWins: nat -> bool, stopErrors: seq<Err>)
    requires timeout > 0 && !deadlineWins(0)
    ensures Expected(5, timeout, Func(_ => None), deadlineWins, stopErrors) == Report(None, 1)
  {
    StopsAtFirstTerminal(5, timeout, _ => None, deadlineWins, stopErrors, 0);
  }

  /** An operation whose second invocation returns a stop-listed error runs
      exactly twice and that error is what the call returns. */
  lemma StopListedOnSecondCall(timeout: int, deadlineWins: nat -> bool, transient: Err, stop: Err)
    requires timeout > 0 && !deadlineWins(0) && !deadlineWins(1) && transient != stop
    ensures var results := (i: nat) => if i == 0 then Some(transient) else Some(stop);
      Expected(5, timeout, Func(results), deadlineWins, [stop]) == Report(Some(stop), 2)
  {
    var results := (i: nat) => if i == 0 then Some(transient) else Some(stop);
    assert !Stops(0, results, deadlineWins, [stop]);
    StopsAtFirstTerminal(5, timeout, results, deadlineWins, [stop], 1);
  }
}
