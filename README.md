# Bounded retry executor — Dafny model

This project models `retry.Do`, a bounded-retry primitive. `Do` checks its inputs, then calls the
operation `run` up to `times` times. One deadline `timeout` covers the whole sequence of
attempts. Errors listed in `stopErrors` end the retrying at once. It also models the helper
`contains`, which tests identity membership in the stop list.

The worker goroutine and its two one-slot channels are a strict ping-pong, so the model runs the
attempts as a plain sequential loop:

- `Retry.Err` holds the package's three sentinel errors plus `Raised(id)` for any other error
  value. Datatype equality plays the part of Go's identity comparison `e == err`. The operation
  may also return a sentinel itself.
- `Retry.RetryableFunc` is either `Nil` or `Func(results)`, where `results(i)` is what
  invocation `i` (from 0) returns. `None` is Go's nil error.
- The wall clock becomes an oracle `deadlineWins: nat -> bool`. It says whether, at attempt `i`,
  the `select` took the deadline case rather than the result. Go picks at random when both cases
  are ready, so the oracle may choose either way at every attempt.
- `Retry.Expected` is the specification of one call. It returns a `Report`: the returned error
  and the number of invocations. That number is the number of attempt indices handed to the
  worker. When the deadline wins at attempt `k`, index `k` has already been handed over, so the
  worker still calls `run` for it and the count is `k + 1`.
- `Retry.Do` is the loop itself. It is proved to return exactly `Expected`'s report. It also
  returns the issued indices, which are `0, 1, …, n-1` in order. Since `Do` agrees with a
  function of its inputs, two calls with the same inputs, results and deadline oracle give the
  same outcome and the same invocation count.

## Model

| member | source | states |
|---|---|---|
| `Retry.Contains` | retry.go:60-67 | true exactly when some element of the list is identical to the error |
| `Retry.ContainsPermutation` | retry.go:60-67 | reordering the list (same multiset) never changes the answer of `contains` |
| `Retry.AttemptFrom` | retry.go:45-57 | the attempts from index `i` make between `i+1` and `times` invocations; every attempt before the last one neither met the deadline nor had a terminal result; stopping before `times` means the last attempt was stopping; the result is `RetryTimeout` if the deadline won the last attempt, otherwise that attempt's own result |
| `Retry.Do` | retry.go:18-58 | the returned error and invocation count are those of the specification `Expected`; the attempt indices issued are 0, 1, …, n-1 in strictly increasing order |
| `Retry.InvalidTimesFirst` | retry.go:19-21 | `times < 1` gives `ErrInvalidTimes` and zero invocations, whatever `timeout`, `run` and the stop list are |
| `Retry.InvalidTimeoutSecond` | retry.go:22-24 | with `times >= 1`, `timeout <= 0` gives `ErrInvalidTimeout` and zero invocations, whatever `run` is |
| `Retry.NilRunIsNoOp` | retry.go:25-27 | with valid `times` and `timeout`, a nil `run` gives nil and zero invocations |
| `Retry.InvocationsBounded` | retry.go:45-46 | with valid inputs and a non-nil `run` there are between 1 and `times` invocations; otherwise none |
| `Retry.FirstStopDecides` | retry.go:45-55 | if attempt `k` is the first to stop (deadline or terminal result), exactly `k + 1` invocations are made |
| `Retry.StopsAtFirstTerminal` | retry.go:51-53 | at the first attempt `k` whose result is nil or stop-listed, `Do` returns exactly that result after `k + 1` invocations; a stop-listed error is returned, not turned into success |
| `Retry.DeadlineEndsSequence` | retry.go:48-50 | if the deadline wins at the first stopping attempt `k`, `Do` returns `ErrRetryTimeout` and issues no index after `k` |
| `Retry.ExhaustionReturnsLastError` | retry.go:45-57 | if no attempt stops the sequence, exactly `times` invocations are made and the last one's error is returned unchanged |
| `Retry.AttemptFromStopOrder` | retry.go:52-53 | the attempts from any index give the same report under any reordering of the stop list |
| `Retry.StopErrorOrderIrrelevant` | retry.go:52-53 | the order of `stopErrors` never affects what `Do` returns or how often it calls `run` |
| `Retry.AlwaysSucceedingRunsOnce` | retry.go:51-53 | with `times = 5`, an operation that always returns nil runs once, and `Do` returns nil |
| `Retry.StopListedOnSecondCall` | retry.go:51-53 | with `times = 5`, an operation whose second call returns a stop-listed error runs exactly twice, and `Do` returns that error |

## Left out

- The goroutine and the two buffered channels (retry.go:32-43): they only enforce one attempt at
  a time, and the sequential loop captures exactly that.
- `context.WithTimeout` and real time (retry.go:29-30): the deadline is the oracle
  `deadlineWins`, with no clock behind it. So the model does not relate the moment of expiry to
  elapsed time. It also does not force the deadline to stay expired at later attempts. Once
  it wins, the call ends anyway, so this changes no outcome.
- The progress notice `[retry] retry <info> for <i> times` (retry.go:38-40): console output
  and not part of the result. It is printed only for indices greater than 0. `info` is kept as
  an unused parameter of `Do`.
- The worker blocked inside `run` outliving the call after a timeout: a goroutine-lifetime
  concern with no effect on the returned value.
- The behaviour of `run` itself: it is known only through the results its invocations return.
- Go's `==` on interface values panics when the dynamic type is not comparable (retry.go:62).
  The model assumes every error value is comparable, as the errors created by `errors.New` are.
- Integer widths: `times` is Go's `int` and `timeout` is a `time.Duration` (int64 nanoseconds).
  The loop counter never exceeds `times`, so it cannot overflow. The model uses unbounded
  integers.
