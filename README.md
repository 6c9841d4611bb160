# Token-bucket rate limiter

A model of the Go package `tokenbucket`: one `Limiter` with a refill `rate` (tokens per
second), a cap `burst`, a balance `tokens` that may go negative (debt), and the instant
`last` of the last refresh. `Allow(now)` refills the balance for the time since `last`,
moves `last` to `now`, caps the balance at `burst`, charges one token whether or not the
call is admitted, and admits exactly when the balance is still not negative; a refused call
reports how long the refill needs to pay the debt back. `Wait` is one `Allow` followed by
that sleep.

Files:

- `tokenbucket.dfy`, module `TokenBucket`: the value of a limiter (`Bucket`), the functions
  that specify one call (`Seconds`, `Refilled`, `NextTokens`, `Step`, `Decide`,
  `SleepNanos`) and the class `Limiter` with the constructor, `Allow` and `Wait`, whose
  contracts tie each new state to those functions.
- `properties.dfy`, module `TokenBucketProperties`: what the limiter promises over one call
  and over any sequence of calls (`Run`), including the rate bound the bucket exists for.
- `scenarios.dfy`, module `TokenBucketScenarios`: the cases of the repository's tests.

Timestamps are integer nanoseconds and a duration in seconds is `nanos / 10^9`, exactly.
Amounts of tokens are exact reals. The refusal sleep is returned in exact seconds;
`SleepNanos` is the truncation to whole nanoseconds that `time.Duration` performs.

The Go implementation never checks `rate > 0`, but the refusal branch divides by the rate. `Allow`,
`Wait` and `Decide` therefore require `rate > 0`: this is an assumption about callers that
the Go implementation does not enforce. The constructor accepts any integers, as `NewLimiter` does.

The sleep a refused call reports repays the debt of that call itself, whose token is
already charged. A second `Allow` made once the sleep is over is charged again and refused:
with a whole-nanosecond sleep and a burst of at least 0 it leaves exactly -1 and asks for
another `1/rate` seconds (`RetryAtSleepRefused`). A reading in which that second call is
admitted with a balance of 0 does not match the code; the model follows the code.

`NewLimiter` takes three integers. The repository's `Wait` tests call it with two, which does
not compile; the model has the three-argument constructor only.

## Model

| member | source | states |
|---|---|---|
| TokenBucket.Seconds | tokenbucket.go:32-35 | the elapsed seconds times 10^9 are the elapsed nanoseconds, and their sign is the sign of the elapsed time |
| TokenBucket.Refilled | tokenbucket.go:32-35 | the balance before the cap: the refill added to tokens, times 10^9, is rate times the elapsed nanoseconds now - last, a negative elapsed time included |
| TokenBucket.NextTokens | tokenbucket.go:35-43 | the new balance is min(old balance + rate * elapsed seconds, burst) - 1, stated as: at most burst - 1, at most the refilled balance - 1, and equal to one of the two |
| TokenBucket.Step | tokenbucket.go:35-43 | a call keeps rate and burst, sets last to now whatever the decision, and leaves the balance NextTokens gives |
| TokenBucket.Decide | tokenbucket.go:45-50 | admitted exactly when the new balance is >= 0, with sleep 0; refused otherwise, with a strictly positive sleep after which the refill brings the balance back to exactly 0 |
| TokenBucket.SleepNanos | tokenbucket.go:47 | the conversion to time.Duration truncates toward zero: for a non-negative duration the result is the largest whole number of nanoseconds not above it, for a negative one the smallest not below it |
| TokenBucket.Limiter.constructor | tokenbucket.go:21-28 | rate, burst and tokens are the integer arguments as reals, and last is the creation instant |
| TokenBucket.Limiter.Allow | tokenbucket.go:31-51 | rate and burst are unchanged, last is now, the balance is NextTokens of the old state, and the returned pair is Decide of the new balance |
| TokenBucket.Limiter.Wait | tokenbucket.go:54-59 | exactly one Allow step; asks for a sleep of exactly the returned duration when refused and for none when admitted |
| TokenBucketProperties.UncappedCallCostsOne | tokenbucket.go:35-43 | when the refill stays within the burst the cap does not apply and the call leaves the refilled balance minus exactly one token |
| TokenBucketProperties.IdleRecoveryCapsAtBurst | tokenbucket.go:38-43 | when the refill reaches the burst the call leaves burst - 1, and is admitted with no sleep when the burst is at least 1 |
| TokenBucketProperties.FullBucketAdmits | tokenbucket.go:21-51 | a limiter created with initialTokens = burst >= 1 admits its first call at the creation instant with no sleep |
| TokenBucketProperties.BackwardsTimeDrains | tokenbucket.go:32-36 | a now earlier than last is not an error: the refill is negative, the balance drops by more than the one token charged, and last moves back to now |
| TokenBucketProperties.ExactSleepRepaysDebt | tokenbucket.go:45-47 | after a refusal whose sleep is a whole number of nanoseconds, the refill up to now + sleep brings the balance to exactly 0, before any further charge |
| TokenBucketProperties.TruncatedSleepNearlyRepays | tokenbucket.go:45-47 | with the sleep truncated to whole nanoseconds, the balance refilled up to now + sleep lies in (-rate/10^9, 0] |
| TokenBucketProperties.RetryAtSleepRefused | tokenbucket.go:31-51 | a new Allow at now + sleep after a refusal is refused again; with an exact sleep and burst >= 0 it leaves -1 and asks for 1/rate |
| TokenBucketProperties.RunShape | tokenbucket.go:35-43 | over any sequence of calls rate and burst never change, last is the last call's instant, and once a call is made the balance is at most burst - 1 |
| TokenBucketProperties.RefillAfterCharge | tokenbucket.go:35-43 | refilling the state one call leaves, up to any later instant, gives at most one token less than refilling the state before the call up to that instant: the cap only lowers the balance and the charge is one |
| TokenBucketProperties.RunTokensUpperBound | tokenbucket.go:35-43 | after n calls the balance is at most the starting balance refilled up to the last call, minus n, whatever the order of the instants |
| TokenBucketProperties.RunFromFirstCall | tokenbucket.go:35-43 | after a non-empty sequence of calls the balance is at most the balance the first call leaves, refilled up to the last call, minus the later calls |
| TokenBucketProperties.CallCountBound | tokenbucket.go:31-51 | if the last of n calls is admitted (it leaves a balance >= 0), n <= burst + rate * (time from the first call to the last), whatever the calls before decided |
| TokenBucketScenarios.HasOneToken | tokenbucket_test.go:23-41 | rate 1, burst 1, one token, no time: admitted, balance 0, last unchanged |
| TokenBucketScenarios.EnoughTimePassed | tokenbucket_test.go:43-61 | rate 1, burst 1, no token, 1s: admitted, balance 0, last is the new instant |
| TokenBucketScenarios.SomeTimePassedRateOne | tokenbucket_test.go:63-81 | rate 1, no token, 200ms: refused, balance -0.8, sleep 0.8s, which is 800ms as a Duration |
| TokenBucketScenarios.SomeTimePassedRateTwo | tokenbucket_test.go:83-101 | rate 2, no token, 200ms: refused, balance -0.6, sleep 0.3s, which is 300ms as a Duration |
| TokenBucketScenarios.RateReachesBurst | tokenbucket_test.go:103-121 | rate 100, burst 1000, no token, 10s: the refill reaches the burst exactly, admitted, balance 999 |
| TokenBucketScenarios.TruncatedSleepCanBeZero | tokenbucket.go:45-47 | a refusal with a debt repaid in under a nanosecond reports a positive sleep that time.Duration truncates to 0 |
| TokenBucketScenarios.BackToBackWaits | tokenbucket_test.go:133-161 | on a limiter with burst 1 created with a token, a first Wait asks for no sleep and an immediate second Wait for 1/rate seconds (100ms at rate 10, 25ms at rate 40) |

## Left out

- The ambient clock: `time.Now()` in `NewLimiter` and `Wait` is replaced by an explicit instant parameter (`createdAt`, `now`).
- Real sleeping: `Wait` returns the sleep it would request instead of calling `time.Sleep`.
- IEEE-754 `float64` rounding: all amounts are exact reals, and so are the conversions `float64(int)` of the constructor's arguments.
- Go's fixed-width time arithmetic: `time.Time.Sub` saturates at the limits of a 64-bit `Duration` (about 292 years); the model's elapsed time is an unbounded integer difference.
- Out-of-range conversions: a sleep too long for an `int64` `Duration` has an implementation-defined value in Go; `SleepNanos` does not bound its result.
- TokenBucket.Limiter.Allow: requires rate > 0, which the Go implementation does not check. With rate 0 a refused call divides by zero in floating point, which the model does not represent; with a negative rate the refusal sleep is a negative `Duration`, which `time.Sleep` treats as no sleep, and the model does not cover that case either.
- TokenBucket.Limiter.Allow: returns the refusal sleep as exact real seconds; the `time.Duration` the Go implementation returns is `SleepNanos` of that value, so where the truncation reaches 0 (`TruncatedSleepCanBeZero`) Go returns `(false, 0)` while the model returns a positive real.
- TokenBucket.Limiter.Wait: requires rate > 0 for the same reasons as Allow, and requests the sleep in exact real seconds, of which `time.Sleep` receives `SleepNanos`.
- TokenBucket.Decide: requires rate > 0 for the same reason as Allow; its sleep is the refusal branch's division by the rate.
- The goroutine tests of `Wait`: they depend on wall-clock scheduling and an unsynchronised flag, and call a two-argument `NewLimiter` that does not exist; `BackToBackWaits` states the deterministic part with an explicit `initialTokens`.
- Concurrency: the limiter has no locking; concurrent use is a data race and is not modelled.
