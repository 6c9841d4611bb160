/** The table of Allow cases from the repository's tests, and a deterministic reading of
    its two back-to-back Wait tests. `start` is an arbitrary creation instant in nanoseconds. */
module TokenBucketScenarios {
  import opened TokenBucket

  const Millisecond: int := 1_000_000

  /** "has one token": rate 1, burst 1, one token, no time passed. */
  lemma HasOneToken(start: int)
    ensures var after := Step(Bucket(1.0, 1.0, 1.0, start), start);
            after == Bucket(1.0, 1.0, 0.0, start) && Decide(after.tokens, 1.0) == Decision(true, 0.0)
  {
  }

  /** "no token and enough time passed": one second refills the one token that is charged. */
  lemma EnoughTimePassed(start: int)
    ensures var now := start + 1000 * Millisecond;
            var after := Step(Bucket(1.0, 1.0, 0.0, start), now);
            after == Bucket(1.0, 1.0, 0.0, now) && Decide(after.tokens, 1.0) == Decision(true, 0.0)
  {
  }

  /** "no token and some time passed, rate = 1": 200ms refill 0.2 tokens, so the call is
      refused with a debt of 0.8 and a sleep of 800ms. */
  lemma SomeTimePassedRateOne(start: int)
    ensures var now := start + 200 * Millisecond;
            var after := Step(Bucket(1.0, 1.0, 0.0, start), now);
            var d := Decide(after.tokens, 1.0);
            after == Bucket(1.0, 1.0, -0.8, now) && d == Decision(false, 0.8) &&
            SleepNanos(d.sleepSeconds) == 800 * Millisecond
  {
  }

  /** "no token and some time passed, rate = 2": 200ms refill 0.4 tokens, so the debt is 0.6
      and repaying it at 2 tokens per second takes 300ms. */
  lemma SomeTimePassedRateTwo(start: int)
    ensures var now := start + 200 * Millisecond;
            var after := Step(Bucket(2.0, 1.0, 0.0, start), now);
            var d := Decide(after.tokens, 2.0);
            after == Bucket(2.0, 1.0, -0.6, now) && d == Decision(false, 0.3) &&
            SleepNanos(d.sleepSeconds) == 300 * Millisecond
  {
  }

  /** "rate reach burst when enough time passed": 10s at rate 100 refill exactly 1000 tokens,
      which reaches the burst of 1000 without exceeding it, so the call leaves 999. */
  lemma RateReachesBurst(start: int)
    ensures var now := start + 10_000 * Millisecond;
            var after := Step(Bucket(100.0, 1000.0, 0.0, start), now);
            after == Bucket(100.0, 1000.0, 999.0, now) && Decide(after.tokens, 100.0) == Decision(true, 0.0)
  {
  }

  /** A refusal whose debt is repaid in less than a nanosecond: time.Duration truncates the
      sleep to zero, so the refused call asks for no sleep at all. */
  lemma TruncatedSleepCanBeZero(start: int)
    ensures var after := Step(Bucket(3.0, 1.0, 0.0, start), start + 333_333_333);
            var d := Decide(after.tokens, 3.0);
            !d.allowed && d.sleepSeconds > 0.0 && SleepNanos(d.sleepSeconds) == 0
  {
    var after := Step(Bucket(3.0, 1.0, 0.0, start), start + 333_333_333);
    assert after.tokens == -0.000_000_001;
  }

  /** Two calls of Wait, one right after the other, on a limiter with burst 1 created with a
      token: the first asks for no sleep, the second for 1/rate seconds, which is 100ms at
      rate 10 and 25ms at rate 40. */
  method BackToBackWaits(rate: int, initialTokens: int, start: int)
    returns (first: Option<real>, second: Option<real>)
    requires rate > 0 && initialTokens >= 1
    ensures first == None
    ensures second == Some(1.0 / rate as real)
  {
    var lim := new Limiter(rate, 1, initialTokens, start);
    first := lim.Wait(start);
    second := lim.Wait(start);
  }
}
