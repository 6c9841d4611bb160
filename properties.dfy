/** What the limiter promises, stated over the functions that specify Allow. */
module TokenBucketProperties {
  import opened TokenBucket

  /** The state after the calls Allow(nows[0]), Allow(nows[1]), ... in that order. */
  function Run(b: Bucket, nows: seq<int>): Bucket
    decreases |nows|
  {
    if nows == [] then b else Run(Step(b, nows[0]), nows[1..])
  }

  /** The instant of the last refresh after those calls. */
  function End(b: Bucket, nows: seq<int>): int
  {
    if nows == [] then b.last else nows[|nows| - 1]
  }

  /** A call whose refill stays within the burst costs exactly one token net of refill. */
  lemma UncappedCallCostsOne(b: Bucket, now: int)
    requires Refilled(b, now) <= b.burst
    ensures Step(b, now).tokens == Refilled(b, now) - 1.0
    ensures Step(b, now).tokens + 1.0 - b.tokens == b.rate * Seconds(now - b.last)
  {
  }

  /** A call whose refill reaches the burst leaves burst - 1, and is admitted when the burst
      is at least 1. */
  lemma IdleRecoveryCapsAtBurst(b: Bucket, now: int)
    requires b.rate > 0.0
    requires Refilled(b, now) >= b.burst
    ensures Step(b, now).tokens == b.burst - 1.0
    ensures b.burst >= 1.0 ==> Decide(Step(b, now).tokens, b.rate) == Decision(true, 0.0)
  {
  }

  /** A limiter created full, with a burst of at least one, admits its first call made at
      the creation instant, with no sleep. */
  lemma FullBucketAdmits(rate: real, burst: real, createdAt: int)
    requires rate > 0.0 && burst >= 1.0
    ensures Decide(Step(Bucket(rate, burst, burst, createdAt), createdAt).tokens, rate)
            == Decision(true, 0.0)
  {
  }

  /** A `now` earlier than the last refresh is not rejected: it drains the balance. */
  lemma BackwardsTimeDrains(b: Bucket, now: int)
    requires b.rate > 0.0 && now < b.last
    ensures Refilled(b, now) < b.tokens
    ensures Step(b, now).tokens < b.tokens - 1.0
    ensures Step(b, now).last == now
  {
    assert Seconds(now - b.last) < 0.0;
  }

  /** The refusal sleep is the time the refill needs to pay the debt back: when it is a
      whole number of nanoseconds, a refill up to `now` plus that sleep reaches exactly 0. */
  lemma ExactSleepRepaysDebt(b: Bucket, now: int)
    requires b.rate > 0.0
    requires !Decide(Step(b, now).tokens, b.rate).allowed
    requires var s := Decide(Step(b, now).tokens, b.rate).sleepSeconds;
             SleepNanos(s) as real == s * 1_000_000_000.0
    ensures var after := Step(b, now);
            Refilled(after, now + SleepNanos(Decide(after.tokens, b.rate).sleepSeconds)) == 0.0
  {
    var after := Step(b, now);
    var s := Decide(after.tokens, b.rate).sleepSeconds;
    var n := SleepNanos(s);
    assert Seconds(n) == s by {
      assert Seconds(n) * 1_000_000_000.0 == s * 1_000_000_000.0;
    }
  }

  /** With the sleep truncated to whole nanoseconds, as time.Duration does, the refill up to
      `now` plus the sleep leaves a balance at most 0 and above -rate nanoseconds' worth. */
  lemma TruncatedSleepNearlyRepays(b: Bucket, now: int)
    requires b.rate > 0.0
    requires !Decide(Step(b, now).tokens, b.rate).allowed
    ensures var after := Step(b, now);
            var r := Refilled(after, now + SleepNanos(Decide(after.tokens, b.rate).sleepSeconds));
            -b.rate / 1_000_000_000.0 < r <= 0.0
  {
    var after := Step(b, now);
    var s := Decide(after.tokens, b.rate).sleepSeconds;
    var n := SleepNanos(s);
    var k := 1_000_000_000.0;
    // s * k - 1 < n <= s * k, so s - 1/k < Seconds(n) <= s
    assert Seconds(n) <= s by {
      assert Seconds(n) * k <= s * k;
    }
    assert s - 1.0 / k < Seconds(n) by {
      assert (s - 1.0 / k) * k == s * k - 1.0;
      assert (s - 1.0 / k) * k < Seconds(n) * k;
    }
    assert b.rate * Seconds(n) <= b.rate * s;
    assert b.rate * (s - 1.0 / k) < b.rate * Seconds(n);
    assert after.tokens + b.rate * s == 0.0;
  }

  /** The sleep pays back the debt of the refused call itself, so a new call made once the
      sleep is over is charged again and refused; when the sleep is a whole number of
      nanoseconds and the burst is not negative, it leaves exactly -1 and asks for 1/rate. */
  lemma RetryAtSleepRefused(b: Bucket, now: int)
    requires b.rate > 0.0
    requires !Decide(Step(b, now).tokens, b.rate).allowed
    ensures var after := Step(b, now);
            var retry := now + SleepNanos(Decide(after.tokens, b.rate).sleepSeconds);
            !Decide(Step(after, retry).tokens, b.rate).allowed
    ensures var after := Step(b, now);
            var s := Decide(after.tokens, b.rate).sleepSeconds;
            var retry := now + SleepNanos(s);
            SleepNanos(s) as real == s * 1_000_000_000.0 && b.burst >= 0.0 ==>
              Step(after, retry).tokens == -1.0 &&
              Decide(Step(after, retry).tokens, b.rate) == Decision(false, 1.0 / b.rate)
  {
    var after := Step(b, now);
    var s := Decide(after.tokens, b.rate).sleepSeconds;
    TruncatedSleepNearlyRepays(b, now);
    if SleepNanos(s) as real == s * 1_000_000_000.0 && b.burst >= 0.0 {
      ExactSleepRepaysDebt(b, now);
    }
  }

  /** Over any sequence of calls the rate and burst never change, the last refresh is the
      last call's instant, and once a call has been made the balance is at most burst - 1. */
  lemma {:induction false} RunShape(b: Bucket, nows: seq<int>)
    ensures Run(b, nows).rate == b.rate && Run(b, nows).burst == b.burst
    ensures Run(b, nows).last == End(b, nows)
    ensures nows != [] ==> Run(b, nows).tokens <= b.burst - 1.0
    decreases |nows|
  {
    if nows != [] {
      RunShape(Step(b, nows[0]), nows[1..]);
    }
  }

  /** The refill for two consecutive spans is the refill for the span they make up. */
  lemma SecondsAdd(rate: real, x: int, y: int)
    ensures rate * Seconds(x) + rate * Seconds(y) == rate * Seconds(x + y)
  {
    assert Seconds(x) + Seconds(y) == Seconds(x + y);
  }

  /** Every call costs one token whatever it decides, and the cap only lowers the balance:
      after n calls the balance is at most the starting balance plus the refill for the whole
      span minus n. Elapsed times telescope, so this holds for out-of-order instants too. */
  lemma {:induction false} RunTokensUpperBound(b: Bucket, nows: seq<int>)
    ensures Run(b, nows).tokens <= Refilled(b, End(b, nows)) - |nows| as real
    decreases |nows|
  {
    if nows == [] {
      assert Seconds(0) == 0.0;
    } else {
      var b1 := Step(b, nows[0]);
      var rest := nows[1..];
      RunTokensUpperBound(b1, rest);
      assert End(b1, rest) == End(b, nows);
      RefillAfterCharge(b, nows[0], End(b, nows));
    }
  }

  /** Refilling the state a call leaves up to `end` gives at most one token less than
      refilling the state before the call up to `end`: the cap only lowers the balance. */
  lemma RefillAfterCharge(b: Bucket, now: int, end: int)
    ensures Refilled(Step(b, now), end) <= Refilled(b, end) - 1.0
  {
    var after := Step(b, now);
    assert Refilled(after, end) == after.tokens + b.rate * Seconds(end - now);
    assert after.tokens <= b.tokens + b.rate * Seconds(now - b.last) - 1.0;
    SecondsAdd(b.rate, now - b.last, end - now);
  }

  /** Counting from the first call of a sequence: the balance after all of them is at most
      the balance the first call leaves, refilled up to the last call, minus the later calls. */
  lemma {:induction false} RunFromFirstCall(b: Bucket, nows: seq<int>)
    requires nows != []
    ensures Run(b, nows).tokens <= Refilled(Step(b, nows[0]), End(b, nows)) - (|nows| - 1) as real
  {
    var b1 := Step(b, nows[0]);
    var rest := nows[1..];
    RunTokensUpperBound(b1, rest);
    assert End(b1, rest) == End(b, nows);
  }

  /** The rate bound a token bucket exists for: if the last of a sequence of calls is
      admitted (the balance it leaves is not negative, which is how Decide admits), the
      sequence holds at most burst + rate * T calls, where T is the time from its first
      call to its last. */
  lemma {:induction false} CallCountBound(b: Bucket, nows: seq<int>)
    requires nows != []
    requires Run(b, nows).tokens >= 0.0
    ensures |nows| as real <= b.burst + b.rate * Seconds(nows[|nows| - 1] - nows[0])
  {
    RunFromFirstCall(b, nows);
  }
}
