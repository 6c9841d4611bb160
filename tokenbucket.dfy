/** A token-bucket rate limiter.
    A Limiter refills its balance continuously at `rate` tokens per second, caps it at
    `burst`, and charges one token for every call of Allow, admitted or not. A negative
    balance is debt: the time the refill needs to pay it back is the sleep a refused
    call reports. Timestamps are integer nanoseconds; amounts of tokens are exact reals. */
module TokenBucket {

  datatype Option<T> = None | Some(value: T)

  /** The value of a Limiter's four fields. */
  datatype Bucket = Bucket(rate: real, burst: real, tokens: real, last: int)

  /** What one call of Allow answers: admitted or not, and the sleep in seconds. */
  datatype Decision = Decision(allowed: bool, sleepSeconds: real)

  /** A duration of `nanos` nanoseconds, expressed in seconds (Duration.Seconds); a second
      (time.Second) is 1_000_000_000 nanoseconds. */
  function Seconds(nanos: int): (s: real)
    ensures s * 1_000_000_000.0 == nanos as real
    ensures (s > 0.0) == (nanos > 0) && (s < 0.0) == (nanos < 0)
  {
    nanos as real / 1_000_000_000.0
  }

  /** The balance after the refill for the time from `b.last` to `now`, before the cap.
      A `now` earlier than `b.last` gives a negative elapsed time and drains the balance. */
  function Refilled(b: Bucket, now: int): (r: real)
    ensures (r - b.tokens) * 1_000_000_000.0 == b.rate * (now - b.last) as real
  {
    b.tokens + b.rate * Seconds(now - b.last)
  }

  /** The balance that Allow(now) leaves: the refilled balance capped at the burst,
      minus the one token the call costs. */
  function NextTokens(b: Bucket, now: int): (t: real)
    ensures t <= b.burst - 1.0
    ensures t <= Refilled(b, now) - 1.0
    ensures t == b.burst - 1.0 || t == Refilled(b, now) - 1.0
  {
    var refilled := Refilled(b, now);
    (if refilled > b.burst then b.burst else refilled) - 1.0
  }

  /** The state after Allow(now): only the balance and the last refresh instant change. */
  function Step(b: Bucket, now: int): (r: Bucket)
    ensures r.rate == b.rate && r.burst == b.burst
    ensures r.last == now
    ensures r.tokens == NextTokens(b, now)
  {
    b.(tokens := NextTokens(b, now), last := now)
  }

  /** The answer of Allow for the balance `tokens` it leaves behind: admit when the balance
      is not negative, otherwise refuse and report the time the refill needs to bring the
      balance back to zero. */
  function Decide(tokens: real, rate: real): (d: Decision)
    requires rate > 0.0
    ensures d.allowed <==> tokens >= 0.0
    ensures d.allowed ==> d.sleepSeconds == 0.0
    ensures !d.allowed ==> d.sleepSeconds > 0.0 && tokens + rate * d.sleepSeconds == 0.0
  {
    if tokens < 0.0 then Decision(false, -tokens / rate) else Decision(true, 0.0)
  }

  /** The integer number of nanoseconds time.Duration keeps of a duration of `seconds`
      seconds: the conversion from floating point truncates toward zero. */
  function SleepNanos(seconds: real): (n: int)
    ensures seconds >= 0.0 ==> 0 <= n && n as real <= seconds * 1_000_000_000.0 < n as real + 1.0
    ensures seconds < 0.0 ==> n <= 0 && n as real - 1.0 < seconds * 1_000_000_000.0 <= n as real
  {
    var x := seconds * 1_000_000_000.0;
    if x >= 0.0 then x.Floor else -((-x).Floor)
  }

  /** The limiter itself. The Go implementation checks neither rate > 0 nor burst >= 0; the
      refusal path divides by the rate, so Allow and Wait require rate > 0. */
  class Limiter {
    var rate: real
    var burst: real
    var tokens: real
    /** The instant, in nanoseconds, of the last refresh of the balance. */
    var last: int

    ghost function State(): Bucket
      reads this
    {
      Bucket(rate, burst, tokens, last)
    }

    /** NewLimiter: the integer arguments become the real fields, and the balance was last
        refreshed at the creation instant `createdAt`. */
    constructor (rate: int, burst: int, initialTokens: int, createdAt: int)
      ensures this.rate == rate as real && this.burst == burst as real
      ensures tokens == initialTokens as real && last == createdAt
    {
      this.rate := rate as real;
      this.burst := burst as real;
      tokens := initialTokens as real;
      last := createdAt;
    }

    /** Refill, advance `last`, cap at the burst, charge one token, then decide. */
    method Allow(now: int) returns (isAllowed: bool, sleepSeconds: real)
      requires rate > 0.0
      modifies this
      ensures rate == old(rate) && burst == old(burst)
      ensures last == now
      ensures tokens == NextTokens(old(State()), now)
      ensures State() == Step(old(State()), now)
      ensures Decision(isAllowed, sleepSeconds) == Decide(tokens, rate)
    {
      var elapsed := now - last;
      tokens := tokens + rate * Seconds(elapsed);
      last := now;
      if tokens > burst {
        tokens := burst;
      }
      tokens := tokens - 1.0;
      if tokens < 0.0 {
        return false, -tokens / rate;
      } else {
        return true, 0.0;
      }
    }

    /** One call of Allow at `now`; the sleep it asks for is the reported duration when the
        call is refused and none when it is admitted. Wait never calls Allow again. */
    method Wait(now: int) returns (sleep: Option<real>)
      requires rate > 0.0
      modifies this
      ensures State() == Step(old(State()), now)
      ensures sleep == (var d := Decide(tokens, rate); if d.allowed then None else Some(d.sleepSeconds))
    {
      var isAllowed, sleepSeconds := Allow(now);
      if !isAllowed {
        sleep := Some(sleepSeconds);
      } else {
        sleep := None;
      }
    }
  }
}
