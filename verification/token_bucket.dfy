/** The in-memory token bucket of one client: a pool of at most `capacity` tokens that
    refills continuously at `refillRate` tokens per second and gives up one token per
    admitted request. Time is an explicit argument in epoch milliseconds. */
module TokenBucket {

  datatype Bucket = Bucket(capacity: real, tokens: real, refillRate: real, lastRefill: int)

  /** The clamping invariant: the pool holds between none and `capacity` tokens, and it
      never drains by itself. */
  predicate Valid(b: Bucket) {
    0.0 <= b.tokens <= b.capacity && 0.0 <= b.refillRate
  }

  /** A new limiter starts full, stamped with the time it was made. */
  function New(capacity: real, refillRate: real, now: int): (b: Bucket)
    ensures b.tokens == b.capacity == capacity && b.refillRate == refillRate
    ensures b.lastRefill == now
    ensures 0.0 <= capacity && 0.0 <= refillRate ==> Valid(b)
  {
    Bucket(capacity, capacity, refillRate, now)
  }

  /** Tokens earned between the last refill and `now`: `refillRate` per second of
      elapsed time, so per 1000 ms. None while time stands still; never negative while
      it moves forward at a non-negative rate; negative when the clock went backwards
      at a positive rate. */
  function Gain(b: Bucket, now: int): (g: real)
    ensures g * 1000.0 == (now - b.lastRefill) as real * b.refillRate
    ensures now == b.lastRefill ==> g == 0.0
    ensures b.lastRefill <= now && 0.0 <= b.refillRate ==> g >= 0.0
    ensures now < b.lastRefill && 0.0 < b.refillRate ==> g < 0.0
  {
    (now - b.lastRefill) as real / 1000.0 * b.refillRate
  }

  /** Adds the tokens earned since the last refill, clamped at `capacity`, and stamps
      the bucket with `now`. */
  function Refill(b: Bucket, now: int): (r: Bucket)
    ensures r.capacity == b.capacity && r.refillRate == b.refillRate && r.lastRefill == now
    ensures r.tokens <= b.capacity && r.tokens <= b.tokens + Gain(b, now)
    ensures r.tokens == b.capacity || r.tokens == b.tokens + Gain(b, now)
  {
    var earned := b.tokens + Gain(b, now);
    b.(tokens := if b.capacity < earned then b.capacity else earned, lastRefill := now)
  }

  /** Refilling keeps a valid bucket valid when time does not run backwards. */
  lemma RefillKeepsValid(b: Bucket, now: int)
    requires Valid(b) && b.lastRefill <= now
    ensures Valid(Refill(b, now))
    ensures b.tokens <= Refill(b, now).tokens
  {
  }

  /** A second refill at the same instant changes nothing. */
  lemma RefillIdempotent(b: Bucket, now: int)
    ensures Refill(Refill(b, now), now) == Refill(b, now)
  {
  }

  /** Refilling at `t1` and again at `t2` gives the same bucket as one refill at `t2`:
      the refill does not depend on how often it is sampled. */
  lemma RefillPathIndependent(b: Bucket, t1: int, t2: int)
    requires b.lastRefill <= t1 <= t2 && 0.0 <= b.refillRate
    ensures Refill(Refill(b, t1), t2) == Refill(b, t2)
  {
  }

  /** Why the invariant needs a clock that does not run backwards: a refill stamped
      earlier than the last one takes tokens away, below zero here. */
  lemma BackwardClockDrains()
    ensures var b := Bucket(3.0, 0.5, 1.0, 2000);
      Valid(b) && Refill(b, 1000).tokens == -0.5
  {
  }

  /** Result of one admission attempt: whether a token was taken, and the bucket after. */
  datatype Step = Step(allowed: bool, bucket: Bucket)

  /** Refills, then takes one token when at least one whole token is available. */
  function TryRemoveToken(b: Bucket, now: int): (r: Step)
    ensures var f := Refill(b, now);
      && (r.allowed <==> f.tokens >= 1.0)
      && r.bucket.tokens == (if r.allowed then f.tokens - 1.0 else f.tokens)
      && r.bucket == f.(tokens := r.bucket.tokens)
  {
    var f := Refill(b, now);
    if f.tokens >= 1.0 then Step(true, f.(tokens := f.tokens - 1.0)) else Step(false, f)
  }

  /** One admission attempt keeps the clamping invariant when time does not run backwards. */
  lemma TryRemoveKeepsValid(b: Bucket, now: int)
    requires Valid(b) && b.lastRefill <= now
    ensures Valid(TryRemoveToken(b, now).bucket)
  {
  }

  /** The decisions for requests arriving at `times`, and the bucket after the last. */
  datatype Trace = Trace(admitted: seq<bool>, bucket: Bucket)

  function Run(b: Bucket, times: seq<int>): (r: Trace)
    ensures |r.admitted| == |times|
    ensures r.bucket.capacity == b.capacity && r.bucket.refillRate == b.refillRate
    decreases |times|
  {
    if |times| == 0 then Trace([], b)
    else
      var s := TryRemoveToken(b, times[0]);
      var rest := Run(s.bucket, times[1..]);
      Trace([s.allowed] + rest.admitted, rest.bucket)
  }

  /** `times` never runs backwards, and starts no earlier than `start`. */
  predicate Chronological(start: int, times: seq<int>) {
    && (forall i :: 0 <= i < |times| ==> start <= times[i])
    && (forall i, j :: 0 <= i < j < |times| ==> times[i] <= times[j])
  }

  /** The clamping invariant holds after any chronological sequence of requests. */
  lemma {:induction false} RunKeepsValid(b: Bucket, times: seq<int>)
    requires Valid(b) && Chronological(b.lastRefill, times)
    ensures Valid(Run(b, times).bucket)
    decreases |times|
  {
    if |times| > 0 {
      var s := TryRemoveToken(b, times[0]);
      TryRemoveKeepsValid(b, times[0]);
      assert Chronological(s.bucket.lastRefill, times[1..]);
      RunKeepsValid(s.bucket, times[1..]);
    }
  }

  /** With the default settings, a fresh bucket admits three requests at the same
      instant and denies the fourth; one second later exactly one more is admitted. */
  lemma DefaultBurstThenOnePerSecond(t: int)
    ensures Run(New(3.0, 1.0, t), [t, t, t, t, t + 1000, t + 1000]).admitted
         == [true, true, true, false, true, false]
  {
    var b0 := New(3.0, 1.0, t);
    var s1 := TryRemoveToken(b0, t);
    assert s1.bucket.tokens == 2.0;
    var s2 := TryRemoveToken(s1.bucket, t);
    assert s2.bucket.tokens == 1.0;
    var s3 := TryRemoveToken(s2.bucket, t);
    assert s3.bucket.tokens == 0.0;
    var s4 := TryRemoveToken(s3.bucket, t);
    assert !s4.allowed && s4.bucket.tokens == 0.0;
    var s5 := TryRemoveToken(s4.bucket, t + 1000);
    assert Gain(s4.bucket, t + 1000) == 1.0;
    assert s5.allowed && s5.bucket.tokens == 0.0;
    var s6 := TryRemoveToken(s5.bucket, t + 1000);
    assert !s6.allowed;
    var ts := [t, t, t, t, t + 1000, t + 1000];
    assert ts[1..] == [t, t, t, t + 1000, t + 1000];
    assert ts[2..] == [t, t, t + 1000, t + 1000];
    assert ts[3..] == [t, t + 1000, t + 1000];
    assert ts[4..] == [t + 1000, t + 1000];
    assert ts[5..] == [t + 1000];
    assert Run(s5.bucket, ts[5..]).admitted == [false];
    assert Run(s4.bucket, ts[4..]).admitted == [true, false];
    assert Run(s3.bucket, ts[3..]).admitted == [false, true, false];
    assert Run(s2.bucket, ts[2..]).admitted == [true, false, true, false];
    assert Run(s1.bucket, ts[1..]).admitted == [true, true, false, true, false];
  }

  /** Number of admitted requests in a sequence of decisions. */
  function CountAdmitted(a: seq<bool>): (n: nat)
    ensures n <= |a|
  {
    if |a| == 0 then 0 else (if a[0] then 1 else 0) + CountAdmitted(a[1..])
  }

  /** With a zero refill rate the bucket never gains tokens, whatever the clock does:
      every admission is paid for out of the tokens it started with. */
  lemma {:induction false} FrozenBucketSpendsOnly(b: Bucket, times: seq<int>)
    requires b.refillRate == 0.0
    ensures CountAdmitted(Run(b, times).admitted) as real + Run(b, times).bucket.tokens <= b.tokens
    decreases |times|
  {
    if |times| > 0 {
      var s := TryRemoveToken(b, times[0]);
      assert Gain(b, times[0]) == 0.0;
      FrozenBucketSpendsOnly(s.bucket, times[1..]);
      assert Run(b, times).admitted[1..] == Run(s.bucket, times[1..]).admitted;
    }
  }

  /** With a zero refill rate, once less than one token is left every later request
      is denied. */
  lemma {:induction false} FrozenBucketDeniesForever(b: Bucket, times: seq<int>)
    requires b.refillRate == 0.0 && b.tokens < 1.0
    ensures forall i :: 0 <= i < |times| ==> !Run(b, times).admitted[i]
    decreases |times|
  {
    if |times| > 0 {
      var s := TryRemoveToken(b, times[0]);
      assert Gain(b, times[0]) == 0.0;
      assert !s.allowed && s.bucket.tokens < 1.0;
      FrozenBucketDeniesForever(s.bucket, times[1..]);
      var a := Run(b, times).admitted;
      assert a[1..] == Run(s.bucket, times[1..]).admitted;
      forall i | 0 <= i < |times| ensures !a[i] {
        if i > 0 {
          assert a[i] == a[1..][i - 1];
        }
      }
    }
  }

  /** A bucket of capacity one that never refills admits at most one request in any
      sequential run, however many arrive. */
  lemma SingleTokenAdmitsAtMostOnce(t: int, times: seq<int>)
    ensures CountAdmitted(Run(New(1.0, 0.0, t), times).admitted) <= 1
  {
    var b := New(1.0, 0.0, t);
    FrozenBucketSpendsOnly(b, times);
    RunKeepsValidAnyClock(b, times);
  }

  /** With a zero refill rate the clamping invariant holds whatever order the times
      come in, since no refill ever adds tokens. */
  lemma {:induction false} RunKeepsValidAnyClock(b: Bucket, times: seq<int>)
    requires Valid(b) && b.refillRate == 0.0
    ensures Valid(Run(b, times).bucket)
    decreases |times|
  {
    if |times| > 0 {
      var s := TryRemoveToken(b, times[0]);
      assert Gain(b, times[0]) == 0.0;
      RunKeepsValidAnyClock(s.bucket, times[1..]);
    }
  }
}
