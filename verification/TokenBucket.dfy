/** The standard token bucket that `rate.Limiter` provides: it starts full, refills at `rate` up to
    `burst`, and a denial costs nothing. Tokens are exact reals, time is in nanoseconds. */
module TokenBucket {

  const NANOS_PER_SECOND: real := 1000000000.0

  datatype Key = Key(ip: string, rate: real, burst: int)

  datatype Bucket = Bucket(tokens: real, at: int)

  /** Tokens gained in `nanos` nanoseconds. */
  function Refill(k: Key, nanos: int): real {
    k.rate * (nanos as real / NANOS_PER_SECOND)
  }

  function Full(k: Key, now: int): Bucket {
    Bucket(k.burst as real, now)
  }

  function Level(k: Key, b: Bucket, now: int): real {
    var t := b.tokens + Refill(k, if now < b.at then 0 else now - b.at);
    if t > k.burst as real then k.burst as real else t
  }

  predicate HasToken(k: Key, b: Bucket, now: int) {
    Level(k, b, now) >= 1.0
  }

  function Take(k: Key, b: Bucket, now: int): Bucket {
    if HasToken(k, b, now) then Bucket(Level(k, b, now) - 1.0, now) else b
  }

  ghost predicate WellFormed(k: Key, b: Bucket) {
    b.tokens <= k.burst as real && (b.tokens >= 0.0 || (k.burst < 0 && b.tokens == k.burst as real))
  }

  lemma RefillMonotone(k: Key, m: int, n: int)
    requires k.rate >= 0.0 && m <= n
    ensures Refill(k, m) <= Refill(k, n)
  {
    var x, y := m as real / NANOS_PER_SECOND, n as real / NANOS_PER_SECOND;
    assert x <= y;
    MulMonotone(k.rate, x, y);
  }

  lemma MulMonotone(r: real, x: real, y: real)
    requires r >= 0.0 && x <= y
    ensures r * x <= r * y
  {
  }

  lemma RefillAdds(k: Key, m: int, n: int)
    ensures Refill(k, m + n) == Refill(k, m) + Refill(k, n)
  {
    var x, y := m as real / NANOS_PER_SECOND, n as real / NANOS_PER_SECOND;
    assert (m + n) as real / NANOS_PER_SECOND == x + y;
    assert k.rate * (x + y) == k.rate * x + k.rate * y;
  }

  lemma RefillNone(k: Key)
    ensures Refill(k, 0) == 0.0
  {
    assert 0 as real / NANOS_PER_SECOND == 0.0;
  }

  /** Watching the level at an intermediate time loses nothing. */
  lemma LevelAdvances(k: Key, b: Bucket, t: int, u: int)
    requires k.rate >= 0.0 && b.tokens <= k.burst as real && b.at <= t <= u
    ensures Level(k, b, u) ==
      var l := Level(k, b, t) + Refill(k, u - t);
      if l > k.burst as real then k.burst as real else l
  {
    RefillAdds(k, t - b.at, u - t);
    RefillNone(k);
    RefillMonotone(k, 0, u - t);
  }

  lemma TakeKeepsWellFormed(k: Key, b: Bucket, now: int)
    requires k.rate >= 0.0 && WellFormed(k, b)
    ensures WellFormed(k, Take(k, b, now))
  {
  }

  /** The level right after an attempt: one less if it was admitted, otherwise unchanged. */
  lemma LevelAfterTake(k: Key, b: Bucket, now: int)
    requires k.rate >= 0.0 && b.at <= now
    ensures Level(k, Take(k, b, now), now) == Level(k, b, now) - if HasToken(k, b, now) then 1.0 else 0.0
  {
    RefillNone(k);
  }
}
