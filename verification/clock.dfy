/**
 * Time as the service sees it.  A `time.Time` is an integer count of
 * nanoseconds since the Unix epoch, a `time.Duration` a signed 64-bit count of
 * nanoseconds, and a BSON DateTime (what MongoDB stores) a signed count of
 * milliseconds.  The wall clock itself is never read: every caller receives
 * the current instant as a parameter `now`.
 */
module Clock {

  const NanosPerSecond: int := 1_000_000_000
  const NanosPerMilli: int := 1_000_000

  const MinInt64: int := -0x8000_0000_0000_0000
  const MaxInt64: int := 0x7fff_ffff_ffff_ffff
  const TwoTo64: int := 0x1_0000_0000_0000_0000

  /** The largest whole number of seconds a `time.Duration` can hold (about 292 years). */
  const MaxDurationSeconds: int := 9_223_372_036

  predicate IsInt64(x: int) {
    MinInt64 <= x <= MaxInt64
  }

  /** Two's-complement wrap-around of an exact product into Go's int64. */
  function WrapInt64(x: int): (r: int)
    ensures IsInt64(r)
    ensures IsInt64(x) ==> r == x
    ensures (x - r) % TwoTo64 == 0
  {
    (x - MinInt64) % TwoTo64 + MinInt64
  }

  /** `time.Duration(seconds) * time.Second`: the product wraps at 64 bits. */
  function SecondsToDuration(seconds: int): (d: int)
    ensures IsInt64(d)
    ensures -MaxDurationSeconds <= seconds <= MaxDurationSeconds ==> d == seconds * NanosPerSecond
  {
    WrapInt64(seconds * NanosPerSecond)
  }

  /** `now.Add(time.Duration(seconds) * time.Second)`. */
  function AddSeconds(now: int, seconds: int): (t: int)
    ensures MinInt64 <= t - now <= MaxInt64
    ensures -MaxDurationSeconds <= seconds <= MaxDurationSeconds ==> t == now + seconds * NanosPerSecond
  {
    now + SecondsToDuration(seconds)
  }

  /** `t.After(u)`: strictly later. */
  predicate After(t: int, u: int) {
    t > u
  }

  /**
   * The BSON DateTime a `time.Time` is stored as: whole milliseconds, rounded
   * towards the past (`t.Unix()*1000 + t.Nanosecond()/1e6`).
   */
  function ToDateTime(t: int): (ms: int)
    ensures FromDateTime(ms) <= t < FromDateTime(ms) + NanosPerMilli
  {
    t / NanosPerMilli
  }

  /** `DateTime.Time()`: back to nanoseconds. */
  function FromDateTime(ms: int): int {
    ms * NanosPerMilli
  }

  /** Within the range of `time.Duration`, adding seconds is exact. */
  lemma AddSecondsExact(now: int, seconds: int)
    requires -MaxDurationSeconds <= seconds <= MaxDurationSeconds
    ensures AddSeconds(now, seconds) == now + seconds * NanosPerSecond
  {
    assert IsInt64(seconds * NanosPerSecond);
  }

  /**
   * Past the range the product wraps modulo 2^64.  From one second past the
   * range up to 2^64 nanoseconds it wraps exactly once, to a negative
   * duration: the result lies in the past.
   */
  lemma AddSecondsWrapsPastRange(now: int, seconds: int)
    requires MaxDurationSeconds < seconds <= 2 * MaxDurationSeconds + 1
    ensures SecondsToDuration(seconds) == seconds * NanosPerSecond - TwoTo64
    ensures AddSeconds(now, seconds) < now
  {
    var x := seconds * NanosPerSecond;
    assert TwoTo64 <= x - MinInt64 < 2 * TwoTo64;
    assert (x - MinInt64) % TwoTo64 == x - MinInt64 - TwoTo64;
  }

  /**
   * A larger lifetime can wrap back to a short positive duration: twice one
   * second past the range gives about 0.29 seconds.
   */
  lemma AddSecondsWrapsPositive(now: int)
    ensures SecondsToDuration(2 * (MaxDurationSeconds + 1)) == 290_448_384
    ensures now < AddSeconds(now, 2 * (MaxDurationSeconds + 1)) < now + NanosPerSecond
  {
  }

  /** An instant stored as a DateTime and read back is at most one millisecond earlier. */
  lemma DateTimeRoundTrip(t: int)
    ensures t - NanosPerMilli < FromDateTime(ToDateTime(t)) <= t
    ensures FromDateTime(ToDateTime(FromDateTime(ToDateTime(t)))) == FromDateTime(ToDateTime(t))
  {
    var ms := ToDateTime(t);
    assert ToDateTime(FromDateTime(ms)) == ms;
  }
}
