/** Seed derivation: a time of day packed into the decimal number HHMMSSMMM. */
module SeedDerivation {

  /** The time-of-day fields of a Python `datetime`, at microsecond precision. */
  datatype TimeOfDay = TimeOfDay(hour: int, minute: int, second: int, microsecond: int)
  {
    /** The ranges a `datetime` guarantees for each field. */
    predicate InRange() {
      0 <= hour <= 23 && 0 <= minute <= 59 && 0 <= second <= 59 && 0 <= microsecond <= 999_999
    }
  }

  /** A reading of the wall clock: a time of day whose fields are in range. */
  type Instant = t: TimeOfDay | t.InRange() witness TimeOfDay(0, 0, 0, 0)

  /** The seed of 23:59:59.999, the largest one. */
  const MaxSeed: int := 235_959_999

  /** Milliseconds within the second. Python's `//` floors; for the positive
      divisor 1000 Dafny's `/` is the same operation, so the sub-millisecond
      part is truncated. */
  function Millisecond(now: Instant): (ms: int)
    ensures 0 <= ms <= 999
    ensures ms * 1000 <= now.microsecond < ms * 1000 + 1000
  {
    now.microsecond / 1000
  }

  /** The four components are each within the range of its decimal place. */
  predicate ComponentsInRange(hour: int, minute: int, second: int, millisecond: int) {
    0 <= hour <= 23 && 0 <= minute <= 59 && 0 <= second <= 59 && 0 <= millisecond <= 999
  }

  /** Decimal packing HHMMSSMMM of four components. */
  function Pack(hour: int, minute: int, second: int, millisecond: int): int {
    hour * 10_000_000 + minute * 100_000 + second * 1000 + millisecond
  }

  /** The seed of a clock reading. */
  function TimeSeed(now: Instant): (seed: int)
    ensures 0 <= seed <= MaxSeed
  {
    Pack(now.hour, now.minute, now.second, Millisecond(now))
  }

  /** What one reading contributes to a scene: its seed and the four
      components written beside it. */
  datatype Sample = Sample(seed: int, hour: int, minute: int, second: int, millisecond: int)
  {
    /** The components are in range and the seed is their packing. */
    predicate Valid() {
      ComponentsInRange(hour, minute, second, millisecond) && seed == Pack(hour, minute, second, millisecond)
    }
  }

  /** The seed and components of a reading, as `get_time_seed` hands them to its callers. */
  function SampleOf(now: Instant): (s: Sample)
    ensures s.Valid()
  {
    Sample(TimeSeed(now), now.hour, now.minute, now.second, Millisecond(now))
  }

  // The inverse of the packing, digit group by digit group.
  function HourOf(seed: int): int { seed / 10_000_000 }
  function MinuteOf(seed: int): int { seed / 100_000 % 100 }
  function SecondOf(seed: int): int { seed / 1000 % 100 }
  function MillisecondOf(seed: int): int { seed % 1000 }

  /** Euclidean division is determined by any quotient/remainder pair with the remainder in range. */
  lemma DivModUnique(x: int, d: int, q: int, r: int)
    requires 0 < d && 0 <= r < d && x == q * d + r
    ensures x / d == q && x % d == r
  {
    var q', r' := x / d, x % d;
    assert x == q' * d + r' && 0 <= r' < d;
    if q' < q {
      assert q' * d + d <= q * d by { MulMonotone(q' + 1, q, d); }
    } else if q < q' {
      assert q * d + d <= q' * d by { MulMonotone(q + 1, q', d); }
    }
  }

  lemma MulMonotone(a: int, b: int, d: int)
    requires a <= b && 0 < d
    ensures a * d <= b * d
  {
    assert b * d - a * d == (b - a) * d;
  }

  /** Each digit group of a packed seed reads back the component it was packed from. */
  lemma PackDecodes(hour: int, minute: int, second: int, millisecond: int)
    requires ComponentsInRange(hour, minute, second, millisecond)
    ensures var seed := Pack(hour, minute, second, millisecond);
      HourOf(seed) == hour && MinuteOf(seed) == minute && SecondOf(seed) == second && MillisecondOf(seed) == millisecond
  {
    var seed := Pack(hour, minute, second, millisecond);
    DivModUnique(seed, 1000, hour * 10_000 + minute * 100 + second, millisecond);
    DivModUnique(hour * 10_000 + minute * 100 + second, 100, hour * 100 + minute, second);
    DivModUnique(seed, 100_000, hour * 100 + minute, second * 1000 + millisecond);
    DivModUnique(hour * 100 + minute, 100, hour, minute);
    DivModUnique(seed, 10_000_000, hour, minute * 100_000 + second * 1000 + millisecond);
  }

  /** Two readings give the same seed exactly when they agree to the millisecond. */
  lemma TimeSeedInjective(a: Instant, b: Instant)
    ensures TimeSeed(a) == TimeSeed(b) <==>
      a.hour == b.hour && a.minute == b.minute && a.second == b.second && Millisecond(a) == Millisecond(b)
  {
    PackDecodes(a.hour, a.minute, a.second, Millisecond(a));
    PackDecodes(b.hour, b.minute, b.second, Millisecond(b));
  }

  /** `a` is strictly earlier than `b` in the day, compared to the millisecond. */
  predicate EarlierThan(a: Instant, b: Instant) {
    a.hour < b.hour ||
    (a.hour == b.hour && a.minute < b.minute) ||
    (a.hour == b.hour && a.minute == b.minute && a.second < b.second) ||
    (a.hour == b.hour && a.minute == b.minute && a.second == b.second && Millisecond(a) < Millisecond(b))
  }

  /** The packing keeps chronological order: a later reading has a larger seed. */
  lemma TimeSeedOrdered(a: Instant, b: Instant)
    ensures TimeSeed(a) < TimeSeed(b) <==> EarlierThan(a, b)
  {
    TimeSeedInjective(a, b);
  }

  /** Only the first millisecond after midnight packs to 0. */
  lemma TimeSeedZero(now: Instant)
    ensures TimeSeed(now) == 0 <==> now.hour == 0 && now.minute == 0 && now.second == 0 && now.microsecond < 1000
  {
  }

  /** The two values the packing is documented with. */
  lemma TimeSeedExamples()
    ensures TimeSeed(TimeOfDay(14, 30, 45, 123_456)) == 143_045_123
    ensures TimeSeed(TimeOfDay(0, 0, 0, 0)) == 0
  {
  }
}
