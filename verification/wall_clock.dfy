/** The wall clock behind `datetime.now()`, and the seed sampled from it. */
module WallClock {
  import opened SeedDerivation

  /** The clock as an oracle: its k-th reading is `schedule(k)`, and
      `samples` counts how many readings have been taken so far. */
  class Clock {
    const schedule: nat -> Instant
    var samples: nat

    constructor (schedule: nat -> Instant)
      ensures this.schedule == schedule && samples == 0
    {
      this.schedule := schedule;
      samples := 0;
    }

    /** The reading the next call to `Now` returns. */
    function Peek(): Instant
      reads this
    {
      schedule(samples)
    }

    /** Reads the clock once. */
    method Now() returns (now: Instant)
      modifies this
      ensures now == old(Peek())
      ensures samples == old(samples) + 1
    {
      now := schedule(samples);
      samples := samples + 1;
    }
  }

  /** Samples the clock once and returns the seed of that reading together
      with the reading itself. */
  method GetTimeSeed(clock: Clock) returns (seed: int, now: Instant)
    modifies clock
    ensures now == old(clock.Peek())
    ensures clock.samples == old(clock.samples) + 1
    ensures seed == TimeSeed(now) && 0 <= seed <= MaxSeed
  {
    now := clock.Now();
    seed := now.hour * 10_000_000 + now.minute * 100_000 + now.second * 1000 + now.microsecond / 1000;
  }
}
