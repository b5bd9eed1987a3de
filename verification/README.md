# Clock-Seed: time-based seeds for Blender scenes

A Dafny model of the Blender add-on "Random Seed Generator" (`time_ver4.py`).
The add-on has two parts:

- **Seed derivation.** It packs the time of day into the decimal number
  `HHMMSSMMM`, so 14:30:45.123 becomes 143045123.
- **Propagation policy.** It decides when to take a fresh reading of the clock
  and which of six integer scene properties to write on every scene.
  The properties are the static slot `clock_static_seed`, the dynamic slot
  `clock_seed`, and the components `clock_hour`, `clock_minute`,
  `clock_second` and `clock_millisecond`.

Four entry points drive the policy:

- the playback-start handler;
- the file-load handler;
- the lazy-initialisation handler, which runs on every dependency-graph update;
- the "Generate New Seed" operator. It also keeps a process-wide cache of the
  last seed it captured.

Files and modules:

- `time_seed.dfy`, module `SeedDerivation`: the packing as a pure function of a
  clock reading (`Instant`), with its range, its inverse digit by digit,
  injectivity, order preservation and the midnight zero.
- `wall_clock.dfy`, module `WallClock`: `datetime.now()` as a `Clock` object.
  Its k-th reading is `schedule(k)` and `samples` counts the readings taken.
  This lets contracts say how often a handler reads the clock and which reading
  it used (`old(clock.Peek())`). `GetTimeSeed` reads it once.
- `seed_policy.dfy`, module `SeedPolicy`: what each handler does to one scene's
  six properties, as pure functions (`AfterPlayback`, `AfterLoad`,
  `AfterDepsgraphUpdate`, `AfterGenerate`). Each takes the sample the handler
  writes: the seed of one reading and its four components. The lemmas about
  them state the policy's properties. `Replay` runs a whole session of events
  in the order the host dispatches them, one at a time. Lemmas over `Replay`
  state the per-slot state machine: `0 → non-zero`, with later changes only
  from the handlers that write unconditionally.
- `blender_data.dfy`, module `BlenderData`: the host data. `Scene` has the six
  properties and a `tagged` flag that stands for `update_tag()`. `Obj` has a
  modifier stack (`Nodes | Other`) and a `tagged` flag.
- `handlers.dfy`, module `SeedHandlers`: the three handlers and the operator,
  written field by field as the source does it. The playback and load handlers
  and the operator loop over every scene and read the clock once. The
  dependency-graph handler acts on the single scene it is given, has no loop,
  and reads the clock at most once: only when a slot holds 0. Each is proved
  to leave every scene it touches at the policy function of its old properties
  and of the clock reading it took. `SeedGenerator` owns the last-captured
  cache (`lastCapturedSeed`, with the never-read time kept as a ghost field)
  and has `GetStoredSeed` and `Execute`.

Facts about the code that the model states:

- The largest seed is 235 959 999 (23:59:59.999). `TimeSeed` proves that
  bound.
- A load writes the reading's seed, so after a load in the first millisecond
  after midnight both slots hold 0 (`LoadSetsBothSlots`).
- The load handler does not call `update_tag()`. In the model it leaves every
  scene's `tagged` flag as it was.

All values written are at most 235 959 999. That fits Blender's 32-bit
`IntProperty`, so the model's unbounded integers need no wrap-around.

## Model

| member | source | states |
|---|---|---|
| `SeedDerivation.Millisecond` | time_ver4.py:28 | the millisecond lies in 0..999 and is the microsecond count truncated to whole milliseconds |
| `SeedDerivation.TimeSeed` | time_ver4.py:20-29 | the seed of any valid reading lies in 0..235 959 999 |
| `SeedDerivation.PackDecodes` | time_ver4.py:24-28 | the HH, MM, SS and MMM digit groups of a packed seed read back the hour, minute, second and millisecond it was packed from |
| `SeedDerivation.TimeSeedInjective` | time_ver4.py:25-28 | two readings give equal seeds exactly when they agree in hour, minute, second and millisecond |
| `SeedDerivation.TimeSeedOrdered` | time_ver4.py:25-28 | one seed is smaller than another exactly when its reading is earlier in the day, to the millisecond |
| `SeedDerivation.TimeSeedZero` | time_ver4.py:25-28 | the seed is 0 exactly for readings in the first millisecond after midnight |
| `SeedDerivation.TimeSeedExamples` | time_ver4.py:24-28 | 14:30:45.123456 gives 143045123 and 00:00:00.000000 gives 0 |
| `SeedDerivation.SampleOf` | time_ver4.py:25-29 | what a reading hands to the handlers (seed, hour, minute, second, millisecond) has its components within their ranges and its seed equal to their packing |
| `WallClock.Clock.Now` | time_ver4.py:22 | a reading returns the clock's next scheduled instant and counts one sample |
| `WallClock.GetTimeSeed` | time_ver4.py:20-29 | one sample is taken, and the seed returned is the packing of that same reading, within range |
| `SeedPolicy.PlaybackRefreshesDynamicOnly` | time_ver4.py:47-53 | after playback the dynamic slot and all four components come from the one sample, stay within the declared bounds and agree with each other, and the static slot is unchanged |
| `SeedPolicy.LoadSetsBothSlots` | time_ver4.py:66-75 | after a load both slots equal the sample's seed and the components come from that same sample, whatever the scene held before; a slot reads as uninitialised exactly when that seed is 0 |
| `SeedPolicy.DepsgraphNoOp` | time_ver4.py:84 | with both slots non-zero the lazy handler leaves all six properties unchanged |
| `SeedPolicy.DepsgraphSlotsIndependent` | time_ver4.py:87-95 | a non-zero static slot survives, a zero static slot receives the seed; a non-zero dynamic part survives, a zero dynamic slot gets seed and components from the sample |
| `SeedPolicy.DepsgraphPreservesCoherence` | time_ver4.py:84-95 | components within bounds and a dynamic seed agreeing with them stay so after the lazy handler |
| `SeedPolicy.DepsgraphIdempotent` | time_ver4.py:84-95 | after one update from a sample whose seed is not 0, both slots are non-zero and a second update changes nothing |
| `SeedPolicy.MidnightSeedLooksUnset` | time_ver4.py:84-91 | a slot initialised from a seed of 0 (a midnight reading, see `TimeSeedZero`) still reads as uninitialised, and the next update from a non-zero sample overwrites it |
| `SeedPolicy.LoadThenDepsgraphNoOp` | time_ver4.py:61-95 | after a load from a sample whose seed is not 0, the lazy handler has nothing to do |
| `SeedPolicy.GenerateSetsStaticOnly` | time_ver4.py:115-118 | "Generate New Seed" sets the static slot to the captured seed and keeps the dynamic slot and components, with their bounds and coherence |
| `SeedPolicy.ReplayKeepsCoherence` | time_ver4.py:39-133 | over any sequence of playback, load, dependency-graph and "Generate New Seed" events, starting from the defaults, the components stay within bounds and the dynamic seed stays equal to their packing |
| `SeedPolicy.StaticSlotKeptWithoutLoadOrGenerate` | time_ver4.py:47-53 | a non-zero static slot is kept by every sequence of events that holds no load and no "Generate New Seed" |
| `SeedPolicy.DynamicSlotKeptWithoutPlaybackOrLoad` | time_ver4.py:87-95 | a non-zero dynamic slot and its components are kept by every sequence of events that holds no playback start and no load |
| `SeedPolicy.LazyPathTerminal` | time_ver4.py:84 | a scene with both slots non-zero is left exactly as it is by any number of dependency-graph updates |
| `BlenderData.Scene.constructor` | time_ver4.py:201-245 | a scene starts with all six properties at their default 0 and untagged |
| `SeedHandlers.ClockAnimationPreHandler` | time_ver4.py:39-55 | one clock sample; every scene gets the playback update from that same reading and is tagged |
| `SeedHandlers.ClockLoadHandler` | time_ver4.py:59-77 | one clock sample; every scene gets both slots and the components from that same reading, and no tag changes |
| `SeedHandlers.ClockDepsgraphUpdateHandler` | time_ver4.py:81-95 | the clock is read once when a slot is 0 and not at all otherwise; the scene ends at the lazy-initialisation result for that reading and no tag changes |
| `SeedHandlers.SeedGenerator.constructor` | time_ver4.py:15-17 | nothing is captured at start and the stored seed reads 0 |
| `SeedHandlers.SeedGenerator.GetStoredSeed` | time_ver4.py:32-35 | the stored seed is the seed held in the cache when one has been captured and 0 while nothing is captured, and it is in range; reading it takes no clock sample |
| `SeedHandlers.SeedGenerator.Execute` | time_ver4.py:104-133 | one clock sample. The cache holds its seed and reading, and `GetStoredSeed` returns that seed. Every scene's static slot is set to the cached value, its other properties are kept, and it is tagged. An object ends tagged exactly when it was tagged before or has a geometry-nodes modifier, and its modifiers are unchanged. The result is FINISHED |

## Left out

- Reading the wall clock (`datetime.now()`, time_ver4.py:22) is I/O. It is modelled as the `Clock` oracle, whose readings are arbitrary in-range instants. Date fields and time zones play no part.
- Console output (`print`, e.g. time_ver4.py:43-44, 112-113) has no behaviour to verify.
- `SEED_PT_panel.draw` (time_ver4.py:136-183) is UI layout only.
- `register`/`unregister` (time_ver4.py:186-268) add or remove handlers if absent or present, and register the class and the properties. That is host plumbing. The properties' defaults are captured by `BlenderData.Scene.constructor` and their min/max by `SeedFields.InBounds`.
- `context.scene.frame_set(current_frame)` (time_ver4.py:128-129) only triggers a host recompute and is not modelled. `update_tag()` is modelled only as the `tagged` flag. Blender clears that flag during re-evaluation, and the model does not capture that.
- The handlers' unused arguments (`dummy`, `depsgraph`) and the operator's `context` are not modelled. The active scene is reached only through `frame_set`.
- Blender's clamping of an `IntProperty` to its min/max on assignment is not modelled. Every value the add-on writes is already within bounds (`PlaybackRefreshesDynamicOnly`, `LoadSetsBothSlots`).
- The operator's return value `{'FINISHED'}` is modelled as the single status `Finished`.
