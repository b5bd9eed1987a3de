/** What each handler does to the six seed properties of one scene, as
    functions of the scene's properties before the call and of the sample
    (seed and components of one clock reading) it takes. */
module SeedPolicy {
  import opened SeedDerivation

  /** The six integer properties registered on every scene: the static slot
      `clock_static_seed`, the dynamic slot `clock_seed`, and the components
      `clock_hour`, `clock_minute`, `clock_second`, `clock_millisecond`. */
  datatype SeedFields = SeedFields(staticSeed: int, seed: int, hour: int, minute: int, second: int, millisecond: int)
  {
    /** Each component lies within the min/max its property declares. */
    predicate InBounds() {
      ComponentsInRange(hour, minute, second, millisecond)
    }

    /** The dynamic seed is the packing of the four components beside it. */
    predicate Coherent() {
      seed == Pack(hour, minute, second, millisecond)
    }

    /** A slot still holds 0, which the lazy handler reads as "uninitialised". */
    predicate NeedsInit() {
      seed == 0 || staticSeed == 0
    }

    /** The dynamic slot and the components are those of sample `s`. */
    predicate DynamicFrom(s: Sample) {
      seed == s.seed && hour == s.hour && minute == s.minute && second == s.second && millisecond == s.millisecond
    }

    /** The same dynamic slot and components as `other`. */
    predicate SameDynamic(other: SeedFields) {
      seed == other.seed && hour == other.hour && minute == other.minute && second == other.second && millisecond == other.millisecond
    }
  }

  /** Every property at its registered default. */
  const Unset := SeedFields(0, 0, 0, 0, 0, 0)

  /** The dynamic slot and components written from one sample, the static slot kept. */
  function WithDynamic(f: SeedFields, s: Sample): SeedFields {
    f.(seed := s.seed, hour := s.hour, minute := s.minute, second := s.second, millisecond := s.millisecond)
  }

  /** Playback start refreshes the dynamic slot. */
  function AfterPlayback(f: SeedFields, s: Sample): SeedFields {
    WithDynamic(f, s)
  }

  /** File load overwrites both slots from the one sample. */
  function AfterLoad(s: Sample): SeedFields {
    WithDynamic(Unset, s).(staticSeed := s.seed)
  }

  /** The lazy initialisation on a dependency-graph update: only a slot at 0 is set. */
  function AfterDepsgraphUpdate(f: SeedFields, s: Sample): SeedFields {
    if f.NeedsInit() then
      var g := if f.staticSeed == 0 then f.(staticSeed := s.seed) else f;
      if f.seed == 0 then WithDynamic(g, s) else g
    else
      f
  }

  /** "Generate New Seed" writes the captured seed into the static slot only. */
  function AfterGenerate(f: SeedFields, captured: int): SeedFields {
    f.(staticSeed := captured)
  }

  /** Playback takes everything in the dynamic part from the one sample,
      stays within the declared bounds and never touches the static slot. */
  lemma PlaybackRefreshesDynamicOnly(f: SeedFields, s: Sample)
    requires s.Valid()
    ensures var r := AfterPlayback(f, s);
      r.DynamicFrom(s) && r.InBounds() && r.Coherent() && r.staticSeed == f.staticSeed
  {
  }

  /** After a load both slots hold the sample's seed and the components come
      from that same sample, whatever the scene held before; unless that seed
      is 0, nothing is left uninitialised. */
  lemma LoadSetsBothSlots(s: Sample)
    requires s.Valid()
    ensures var r := AfterLoad(s);
      r.staticSeed == r.seed == s.seed && r.DynamicFrom(s) && r.InBounds() && r.Coherent() &&
      (r.NeedsInit() <==> s.seed == 0)
  {
  }

  /** With both slots non-zero the lazy handler changes nothing. */
  lemma DepsgraphNoOp(f: SeedFields, s: Sample)
    requires !f.NeedsInit()
    ensures AfterDepsgraphUpdate(f, s) == f
  {
  }

  /** Each slot is initialised on its own and only when it holds 0; a
      non-zero slot survives the initialisation of the other. */
  lemma DepsgraphSlotsIndependent(f: SeedFields, s: Sample)
    ensures var r := AfterDepsgraphUpdate(f, s);
      (f.staticSeed != 0 ==> r.staticSeed == f.staticSeed) &&
      (f.staticSeed == 0 ==> r.staticSeed == s.seed) &&
      (f.seed != 0 ==> r.SameDynamic(f)) &&
      (f.seed == 0 ==> r.DynamicFrom(s))
  {
  }

  /** The lazy handler keeps the components in bounds and the dynamic seed
      coherent with them. */
  lemma DepsgraphPreservesCoherence(f: SeedFields, s: Sample)
    requires s.Valid() && f.InBounds() && f.Coherent()
    ensures AfterDepsgraphUpdate(f, s).InBounds() && AfterDepsgraphUpdate(f, s).Coherent()
  {
  }

  /** Once initialised from a sample whose seed is not 0, a second
      dependency-graph update leaves the scene as the first one left it. */
  lemma DepsgraphIdempotent(f: SeedFields, s1: Sample, s2: Sample)
    requires s1.seed != 0
    ensures var r := AfterDepsgraphUpdate(f, s1);
      !r.NeedsInit() && AfterDepsgraphUpdate(r, s2) == r
  {
  }

  /** A seed of 0 (a reading in the first millisecond after midnight) cannot
      be told from "uninitialised": a slot initialised from it still needs
      initialisation, and the next update from a non-zero sample overwrites it. */
  lemma MidnightSeedLooksUnset(f: SeedFields, midnight: Sample, later: Sample)
    requires f.NeedsInit() && midnight.seed == 0 && later.seed != 0
    ensures var r := AfterDepsgraphUpdate(f, midnight);
      r.NeedsInit() && AfterDepsgraphUpdate(r, later) != r
  {
    var r := AfterDepsgraphUpdate(f, midnight);
    var r' := AfterDepsgraphUpdate(r, later);
    DepsgraphSlotsIndependent(f, midnight);
    DepsgraphSlotsIndependent(r, later);
    if f.staticSeed == 0 {
      assert r.staticSeed == 0 && r'.staticSeed != r.staticSeed;
    } else {
      assert r.seed == 0 && r'.seed != r.seed;
    }
  }

  /** A load from a sample whose seed is not 0 leaves nothing for the lazy handler to do. */
  lemma LoadThenDepsgraphNoOp(s1: Sample, s2: Sample)
    requires s1.seed != 0
    ensures AfterDepsgraphUpdate(AfterLoad(s1), s2) == AfterLoad(s1)
  {
  }

  /** "Generate New Seed" sets the static slot and keeps the dynamic part,
      its bounds and its coherence. */
  lemma GenerateSetsStaticOnly(f: SeedFields, captured: int)
    ensures var r := AfterGenerate(f, captured);
      r.staticSeed == captured && r.SameDynamic(f) &&
      (f.InBounds() ==> r.InBounds()) && (f.Coherent() ==> r.Coherent())
  {
  }

  /** The events the host dispatches to the add-on, one at a time, each with
      the sample the handler takes (or would take) from the clock. */
  datatype Event =
    | PlaybackStart(sample: Sample)
    | FileLoad(sample: Sample)
    | DepsgraphUpdate(sample: Sample)
    | GenerateNewSeed(sample: Sample)

  /** What one event does to one scene's properties. */
  function Step(f: SeedFields, e: Event): SeedFields {
    match e
    case PlaybackStart(s) => AfterPlayback(f, s)
    case FileLoad(s) => AfterLoad(s)
    case DepsgraphUpdate(s) => AfterDepsgraphUpdate(f, s)
    case GenerateNewSeed(s) => AfterGenerate(f, s.seed)
  }

  /** A scene's properties after a session's events, in dispatch order. */
  function Replay(f: SeedFields, events: seq<Event>): SeedFields
    decreases |events|
  {
    if events == [] then f else Replay(Step(f, events[0]), events[1..])
  }

  /** Starting from the registered defaults (or any scene whose components
      are in bounds and agree with its dynamic seed), every session of clock
      samples keeps the components in bounds and the dynamic seed equal to
      their packing. */
  lemma {:induction false} ReplayKeepsCoherence(f: SeedFields, events: seq<Event>)
    requires f.InBounds() && f.Coherent()
    requires forall i :: 0 <= i < |events| ==> events[i].sample.Valid()
    ensures Replay(f, events).InBounds() && Replay(f, events).Coherent()
    decreases |events|
  {
    if events != [] {
      var g := Step(f, events[0]);
      match events[0] {
        case PlaybackStart(s) => PlaybackRefreshesDynamicOnly(f, s);
        case FileLoad(s) => LoadSetsBothSlots(s);
        case DepsgraphUpdate(s) => DepsgraphPreservesCoherence(f, s);
        case GenerateNewSeed(s) => GenerateSetsStaticOnly(f, s.seed);
      }
      ReplayKeepsCoherence(g, events[1..]);
    }
  }

  /** Whether an event writes the static slot unconditionally. */
  predicate SetsStatic(e: Event) {
    e.FileLoad? || e.GenerateNewSeed?
  }

  /** Whether an event writes the dynamic slot unconditionally. */
  predicate SetsDynamic(e: Event) {
    e.PlaybackStart? || e.FileLoad?
  }

  /** Once the static slot is non-zero, only a file load or "Generate New
      Seed" changes it: playback and the lazy path leave it alone. */
  lemma {:induction false} StaticSlotKeptWithoutLoadOrGenerate(f: SeedFields, events: seq<Event>)
    requires f.staticSeed != 0
    requires forall i :: 0 <= i < |events| ==> !SetsStatic(events[i])
    ensures Replay(f, events).staticSeed == f.staticSeed
    decreases |events|
  {
    if events != [] {
      var g := Step(f, events[0]);
      match events[0] {
        case PlaybackStart(s) =>
        case DepsgraphUpdate(s) => DepsgraphSlotsIndependent(f, s);
      }
      assert g.staticSeed == f.staticSeed;
      StaticSlotKeptWithoutLoadOrGenerate(g, events[1..]);
    }
  }

  /** Once the dynamic slot is non-zero, only playback start or a file load
      changes it or its components. */
  lemma {:induction false} DynamicSlotKeptWithoutPlaybackOrLoad(f: SeedFields, events: seq<Event>)
    requires f.seed != 0
    requires forall i :: 0 <= i < |events| ==> !SetsDynamic(events[i])
    ensures Replay(f, events).SameDynamic(f)
    decreases |events|
  {
    if events != [] {
      var g := Step(f, events[0]);
      match events[0] {
        case DepsgraphUpdate(s) => DepsgraphSlotsIndependent(f, s);
        case GenerateNewSeed(s) =>
      }
      assert g.SameDynamic(f) && g.seed != 0;
      DynamicSlotKeptWithoutPlaybackOrLoad(g, events[1..]);
    }
  }

  /** A scene whose slots are both non-zero is left exactly as it is by any
      run of dependency-graph updates: the lazy path only initialises. */
  lemma {:induction false} LazyPathTerminal(f: SeedFields, events: seq<Event>)
    requires !f.NeedsInit()
    requires forall i :: 0 <= i < |events| ==> events[i].DepsgraphUpdate?
    ensures Replay(f, events) == f
    decreases |events|
  {
    if events != [] {
      DepsgraphNoOp(f, events[0].sample);
      LazyPathTerminal(f, events[1..]);
    }
  }
}
