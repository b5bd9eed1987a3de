/** The add-on's event handlers and its "Generate New Seed" operator. */
module SeedHandlers {
  import opened SeedDerivation
  import opened WallClock
  import opened SeedPolicy
  import opened BlenderData

  datatype Option<T> = None | Some(value: T)

  /** The status the operator reports on return; it only ever finishes. */
  datatype OperatorStatus = Finished

  /** Playback start: one reading, its seed and components written to every
      scene, each scene tagged for update; the static slot is not touched. */
  method ClockAnimationPreHandler(clock: Clock, scenes: seq<Scene>)
    modifies clock, scenes
    ensures clock.samples == old(clock.samples) + 1
    ensures forall i :: 0 <= i < |scenes| ==>
      scenes[i].Fields() == AfterPlayback(old(scenes[i].Fields()), SampleOf(old(clock.Peek()))) && scenes[i].tagged
  {
    var seedValue, now := GetTimeSeed(clock);
    var i := 0;
    while i < |scenes|
      modifies scenes
      invariant 0 <= i <= |scenes|
      invariant forall j :: 0 <= j < |scenes| ==> scenes[j].clockStaticSeed == old(scenes[j].clockStaticSeed)
      invariant forall j :: 0 <= j < i ==>
        scenes[j].Fields() == AfterPlayback(old(scenes[j].Fields()), SampleOf(now)) && scenes[j].tagged
    {
      var sc := scenes[i];
      sc.clockSeed := seedValue;
      sc.clockHour := now.hour;
      sc.clockMinute := now.minute;
      sc.clockSecond := now.second;
      sc.clockMillisecond := now.microsecond / 1000;
      sc.tagged := true;
      i := i + 1;
    }
  }

  /** File load: one reading, its seed written to both slots and its
      components to the component properties of every scene. */
  method ClockLoadHandler(clock: Clock, scenes: seq<Scene>)
    modifies clock, scenes
    ensures clock.samples == old(clock.samples) + 1
    ensures forall i :: 0 <= i < |scenes| ==>
      scenes[i].Fields() == AfterLoad(SampleOf(old(clock.Peek()))) && scenes[i].tagged == old(scenes[i].tagged)
  {
    var seedValue, now := GetTimeSeed(clock);
    var i := 0;
    while i < |scenes|
      modifies scenes
      invariant 0 <= i <= |scenes|
      invariant forall j :: 0 <= j < |scenes| ==> scenes[j].tagged == old(scenes[j].tagged)
      invariant forall j :: 0 <= j < i ==> scenes[j].Fields() == AfterLoad(SampleOf(now))
    {
      var scene := scenes[i];
      scene.clockStaticSeed := seedValue;
      scene.clockSeed := seedValue;
      scene.clockHour := now.hour;
      scene.clockMinute := now.minute;
      scene.clockSecond := now.second;
      scene.clockMillisecond := now.microsecond / 1000;
      i := i + 1;
    }
  }

  /** Dependency-graph update on one scene: the clock is read only when a
      slot holds 0, and only the slots holding 0 are written. */
  method ClockDepsgraphUpdateHandler(clock: Clock, scene: Scene)
    modifies clock, scene
    ensures clock.samples == old(clock.samples) + (if old(scene.Fields()).NeedsInit() then 1 else 0)
    ensures scene.Fields() == AfterDepsgraphUpdate(old(scene.Fields()), SampleOf(old(clock.Peek())))
    ensures scene.tagged == old(scene.tagged)
  {
    if scene.clockSeed == 0 || scene.clockStaticSeed == 0 {
      var seedValue, now := GetTimeSeed(clock);
      if scene.clockStaticSeed == 0 {
        scene.clockStaticSeed := seedValue;
      }
      if scene.clockSeed == 0 {
        scene.clockSeed := seedValue;
        scene.clockHour := now.hour;
        scene.clockMinute := now.minute;
        scene.clockSecond := now.second;
        scene.clockMillisecond := now.microsecond / 1000;
      }
    }
  }

  /** The module-level cache of the seed last generated by the operator. */
  class SeedGenerator {
    var lastCapturedSeed: Option<int>
    /** Written alongside the seed and never read. */
    ghost var lastCapturedTime: Option<Instant>

    /** The cached seed is the seed of the cached reading. */
    ghost predicate Valid()
      reads this
    {
      (lastCapturedSeed.Some? <==> lastCapturedTime.Some?) &&
      (lastCapturedSeed.Some? ==> lastCapturedSeed.value == TimeSeed(lastCapturedTime.value))
    }

    /** Nothing is captured when the add-on is loaded. */
    constructor ()
      ensures Valid() && lastCapturedSeed == None && GetStoredSeed() == 0
    {
      lastCapturedSeed := None;
      lastCapturedTime := None;
    }

    /** The seed last captured, or 0 when none has been; the clock is not read. */
    function GetStoredSeed(): (stored: int)
      reads this
      requires Valid()
      ensures 0 <= stored <= MaxSeed
      ensures lastCapturedSeed == None ==> stored == 0
      ensures lastCapturedSeed.Some? ==> stored == lastCapturedSeed.value
    {
      if lastCapturedSeed.Some? then lastCapturedSeed.value else 0
    }

    /** "Generate New Seed": one reading is captured in the cache, then the
        cached seed is written to the static slot of every scene (tagging it),
        and every object with a geometry-nodes modifier is tagged. */
    method Execute(clock: Clock, scenes: seq<Scene>, objects: seq<Obj>) returns (status: OperatorStatus)
      requires Valid()
      modifies this, clock, scenes, objects
      ensures Valid()
      ensures clock.samples == old(clock.samples) + 1
      ensures lastCapturedSeed == Some(TimeSeed(old(clock.Peek()))) && lastCapturedTime == Some(old(clock.Peek()))
      ensures GetStoredSeed() == TimeSeed(old(clock.Peek()))
      ensures forall i :: 0 <= i < |scenes| ==>
        scenes[i].Fields() == AfterGenerate(old(scenes[i].Fields()), GetStoredSeed()) && scenes[i].tagged
      ensures forall i :: 0 <= i < |objects| ==>
        objects[i].modifiers == old(objects[i].modifiers) &&
        objects[i].tagged == (old(objects[i].tagged) || HasNodes(objects[i].modifiers))
      ensures status == Finished
    {
      var seedValue, now := GetTimeSeed(clock);
      lastCapturedSeed := Some(seedValue);
      lastCapturedTime := Some(now);

      var i := 0;
      while i < |scenes|
        modifies scenes
        invariant 0 <= i <= |scenes|
        invariant forall j :: 0 <= j < i ==>
          scenes[j].Fields() == AfterGenerate(old(scenes[j].Fields()), seedValue) && scenes[j].tagged
        invariant forall j :: 0 <= j < |scenes| ==> scenes[j].Fields().SameDynamic(old(scenes[j].Fields()))
      {
        var scene := scenes[i];
        scene.clockStaticSeed := lastCapturedSeed.value;
        scene.tagged := true;
        i := i + 1;
      }

      i := 0;
      while i < |objects|
        modifies objects
        invariant 0 <= i <= |objects|
        invariant forall j :: 0 <= j < |objects| ==> objects[j].modifiers == old(objects[j].modifiers)
        invariant forall j :: 0 <= j < |objects| ==>
          objects[j].tagged == (old(objects[j].tagged) || (objects[j] in objects[..i] && HasNodes(objects[j].modifiers)))
      {
        var obj := objects[i];
        if |obj.modifiers| > 0 {
          var k := 0;
          ghost var wasTagged := obj.tagged;
          while k < |obj.modifiers|
            modifies obj
            invariant 0 <= k <= |obj.modifiers|
            invariant obj.modifiers == old(obj.modifiers)
            invariant obj.tagged == (wasTagged || Nodes in obj.modifiers[..k])
          {
            if obj.modifiers[k] == Nodes {
              obj.tagged := true;
            }
            assert obj.modifiers[..k + 1] == obj.modifiers[..k] + [obj.modifiers[k]];
            k := k + 1;
          }
          assert obj.modifiers[..k] == obj.modifiers;
        }
        assert objects[..i + 1] == objects[..i] + [obj];
        i := i + 1;
      }
      status := Finished;
    }
  }
}
