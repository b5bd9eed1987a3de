/** The host data the add-on writes to: scenes carrying the seed properties,
    and objects carrying modifier stacks. */
module BlenderData {
  import opened SeedPolicy

  /** A scene with the six integer properties the add-on registers on it. */
  class Scene {
    var clockStaticSeed: int
    var clockSeed: int
    var clockHour: int
    var clockMinute: int
    var clockSecond: int
    var clockMillisecond: int
    /** `update_tag()` has been called: the host will re-evaluate the scene. */
    var tagged: bool

    /** A scene as registration leaves it: every property at its default 0. */
    constructor ()
      ensures Fields() == Unset && !tagged
    {
      clockStaticSeed, clockSeed := 0, 0;
      clockHour, clockMinute, clockSecond, clockMillisecond := 0, 0, 0, 0;
      tagged := false;
    }

    /** The six properties as one value. */
    function Fields(): SeedFields
      reads this
    {
      SeedFields(clockStaticSeed, clockSeed, clockHour, clockMinute, clockSecond, clockMillisecond)
    }
  }

  /** The kind of a modifier; only geometry-nodes modifiers matter here. */
  datatype ModifierKind = Nodes | Other

  /** Whether a modifier stack holds a geometry-nodes modifier. */
  predicate HasNodes(modifiers: seq<ModifierKind>) {
    Nodes in modifiers
  }

  /** An object with its modifier stack. */
  class Obj {
    var modifiers: seq<ModifierKind>
    /** `update_tag()` has been called: the host will re-evaluate the object. */
    var tagged: bool
  }
}
