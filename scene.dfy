/** The scene graph as the robot registry sees it: children keyed by name,
    robot children named `'robot_' + id`, and the status strings the
    registry hands to its callbacks. */
module Scene {
  import opened Geometry

  datatype Option<T> = None | Some(value: T)

  /** The name prefix that marks a scene child as a robot. */
  const Prefix: string := "robot_"

  predicate IsRobotName(name: string) {
    |Prefix| <= |name| && name[..|Prefix|] == Prefix
  }

  /** The scene name of robot `id`: it carries the prefix and gives `id` back. */
  function RobotName(id: string): (name: string)
    ensures IsRobotName(name)
    ensures name[|Prefix|..] == id
  {
    Prefix + id
  }

  /** Distinct ids never share a scene name. */
  lemma RobotNameInjective(a: string, b: string)
    ensures RobotName(a) == RobotName(b) <==> a == b
  {
    if RobotName(a) == RobotName(b) {
      assert a == RobotName(a)[|Prefix|..];
    }
  }

  /** The environment mode that admits robots of every reality. */
  const Mixed: string := "M"

  /** `reality === REALITY || REALITY === 'M'`. */
  predicate Compatible(reality: string, mode: string) {
    reality == mode || mode == Mixed
  }

  /** The strings the registry passes to its callbacks: 'success',
      'not found', 'id not specified', 'undefined' and
      'already defined, so moved'. */
  datatype Status = Success | NotFound | IdNotSpecified | Undefined | AlreadyDefinedSoMoved

  /** A scene child: its position in the plane (z is always 0), its rotation
      about y in degrees, the reality flag it was created with and its
      material colour. `serial` stands for the child's object identity: a
      tween holds on to the object it animates, not to its name. */
  datatype Node = Node(pos: Pos, rotY: real, reality: string, color: Color, serial: nat)

  /** Every robot child of `scene` stands inside the scaled arena. */
  ghost predicate RobotsInside(a: Arena, scene: map<string, Node>) {
    forall name :: name in scene && IsRobotName(name) ==> a.Holds(scene[name].pos)
  }
}
