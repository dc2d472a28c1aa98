/** Client runs of the registry, each proved from the `Robot` contracts alone. */
module Scenarios {
  import opened Geometry
  import opened Scene
  import opened Motion
  import opened Robots

  /** Creating the same id twice with the same reality leaves exactly one
      robot; an unsuitable reality leaves none. */
  method CreateTwice(mode: string, arena: Arena, id: string, x1: real, y1: real, h1: real,
                     x2: real, y2: real, h2: real, reality: string, now: real)
    returns (robots: set<string>)
    requires arena.WellFormed()
    ensures Compatible(reality, mode) ==> robots == {RobotName(id)}
    ensures !Compatible(reality, mode) ==> robots == {}
  {
    var registry := new Robot(mode, arena, map[]);
    var _, _ := registry.Create(id, x1, y1, h1, reality, now);
    var _, _ := registry.Create(id, x2, y2, h2, reality, now);
    robots := set name | name in registry.scene && IsRobotName(name);
  }

  /** Creating an id again with a reality the environment does not admit
      deletes the robot instead of moving it. */
  method CreateThenMismatch(arena: Arena, id: string, x: real, y: real, heading: real, now: real)
    returns (robots: set<string>)
    requires arena.WellFormed()
    ensures robots == {}
  {
    var registry := new Robot("V", arena, map[]);
    var _, _ := registry.Create(id, x, y, heading, "V", now);
    var _, _ := registry.Create(id, x, y, heading, "R", now);
    robots := set name | name in registry.scene && IsRobotName(name);
  }

  /** Moving a robot to the point where it already stands turns it at once
      and schedules nothing; so no completion is ever reported. */
  method TurnOnTheSpot(mode: string, arena: Arena, id: string, x: real, y: real,
                       h1: real, h2: real, now: real)
    returns (rot: real, pending: nat, reports: seq<Status>)
    requires arena.WellFormed()
    requires (x * 10.0).Floor as real == x * 10.0 && (y * 10.0).Floor as real == y * 10.0
    ensures rot == h2 - 90.0 && pending == 0 && reports == []
  {
    var registry := new Robot(mode, arena, map[]);
    var _, _ := registry.Create(id, x, y, h1, mode, now);
    MoveNearCreate(arena, x, y);
    var _, _ := registry.Move(id, x, y, h2, now);
    pending := |registry.tweens|;
    reports := registry.Update(now + Delay + Duration);
    rot := registry.scene[RobotName(id)].rotY;
  }

  /** A move that turns the robot across zero (heading 180 to heading 0,
      rotation 90 to -90) leaves its rotation alone while the tween runs and
      forces the target rotation on the frame that completes it, which also
      reports "success" once. */
  method SignCrossingMove(mode: string, arena: Arena, id: string, x1: real, y1: real,
                          x2: real, y2: real, now: real)
    returns (midRot: real, endRot: real, endPos: Pos, reports: seq<Status>)
    requires arena.WellFormed()
    requires MovePos(arena, x2, y2) != CreatePos(arena, x1, y1)
    ensures midRot == 90.0 && endRot == -90.0
    ensures endPos == MovePos(arena, x2, y2)
    ensures reports == [Success]
  {
    var registry := new Robot(mode, arena, map[]);
    var _, _ := registry.Create(id, x1, y1, 180.0, mode, now);
    var _, _ := registry.Move(id, x2, y2, 0.0, now);
    var _ := registry.Update(now + Delay + Duration / 2.0);
    midRot := registry.scene[RobotName(id)].rotY;
    reports := registry.Update(now + Delay + Duration);
    endRot := registry.scene[RobotName(id)].rotY;
    endPos := registry.scene[RobotName(id)].pos;
  }
}
