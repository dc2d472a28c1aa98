/** The robot registry: a `Robot` object that creates, moves, recolours
    and deletes the robot children of a shared scene, and advances the
    tweens its moves schedule. */
module Robots {
  import opened Geometry
  import opened Scene
  import opened Motion

  /** What `move` does with a robot it found: turn it on the spot, or
      schedule a tween towards the target. */
  datatype MovePlan = Turn(rotY: real) | Animate(tween: Tween)

  /** The plan `move` makes for robot `node` named `name`. The target is
      rounded, clamped and scaled; the target rotation is computed from the
      unrounded heading. A target equal to the current position means a turn
      and nothing else; any other target means a tween that starts from the
      robot's current pose after the delay. */
  function PlanMove(a: Arena, name: string, node: Node, x: real, y: real, heading: real,
                    now: real, notify: Status): (p: MovePlan)
    requires a.WellFormed()
    ensures p.Turn? <==> MovePos(a, x, y) == node.pos
    ensures p.Turn? ==> p.rotY == heading - 90.0
    ensures p.Animate? ==> a.Holds(p.tween.target) && p.tween.target == MovePos(a, x, y)
    ensures p.Animate? ==> p.tween.start == node.pos && p.tween.startRot == node.rotY
    ensures p.Animate? ==> p.tween.targetRot == heading - 90.0 && p.tween.startTime == now + Delay
    ensures p.Animate? ==> p.tween.name == name && p.tween.serial == node.serial && p.tween.notify == notify
    ensures p.Animate? ==> (p.tween.rotationFlag <==>
      (0.0 <= node.rotY && 0.0 <= heading - 90.0) || (node.rotY <= 0.0 && heading - 90.0 <= 0.0))
  {
    var newHeading := heading - 90.0;
    var target := MovePos(a, x, y);
    if target != node.pos then
      Animate(Tween(name, node.serial, node.pos, node.rotY, target, newHeading, now + Delay,
                    RotationFlag(node.rotY, newHeading), notify))
    else
      Turn(newHeading)
  }

  /** The state after `move` found robot `name` in `s0` and carried out its plan. */
  ghost predicate MoveApplied(a: Arena, s0: map<string, Node>, ts0: seq<Tween>,
                              s1: map<string, Node>, ts1: seq<Tween>,
                              name: string, x: real, y: real, heading: real, now: real, notify: Status)
    requires a.WellFormed()
  {
    && name in s0
    && match PlanMove(a, name, s0[name], x, y, heading, now, notify)
       case Turn(rot) => s1 == s0[name := s0[name].(rotY := rot)] && ts1 == ts0
       case Animate(t) => s1 == s0 && ts1 == ts0 + [t]
  }

  /** `move` adds and removes no child and moves no robot at once: the
      position changes only as later ticks run the tween. */
  lemma MoveKeepsPositions(a: Arena, s0: map<string, Node>, ts0: seq<Tween>,
                           s1: map<string, Node>, ts1: seq<Tween>,
                           name: string, x: real, y: real, heading: real, now: real, notify: Status)
    requires a.WellFormed()
    requires MoveApplied(a, s0, ts0, s1, ts1, name, x, y, heading, now, notify)
    ensures s1.Keys == s0.Keys
    ensures forall n :: n in s0 ==> s1[n].pos == s0[n].pos && s1[n].serial == s0[n].serial
    ensures |ts1| <= |ts0| + 1
  {
  }

  class Robot {
    /** The environment's reality mode, `Config.mixedReality.robots`. */
    const mode: string
    /** The arena bounds and the scene scale. */
    const arena: Arena
    /** The children of the shared scene, by name. */
    var scene: map<string, Node>
    /** The scheduled tweens not yet completed, in the order they were scheduled. */
    var tweens: seq<Tween>
    /** The identity the next robot object created will carry. */
    var nextSerial: nat

    /** Robots and the tweens that move them stay inside the scaled arena;
        every robot object and every tween refers to an identity already
        handed out, so no earlier tween can animate a newly created robot. */
    ghost predicate Valid()
      reads this
    {
      && arena.WellFormed()
      && RobotsInside(arena, scene)
      && TweensInside(arena, tweens)
      && (forall name :: name in scene && IsRobotName(name) ==> scene[name].serial < nextSerial)
      && (forall t :: t in tweens ==> t.serial < nextSerial)
    }

    /** A registry over a scene that holds no robots yet. */
    constructor(mode: string, arena: Arena, scene: map<string, Node>)
      requires arena.WellFormed()
      requires forall name :: name in scene ==> !IsRobotName(name)
      ensures Valid()
      ensures this.mode == mode && this.arena == arena && this.scene == scene && tweens == []
    {
      this.mode := mode;
      this.arena := arena;
      this.scene := scene;
      tweens := [];
      nextSerial := 0;
    }

    /** `changeColor`: recolours robot `id`, touching nothing else. */
    method ChangeColor(id: string, R: real, G: real, B: real) returns (status: Status, r: Option<Node>)
      requires Valid()
      modifies this`scene
      ensures Valid()
      ensures RobotName(id) !in old(scene) ==> status == Undefined && r == None && scene == old(scene)
      ensures RobotName(id) in old(scene) ==>
        && status == Success
        && scene == old(scene)[RobotName(id) := old(scene)[RobotName(id)].(color := ChannelColor(R, G, B))]
        && r == Some(scene[RobotName(id)])
    {
      var name := RobotName(id);
      if name in scene {
        scene := scene[name := scene[name].(color := ChannelColor(R, G, B))];
        status, r := Success, Some(scene[name]);
      } else {
        status, r := Undefined, None;
      }
    }

    /** `create`. A new robot is added only when its reality suits the
        environment; an existing one is moved (its completion reports
        "already defined, so moved") or, when the incoming reality does not
        suit the environment, deleted. `status` is what the callback is
        given at once; `r` is the robot found before anything happened. */
    method Create(id: string, x: real, y: real, heading: real, reality: string, now: real)
      returns (status: Option<Status>, r: Option<Node>)
      requires Valid()
      modifies this`scene, this`tweens, this`nextSerial
      ensures Valid()
      ensures r == if RobotName(id) in old(scene) then Some(old(scene)[RobotName(id)]) else None
      ensures RobotName(id) !in old(scene) && Compatible(reality, mode) ==>
        && status == Some(Success)
        && scene == old(scene)[RobotName(id) :=
             Node(CreatePos(arena, x, y), heading - 90.0, reality, InitialColor, old(nextSerial))]
        && tweens == old(tweens)
        && forall t :: t in tweens ==> t.serial != scene[RobotName(id)].serial
      ensures RobotName(id) !in old(scene) && !Compatible(reality, mode) ==>
        status == None && scene == old(scene) && tweens == old(tweens)
      ensures RobotName(id) in old(scene) && Compatible(reality, mode) ==>
        && status == None
        && MoveApplied(arena, old(scene), old(tweens), scene, tweens,
                       RobotName(id), x, y, heading, now, AlreadyDefinedSoMoved)
      ensures RobotName(id) in old(scene) && !Compatible(reality, mode) ==>
        status == None && scene == old(scene) - {RobotName(id)} && tweens == old(tweens)
    {
      var name := RobotName(id);
      r := if name in scene then Some(scene[name]) else None;
      status := None;
      if name !in scene {
        if Compatible(reality, mode) {
          var pos := CreatePos(arena, x, y);
          scene := scene[name := Node(pos, heading - 90.0, reality, InitialColor, nextSerial)];
          nextSerial := nextSerial + 1;
          status := Some(Success);
        }
      } else if Compatible(reality, mode) {
        var _, _ := MoveWith(id, x, y, heading, now, AlreadyDefinedSoMoved);
      } else {
        var _ := Delete(Some(id));
      }
    }

    /** `move` with a callback that reports `notify` on completion. A
        missing robot reports "undefined" at once; a found one either turns
        on the spot (no callback ever) or gets a tween. */
    method MoveWith(id: string, x: real, y: real, heading: real, now: real, notify: Status)
      returns (status: Option<Status>, r: Option<Node>)
      requires Valid()
      modifies this`scene, this`tweens
      ensures Valid()
      ensures RobotName(id) !in old(scene) ==>
        status == Some(Undefined) && r == None && scene == old(scene) && tweens == old(tweens)
      ensures RobotName(id) in old(scene) ==>
        && status == None
        && MoveApplied(arena, old(scene), old(tweens), scene, tweens, RobotName(id), x, y, heading, now, notify)
        && r == Some(scene[RobotName(id)])
    {
      var name := RobotName(id);
      if name in scene {
        var node := scene[name];
        var currentHeading := node.rotY;
        var newHeading := heading - 90.0;
        var rotationFlag := RotationFlag(currentHeading, newHeading);
        var target := MovePos(arena, x, y);
        if target != node.pos {
          tweens := tweens + [Tween(name, node.serial, node.pos, currentHeading, target, newHeading,
                                    now + Delay, rotationFlag, notify)];
        } else {
          scene := scene[name := node.(rotY := newHeading)];
        }
        status, r := None, Some(scene[name]);
      } else {
        status, r := Some(Undefined), None;
      }
    }

    /** `move` as callers use it: completion reports "success". */
    method Move(id: string, x: real, y: real, heading: real, now: real)
      returns (status: Option<Status>, r: Option<Node>)
      requires Valid()
      modifies this`scene, this`tweens
      ensures Valid()
      ensures RobotName(id) !in old(scene) ==>
        status == Some(Undefined) && r == None && scene == old(scene) && tweens == old(tweens)
      ensures RobotName(id) in old(scene) ==>
        && status == None
        && MoveApplied(arena, old(scene), old(tweens), scene, tweens, RobotName(id), x, y, heading, now, Success)
        && r == Some(scene[RobotName(id)])
    {
      status, r := MoveWith(id, x, y, heading, now, Success);
    }

    /** `delete`: an unspecified id, a missing robot and a removed robot
        each report their own status; only the last changes the scene. */
    method Delete(id: Option<string>) returns (status: Status)
      requires Valid()
      modifies this`scene
      ensures Valid()
      ensures id.None? ==> status == IdNotSpecified && scene == old(scene)
      ensures id.Some? && RobotName(id.value) !in old(scene) ==> status == NotFound && scene == old(scene)
      ensures id.Some? && RobotName(id.value) in old(scene) ==>
        status == Success && scene == old(scene) - {RobotName(id.value)}
    {
      if id.Some? {
        var name := RobotName(id.value);
        if name in scene {
          scene := scene - {name};
          status := Success;
        } else {
          status := NotFound;
        }
      } else {
        status := IdNotSpecified;
      }
    }

    /** `deleteAll`: walks a snapshot of the children and removes every one
        whose name carries the robot prefix; every other child stays as it was. */
    method DeleteAll()
      requires Valid()
      modifies this`scene
      ensures Valid()
      ensures forall name :: name in scene <==> name in old(scene) && !IsRobotName(name)
      ensures forall name :: name in scene ==> scene[name] == old(scene)[name]
    {
      var children := scene.Keys;
      while children != {}
        invariant children <= old(scene).Keys
        invariant forall name :: name in scene <==>
          name in old(scene) && (!IsRobotName(name) || name in children)
        invariant forall name :: name in scene ==> scene[name] == old(scene)[name]
        invariant Valid()
        decreases children
      {
        var name :| name in children;
        if IsRobotName(name) {
          scene := scene - {name};
        }
        children := children - {name};
      }
    }

    /** `exists`: the robot named after `id`, if any. */
    method Exists(id: string) returns (r: Option<Node>)
      ensures r.Some? <==> RobotName(id) in scene
      ensures r.Some? ==> r.value == scene[RobotName(id)]
    {
      var name := RobotName(id);
      r := if name in scene then Some(scene[name]) else None;
    }

    /** `get_coordinates`: the same lookup; the caller reads the position off the robot. */
    method GetCoordinates(id: string) returns (r: Option<Node>)
      ensures r.Some? <==> RobotName(id) in scene
      ensures r.Some? ==> r.value == scene[RobotName(id)]
    {
      var name := RobotName(id);
      if name in scene {
        r := Some(scene[name]);
      } else {
        r := None;
      }
    }

    /** `update`, the per-frame tick at time `now`: every scheduled tween
        takes its step in order, completed tweens are dropped and their
        completion statuses are returned in the order the callbacks fire. */
    method Update(now: real) returns (reports: seq<Status>)
      requires Valid()
      modifies this`scene, this`tweens
      ensures Valid()
      ensures scene == Run(old(scene), old(tweens), now)
      ensures tweens == Pending(old(tweens), now)
      ensures reports == Notices(Completed(old(tweens), now))
    {
      var all := tweens;
      var kept: seq<Tween> := [];
      var finished: seq<Tween> := [];
      var i := 0;
      while i < |all|
        invariant 0 <= i <= |all|
        invariant scene == Run(old(scene), all[..i], now)
        invariant kept == Pending(all[..i], now)
        invariant finished == Completed(all[..i], now)
      {
        var t := all[i];
        assert all[..i + 1][..i] == all[..i];
        if t.startTime <= now {
          if t.name in scene && scene[t.name].serial == t.serial {
            scene := scene[t.name := Frame(scene[t.name], t, now)];
          }
          if t.startTime + Duration <= now {
            finished := finished + [t];
          } else {
            kept := kept + [t];
          }
        } else {
          kept := kept + [t];
        }
        i := i + 1;
      }
      assert all[..i] == all;
      tweens := kept;
      reports := Notices(finished);
      RunKeepsArena(arena, old(scene), all, now);
      PendingInside(arena, all, now);
      RunKeepsSerials(old(scene), all, now);
      TickPartition(all, now);
      RunKeepsKeys(old(scene), all, now);
    }
  }
}
