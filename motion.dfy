/** The tweens `move` schedules, advanced one frame at a time.
    A tween copies the robot's position and rotation when it is scheduled,
    waits `Delay` ms, then interpolates linearly to the target over
    `Duration` ms. Each frame writes the interpolated position to the robot;
    it writes the interpolated rotation only when the rotation flag is set.
    On the frame where the tween completes, the rotation is forced to the
    target and the completion status is delivered. Completed tweens are
    dropped from the pending list. */
module Motion {
  import opened Geometry
  import opened Scene

  /** `.delay(50)` */
  const Delay: real := 50.0
  /** `1000 * moveTime` with `moveTime = 1` */
  const Duration: real := 1000.0

  /** A scheduled tween. `name` and `serial` identify the robot object it
      animates; `startTime` already includes the delay; `notify` is the
      status its completion callback delivers. */
  datatype Tween = Tween(
    name: string,
    serial: nat,
    start: Pos,
    startRot: real,
    target: Pos,
    targetRot: real,
    startTime: real,
    rotationFlag: bool,
    notify: Status)

  /** `d * e` lies between 0 and `d` when `e` is a fraction. */
  lemma {:induction false} ScaleByFraction(d: real, e: real)
    requires 0.0 <= e <= 1.0
    ensures 0.0 <= d ==> 0.0 <= d * e <= d
    ensures d <= 0.0 ==> d <= d * e <= 0.0
  {
    if 0.0 <= d {
      assert d - d * e == d * (1.0 - e);
    } else {
      assert d * e - d == -d * (1.0 - e);
      assert d * e == -(-d * e);
    }
  }

  /** Linear interpolation from `a` to `b` at fraction `e`. */
  function Lerp(a: real, b: real, e: real): (r: real)
    requires 0.0 <= e <= 1.0
    ensures a <= b ==> a <= r <= b
    ensures b <= a ==> b <= r <= a
    ensures e == 0.0 ==> r == a
    ensures e == 1.0 ==> r == b
  {
    ScaleByFraction(b - a, e);
    a + (b - a) * e
  }

  /** `r` lies in the axis-aligned box spanned by `p` and `q`. */
  predicate Between(p: Pos, q: Pos, r: Pos) {
    && (p.x <= q.x ==> p.x <= r.x <= q.x)
    && (q.x <= p.x ==> q.x <= r.x <= p.x)
    && (p.y <= q.y ==> p.y <= r.y <= q.y)
    && (q.y <= p.y ==> q.y <= r.y <= p.y)
  }

  /** The scaled arena is convex: a point between two points inside it is inside it. */
  lemma ArenaConvex(a: Arena, p: Pos, q: Pos, r: Pos)
    requires a.Holds(p) && a.Holds(q) && Between(p, q, r)
    ensures a.Holds(r)
  {
  }

  /** The tween's delay has elapsed: tween.js skips a tween while `time < startTime`. */
  predicate Started(t: Tween, now: real) {
    t.startTime <= now
  }

  /** The whole duration has elapsed; this frame completes the tween. */
  predicate Done(t: Tween, now: real) {
    t.startTime + Duration <= now
  }

  /** The elapsed fraction, capped at 1; it reaches 1 exactly when the tween is done. */
  function Progress(t: Tween, now: real): (e: real)
    requires Started(t, now)
    ensures 0.0 <= e <= 1.0
    ensures e == 1.0 <==> Done(t, now)
  {
    var elapsed := (now - t.startTime) / Duration;
    if elapsed > 1.0 then 1.0 else elapsed
  }

  /** One frame of tween `t` applied to the robot `node` it animates:
      `onUpdate`, then `onComplete` when the tween is done. */
  function Frame(node: Node, t: Tween, now: real): (n: Node)
    requires Started(t, now)
    ensures n.reality == node.reality && n.color == node.color && n.serial == node.serial
    ensures Between(t.start, t.target, n.pos)
    ensures Done(t, now) ==> n.pos == t.target && n.rotY == t.targetRot
    ensures !Done(t, now) && !t.rotationFlag ==> n.rotY == node.rotY
    ensures t.rotationFlag && t.startRot <= t.targetRot ==> t.startRot <= n.rotY <= t.targetRot
    ensures t.rotationFlag && t.targetRot <= t.startRot ==> t.targetRot <= n.rotY <= t.startRot
  {
    var e := Progress(t, now);
    var heading := Lerp(t.startRot, t.targetRot, e);
    var updated := node.(
      pos := Pos(Lerp(t.start.x, t.target.x, e), Lerp(t.start.y, t.target.y, e)),
      rotY := if t.rotationFlag then heading else node.rotY);
    if e == 1.0 then updated.(rotY := heading) else updated
  }

  /** One tween's share of a tick on `scene`. The tween writes to the object
      it was created for; once that object has left the scene (deleted, or
      replaced by a new robot of the same name) the writes are lost. */
  function Step(scene: map<string, Node>, t: Tween, now: real): (s: map<string, Node>)
    ensures s.Keys == scene.Keys
    ensures forall name :: name in scene && name != t.name ==> s[name] == scene[name]
    ensures !Started(t, now) ==> s == scene
    ensures t.name in scene && scene[t.name].serial != t.serial ==> s == scene
    ensures Done(t, now) && t.name in scene && scene[t.name].serial == t.serial
            ==> s[t.name].pos == t.target && s[t.name].rotY == t.targetRot
  {
    if Started(t, now) && t.name in scene && scene[t.name].serial == t.serial then
      scene[t.name := Frame(scene[t.name], t, now)]
    else
      scene
  }

  /** A tick: every pending tween takes its step, in the order scheduled. */
  function Run(scene: map<string, Node>, ts: seq<Tween>, now: real): map<string, Node>
    decreases |ts|
  {
    if ts == [] then scene else Step(Run(scene, ts[..|ts| - 1], now), ts[|ts| - 1], now)
  }

  /** The tweens a tick keeps: those not yet done. */
  function Pending(ts: seq<Tween>, now: real): seq<Tween>
    decreases |ts|
  {
    if ts == [] then []
    else Pending(ts[..|ts| - 1], now) + (if Done(ts[|ts| - 1], now) then [] else [ts[|ts| - 1]])
  }

  /** The tweens a tick completes, in the order their callbacks fire. */
  function Completed(ts: seq<Tween>, now: real): seq<Tween>
    decreases |ts|
  {
    if ts == [] then []
    else Completed(ts[..|ts| - 1], now) + (if Done(ts[|ts| - 1], now) then [ts[|ts| - 1]] else [])
  }

  /** The statuses delivered by the completion callbacks of `ts`, in order. */
  function Notices(ts: seq<Tween>): seq<Status> {
    seq(|ts|, i requires 0 <= i < |ts| => ts[i].notify)
  }

  /** Every tween animates a robot and runs between two points of the scaled arena. */
  ghost predicate TweensInside(a: Arena, ts: seq<Tween>) {
    forall t :: t in ts ==> IsRobotName(t.name) && a.Holds(t.start) && a.Holds(t.target)
  }

  /** A tick neither adds nor removes scene children. */
  lemma {:induction false} RunKeepsKeys(scene: map<string, Node>, ts: seq<Tween>, now: real)
    ensures Run(scene, ts, now).Keys == scene.Keys
  {
    if ts != [] {
      RunKeepsKeys(scene, ts[..|ts| - 1], now);
    }
  }

  /** A tick never changes which object a child is. */
  lemma {:induction false} RunKeepsSerials(scene: map<string, Node>, ts: seq<Tween>, now: real)
    ensures forall name :: name in scene ==>
      name in Run(scene, ts, now) && Run(scene, ts, now)[name].serial == scene[name].serial
  {
    if ts != [] {
      RunKeepsSerials(scene, ts[..|ts| - 1], now);
    }
  }

  /** A tick changes no child that none of its tweens animates. */
  lemma {:induction false} RunLeavesOthers(scene: map<string, Node>, ts: seq<Tween>, now: real, name: string)
    requires name in scene
    requires forall t :: t in ts ==> t.name != name
    ensures name in Run(scene, ts, now) && Run(scene, ts, now)[name] == scene[name]
  {
    if ts != [] {
      var init := ts[..|ts| - 1];
      assert forall t :: t in init ==> t in ts;
      RunLeavesOthers(scene, init, now, name);
      assert ts[|ts| - 1] in ts;
    }
  }

  /** A tick keeps every robot inside the scaled arena, provided every
      tween runs between points inside it. */
  lemma {:induction false} RunKeepsArena(a: Arena, scene: map<string, Node>, ts: seq<Tween>, now: real)
    requires RobotsInside(a, scene) && TweensInside(a, ts)
    ensures RobotsInside(a, Run(scene, ts, now))
  {
    if ts != [] {
      var init, t := ts[..|ts| - 1], ts[|ts| - 1];
      assert forall u :: u in init ==> u in ts;
      RunKeepsArena(a, scene, init, now);
      var before := Run(scene, init, now);
      var after := Step(before, t, now);
      assert t in ts;
      if Started(t, now) && t.name in before && before[t.name].serial == t.serial {
        var n := Frame(before[t.name], t, now);
        ArenaConvex(a, t.start, t.target, n.pos);
        forall name | name in after && IsRobotName(name)
          ensures a.Holds(after[name].pos)
        {
          if name != t.name {
            assert after[name] == before[name];
          }
        }
      }
    }
  }

  /** A tick splits the pending tweens: each one is either kept (not yet
      done) or completed (done), never both and never neither. So every
      tween's completion status is delivered exactly once, on the first tick
      at or after its end, and never afterwards. */
  lemma {:induction false} TickPartition(ts: seq<Tween>, now: real)
    ensures multiset(Pending(ts, now)) + multiset(Completed(ts, now)) == multiset(ts)
    ensures forall t :: t in Pending(ts, now) <==> t in ts && !Done(t, now)
    ensures forall t :: t in Completed(ts, now) <==> t in ts && Done(t, now)
  {
    if ts != [] {
      var init, t := ts[..|ts| - 1], ts[|ts| - 1];
      TickPartition(init, now);
      assert ts == init + [t];
      assert multiset(ts) == multiset(init) + multiset{t};
    }
  }

  /** Appending one tween to a list appends at most that tween to what a tick completes. */
  lemma CompletedSnoc(ts: seq<Tween>, t: Tween, now: real)
    ensures Completed(ts + [t], now) == Completed(ts, now) + (if Done(t, now) then [t] else [])
  {
    assert (ts + [t])[..|ts + [t]| - 1] == ts;
  }

  /** Appending one tween to a list appends at most that tween to what a tick keeps. */
  lemma PendingSnoc(ts: seq<Tween>, t: Tween, now: real)
    ensures Pending(ts + [t], now) == Pending(ts, now) + (if Done(t, now) then [] else [t])
  {
    assert (ts + [t])[..|ts + [t]| - 1] == ts;
  }

  /** Over two ticks at `now1 <= now2`, what the first completes together
      with what the second completes of the tweens the first kept is
      exactly what a single tick at `now2` would complete: every tween's
      completion is reported once, on the first tick at or after its end. */
  lemma {:induction false} CompletesOnceAcrossTicks(ts: seq<Tween>, now1: real, now2: real)
    requires now1 <= now2
    ensures multiset(Completed(ts, now1)) + multiset(Completed(Pending(ts, now1), now2))
            == multiset(Completed(ts, now2))
  {
    if ts != [] {
      var init, t := ts[..|ts| - 1], ts[|ts| - 1];
      assert ts == init + [t];
      CompletesOnceAcrossTicks(init, now1, now2);
      var c1, c2, kept := Completed(init, now1), Completed(init, now2), Pending(init, now1);
      var ck := Completed(kept, now2);
      CompletedSnoc(init, t, now1);
      CompletedSnoc(init, t, now2);
      PendingSnoc(init, t, now1);
      if Done(t, now1) {
        assert Completed(ts, now1) == c1 + [t] && Pending(ts, now1) == kept;
        assert Completed(ts, now2) == c2 + [t];
        assert multiset(c1 + [t]) == multiset(c1) + multiset{t};
        assert multiset(c2 + [t]) == multiset(c2) + multiset{t};
      } else {
        assert Completed(ts, now1) == c1 && Pending(ts, now1) == kept + [t];
        CompletedSnoc(kept, t, now2);
        if Done(t, now2) {
          assert Completed(kept + [t], now2) == ck + [t];
          assert Completed(ts, now2) == c2 + [t];
          assert multiset(ck + [t]) == multiset(ck) + multiset{t};
          assert multiset(c2 + [t]) == multiset(c2) + multiset{t};
        } else {
          assert Completed(kept + [t], now2) == ck;
          assert Completed(ts, now2) == c2;
        }
      }
    }
  }

  /** Tweens that survive a tick do not complete again on the same tick:
      the case `now1 == now2` of `CompletesOnceAcrossTicks`. */
  lemma NothingCompletesTwice(ts: seq<Tween>, now: real)
    ensures Completed(Pending(ts, now), now) == []
  {
    CompletesOnceAcrossTicks(ts, now, now);
    var done, again := multiset(Completed(ts, now)), Completed(Pending(ts, now), now);
    assert |done + multiset(again)| == |done| + |again|;
  }

  /** Keeping only the unfinished tweens keeps the arena property of the list. */
  lemma PendingInside(a: Arena, ts: seq<Tween>, now: real)
    requires TweensInside(a, ts)
    ensures TweensInside(a, Pending(ts, now))
  {
    TickPartition(ts, now);
  }
}
