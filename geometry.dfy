/** Arena arithmetic of the robot registry: clamping to the arena, rounding
    to a tenth, scaling to render units, the rotation-sign test and the
    colour normalisation. Exact reals stand for JavaScript numbers, and
    rotation is kept in degrees (the degree-to-radian factor is positive, so
    no sign test changes). */
module Geometry {

  datatype Pos = Pos(x: real, y: real)

  /** The configured arena bounds and the world-to-render scale factor. */
  datatype Arena = Arena(minX: real, maxX: real, minY: real, maxY: real, scale: real) {

    predicate WellFormed() {
      minX <= maxX && minY <= maxY && scale > 0.0
    }

    /** `p` lies in the arena as it appears after scaling. */
    predicate Holds(p: Pos) {
      && scale * minX <= p.x <= scale * maxX
      && scale * minY <= p.y <= scale * maxY
    }
  }

  /** Distance on the real line. */
  function Dist(a: real, b: real): real {
    if a <= b then b - a else a - b
  }

  /** `Math.min(Math.max(v, lo), hi)`: the point of [lo, hi] nearest to `v`. */
  function Clamp(v: real, lo: real, hi: real): (r: real)
    requires lo <= hi
    ensures lo <= r <= hi
    ensures lo <= v <= hi ==> r == v
  {
    var m := if v > lo then v else lo;
    if m < hi then m else hi
  }

  /** The clamped value is the point of [lo, hi] nearest to `v`. */
  lemma ClampNearest(v: real, lo: real, hi: real, w: real)
    requires lo <= hi && lo <= w <= hi
    ensures Dist(Clamp(v, lo, hi), v) <= Dist(w, v)
  {
  }

  /** Clamping never moves two points further apart. */
  lemma ClampContracts(u: real, v: real, lo: real, hi: real)
    requires lo <= hi
    ensures Dist(Clamp(u, lo, hi), Clamp(v, lo, hi)) <= Dist(u, v)
  {
  }

  /** Scaling by a positive factor scales distances by that factor. */
  lemma {:induction false} ScaleDist(s: real, a: real, b: real)
    requires s > 0.0
    ensures Dist(s * a, s * b) == s * Dist(a, b)
  {
    if a <= b {
      assert s * a <= s * b by { assert s * b - s * a == s * (b - a); }
    } else {
      assert s * b < s * a by { assert s * a - s * b == s * (a - b); }
    }
  }

  /** A positive scale keeps a clamped value inside the scaled interval. */
  lemma {:induction false} ScaleBetween(s: real, lo: real, c: real, hi: real)
    requires s > 0.0 && lo <= c <= hi
    ensures s * lo <= s * c <= s * hi
  {
    assert s * c - s * lo == s * (c - lo);
    assert s * hi - s * c == s * (hi - c);
  }

  /** `Math.round(v * 10) / 10`: JavaScript rounds halves upwards, so the
      result is the tenth nearest to `v`, a tie going to the larger one. */
  function Round1(v: real): (r: real)
    ensures (r * 10.0).Floor as real == r * 10.0
    ensures v - 0.05 < r <= v + 0.05
  {
    (v * 10.0 + 0.5).Floor as real / 10.0
  }

  /** A value already on the tenth grid is left alone by rounding, so
      rounding twice is rounding once. */
  lemma {:induction false} Round1OnTenths(v: real)
    requires (v * 10.0).Floor as real == v * 10.0
    ensures Round1(v) == v
  {
    var k := (v * 10.0).Floor;
    assert v * 10.0 + 0.5 == k as real + 0.5;
    assert (v * 10.0 + 0.5).Floor == k;
  }

  lemma Round1Idempotent(v: real)
    ensures Round1(Round1(v)) == Round1(v)
  {
    Round1OnTenths(Round1(v));
  }

  /** One coordinate placed in the arena: clamped to [lo, hi], then scaled. */
  function Place(s: real, v: real, lo: real, hi: real): (r: real)
    requires s > 0.0 && lo <= hi
    ensures s * lo <= r <= s * hi
    ensures lo <= v <= hi ==> r == s * v
  {
    ScaleBetween(s, lo, Clamp(v, lo, hi), hi);
    s * Clamp(v, lo, hi)
  }

  /** Where `create` places a robot: clamped to the arena, then scaled; no rounding. */
  function CreatePos(a: Arena, x: real, y: real): (p: Pos)
    requires a.WellFormed()
    ensures a.Holds(p)
    ensures a.minX <= x <= a.maxX && a.minY <= y <= a.maxY ==> p == Pos(a.scale * x, a.scale * y)
  {
    Pos(Place(a.scale, x, a.minX, a.maxX), Place(a.scale, y, a.minY, a.maxY))
  }

  /** Where `move` sends a robot: rounded to a tenth first, then clamped and
      scaled exactly as `create` places it. */
  function MovePos(a: Arena, x: real, y: real): (p: Pos)
    requires a.WellFormed()
    ensures a.Holds(p)
  {
    CreatePos(a, Round1(x), Round1(y))
  }

  /** One axis of the move target: rounding before clamping and scaling
      shifts it by at most half a tenth, in scaled units, from the unrounded
      placement. */
  lemma {:induction false} RoundedAxisNear(s: real, v: real, lo: real, hi: real)
    requires s > 0.0 && lo <= hi
    ensures Dist(Place(s, Round1(v), lo, hi), Place(s, v, lo, hi)) <= s * 0.05
  {
    ClampContracts(Round1(v), v, lo, hi);
    ScaledWithin(s, Clamp(Round1(v), lo, hi), Clamp(v, lo, hi), 0.05);
  }

  /** Two points within `d` of each other stay within `s * d` once scaled by `s`. */
  lemma {:induction false} ScaledWithin(s: real, u: real, w: real, d: real)
    requires s > 0.0 && Dist(u, w) <= d
    ensures Dist(s * u, s * w) <= s * d
  {
    ScaleDist(s, u, w);
    MulLe(s, Dist(u, w), d);
  }

  /** Rounding before clamping shifts the move target by at most half a
      tenth (in scaled units) from where `create` would place the robot,
      and not at all for coordinates already on the tenth grid. */
  lemma {:induction false} MoveNearCreate(a: Arena, x: real, y: real)
    requires a.WellFormed()
    ensures Dist(MovePos(a, x, y).x, CreatePos(a, x, y).x) <= a.scale * 0.05
    ensures Dist(MovePos(a, x, y).y, CreatePos(a, x, y).y) <= a.scale * 0.05
    ensures (x * 10.0).Floor as real == x * 10.0 && (y * 10.0).Floor as real == y * 10.0
            ==> MovePos(a, x, y) == CreatePos(a, x, y)
  {
    RoundedAxisNear(a.scale, x, a.minX, a.maxX);
    RoundedAxisNear(a.scale, y, a.minY, a.maxY);
    if (x * 10.0).Floor as real == x * 10.0 && (y * 10.0).Floor as real == y * 10.0 {
      Round1OnTenths(x);
      Round1OnTenths(y);
    }
  }

  lemma MulLe(s: real, u: real, v: real)
    requires s > 0.0 && u <= v
    ensures s * u <= s * v
  {
    assert s * v - s * u == s * (v - u);
  }

  /** The rotation test `currentHeading * newHeading >= 0`: true exactly when
      both headings lie on the same side of zero (zero counting as both). */
  function RotationFlag(current: real, next: real): (r: bool)
    ensures r <==> (0.0 <= current && 0.0 <= next) || (current <= 0.0 && next <= 0.0)
  {
    SignOfProduct(current, next);
    current * next >= 0.0
  }

  lemma {:induction false} SignOfProduct(a: real, b: real)
    ensures a * b >= 0.0 <==> (0.0 <= a && 0.0 <= b) || (a <= 0.0 && b <= 0.0)
  {
    if a > 0.0 && b < 0.0 {
      assert a * b == -(a * -b);
      assert a * -b > 0.0;
    } else if a < 0.0 && b > 0.0 {
      assert a * b == -(-a * b);
      assert -a * b > 0.0;
    } else if a <= 0.0 && b <= 0.0 {
      assert a * b == -a * -b;
    }
  }

  /** A material colour; each channel is a real in THREE's [0, 1] scale. */
  datatype Color = Color(r: real, g: real, b: real)

  /** The colour of a new robot's material, 0x666666. */
  const InitialColor: Color := Color(102.0 / 255.0, 102.0 / 255.0, 102.0 / 255.0)

  /** `setRGB(R / 256, G / 256, B / 265)`. The blue divisor is 265, unlike
      the red and green one, and is kept as written. */
  function ChannelColor(R: real, G: real, B: real): (c: Color)
    ensures 0.0 <= R < 256.0 ==> 0.0 <= c.r < 1.0
    ensures 0.0 <= G < 256.0 ==> 0.0 <= c.g < 1.0
    ensures 0.0 <= B < 265.0 ==> 0.0 <= c.b < 1.0
    ensures c.r * 256.0 == R && c.g * 256.0 == G && c.b * 265.0 == B
  {
    Color(R / 256.0, G / 256.0, B / 265.0)
  }

  /** Because of the 265 divisor a grey input yields a colour whose blue
      channel is strictly dimmer than its red and green ones. */
  lemma GreyIsTinted(v: real)
    requires v > 0.0
    ensures ChannelColor(v, v, v).r == ChannelColor(v, v, v).g
    ensures ChannelColor(v, v, v).b < ChannelColor(v, v, v).r
  {
  }
}
