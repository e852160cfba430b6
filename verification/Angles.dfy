/** Turning an angle towards a target along the shorter arc, over the reals. */
module Angles {

  import opened Reals

  /** The C library's remainder: it has the sign of `a`. */
  function Fmod(a: real, b: real): real
    requires b > 0.0
  {
    a - b * Trunc(a / b) as real
  }

  function AngleMod(a: real): real {
    var r := Fmod(a, 360.0);
    if r < 0.0 then r + 360.0 else r
  }

  function Abs(x: real): real {
    if x < 0.0 then -x else x
  }

  function ApproachAngle(target: real, value: real, speed: real): real {
    var goal := AngleMod(target);
    var from := AngleMod(value);
    var delta := goal - from;
    var s := Abs(speed);
    var short := if delta < -180.0 then delta + 360.0 else if delta > 180.0 then delta - 360.0 else delta;
    if short > s then from + s else if short < -s then from - s else goal
  }

  /** `a` after `k` full turns. */
  function Turned(a: real, k: int): real {
    a + 360.0 * k as real
  }

  /** `a` and `b` are the same direction. */
  ghost predicate SameAngle(a: real, b: real) {
    exists k: int :: a == Turned(b, k)
  }

  /** `AngleMod` picks the one angle of its direction in [0, 360). */
  lemma AngleModNormal(a: real)
    ensures 0.0 <= AngleMod(a) < 360.0
    ensures SameAngle(AngleMod(a), a)
  {
    var q := a / 360.0;
    var k := Trunc(q);
    assert a == 360.0 * q;
    var shift := if Fmod(a, 360.0) < 0.0 then 1 - k else -k;
    assert AngleMod(a) == Turned(a, shift);
  }

  lemma NormalUnique(a: real, b: real, k: int)
    requires 0.0 <= a < 360.0 && 0.0 <= b < 360.0 && a == Turned(b, k)
    ensures a == b
  {
  }

  lemma SameAngleIffMod(a: real, b: real)
    ensures SameAngle(a, b) <==> AngleMod(a) == AngleMod(b)
  {
    AngleModNormal(a);
    AngleModNormal(b);
    var i :| AngleMod(a) == Turned(a, i);
    var j :| AngleMod(b) == Turned(b, j);
    if SameAngle(a, b) {
      var k :| a == Turned(b, k);
      assert AngleMod(a) == Turned(AngleMod(b), k + i - j);
      NormalUnique(AngleMod(a), AngleMod(b), k + i - j);
    }
    if AngleMod(a) == AngleMod(b) {
      assert a == Turned(b, j - i);
    }
  }

  /** The length of the shorter arc between two directions. */
  function Distance(a: real, b: real): real {
    var d := Abs(AngleMod(a) - AngleMod(b));
    if d <= 360.0 - d then d else 360.0 - d
  }

  lemma ModOfShifted(a: real, k: int)
    requires 0.0 <= Turned(a, k) < 360.0
    ensures AngleMod(a) == Turned(a, k)
  {
    AngleModNormal(a);
    var i :| AngleMod(a) == Turned(a, i);
    assert AngleMod(a) == Turned(Turned(a, k), i - k);
    NormalUnique(AngleMod(a), Turned(a, k), i - k);
  }

  /** It is the least difference between the angles of the two directions. */
  lemma DistanceIsLeast(a: real, b: real, k: int) returns (best: int)
    ensures Distance(a, b) <= Abs(a - Turned(b, k))
    ensures Distance(a, b) == Abs(a - Turned(b, best))
  {
    AngleModNormal(a);
    AngleModNormal(b);
    var i :| AngleMod(a) == Turned(a, i);
    var j :| AngleMod(b) == Turned(b, j);
    var delta := AngleMod(a) - AngleMod(b);
    var m := j - i - k;
    assert a - Turned(b, k) == delta + 360.0 * m as real;
    if m >= 1 {
      assert 360.0 * m as real >= 360.0;
    } else if m <= -1 {
      assert 360.0 * m as real <= -360.0;
    }
    best := j - i + if delta > 180.0 then 1 else if delta < -180.0 then -1 else 0;
    assert a - Turned(b, best) ==
           if delta > 180.0 then delta - 360.0 else if delta < -180.0 then delta + 360.0 else delta;
  }

  /**
   One call shortens the arc by the speed, or closes it. It goes as far from the old angle as the arc gets
   shorter, so it stays on the arc between: it never overshoots.
   */
  lemma ApproachShortens(target: real, value: real, speed: real)
    ensures var d := Distance(target, value);
            Distance(target, ApproachAngle(target, value, speed)) == if d <= Abs(speed) then 0.0 else d - Abs(speed)
    ensures Distance(target, value) <= Abs(speed) ==> ApproachAngle(target, value, speed) == AngleMod(target)
    ensures var d := Distance(target, value);
            Distance(value, ApproachAngle(target, value, speed)) == if d <= Abs(speed) then d else Abs(speed)
  {
    hide AngleMod;
    AngleModNormal(target);
    AngleModNormal(value);
    var r := ApproachAngle(target, value, speed);
    var k := if r < 0.0 then 1 else if r >= 360.0 then -1 else 0;
    assert Turned(r, k) == if k == 1 then r + 360.0 else if k == -1 then r - 360.0 else r;
    ModOfShifted(r, k);
  }

  /** Unless the way through zero is the shorter one, the angle stays between the two as they are reduced. */
  lemma StaysBetween(target: real, value: real, speed: real)
    ensures
      var goal, from := AngleMod(target), AngleMod(value);
      var r := ApproachAngle(target, value, speed);
      -180.0 <= goal - from <= 180.0 ==> goal <= r <= from || from <= r <= goal
  {
    hide AngleMod;
  }

  /** No arc is left iff the two are the same direction. */
  lemma DistanceZero(a: real, b: real)
    ensures Distance(a, b) == 0.0 <==> SameAngle(a, b)
    ensures 0.0 <= Distance(a, b) <= 180.0
  {
    AngleModNormal(a);
    AngleModNormal(b);
    SameAngleIffMod(a, b);
  }

  function Iterated(target: real, value: real, speed: real, n: nat): real {
    if n == 0 then value else ApproachAngle(target, Iterated(target, value, speed, n - 1), speed)
  }

  lemma {:induction false} IteratedDistance(target: real, value: real, speed: real, n: nat)
    requires speed > 0.0
    ensures
      var left := Distance(target, value) - n as real * speed;
      Distance(target, Iterated(target, value, speed, n)) == if left <= 0.0 then 0.0 else left
  {
    hide AngleMod, ApproachAngle, Distance;
    DistanceZero(target, value);
    if n > 0 {
      IteratedDistance(target, value, speed, n - 1);
      ApproachShortens(target, Iterated(target, value, speed, n - 1), speed);
      assert n as real * speed == (n - 1) as real * speed + speed;
    }
  }

  function Ceil(x: real): int {
    -((-x).Floor)
  }

  lemma CeilIsLeast(d: real, s: real, n: nat)
    requires s > 0.0
    ensures n as real * s >= d <==> n >= Ceil(d / s)
  {
    var q := d / s;
    assert d == q * s;
    if n as real >= q {
      assert (n as real - q) * s >= 0.0;
    } else {
      assert (q - n as real) * s > 0.0;
    }
    assert (-q).Floor as real <= -q < (-q).Floor as real + 1.0;
  }

  /** With a fixed speed the target is reached after ceil(distance / speed) calls, and not before. */
  lemma ReachedExactly(target: real, value: real, speed: real, n: nat)
    requires speed > 0.0
    ensures SameAngle(target, Iterated(target, value, speed, n)) <==> n >= Ceil(Distance(target, value) / speed)
  {
    hide AngleMod, ApproachAngle, Distance, Iterated, SameAngle, Ceil;
    IteratedDistance(target, value, speed, n);
    DistanceZero(target, Iterated(target, value, speed, n));
    CeilIsLeast(Distance(target, value), speed, n);
  }
}
