/**
 * The quantities the panel derives from its random source. Each uniform
 * draw in [0, 1) (`Random.nextDouble`) is a parameter `u`; the direction
 * `(cos angle, sin angle)` of a uniformly drawn angle is a parameter
 * `(c, s)` on the unit circle.
 */
module Draws {

  /** A value of `Random.nextDouble()`. */
  predicate IsUniform(u: real) {
    0.0 <= u < 1.0
  }

  /** The cosine and sine of one angle. */
  predicate IsDirection(c: real, s: real) {
    c * c + s * s == 1.0
  }

  /** Spawn radius `14 + u * 8`: in [14, 22). */
  function SpawnRadius(u: real): (r: real)
    requires IsUniform(u)
    ensures 14.0 <= r < 22.0
  {
    14.0 + u * 8.0
  }

  /** Speed `0.6 + u * 1.6`: in [0.6, 2.2). */
  function Speed(u: real): (sp: real)
    requires IsUniform(u)
    ensures 0.6 <= sp < 2.2
  {
    0.6 + u * 1.6
  }

  /** A random-spawn coordinate `r + u * (extent - 2r)`: the whole disc fits when the axis can hold it. */
  function SpawnCoordinate(r: real, u: real, extent: real): (p: real)
    requires IsUniform(u)
    ensures 2.0 * r <= extent ==> r <= p <= extent - r
  {
    var room := extent - 2.0 * r;
    var offset := u * room;
    assert room >= 0.0 ==> 0.0 <= offset <= room by { ScaleBelowOne(u, room); }
    r + offset
  }

  lemma ScaleBelowOne(u: real, w: real)
    requires IsUniform(u)
    ensures w >= 0.0 ==> 0.0 <= u * w <= w
  {
    if w >= 0.0 {
      var p := u * w;
      assert (1.0 - u) * w >= 0.0;
      assert p <= w;
    }
  }

  /** The velocity `(cos angle * speed, sin angle * speed)`. */
  function Velocity(u: real, c: real, s: real): (v: (real, real))
    requires IsUniform(u) && IsDirection(c, s)
    ensures v.0 * v.0 + v.1 * v.1 == Speed(u) * Speed(u)
    ensures 0.36 <= v.0 * v.0 + v.1 * v.1 < 4.84
  {
    var sp := Speed(u);
    var sq := sp * sp;
    assert (c * sp) * (c * sp) + (s * sp) * (s * sp) == (c * c + s * s) * sq;
    SquareBounds(sp, 0.6, 2.2);
    assert 0.36 <= sq < 4.84;
    (c * sp, s * sp)
  }

  lemma SquareBounds(x: real, lo: real, hi: real)
    requires 0.0 <= lo <= x < hi
    ensures lo * lo <= x * x < hi * hi
  {
    var a, b, c := lo * lo, lo * x, x * x;
    assert lo * (x - lo) >= 0.0;
    assert a <= b;
    assert (x - lo) * x >= 0.0;
    assert b <= c;
    var q, r := x * hi, hi * hi;
    assert x * (hi - x) >= 0.0;
    assert c <= q;
    assert (hi - x) * hi > 0.0;
    assert q < r;
  }
}
