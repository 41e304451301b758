/**
 * One frame of motion for a single entity: explicit Euler integration with
 * unit time step, then the clamp-and-reflect wall response, axis by axis.
 * Coordinates are reals, an idealisation of Java's `double`.
 */
module Motion {
  import opened Dominance

  /** The value state of one entity: centre, velocity per frame, radius, type. */
  datatype Body = Body(x: real, y: real, vx: real, vy: real, radius: real, kind: Type)

  /** Position and velocity along one axis. */
  datatype Axis = Axis(pos: real, vel: real)

  /** An entity of radius `r` lies inside `[0, extent]` along an axis. */
  predicate Inside(p: real, r: real, extent: real) {
    r <= p <= extent - r
  }

  /**
   * One axis of a frame: `p += v`, then if the low edge is below zero the
   * centre is put at `r` and the velocity negated, then (on the updated
   * values) if the high edge is beyond `extent` the centre is put at
   * `extent - r` and the velocity negated again.
   */
  function ReflectAxis(p: real, v: real, r: real, extent: real): (a: Axis)
    ensures 2.0 * r <= extent ==> Inside(a.pos, r, extent)
    ensures 2.0 * r > extent ==> a.pos == extent - r
  {
    var p1 := p + v;
    var low := if p1 - r < 0.0 then Axis(r, -v) else Axis(p1, v);
    if low.pos + r > extent then Axis(extent - r, -low.vel) else low
  }

  /**
   * For an axis that can hold the entity, the outcomes are exactly: the low
   * wall was hit (clamped to `r`, velocity negated), the high wall was hit
   * (clamped to `extent - r`, velocity negated), or no clamp (the integrated
   * position and the same velocity).
   */
  lemma ReflectAxisCases(p: real, v: real, r: real, extent: real)
    requires 2.0 * r <= extent
    ensures var a := ReflectAxis(p, v, r, extent);
      if p + v - r < 0.0 then a == Axis(r, -v)
      else if p + v + r > extent then a == Axis(extent - r, -v)
      else a == Axis(p + v, v)
  {
  }

  /**
   * An axis too short for the entity: both walls may fire in one frame, and
   * then the velocity is negated twice; either way the centre ends at `extent - r`.
   */
  lemma ReflectAxisOversized(p: real, v: real, r: real, extent: real)
    requires 2.0 * r > extent
    ensures var a := ReflectAxis(p, v, r, extent);
      a.pos == extent - r && a.vel == (if p + v - r < 0.0 then v else -v)
  {
  }

  /** The velocity keeps its magnitude along each axis: it is `v` or `-v`. */
  lemma ReflectAxisSpeed(p: real, v: real, r: real, extent: real)
    ensures var a := ReflectAxis(p, v, r, extent); a.vel == v || a.vel == -v
  {
  }

  /** One frame of motion of a body in a `width` by `height` arena. */
  function Move(b: Body, width: int, height: int): (m: Body)
    ensures m.radius == b.radius && m.kind == b.kind
    ensures 2.0 * b.radius <= width as real ==> Inside(m.x, m.radius, width as real)
    ensures 2.0 * b.radius <= height as real ==> Inside(m.y, m.radius, height as real)
  {
    var ax := ReflectAxis(b.x, b.vx, b.radius, width as real);
    var ay := ReflectAxis(b.y, b.vy, b.radius, height as real);
    b.(x := ax.pos, vx := ax.vel, y := ay.pos, vy := ay.vel)
  }
}
