/**
 * The velocity-only separation response given to a colliding pair.
 *
 * The source normalises the centre-to-centre vector with a square root:
 * n = d / |d|, rel = (vb - va) . n, impulse = -0.9 rel, va -= impulse n,
 * vb += impulse n. Over the reals this is the same as va += k d and
 * vb -= k d with k = 0.9 ((vb - va) . d) / (d . d), and rel > 0 exactly when
 * (vb - va) . d > 0, so no square root is needed; |d| == 0 exactly when
 * d . d == 0.
 */
module Contact {
  import opened Motion

  /** Squared distance between the two centres. */
  function Dist2(a: Body, b: Body): real {
    (b.x - a.x) * (b.x - a.x) + (b.y - a.y) * (b.y - a.y)
  }

  /** (vb - va) . (pb - pa): the relative normal velocity scaled by the distance. */
  function NormalRate(a: Body, b: Body): real {
    (b.vx - a.vx) * (b.x - a.x) + (b.vy - a.vy) * (b.y - a.y)
  }

  /** Both velocities reversed: the response to coincident centres. */
  function Reversed(b: Body): (r: Body)
    ensures r.vx == -b.vx && r.vy == -b.vy
    ensures r == b.(vx := r.vx, vy := r.vy)
  {
    b.(vx := -b.vx, vy := -b.vy)
  }

  /** The pair after the separation response. Only velocities change. */
  function Bounce(a: Body, b: Body): (r: (Body, Body))
    ensures r.0 == a.(vx := r.0.vx, vy := r.0.vy)
    ensures r.1 == b.(vx := r.1.vx, vy := r.1.vy)
    ensures Dist2(a, b) == 0.0 ==> r == (Reversed(a), Reversed(b))
    ensures Dist2(a, b) != 0.0 && NormalRate(a, b) > 0.0 ==> r == (a, b)
  {
    var dx, dy := b.x - a.x, b.y - a.y;
    var d2 := Dist2(a, b);
    if d2 == 0.0 then
      (Reversed(a), Reversed(b))
    else
      var dot := NormalRate(a, b);
      if dot > 0.0 then
        (a, b)
      else
        var k := 0.9 * dot / d2;
        (a.(vx := a.vx + k * dx, vy := a.vy + k * dy),
         b.(vx := b.vx - k * dx, vy := b.vy - k * dy))
  }

  /** Away from the degenerate case the response keeps the sum of the two velocities. */
  lemma BounceKeepsMomentum(a: Body, b: Body)
    requires Dist2(a, b) != 0.0
    ensures var r := Bounce(a, b);
      r.0.vx + r.1.vx == a.vx + b.vx && r.0.vy + r.1.vy == a.vy + b.vy
  {
  }

  /**
   * Away from the degenerate case, an approaching pair leaves the response
   * separating at 0.8 of its approach rate (restitution 0.9 applied to both
   * sides), so a pair is never left approaching.
   */
  lemma BounceStopsApproach(a: Body, b: Body)
    requires Dist2(a, b) != 0.0
    ensures NormalRate(a, b) <= 0.0 ==> NormalRate(Bounce(a, b).0, Bounce(a, b).1) == -0.8 * NormalRate(a, b)
    ensures NormalRate(Bounce(a, b).0, Bounce(a, b).1) >= 0.0
  {
    var dx, dy := b.x - a.x, b.y - a.y;
    var d2, dot := Dist2(a, b), NormalRate(a, b);
    if dot <= 0.0 {
      var k := 0.9 * dot / d2;
      var r := Bounce(a, b);
      assert k * d2 == 0.9 * dot;
      calc {
        NormalRate(r.0, r.1);
        ((b.vx - k * dx) - (a.vx + k * dx)) * dx + ((b.vy - k * dy) - (a.vy + k * dy)) * dy;
        dot - 2.0 * k * (dx * dx + dy * dy);
        dot - 2.0 * (k * d2);
        -0.8 * dot;
      }
    }
  }
}
