/**
 * The simulation engine: entities as objects whose fields are updated in
 * place, and the panel that owns the ordered list of them and runs one
 * frame (move, then collide) at a time.
 */
module Simulation {
  import opened Dominance
  import opened Motion
  import opened Contact
  import opened Draws
  import opened Scan

  /** One circular entity. The Java field `type` is called `kind` here. */
  class Entity {
    var x: real
    var y: real
    var vx: real
    var vy: real
    var radius: real
    var kind: Type

    constructor (x: real, y: real, vx: real, vy: real, radius: real, kind: Type)
      ensures State() == Body(x, y, vx, vy, radius, kind)
    {
      this.x, this.y, this.vx, this.vy := x, y, vx, vy;
      this.radius, this.kind := radius, kind;
    }

    /** The entity's fields as a value. */
    function State(): Body
      reads this
    {
      Body(x, y, vx, vy, radius, kind)
    }
  }

  /** What the overlap test reads of a body. */
  function ShapeOf(b: Body): Disc {
    Disc(b.x, b.y, b.radius)
  }

  /** A disc that can fit on an axis lies wholly inside the arena on that axis. */
  predicate Fits(d: Disc, w: real, h: real) {
    (2.0 * d.radius <= w ==> Inside(d.x, d.radius, w)) &&
    (2.0 * d.radius <= h ==> Inside(d.y, d.radius, h))
  }

  /** The arena and the entities in it, in insertion order. */
  class GamePanel {
    const width: int
    const height: int
    var entities: seq<Entity>

    /** Every list position holds its own entity object: no object is in the list twice. */
    ghost predicate Valid()
      reads this
    {
      forall i, j :: 0 <= i < |entities| && 0 <= j < |entities| && i != j ==> entities[i] != entities[j]
    }

    /** The types of the entities, in list order. */
    ghost function Kinds(): (ks: seq<Type>)
      reads this, entities
      ensures |ks| == |entities|
      ensures forall k :: 0 <= k < |entities| ==> ks[k] == entities[k].kind
    {
      seq(|entities|, k requires 0 <= k < |entities| reads this, entities => entities[k].kind)
    }

    /** Centres and radii of the entities, in list order. */
    ghost function Discs(): (ds: seq<Disc>)
      reads this, entities
      ensures |ds| == |entities|
      ensures forall k :: 0 <= k < |entities| ==> ds[k] == ShapeOf(entities[k].State())
    {
      seq(|entities|, k requires 0 <= k < |entities| reads this, entities => ShapeOf(entities[k].State()))
    }

    /** The entities' fields as values, in list order. */
    ghost function States(): (bs: seq<Body>)
      reads this, entities
      ensures |bs| == |entities|
      ensures forall k :: 0 <= k < |entities| ==> bs[k] == entities[k].State()
    {
      seq(|entities|, k requires 0 <= k < |entities| reads this, entities => entities[k].State())
    }

    /** Every entity outside `moved` still has the state `start` records for it. */
    ghost predicate Unmoved(start: seq<Body>, moved: set<nat>)
      reads this, entities
    {
      |start| == |entities| &&
      forall k :: 0 <= k < |entities| && k !in moved ==> entities[k].State() == start[k]
    }

    /** The entities' shapes are `ds` and their types `ts`, position by position. */
    ghost predicate Mirrors(ds: seq<Disc>, ts: seq<Type>)
      reads this, entities
    {
      |ds| == |ts| == |entities| &&
      forall k :: 0 <= k < |entities| ==> ShapeOf(entities[k].State()) == ds[k] && entities[k].kind == ts[k]
    }

    /** A list that mirrors `ds` and `ts` has exactly those shapes and those types. */
    lemma MirrorsSelf(ds: seq<Disc>, ts: seq<Type>)
      requires Mirrors(ds, ts)
      ensures Discs() == ds && Kinds() == ts
    {
    }

    /** Every entity that fits in the arena lies wholly inside it. */
    ghost predicate Contained()
      reads this, entities
    {
      forall k :: 0 <= k < |entities| ==> Fits(ShapeOf(entities[k].State()), width as real, height as real)
    }

    constructor (w: int, h: int)
      ensures width == w && height == h
      ensures entities == [] && Valid()
    {
      width, height := w, h;
      entities := [];
    }

    /**
     * Spawn at a random position: radius `14 + 8 u`, centre
     * `r + u (extent - 2r)` on each axis, speed `0.6 + 1.6 u` in direction (c, s).
     */
    method AddEntityRandom(t: Type, ur: real, ux: real, uy: real, us: real, c: real, s: real)
      requires Valid()
      requires IsUniform(ur) && IsUniform(ux) && IsUniform(uy) && IsUniform(us) && IsDirection(c, s)
      modifies this
      ensures Valid()
      ensures |entities| == |old(entities)| + 1 && entities[..|old(entities)|] == old(entities)
      ensures var e := entities[|entities| - 1];
        var r := SpawnRadius(ur);
        var v := Velocity(us, c, s);
        fresh(e) &&
        e.State() == Body(SpawnCoordinate(r, ux, width as real), SpawnCoordinate(r, uy, height as real), v.0, v.1, r, t)
      ensures Fits(ShapeOf(entities[|entities| - 1].State()), width as real, height as real)
    {
      var r := SpawnRadius(ur);
      var x := SpawnCoordinate(r, ux, width as real);
      var y := SpawnCoordinate(r, uy, height as real);
      var v := Velocity(us, c, s);
      var e := new Entity(x, y, v.0, v.1, r, t);
      entities := entities + [e];
    }

    /** Spawn at the clicked pixel. The position is taken as given and not clamped into the arena. */
    method AddEntityAt(px: int, py: int, t: Type, ur: real, us: real, c: real, s: real)
      requires Valid()
      requires IsUniform(ur) && IsUniform(us) && IsDirection(c, s)
      modifies this
      ensures Valid()
      ensures |entities| == |old(entities)| + 1 && entities[..|old(entities)|] == old(entities)
      ensures var e := entities[|entities| - 1];
        var v := Velocity(us, c, s);
        fresh(e) && e.State() == Body(px as real, py as real, v.0, v.1, SpawnRadius(ur), t)
    {
      var r := SpawnRadius(ur);
      var v := Velocity(us, c, s);
      var e := new Entity(px as real, py as real, v.0, v.1, r, t);
      entities := entities + [e];
    }

    /** One frame of motion for every entity, in list order. */
    method MoveEntities()
      requires Valid()
      modifies entities
      ensures forall k :: 0 <= k < |entities| ==>
        entities[k].State() == Move(old(entities[k].State()), width, height)
    {
      var i := 0;
      while i < |entities|
        invariant 0 <= i <= |entities|
        invariant forall k :: 0 <= k < i ==>
          entities[k].State() == Move(old(entities[k].State()), width, height)
        invariant forall k :: i <= k < |entities| ==> entities[k].State() == old(entities[k].State())
      {
        MoveEntity(entities[i]);
        i := i + 1;
      }
    }

    /** The body of the motion loop for one entity: step, then bounce off each wall. */
    method MoveEntity(en: Entity)
      modifies en
      ensures en.State() == Move(old(en.State()), width, height)
    {
      en.x := en.x + en.vx;
      en.y := en.y + en.vy;
      // bounce off walls
      if en.x - en.radius < 0.0 { en.x := en.radius; en.vx := -en.vx; }
      if en.x + en.radius > width as real { en.x := width as real - en.radius; en.vx := -en.vx; }
      if en.y - en.radius < 0.0 { en.y := en.radius; en.vy := -en.vy; }
      if en.y + en.radius > height as real { en.y := height as real - en.radius; en.vy := -en.vy; }
    }

    /** A fresh random velocity: speed `0.6 + 1.6 u` in direction (c, s). */
    method RandomizeVelocity(e: Entity, u: real, c: real, s: real)
      requires IsUniform(u) && IsDirection(c, s)
      modifies e
      ensures var v := Velocity(u, c, s);
        e.State() == old(e.State()).(vx := v.0, vy := v.1)
    {
      var speed := Speed(u);
      e.vx := c * speed;
      e.vy := s * speed;
    }

    /** The separation response for a colliding pair, written on the two entities. */
    method BounceEntities(a: Entity, b: Entity)
      requires a != b
      modifies a, b
      ensures (a.State(), b.State()) == Bounce(old(a.State()), old(b.State()))
    {
      ghost var a0, b0 := a.State(), b.State();
      var dx := b.x - a.x;
      var dy := b.y - a.y;
      var dist2 := dx * dx + dy * dy;
      assert dist2 == Dist2(a0, b0);
      if dist2 == 0.0 {
        // coincident centres: reverse both
        a.vx := -a.vx; a.vy := -a.vy;
        b.vx := -b.vx; b.vy := -b.vy;
        return;
      }
      // relative velocity along the normal, times the distance
      var rel := (b.vx - a.vx) * dx + (b.vy - a.vy) * dy;
      assert rel == NormalRate(a0, b0);
      if rel > 0.0 { return; } // already separating
      var k := 0.9 * rel / dist2;
      assert k == 0.9 * NormalRate(a0, b0) / Dist2(a0, b0);
      assert Bounce(a0, b0).0.vx == a0.vx + k * dx && Bounce(a0, b0).0.vy == a0.vy + k * dy;
      assert Bounce(a0, b0).1.vx == b0.vx - k * dx && Bounce(a0, b0).1.vy == b0.vy - k * dy;
      a.vx := a.vx + k * dx;
      a.vy := a.vy + k * dy;
      b.vx := b.vx - k * dx;
      b.vy := b.vy - k * dy;
    }

    /**
     * The pass over all pairs i < j. Positions and radii are untouched, the
     * types are those of `ScanKinds`, and an entity outside the overlapping
     * pairs, in particular one that overlaps no other, is not touched at all.
     * The velocities of the others are left as the separation responses and
     * random redraws made them.
     */
    method DetectCollisionsAndResolve()
      requires Valid()
      modifies entities
      ensures Discs() == old(Discs())
      ensures Kinds() == ScanKinds(old(Discs()), old(Kinds()))
      ensures Unmoved(old(States()), TouchedRows(old(Discs()), |entities|, |entities|))
    {
      ghost var d0, k0, s0 := Discs(), Kinds(), States();
      var n := |entities|;
      for i := 0 to n
        invariant entities == old(entities)
        invariant Mirrors(d0, PassState(d0, k0, i, i + 1))
        invariant Unmoved(s0, TouchedRows(d0, i, n))
      {
        ScanRow(i, d0, k0, s0, TouchedRows(d0, i, n));
      }
      PassStateComplete(d0, k0);
      MirrorsSelf(d0, PassState(d0, k0, n, n + 1));
    }

    /**
     * Row `i` of the pass: the pairs (i, i + 1), ..., (i, n - 1) in order.
     * Besides the entities `done` already touched, only those of the
     * overlapping pairs of the row move away from `start`.
     */
    method ScanRow(i: nat, ghost ds: seq<Disc>, ghost ts: seq<Type>, ghost start: seq<Body>, ghost done: set<nat>)
      requires Valid() && i < |entities| && |ds| == |ts| == |entities|
      requires Mirrors(ds, PassState(ds, ts, i, i + 1))
      requires Unmoved(start, done)
      modifies entities
      ensures entities == old(entities)
      ensures Mirrors(ds, PassState(ds, ts, i, |entities|))
      ensures Unmoved(start, done + RowTouched(ds, i, i + 1, |entities|))
    {
      var n := |entities|;
      for j := i + 1 to n
        invariant entities == old(entities)
        invariant Mirrors(ds, PassState(ds, ts, i, j))
        invariant Unmoved(start, done + RowTouched(ds, i, i + 1, j))
      {
        ghost var seen := done + RowTouched(ds, i, i + 1, j);
        CollidePair(i, j, ds, PassState(ds, ts, i, j), start, seen);
      }
    }

    /**
     * One pair of the pass: the squared-distance overlap test, then a tie
     * gets the separation response only, and a win converts the loser,
     * redraws its velocity and gives both the separation response.
     */
    method CollidePair(i: nat, j: nat, ghost ds: seq<Disc>, ghost ts: seq<Type>, ghost start: seq<Body>, ghost done: set<nat>)
      requires Valid() && i < j < |entities| && |ds| == |ts| == |entities|
      requires Mirrors(ds, ts)
      requires Unmoved(start, done)
      modifies entities[i], entities[j]
      ensures entities == old(entities)
      ensures Mirrors(ds, Resolve(ds, ts, (i, j)))
      ensures forall k :: 0 <= k < |entities| && k != i && k != j ==>
        entities[k].State() == old(entities[k].State())
      ensures !Colliding(ds[i], ds[j]) ==>
        entities[i].State() == old(entities[i].State()) && entities[j].State() == old(entities[j].State())
      ensures Colliding(ds[i], ds[j]) && ts[i] == ts[j] ==>
        (entities[i].State(), entities[j].State()) == Bounce(old(entities[i].State()), old(entities[j].State()))
      ensures Unmoved(start, done + PairTouched(ds, (i, j)))
    {
      var a := entities[i];
      var b := entities[j];
      ghost var c := Convert(ds[i], ds[j], ts[i], ts[j]);
      label Before:
      var dx := a.x - b.x;
      var dy := a.y - b.y;
      var dist2 := dx * dx + dy * dy;
      var minDist := a.radius + b.radius;
      assert dist2 <= minDist * minDist <==> Colliding(ShapeOf(a.State()), ShapeOf(b.State()));
      if dist2 <= minDist * minDist {
        // they collided
        var winner := WinnerOf(a.kind, b.kind);
        if winner.None? {
          BounceEntities(a, b);
        } else {
          // convert loser into winner
          if winner.value == a.kind && winner.value != b.kind {
            b.kind := a.kind;
            var u: real, c: real, s: real :| IsUniform(u) && IsDirection(c, s) by {
              assert IsUniform(0.0) && IsDirection(1.0, 0.0);
            }
            RandomizeVelocity(b, u, c, s);
          } else if winner.value == b.kind && winner.value != a.kind {
            a.kind := b.kind;
            var u: real, c: real, s: real :| IsUniform(u) && IsDirection(c, s) by {
              assert IsUniform(0.0) && IsDirection(1.0, 0.0);
            }
            RandomizeVelocity(a, u, c, s);
          }
          BounceEntities(a, b);
        }
      }
      assert a.kind == c.0 && b.kind == c.1;
      assert Resolve(ds, ts, (i, j)) == ts[i := c.0][j := c.1];
      forall k | 0 <= k < |entities| && k != i && k != j
        ensures entities[k].State() == old@Before(entities[k].State())
      {
        assert entities[k] != a && entities[k] != b;
      }
    }

    /**
     * One frame: move every entity, then resolve collisions. An entity that
     * overlaps no other after moving keeps the state the motion gave it.
     */
    method GameLoop()
      requires Valid()
      modifies entities
      ensures forall k :: 0 <= k < |entities| ==>
        ShapeOf(entities[k].State()) == ShapeOf(Move(old(entities[k].State()), width, height))
      ensures Kinds() == ScanKinds(Discs(), old(Kinds()))
      ensures Contained()
      ensures forall k :: 0 <= k < |entities| && k !in Touched(Discs(), ScanOrder(|entities|)) ==>
        entities[k].State() == Move(old(entities[k].State()), width, height)
      ensures forall k :: 0 <= k < |entities| && Isolated(Discs(), k) ==>
        entities[k].State() == Move(old(entities[k].State()), width, height)
    {
      MoveEntities();
      ghost var moved, mv := Discs(), States();
      assert forall k :: 0 <= k < |moved| ==> Fits(moved[k], width as real, height as real);
      assert Kinds() == old(Kinds());
      DetectCollisionsAndResolve();
      assert Discs() == moved;
      var n := |entities|;
      TouchedRowsIsTouched(moved, n, n);
      assert TouchedRows(moved, n, n) == Touched(moved, ScanOrder(n));
      forall k | 0 <= k < n && Isolated(moved, k)
        ensures k !in Touched(moved, ScanOrder(n))
      {
        IsolatedUntouched(moved, ScanOrder(n), k);
      }
    }

    /** The per-type tally shown in the corner of the panel. */
    method CountTypes() returns (rocks: nat, papers: nat, scissors: nat)
      ensures rocks == CountOf(Kinds(), Rock)
      ensures papers == CountOf(Kinds(), Paper)
      ensures scissors == CountOf(Kinds(), Scissors)
      ensures rocks + papers + scissors == |entities|
    {
      rocks, papers, scissors := 0, 0, 0;
      ghost var ks := Kinds();
      for i := 0 to |entities|
        invariant rocks == CountOf(ks[..i], Rock)
        invariant papers == CountOf(ks[..i], Paper)
        invariant scissors == CountOf(ks[..i], Scissors)
      {
        var e := entities[i];
        assert ks[..i + 1] == ks[..i] + [e.kind];
        if e.kind == Rock { rocks := rocks + 1; }
        else if e.kind == Paper { papers := papers + 1; }
        else if e.kind == Scissors { scissors := scissors + 1; }
      }
      assert ks[..|entities|] == ks;
      CountsSum(ks);
    }
  }
}
