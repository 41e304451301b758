/**
 * The type-conversion part of one collision pass, as values.
 *
 * The pass visits every pair (i, j) with i < j in the order i = 0, 1, ...
 * and, for each i, j = i + 1, i + 2, .... Positions and radii do not change
 * during the pass (the velocity updates it makes never touch them), so the
 * types at the end are determined by the discs and the types at the start:
 * they are `Resolve` folded over `ScanOrder(n)`. Each pair reads the types
 * as left by the pairs before it, so a conversion made earlier in the pass
 * is seen by later pairs.
 */
module Scan {
  import opened Dominance

  /** What the overlap test reads of an entity: centre and radius. */
  datatype Disc = Disc(x: real, y: real, radius: real)

  /** Closed overlap test on squared distances: tangency counts as a collision. */
  predicate Colliding(a: Disc, b: Disc) {
    var dx, dy := a.x - b.x, a.y - b.y;
    var minDist := a.radius + b.radius;
    dx * dx + dy * dy <= minDist * minDist
  }

  /** The overlap test does not depend on the order of the two discs. */
  lemma CollidingSymmetric(a: Disc, b: Disc)
    ensures Colliding(a, b) == Colliding(b, a)
  {
    var dx, dy := a.x - b.x, a.y - b.y;
    assert (b.x - a.x) * (b.x - a.x) == dx * dx;
    assert (b.y - a.y) * (b.y - a.y) == dy * dy;
  }

  /** Disc `k` overlaps no other disc of the list. */
  predicate Isolated(ds: seq<Disc>, k: nat) {
    k < |ds| && forall m {:trigger Colliding(ds[k], ds[m])} :: 0 <= m < |ds| && m != k ==> !Colliding(ds[k], ds[m])
  }

  /** The pairs (i, lo), (i, lo + 1), ..., (i, hi - 1). */
  function RowPairs(i: nat, lo: nat, hi: nat): seq<(nat, nat)>
  {
    if hi <= lo then [] else RowPairs(i, lo, hi - 1) + [(i, hi - 1)]
  }

  /** The pairs the pass over `n` entities visits while its outer index is below `i`. */
  function PairsBefore(i: nat, n: nat): seq<(nat, nat)>
  {
    if i == 0 then [] else PairsBefore(i - 1, n) + RowPairs(i - 1, i, n)
  }

  /** The pairs of a whole pass over `n` entities, in visiting order. */
  function ScanOrder(n: nat): seq<(nat, nat)>
  {
    PairsBefore(n, n)
  }

  /** Lexicographic order on pairs: the order in which the nested loops visit them. */
  predicate LexLess(p: (nat, nat), q: (nat, nat)) {
    p.0 < q.0 || (p.0 == q.0 && p.1 < q.1)
  }

  /** A sequence of pairs visited in strictly increasing lexicographic order. */
  predicate StrictlyIncreasing(ps: seq<(nat, nat)>) {
    forall a, b :: 0 <= a < b < |ps| ==> LexLess(ps[a], ps[b])
  }

  lemma {:induction false} RowPairsShape(i: nat, lo: nat, hi: nat)
    ensures |RowPairs(i, lo, hi)| == if hi <= lo then 0 else hi - lo
    ensures forall k :: 0 <= k < |RowPairs(i, lo, hi)| ==> RowPairs(i, lo, hi)[k] == (i, lo + k)
  {
    if hi > lo {
      RowPairsShape(i, lo, hi - 1);
    }
  }

  /** Every pair (p.0, p.1) with p.0 < i and p.0 < p.1 < n is among `PairsBefore(i, n)`. */
  lemma {:induction false} PairsBeforeComplete(i: nat, n: nat, p: (nat, nat))
    requires p.0 < i && p.0 < p.1 < n
    ensures p in PairsBefore(i, n)
  {
    var prev, row := PairsBefore(i - 1, n), RowPairs(i - 1, i, n);
    assert PairsBefore(i, n) == prev + row;
    if p.0 < i - 1 {
      PairsBeforeComplete(i - 1, n, p);
      assert p in prev;
    } else {
      RowPairsShape(i - 1, i, n);
      assert row[p.1 - i] == p;
      assert p in row;
    }
  }

  /** Every pair of `PairsBefore(i, n)` has its first index below `i` and below its second, and that one below `n`. */
  lemma {:induction false} PairsBeforeSound(i: nat, n: nat)
    ensures forall p :: p in PairsBefore(i, n) ==> p.0 < i && p.0 < p.1 < n
  {
    if i > 0 {
      PairsBeforeSound(i - 1, n);
      RowPairsShape(i - 1, i, n);
      var prev, row := PairsBefore(i - 1, n), RowPairs(i - 1, i, n);
      assert PairsBefore(i, n) == prev + row;
      forall p: (nat, nat) | p in prev + row ensures p.0 < i && p.0 < p.1 < n {
        if p !in prev {
          var k :| 0 <= k < |row| && row[k] == p;
        }
      }
    }
  }

  /** `PairsBefore(i, n)` lists its pairs in strictly increasing lexicographic order. */
  lemma {:induction false} PairsBeforeIncreasing(i: nat, n: nat)
    ensures StrictlyIncreasing(PairsBefore(i, n))
  {
    if i > 0 {
      PairsBeforeIncreasing(i - 1, n);
      PairsBeforeSound(i - 1, n);
      RowPairsShape(i - 1, i, n);
      var prev, row := PairsBefore(i - 1, n), RowPairs(i - 1, i, n);
      var all := prev + row;
      forall a, b | 0 <= a < b < |all|
        ensures LexLess(all[a], all[b])
      {
        if b < |prev| {
          assert all[a] == prev[a] && all[b] == prev[b];
        } else if a >= |prev| {
          assert all[a] == row[a - |prev|] && all[b] == row[b - |prev|];
        } else {
          assert all[a] == prev[a] && prev[a] in prev;
          assert all[b] == row[b - |prev|];
        }
      }
    }
  }

  /**
   * A pass examines each unordered pair of distinct indices exactly once:
   * the pairs in the scan order are exactly the (i, j) with i < j < n, and
   * no pair occurs twice.
   */
  lemma ScanOrderVisitsEachPairOnce(n: nat)
    ensures forall p :: p in ScanOrder(n) <==> p.0 < p.1 < n
    ensures forall a, b :: 0 <= a < b < |ScanOrder(n)| ==> ScanOrder(n)[a] != ScanOrder(n)[b]
  {
    forall p: (nat, nat) | p.0 < p.1 < n ensures p in ScanOrder(n) {
      PairsBeforeComplete(n, n, p);
    }
    PairsBeforeIncreasing(n, n);
    PairsBeforeSound(n, n);
  }

  /**
   * The types of one pair after it is examined. A tie or a non-overlapping
   * pair keeps its types; otherwise the loser takes the winner's type and
   * the winner keeps its own.
   */
  function Convert(a: Disc, b: Disc, ta: Type, tb: Type): (r: (Type, Type))
    ensures !Colliding(a, b) || ta == tb ==> r == (ta, tb)
    ensures Colliding(a, b) && ta != tb ==>
      var w := WinnerOf(ta, tb).value;
      r == (w, w) && (r.0 == ta || r.1 == tb)
  {
    if !Colliding(a, b) then (ta, tb)
    else
      match WinnerOf(ta, tb)
      case None => (ta, tb)
      case Some(w) =>
        if w == ta && w != tb then (ta, ta)
        else if w == tb && w != ta then (tb, tb)
        else (ta, tb)
  }

  /** One pair of the pass on the whole population. */
  function Resolve(ds: seq<Disc>, ts: seq<Type>, p: (nat, nat)): (r: seq<Type>)
    requires |ds| == |ts| && ValidPair(p, |ts|)
    ensures |r| == |ts|
  {
    var c := Convert(ds[p.0], ds[p.1], ts[p.0], ts[p.1]);
    ts[p.0 := c.0][p.1 := c.1]
  }

  /**
   * Only the pair's own entries can change, and a changed entry takes the
   * winner's type; a tie or a miss changes nothing.
   */
  lemma ResolveChangesOnlyLoser(ds: seq<Disc>, ts: seq<Type>, p: (nat, nat))
    requires |ds| == |ts| && ValidPair(p, |ts|)
    ensures var r := Resolve(ds, ts, p);
      !Colliding(ds[p.0], ds[p.1]) ==> r == ts
    ensures var r := Resolve(ds, ts, p);
      ts[p.0] == ts[p.1] ==> r == ts
    ensures var r := Resolve(ds, ts, p);
      Colliding(ds[p.0], ds[p.1]) && ts[p.0] != ts[p.1] ==>
      var w := WinnerOf(ts[p.0], ts[p.1]).value;
      r[p.0] == w && r[p.1] == w &&
      r == (if w == ts[p.0] then ts[p.1 := w] else ts[p.0 := w])
    ensures var r := Resolve(ds, ts, p);
      forall k :: 0 <= k < |ts| && r[k] != ts[k] ==>
        (k == p.0 || k == p.1) && Colliding(ds[p.0], ds[p.1]) && Some(r[k]) == WinnerOf(ts[p.0], ts[p.1])
  {
  }

  /** A pair of two distinct positions in a list of length `n`. */
  predicate ValidPair(p: (nat, nat), n: nat) {
    p.0 < n && p.1 < n && p.0 != p.1
  }

  /**
   * The pairs `ps` resolved one after the other, each seeing the types the
   * previous ones left. A pair that does not name two distinct positions is
   * skipped; the pass never produces one.
   */
  function ResolveAll(ds: seq<Disc>, ts: seq<Type>, ps: seq<(nat, nat)>): (r: seq<Type>)
    requires |ds| == |ts|
    ensures |r| == |ts|
  {
    if ps == [] then ts
    else
      var last := ps[|ps| - 1];
      var prev := ResolveAll(ds, ts, ps[..|ps| - 1]);
      if ValidPair(last, |ts|) then Resolve(ds, prev, last) else prev
  }

  /** The types after a whole collision pass. */
  function ScanKinds(ds: seq<Disc>, ts: seq<Type>): (r: seq<Type>)
    requires |ds| == |ts|
  {
    ResolveAll(ds, ts, ScanOrder(|ts|))
  }

  /** Resolving one more pair after a prefix is resolving the longer sequence. */
  lemma ResolveAllSnoc(ds: seq<Disc>, ts: seq<Type>, ps: seq<(nat, nat)>, p: (nat, nat))
    requires |ds| == |ts|
    ensures ResolveAll(ds, ts, ps + [p]) ==
      if ValidPair(p, |ts|) then Resolve(ds, ResolveAll(ds, ts, ps), p) else ResolveAll(ds, ts, ps)
  {
    assert (ps + [p])[..|ps|] == ps;
  }

  /**
   * The loops' own view of the pass: the types when the pass is about to
   * examine pair (i, j), for i + 1 <= j. Row `i` starts where row `i - 1`
   * ended, at j = |ts|.
   */
  function PassState(ds: seq<Disc>, ts: seq<Type>, i: nat, j: nat): (r: seq<Type>)
    requires |ds| == |ts|
    ensures |r| == |ts|
    decreases i, j
  {
    if j <= i + 1 then
      if i == 0 then ts else PassState(ds, ts, i - 1, |ts|)
    else
      var prev := PassState(ds, ts, i, j - 1);
      if ValidPair((i, j - 1), |ts|) then Resolve(ds, prev, (i, j - 1)) else prev
  }

  /** The pairs the loops have visited when they are about to examine pair (i, j). */
  function Visited(i: nat, j: nat, n: nat): seq<(nat, nat)>
  {
    PairsBefore(i, n) + RowPairs(i, i + 1, j)
  }

  /** Starting row `i` adds no pair to those of the completed rows before it. */
  lemma VisitedRowStart(i: nat, n: nat)
    requires i > 0
    ensures Visited(i, i + 1, n) == Visited(i - 1, n, n)
  {
  }

  /** Moving to the next column adds exactly the pair just examined. */
  lemma VisitedStep(i: nat, j: nat, n: nat)
    requires j > i + 1
    ensures Visited(i, j, n) == Visited(i, j - 1, n) + [(i, j - 1)]
  {
  }

  /** The loops' state is the fold of `Resolve` over the pairs visited so far. */
  lemma {:induction false} PassStateIsFold(ds: seq<Disc>, ts: seq<Type>, i: nat, j: nat)
    requires |ds| == |ts|
    ensures PassState(ds, ts, i, j) == ResolveAll(ds, ts, Visited(i, j, |ts|))
    decreases i, j
  {
    var n := |ts|;
    if j <= i + 1 {
      if i == 0 {
        assert Visited(0, j, n) == [];
      } else {
        PassStateIsFold(ds, ts, i - 1, n);
        VisitedRowStart(i, n);
        assert Visited(i, j, n) == Visited(i, i + 1, n);
      }
    } else {
      PassStateIsFold(ds, ts, i, j - 1);
      VisitedStep(i, j, n);
      ResolveAllSnoc(ds, ts, Visited(i, j - 1, n), (i, j - 1));
    }
  }

  /** Once `|ts|` rows are done the loops have computed the whole pass. */
  lemma PassStateComplete(ds: seq<Disc>, ts: seq<Type>)
    requires |ds| == |ts|
    ensures PassState(ds, ts, |ts|, |ts| + 1) == ScanKinds(ds, ts)
  {
    PassStateIsFold(ds, ts, |ts|, |ts| + 1);
    assert Visited(|ts|, |ts| + 1, |ts|) == ScanOrder(|ts|);
  }

  /** Conversion only ever copies a type that is already present: no type appears from nothing. */
  lemma {:induction false} ResolveAllKeepsTypesPresent(ds: seq<Disc>, ts: seq<Type>, ps: seq<(nat, nat)>)
    requires |ds| == |ts|
    ensures forall t :: t in ResolveAll(ds, ts, ps) ==> t in ts
  {
    if ps != [] {
      var init := ps[..|ps| - 1];
      var last := ps[|ps| - 1];
      ResolveAllKeepsTypesPresent(ds, ts, init);
      var mid := ResolveAll(ds, ts, init);
      if ValidPair(last, |ts|) {
        var r := Resolve(ds, mid, last);
        ResolveChangesOnlyLoser(ds, mid, last);
        forall t | t in r ensures t in ts {
          var k :| 0 <= k < |r| && r[k] == t;
          if r[k] != mid[k] {
            assert t == mid[last.0] || t == mid[last.1];
          } else {
            assert mid[k] in mid;
          }
        }
      }
    }
  }

  /** A pass in which no pair overlaps leaves every type as it was. */
  lemma {:induction false} ResolveAllDisjoint(ds: seq<Disc>, ts: seq<Type>, ps: seq<(nat, nat)>)
    requires |ds| == |ts|
    requires forall q :: q in ps ==> ValidPair(q, |ts|) && !Colliding(ds[q.0], ds[q.1])
    ensures ResolveAll(ds, ts, ps) == ts
  {
    if ps != [] {
      var init := ps[..|ps| - 1];
      assert forall q :: q in init ==> q in ps;
      ResolveAllDisjoint(ds, ts, init);
      assert ps[|ps| - 1] in ps;
    }
  }

  /** The two entities of pair `p` when they overlap, and no entity otherwise. */
  function PairTouched(ds: seq<Disc>, p: (nat, nat)): set<nat>
  {
    if ValidPair(p, |ds|) && Colliding(ds[p.0], ds[p.1]) then {p.0, p.1} else {}
  }

  /**
   * The positions of the overlapping pairs among `ps`: the only entities a
   * pass over `ps` may change.
   */
  function Touched(ds: seq<Disc>, ps: seq<(nat, nat)>): set<nat>
  {
    if ps == [] then {} else Touched(ds, ps[..|ps| - 1]) + PairTouched(ds, ps[|ps| - 1])
  }

  /** Appending one pair adds the entities that pair touches. */
  lemma TouchedSnoc(ds: seq<Disc>, ps: seq<(nat, nat)>, p: (nat, nat))
    ensures Touched(ds, ps + [p]) == Touched(ds, ps) + PairTouched(ds, p)
  {
    assert (ps + [p])[..|ps|] == ps;
  }

  /** The entities touched by two passes in a row are those touched by either. */
  lemma {:induction false} TouchedAppend(ds: seq<Disc>, ps: seq<(nat, nat)>, qs: seq<(nat, nat)>)
    ensures Touched(ds, ps + qs) == Touched(ds, ps) + Touched(ds, qs)
    decreases |qs|
  {
    if qs == [] {
      assert ps + qs == ps;
    } else {
      var init, last := qs[..|qs| - 1], qs[|qs| - 1];
      assert qs == init + [last];
      assert ps + qs == (ps + init) + [last];
      TouchedAppend(ds, ps, init);
      TouchedSnoc(ds, ps + init, last);
      TouchedSnoc(ds, init, last);
    }
  }

  /** The entities touched by the pairs (i, lo), ..., (i, hi - 1), column by column. */
  function RowTouched(ds: seq<Disc>, i: nat, lo: nat, hi: nat): set<nat>
  {
    if hi <= lo then {} else RowTouched(ds, i, lo, hi - 1) + PairTouched(ds, (i, hi - 1))
  }

  /** The entities touched by the first `i` rows of the pass, row by row. */
  function TouchedRows(ds: seq<Disc>, i: nat, n: nat): set<nat>
  {
    if i == 0 then {} else TouchedRows(ds, i - 1, n) + RowTouched(ds, i - 1, i, n)
  }

  /** Collecting column by column touches the same entities as the row's pairs. */
  lemma {:induction false} RowTouchedIsTouched(ds: seq<Disc>, i: nat, lo: nat, hi: nat)
    ensures RowTouched(ds, i, lo, hi) == Touched(ds, RowPairs(i, lo, hi))
  {
    if hi > lo {
      RowTouchedIsTouched(ds, i, lo, hi - 1);
      TouchedSnoc(ds, RowPairs(i, lo, hi - 1), (i, hi - 1));
    }
  }

  /** Collecting row by row touches the same entities as the whole pass order. */
  lemma {:induction false} TouchedRowsIsTouched(ds: seq<Disc>, i: nat, n: nat)
    ensures TouchedRows(ds, i, n) == Touched(ds, PairsBefore(i, n))
  {
    if i > 0 {
      var before, row := PairsBefore(i - 1, n), RowPairs(i - 1, i, n);
      assert PairsBefore(i, n) == before + row;
      TouchedRowsIsTouched(ds, i - 1, n);
      RowTouchedIsTouched(ds, i - 1, i, n);
      TouchedAppend(ds, before, row);
    }
  }

  /** A pass leaves the type of every untouched entity as it was. */
  lemma {:induction false} ResolveAllUntouched(ds: seq<Disc>, ts: seq<Type>, ps: seq<(nat, nat)>)
    requires |ds| == |ts|
    ensures forall k :: 0 <= k < |ts| && k !in Touched(ds, ps) ==> ResolveAll(ds, ts, ps)[k] == ts[k]
  {
    if ps != [] {
      var init, last := ps[..|ps| - 1], ps[|ps| - 1];
      assert ps == init + [last];
      ResolveAllUntouched(ds, ts, init);
      ResolveAllSnoc(ds, ts, init, last);
      TouchedSnoc(ds, init, last);
      if ValidPair(last, |ts|) {
        ResolveChangesOnlyLoser(ds, ResolveAll(ds, ts, init), last);
      }
    }
  }

  /** An entity that overlaps no other is touched by no pass. */
  lemma {:induction false} IsolatedUntouched(ds: seq<Disc>, ps: seq<(nat, nat)>, k: nat)
    requires Isolated(ds, k)
    ensures k !in Touched(ds, ps)
  {
    if ps != [] {
      var last := ps[|ps| - 1];
      IsolatedUntouched(ds, ps[..|ps| - 1], k);
      if ValidPair(last, |ds|) {
        CollidingSymmetric(ds[last.0], ds[last.1]);
      }
    }
  }

  /** A type absent at the start of a pass is absent at its end; a single-type population never changes. */
  lemma ScanKeepsTypesPresent(ds: seq<Disc>, ts: seq<Type>)
    requires |ds| == |ts|
    ensures forall t :: t in ScanKinds(ds, ts) ==> t in ts
    ensures (forall k :: 0 <= k < |ts| ==> ts[k] == ts[0]) ==> ScanKinds(ds, ts) == ts
  {
    ScanOrderVisitsEachPairOnce(|ts|);
    ResolveAllKeepsTypesPresent(ds, ts, ScanOrder(|ts|));
    var r := ScanKinds(ds, ts);
    if forall k :: 0 <= k < |ts| ==> ts[k] == ts[0] {
      forall k | 0 <= k < |ts| ensures r[k] == ts[k] {
        assert r[k] in r;
        var m :| 0 <= m < |ts| && ts[m] == r[k];
      }
    }
  }

  /** A pass in which no two discs overlap changes no type. */
  lemma ScanDisjoint(ds: seq<Disc>, ts: seq<Type>)
    requires |ds| == |ts|
    requires forall i, j :: 0 <= i < j < |ds| ==> !Colliding(ds[i], ds[j])
    ensures ScanKinds(ds, ts) == ts
  {
    ScanOrderVisitsEachPairOnce(|ts|);
    ResolveAllDisjoint(ds, ts, ScanOrder(|ts|));
  }

  /**
   * Three overlapping entities Rock, Paper, Scissors: pair (0, 1) turns the
   * Rock into Paper, pair (0, 2) then sees Paper against Scissors and turns
   * entity 0 into Scissors, and pair (1, 2) turns the last Paper into
   * Scissors. Judged on the types at the start (Rock, Paper, Scissors), the
   * pass would instead have ended Paper, Scissors, Scissors.
   */
  lemma ScanSeesEarlierConversions()
    ensures var ds := [Disc(0.0, 0.0, 1.0), Disc(0.0, 0.0, 1.0), Disc(0.0, 0.0, 1.0)];
      ScanKinds(ds, [Rock, Paper, Scissors]) == [Scissors, Scissors, Scissors]
  {
    var d := Disc(0.0, 0.0, 1.0);
    var ds := [d, d, d];
    assert Colliding(d, d);
    assert RowPairs(0, 1, 2) == [(0, 1)];
    assert RowPairs(0, 1, 3) == [(0, 1), (0, 2)];
    assert RowPairs(1, 2, 3) == [(1, 2)];
    assert RowPairs(2, 3, 3) == [];
    assert PairsBefore(1, 3) == [(0, 1), (0, 2)];
    assert PairsBefore(2, 3) == [(0, 1), (0, 2), (1, 2)];
    assert ScanOrder(3) == [(0, 1), (0, 2), (1, 2)];
    var t0 := [Rock, Paper, Scissors];
    var t1 := Resolve(ds, t0, (0, 1));
    assert t1 == [Paper, Paper, Scissors];
    var t2 := Resolve(ds, t1, (0, 2));
    assert t2 == [Scissors, Paper, Scissors];
    var t3 := Resolve(ds, t2, (1, 2));
    assert t3 == [Scissors, Scissors, Scissors];
    ResolveAllSnoc(ds, t0, [], (0, 1));
    ResolveAllSnoc(ds, t0, [(0, 1)], (0, 2));
    ResolveAllSnoc(ds, t0, [(0, 1), (0, 2)], (1, 2));
  }

  /** The number of entities of type `t`. */
  function CountOf(ts: seq<Type>, t: Type): nat {
    multiset(ts)[t]
  }

  /** The three per-type counts add up to the population size. */
  lemma {:induction false} CountsSum(ts: seq<Type>)
    ensures CountOf(ts, Rock) + CountOf(ts, Paper) + CountOf(ts, Scissors) == |ts|
  {
    if ts != [] {
      var init := ts[..|ts| - 1];
      assert ts == init + [ts[|ts| - 1]];
      CountsSum(init);
      TypeCases(ts[|ts| - 1]);
    }
  }

  /** A conversion moves exactly one entity from the loser's count to the winner's. */
  lemma ResolveMovesOneCount(ds: seq<Disc>, ts: seq<Type>, p: (nat, nat))
    requires |ds| == |ts| && ValidPair(p, |ts|)
    requires Colliding(ds[p.0], ds[p.1]) && ts[p.0] != ts[p.1]
    ensures var w := WinnerOf(ts[p.0], ts[p.1]).value;
      var l := if w == ts[p.0] then ts[p.1] else ts[p.0];
      var r := Resolve(ds, ts, p);
      CountOf(r, w) == CountOf(ts, w) + 1 && CountOf(r, l) + 1 == CountOf(ts, l)
  {
    var w := WinnerOf(ts[p.0], ts[p.1]).value;
    var k := if w == ts[p.0] then p.1 else p.0;
    var r := Resolve(ds, ts, p);
    ResolveChangesOnlyLoser(ds, ts, p);
    assert r == ts[k := w];
    UpdateMultiset(ts, k, w);
  }

  lemma UpdateMultiset(ts: seq<Type>, k: nat, v: Type)
    requires k < |ts|
    ensures multiset(ts[k := v]) == multiset(ts) - multiset{ts[k]} + multiset{v}
  {
    var pre, post := ts[..k], ts[k + 1..];
    assert ts == pre + [ts[k]] + post;
    assert ts[k := v] == pre + [v] + post;
  }
}
