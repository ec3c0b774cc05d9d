/** The objective functions of the search: the squared corner distances of
    `constructV2`, the full-die count of `countfulldies`, and the
    partial-credit score of `gridwithpartialscore`; plus the final
    classification test, which compares unsquared distances.  Square roots
    are never computed: where the source takes one, the caller supplies it
    and the contract says it is the root. */
module Scoring {
  import opened Basics
  import opened Lattice
  import opened Decode
  import opened Positions

  datatype Point = Point(x: real, y: real)

  function SqNorm(q: Point): real
  {
    q.x * q.x + q.y * q.y
  }

  /** The four corners of a die in `constructV2`'s order: lower left, lower
      right, upper left, upper right. */
  function Corners(d: Die): (c: seq<Point>)
    ensures |c| == 4
    ensures c[0].x == c[2].x == d.x && c[1].x == c[3].x == d.x + d.w
    ensures c[0].y == c[1].y == d.y && c[2].y == c[3].y == d.y + d.h
  {
    [Point(d.x, d.y), Point(d.x + d.w, d.y), Point(d.x, d.y + d.h), Point(d.x + d.w, d.y + d.h)]
  }

  /** Point q lies on (the closed rectangle of) die d. */
  predicate OnDie(d: Die, q: Point)
  {
    d.x <= q.x <= d.x + d.w && d.y <= q.y <= d.y + d.h
  }

  /** One column of `constructV2`'s result: the squared distance of each
      corner from the wafer centre. */
  function SquaredDistances(d: Die): (v: seq<real>)
    ensures |v| == 4
    ensures forall k :: 0 <= k < 4 ==> v[k] == SqNorm(Corners(d)[k])
  {
    var c := Corners(d);
    [SqNorm(c[0]), SqNorm(c[1]), SqNorm(c[2]), SqNorm(c[3])]
  }

  // ---------------------------------------------------------------------
  // Validity

  /** The search's test `np.all(V <= ewr**2)`. */
  predicate SearchValid(ewr: real, v: seq<real>)
  {
    forall k :: 0 <= k < |v| ==> v[k] <= ewr * ewr
  }

  /** `sqrt(sq) <= r` for a squared distance `sq >= 0`, without the root. */
  predicate WithinRadius(sq: real, r: real)
  {
    r >= 0.0 && sq <= r * r
  }

  /** The final pass's test `np.all(V2**0.5 <= ewr)`. */
  predicate FinalValid(ewr: real, v: seq<real>)
  {
    forall k :: 0 <= k < |v| ==> WithinRadius(v[k], ewr)
  }

  /** The final pass's test `np.any(V2**0.5 <= ewr)`. */
  predicate FinalTouches(ewr: real, v: seq<real>)
  {
    exists k :: 0 <= k < |v| && WithinRadius(v[k], ewr)
  }

  lemma SquareMonotone(a: real, b: real)
    requires 0.0 <= a <= b
    ensures a * a <= b * b
  {
    assert a * a <= a * b <= b * b;
  }

  lemma SquareStrictMonotone(a: real, b: real)
    requires 0.0 <= a < b
    ensures a * a < b * b
  {
    var u := b - a;
    var v := b + a;
    assert b * b - a * a == u * v;
    assert u > 0.0 && v > 0.0;
    assert u * v > 0.0;
  }

  /** `WithinRadius` is the comparison of the square root with r. */
  lemma WithinRadiusIsRootTest(sq: real, root: real, r: real)
    requires IsRoot(root, sq)
    ensures WithinRadius(sq, r) <==> root <= r
  {
    if root <= r {
      SquareMonotone(root, r);
    } else if r >= 0.0 {
      SquareStrictMonotone(r, root);
    }
  }

  /** A square on an interval is bounded by the square at one of its ends. */
  lemma SquareBelowEnds(a: real, b: real, t: real)
    requires a <= t <= b
    ensures t * t <= a * a || t * t <= b * b
  {
    if t >= 0.0 {
      SquareMonotone(t, b);
    } else {
      SquareMonotone(-t, -a);
    }
  }

  /** Testing the four corners suffices: when every corner of a die is
      within radius r of the centre, so is every point of the die. */
  lemma CornersSuffice(d: Die, r: real, q: Point)
    requires d.w >= 0.0 && d.h >= 0.0
    requires SearchValid(r, SquaredDistances(d))
    requires OnDie(d, q)
    ensures SqNorm(q) <= r * r
  {
    var v := SquaredDistances(d);
    var x1 := d.x + d.w;
    var y1 := d.y + d.h;
    SquareBelowEnds(d.x, x1, q.x);
    SquareBelowEnds(d.y, y1, q.y);
    assert v[0] == d.x * d.x + d.y * d.y && v[0] <= r * r;
    assert v[1] == x1 * x1 + d.y * d.y && v[1] <= r * r;
    assert v[2] == d.x * d.x + y1 * y1 && v[2] <= r * r;
    assert v[3] == x1 * x1 + y1 * y1 && v[3] <= r * r;
    SumBelowCorners(d.x * d.x, x1 * x1, d.y * d.y, y1 * y1, q.x * q.x, q.y * q.y, r * r);
  }

  /** The linear core of `CornersSuffice`, over the squares as plain
      values: each square of a coordinate is below one of its ends'. */
  lemma SumBelowCorners(a0: real, a1: real, b0: real, b1: real, s: real, t: real, bound: real)
    requires s <= a0 || s <= a1
    requires t <= b0 || t <= b1
    requires a0 + b0 <= bound && a1 + b0 <= bound && a0 + b1 <= bound && a1 + b1 <= bound
    ensures s + t <= bound
  {
  }

  /** The search's corner test says exactly that the whole die lies in the
      closed disc of radius |r|: every point of the die is within reach,
      and the corners, being points of the die, must be. */
  lemma SearchValidIffInside(d: Die, r: real)
    requires d.w >= 0.0 && d.h >= 0.0
    ensures SearchValid(r, SquaredDistances(d)) <==> forall q :: OnDie(d, q) ==> SqNorm(q) <= r * r
  {
    var v := SquaredDistances(d);
    if SearchValid(r, v) {
      forall q | OnDie(d, q)
        ensures SqNorm(q) <= r * r
      {
        CornersSuffice(d, r, q);
      }
    } else {
      var k :| 0 <= k < 4 && v[k] > r * r;
      var c := Corners(d);
      assert OnDie(d, c[k]);
    }
  }

  /** The search test depends on the usable radius only through its
      square, so it cannot tell a radius from its negation. */
  lemma SearchIgnoresSign(ewr: real, v: seq<real>)
    ensures SearchValid(ewr, v) <==> SearchValid(-ewr, v)
  {
    assert (-ewr) * (-ewr) == ewr * ewr;
  }

  /** The two tests agree whenever the usable radius is not negative. */
  lemma SearchAgreesWithFinal(ewr: real, v: seq<real>)
    requires ewr >= 0.0
    ensures SearchValid(ewr, v) <==> FinalValid(ewr, v)
  {
  }

  /** The search test as the source writes it squares `ewr`, so for a
      negative usable radius it accepts a die whose corners lie at distance
      1.0 from the centre, which the final test rejects.  The wafer is a
      10-unit wafer with a 6.1-unit edge exclusion (usable radius -1.1);
      the lattice is the single cell (0, 0). */
  lemma NegativeRadiusAcceptsDie()
    ensures var w := Wafer(1.2, 1.6, 1.0, 1.0, 10.0, 6.1);
            && EffectiveRadius(w) == -1.1
            && Admissible(w) && Nx(w) == 0 && Ny(w) == 0
            && var v := SquaredDistances(CellAt(w, GridAt(0.0, 0.0), 0, 0));
               SearchValid(EffectiveRadius(w), v) && !FinalValid(EffectiveRadius(w), v)
  {
    var w := Wafer(1.2, 1.6, 1.0, 1.0, 10.0, 6.1);
    assert (-(-1.1 / 1.2)).Floor == 0;
    assert (-(-1.1 / 1.6)).Floor == 0;
    var d := CellAt(w, GridAt(0.0, 0.0), 0, 0);
    assert d == Die(-0.6, -0.8, 1.2, 1.6);
    assert SquaredDistances(d) == [1.0, 1.0, 1.0, 1.0];
  }

  /** The search test with the usable radius checked first: it is the final
      test, for every die. */
  predicate SearchValidChecked(ewr: real, v: seq<real>)
  {
    ewr >= 0.0 && SearchValid(ewr, v)
  }

  lemma CheckedSearchIsFinal(ewr: real, v: seq<real>)
    requires |v| >= 1
    ensures SearchValidChecked(ewr, v) <==> FinalValid(ewr, v)
  {
    if FinalValid(ewr, v) {
      assert WithinRadius(v[0], ewr);
    }
  }

  /** On every wafer `Validate` accepts, the search and final tests agree. */
  lemma ValidatedWaferTestsAgree(w: Wafer, v: seq<real>)
    requires Validate(w).Ok?
    ensures SearchValid(EffectiveRadius(w), v) <==> FinalValid(EffectiveRadius(w), v)
  {
    SearchAgreesWithFinal(EffectiveRadius(w), v);
  }

  // ---------------------------------------------------------------------
  // Scores over a lattice

  /** `constructV2` over a list of dies. */
  function Distances(cells: seq<Die>): (vs: seq<seq<real>>)
    ensures |vs| == |cells|
    ensures forall k :: 0 <= k < |cells| ==> vs[k] == SquaredDistances(cells[k])
  {
    seq(|cells|, k requires 0 <= k < |cells| => SquaredDistances(cells[k]))
  }

  function ValidMask(ewr: real, vs: seq<seq<real>>): (m: seq<bool>)
    ensures |m| == |vs|
    ensures forall k :: 0 <= k < |vs| ==> (m[k] <==> SearchValid(ewr, vs[k]))
  {
    seq(|vs|, k requires 0 <= k < |vs| => SearchValid(ewr, vs[k]))
  }

  /** The cells the search counts as full dies. */
  function ValidCells(ewr: real, vs: seq<seq<real>>): set<nat>
  {
    set k: nat | k < |vs| && SearchValid(ewr, vs[k])
  }

  /** `countfulldies`: minus the number of cells that pass the search test. */
  function CountFullDies(ewr: real, vs: seq<seq<real>>): (s: int)
    ensures s <= 0 && -s <= |vs|
    ensures -s == |ValidCells(ewr, vs)|
    ensures s == 0 <==> forall k :: 0 <= k < |vs| ==> !SearchValid(ewr, vs[k])
  {
    var m := ValidMask(ewr, vs);
    CountIsCardinality(m);
    assert TrueIndices(m) == ValidCells(ewr, vs);
    0 - Count(m)
  }

  // ---------------------------------------------------------------------
  // Partial credit

  /** `r` is `np.sqrt(v)`. */
  predicate IsRoot(r: real, v: real)
  {
    r >= 0.0 && r * r == v
  }

  /** The corner distances of one die, taken as roots of its squared
      distances. */
  predicate Roots(v: seq<real>, r: seq<real>)
  {
    |r| == |v| && forall k :: 0 <= k < |v| ==> IsRoot(r[k], v[k])
  }

  predicate AllRoots(vs: seq<seq<real>>, rs: seq<seq<real>>)
  {
    |rs| == |vs| && forall k :: 0 <= k < |vs| ==> Roots(vs[k], rs[k])
  }

  /** `np.clip(d - ewr, 0, inf)`: how far a corner lies outside the usable
      circle. */
  function Excess(d: real, ewr: real): real
  {
    if d > ewr then d - ewr else 0.0
  }

  /** The summed excess of a die's corners. */
  function SumExcess(r: seq<real>, ewr: real): (s: real)
    ensures s >= 0.0
    ensures s == 0.0 <==> forall k :: 0 <= k < |r| ==> r[k] <= ewr
  {
    if |r| == 0 then 0.0
    else
      var front := r[..|r| - 1];
      assert forall k :: 0 <= k < |front| ==> front[k] == r[k];
      SumExcess(front, ewr) + Excess(r[|r| - 1], ewr)
  }

  /** `PS` of `gridwithpartialscore` for one die: 1 less the mean corner
      excess as a fraction of the die diagonal `diag`. */
  function Credit(r: seq<real>, ewr: real, diag: real): (c: real)
    requires diag > 0.0
    ensures c <= 1.0
    ensures c == 1.0 <==> forall k :: 0 <= k < |r| ==> r[k] <= ewr
  {
    var s := SumExcess(r, ewr);
    assert s / 4.0 / diag >= 0.0;
    assert s / 4.0 / diag == 0.0 ==> s == 0.0;
    1.0 - s / 4.0 / diag
  }

  /** A die the search rejects always earns credit below 1. */
  lemma InvalidCreditBelowOne(ewr: real, v: seq<real>, r: seq<real>, diag: real)
    requires Roots(v, r) && diag > 0.0
    requires !SearchValid(ewr, v)
    ensures Credit(r, ewr, diag) < 1.0
  {
    var k :| 0 <= k < |v| && v[k] > ewr * ewr;
    if r[k] <= ewr {
      SquareMonotone(r[k], ewr);
    }
  }

  /** `max(PS[~valid])`: the best credit among the cells the search
      rejects, or None when there is no such cell (Python's `max` of an
      empty array raises). */
  function BestInvalidCredit(ewr: real, vs: seq<seq<real>>, rs: seq<seq<real>>, diag: real): (b: Option<real>)
    requires |rs| == |vs| && diag > 0.0
    ensures b.None? <==> forall k :: 0 <= k < |vs| ==> SearchValid(ewr, vs[k])
    ensures b.Some? ==> exists k :: 0 <= k < |vs| && !SearchValid(ewr, vs[k]) && b.value == Credit(rs[k], ewr, diag)
    ensures b.Some? ==> forall k :: 0 <= k < |vs| && !SearchValid(ewr, vs[k]) ==> Credit(rs[k], ewr, diag) <= b.value
  {
    if |vs| == 0 then None
    else
      var m := |vs| - 1;
      var rest := BestInvalidCredit(ewr, vs[..m], rs[..m], diag);
      assert forall k :: 0 <= k < m ==> vs[..m][k] == vs[k] && rs[..m][k] == rs[k];
      if SearchValid(ewr, vs[m]) then rest
      else
        var c := Credit(rs[m], ewr, diag);
        if rest.Some? && rest.value >= c then rest else Some(c)
  }

  /** With true roots, the best invalid credit is below 1. */
  lemma BestInvalidCreditBelowOne(ewr: real, vs: seq<seq<real>>, rs: seq<seq<real>>, diag: real)
    requires AllRoots(vs, rs) && diag > 0.0
    requires BestInvalidCredit(ewr, vs, rs, diag).Some?
    ensures BestInvalidCredit(ewr, vs, rs, diag).value < 1.0
  {
    var b := BestInvalidCredit(ewr, vs, rs, diag);
    var k :| 0 <= k < |vs| && !SearchValid(ewr, vs[k]) && b.value == Credit(rs[k], ewr, diag);
    InvalidCreditBelowOne(ewr, vs[k], rs[k], diag);
  }

  /** `gridwithpartialscore`: minus the full-die count plus the best
      partial credit; None where the source raises because every cell is
      a full die. */
  function PartialScore(ewr: real, vs: seq<seq<real>>, rs: seq<seq<real>>, diag: real): (r: Option<real>)
    requires |rs| == |vs| && diag > 0.0
    ensures r.None? <==> forall k :: 0 <= k < |vs| ==> SearchValid(ewr, vs[k])
  {
    match BestInvalidCredit(ewr, vs, rs, diag)
    case None => None
    case Some(best) => Some(CountFullDies(ewr, vs) as real - best)
  }

  /** `math.floor(-fun)` of the partial score never over-reports the full
      dies, and recovers their number exactly when the best partial credit
      is not negative. */
  lemma PartialScoreFloor(ewr: real, vs: seq<seq<real>>, rs: seq<seq<real>>, diag: real)
    requires AllRoots(vs, rs) && diag > 0.0
    requires PartialScore(ewr, vs, rs, diag).Some?
    ensures (-PartialScore(ewr, vs, rs, diag).value).Floor <= |ValidCells(ewr, vs)|
    ensures BestInvalidCredit(ewr, vs, rs, diag).value >= 0.0 ==>
              (-PartialScore(ewr, vs, rs, diag).value).Floor == |ValidCells(ewr, vs)|
  {
    BestInvalidCreditBelowOne(ewr, vs, rs, diag);
  }

  // ---------------------------------------------------------------------
  // The lattice is large enough

  /** Along one axis: a die of side e centred at offset o plus i pitches,
      with i beyond n where n pitches cover the radius, has an edge further
      than that radius from the centre. */
  lemma BeyondReach(ewr: real, e: real, pitch: real, o: real, n: int, i: int)
    requires e > 0.0 && pitch >= e && ewr <= Times(n, pitch)
    requires 0.0 <= o <= pitch / 2.0
    requires i > n || i < -n
    ensures var x0 := o + Times(i, pitch) - e / 2.0;
            x0 + e > ewr || -x0 > ewr
  {
    BeyondMultiple(n, i, pitch);
  }

  /** Beyond n pitches, in either direction, there is at least one more
      pitch. */
  lemma BeyondMultiple(n: int, i: int, pitch: real)
    requires (i > n || i < -n) && pitch >= 0.0
    ensures || Times(i, pitch) >= Times(n, pitch) + pitch
            || Times(i, pitch) <= -Times(n, pitch) - pitch
  {
    if i > n {
      ScaleMonotone(n + 1, i, pitch);
      ScaleAdd(n, 1, pitch);
    } else {
      ScaleMonotone(i, -n - 1, pitch);
      ScaleAdd(-n - 1, n + 1, pitch);
      ScaleAdd(n, 1, pitch);
    }
  }

  /** A radius covered by n die sides is covered by n pitches. */
  lemma ReachInPitches(ewr: real, e: real, pitch: real, n: int)
    requires n >= 0 && e <= pitch && ewr <= n as real * e
    ensures ewr <= Times(n, pitch)
  {
    ScaleFactorMonotone(n, e, pitch);
  }

  /** A die with an edge beyond radius r fails the search test. */
  lemma EdgeBeyondInvalid(d: Die, r: real)
    requires r >= 0.0 && (d.x + d.w > r || -d.x > r)
    ensures !SearchValid(r, SquaredDistances(d))
  {
    var v := SquaredDistances(d);
    var x1 := d.x + d.w;
    if x1 > r {
      SquareStrictMonotone(r, x1);
      assert v[1] == x1 * x1 + d.y * d.y;
    } else {
      SquareStrictMonotone(r, -d.x);
      assert v[0] == d.x * d.x + d.y * d.y;
    }
  }

  /** A Grid die whose column lies beyond the lattice half-size `Nx`
      reaches outside the usable circle, whatever the offset in the search
      range: the lattice leaves out no full die. */
  lemma GridBeyondLatticeInvalid(w: Wafer, ox: real, oy: real, i: int, j: int)
    requires Admissible(w) && EffectiveRadius(w) > 0.0 && w.xspacing >= 0.0
    requires 0.0 <= ox <= PitchX(w) / 2.0
    requires i > Nx(w) || i < -Nx(w)
    ensures var d := Die(ox + i as real * PitchX(w) - w.width / 2.0,
                         oy + j as real * PitchY(w) - w.height / 2.0,
                         w.width, w.height);
            !SearchValid(EffectiveRadius(w), SquaredDistances(d))
  {
    var ewr := EffectiveRadius(w);
    ReachCovers(ewr, w.width);
    ReachInPitches(ewr, w.width, PitchX(w), Nx(w));
    BeyondReach(ewr, w.width, PitchX(w), ox, Nx(w), i);
    EdgeBeyondInvalid(Die(ox + i as real * PitchX(w) - w.width / 2.0,
                          oy + j as real * PitchY(w) - w.height / 2.0,
                          w.width, w.height), ewr);
  }
}
