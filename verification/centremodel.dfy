/** The earlier centre-coordinate model (`DiesPerWafer_v1.0.py` and
    `opt/fit.py`): Grid, ShiftRows and ShiftCols only, dies placed by their
    centres (`calcXYcen`), the search offsets turned into true offsets by
    `trueoffsets`, and unsquared corner distances (`constructV`).  The
    lemmas here show that it places the same dies as the corner model and
    classifies them the same way. */
module CentreModel {
  import opened Basics
  import opened Lattice
  import opened Decode
  import opened Positions
  import opened Scoring
  import opened Centering

  /** `trueoffsets`: Grid offsets unchanged; for ShiftRows and ShiftCols the
      first offset kept and every further entry thresholded at 0.5 to 0 or
      half the pitch along the shifted axis. */
  function TrueOffsets(w: Wafer, st: Strategy, x: seq<real>): (t: seq<real>)
    requires st != ShiftRotate && |x| >= 1
    ensures |t| == |x|
    ensures t[0] == x[0]
    ensures st == Grid ==> t == x
    ensures st == ShiftRows ==> forall k :: 1 <= k < |x| ==> t[k] == Half(Flag(x[k]), PitchX(w))
    ensures st == ShiftCols ==> forall k :: 1 <= k < |x| ==> t[k] == Half(Flag(x[k]), PitchY(w))
  {
    match st
    case Grid => x
    case ShiftRows => [x[0]] + HalfShifts(x[1..], PitchX(w))
    case ShiftCols => [x[0]] + HalfShifts(x[1..], PitchY(w))
  }

  /** The true offsets have the shape `calcXYcen` indexes. */
  predicate CentreShaped(w: Wafer, st: Strategy, t: seq<real>)
    requires Admissible(w)
  {
    match st
    case Grid => |t| == 2
    case ShiftRows => |t| == 2 * Ny(w) + 2
    case ShiftCols => |t| == 2 * Nx(w) + 2
    case ShiftRotate => false
  }

  /** `calcXYcen`: the centre of the die in cell (i, j). */
  function CentreOf(w: Wafer, st: Strategy, t: seq<real>, i: int, j: int): (c: Point)
    requires Admissible(w) && CentreShaped(w, st, t) && InLattice(w, st, i, j)
  {
    match st
    case Grid => Point(t[0] + i as real * PitchX(w), t[1] + j as real * PitchY(w))
    case ShiftRows => Point(t[1 + j + Ny(w)] + i as real * PitchX(w), t[0] + j as real * PitchY(w))
    case ShiftCols => Point(t[0] + i as real * PitchX(w), t[1 + i + Nx(w)] + j as real * PitchY(w))
  }

  /** `calcXYcen` spaces centres one pitch apart along i: one step moves
      the centre one x pitch right, and, unless the strategy shifts
      columns, leaves its height alone. */
  lemma CentreStepI(w: Wafer, st: Strategy, t: seq<real>, i: int, j: int)
    requires Admissible(w) && CentreShaped(w, st, t)
    requires InLattice(w, st, i, j) && InLattice(w, st, i + 1, j)
    ensures CentreOf(w, st, t, i + 1, j).x == CentreOf(w, st, t, i, j).x + PitchX(w)
    ensures st != ShiftCols ==> CentreOf(w, st, t, i + 1, j).y == CentreOf(w, st, t, i, j).y
  {
    var px := PitchX(w);
    var o := if st == ShiftRows then t[1 + j + Ny(w)] else t[0];
    NextMultiple(o, i, px);
  }

  /** Likewise along j: one step moves the centre one y pitch up, and,
      unless the strategy shifts rows, leaves its x alone. */
  lemma CentreStepJ(w: Wafer, st: Strategy, t: seq<real>, i: int, j: int)
    requires Admissible(w) && CentreShaped(w, st, t)
    requires InLattice(w, st, i, j) && InLattice(w, st, i, j + 1)
    ensures CentreOf(w, st, t, i, j + 1).y == CentreOf(w, st, t, i, j).y + PitchY(w)
    ensures st != ShiftRows ==> CentreOf(w, st, t, i, j + 1).x == CentreOf(w, st, t, i, j).x
  {
    var py := PitchY(w);
    var o := if st == ShiftCols then t[1 + i + Nx(w)] else if st == Grid then t[1] else t[0];
    NextMultiple(o, j, py);
  }

  /** One more multiple of the pitch adds one pitch. */
  lemma NextMultiple(a: real, k: int, p: real)
    ensures a + (k + 1) as real * p == a + k as real * p + p
  {
    ScaleAdd(k, 1, p);
  }

  /** The die centred on `CentreOf`. */
  function CentreDie(w: Wafer, st: Strategy, t: seq<real>, i: int, j: int): (d: Die)
    requires Admissible(w) && CentreShaped(w, st, t) && InLattice(w, st, i, j)
    ensures d.w == w.width && d.h == w.height
  {
    var c := CentreOf(w, st, t, i, j);
    Die(c.x - w.width / 2.0, c.y - w.height / 2.0, w.width, w.height)
  }

  /** The centre model places exactly the dies the corner model places for
      the same (non-symmetric) search offsets. */
  lemma CentreModelIsCornerModel(w: Wafer, st: Strategy, x: seq<real>, i: int, j: int)
    requires Admissible(w) && st != ShiftRotate
    requires |x| == |SearchBounds(w, st, false)| && InLattice(w, st, i, j)
    ensures CentreShaped(w, st, TrueOffsets(w, st, x))
    ensures CentreDie(w, st, TrueOffsets(w, st, x), i, j) == CellAt(w, DecodeParams(w, st, false, x), i, j)
  {
    match st
    case Grid => GridCentreIsCorner(w, x, i, j);
    case ShiftRows => RowsCentreIsCorner(w, x, i, j);
    case ShiftCols => ColsCentreIsCorner(w, x, i, j);
  }

  lemma GridCentreIsCorner(w: Wafer, x: seq<real>, i: int, j: int)
    requires Admissible(w) && |x| == 2 && InLattice(w, Grid, i, j)
    ensures CentreShaped(w, Grid, TrueOffsets(w, Grid, x))
    ensures CentreDie(w, Grid, TrueOffsets(w, Grid, x), i, j) == CellAt(w, DecodeParams(w, Grid, false, x), i, j)
  {
    var t := TrueOffsets(w, Grid, x);
    DecodePlain(w, Grid, x);
    PitchedCell(w, DecodeParams(w, Grid, false, x), i, j);
    CentreIsPitched(w, Grid, t, x[0], x[1], i, j);
  }

  lemma RowsCentreIsCorner(w: Wafer, x: seq<real>, i: int, j: int)
    requires Admissible(w) && |x| == 2 * Ny(w) + 2 && InLattice(w, ShiftRows, i, j)
    ensures CentreShaped(w, ShiftRows, TrueOffsets(w, ShiftRows, x))
    ensures CentreDie(w, ShiftRows, TrueOffsets(w, ShiftRows, x), i, j)
            == CellAt(w, DecodeParams(w, ShiftRows, false, x), i, j)
  {
    var t := TrueOffsets(w, ShiftRows, x);
    var xs := HalfShifts(x[1..], PitchX(w));
    DecodePlain(w, ShiftRows, x);
    PitchedCell(w, DecodeParams(w, ShiftRows, false, x), i, j);
    assert t[1 + j + Ny(w)] == xs[j + Ny(w)];
    CentreIsPitched(w, ShiftRows, t, t[1 + j + Ny(w)], x[0], i, j);
  }

  lemma ColsCentreIsCorner(w: Wafer, x: seq<real>, i: int, j: int)
    requires Admissible(w) && |x| == 2 * Nx(w) + 2 && InLattice(w, ShiftCols, i, j)
    ensures CentreShaped(w, ShiftCols, TrueOffsets(w, ShiftCols, x))
    ensures CentreDie(w, ShiftCols, TrueOffsets(w, ShiftCols, x), i, j)
            == CellAt(w, DecodeParams(w, ShiftCols, false, x), i, j)
  {
    var t := TrueOffsets(w, ShiftCols, x);
    var ys := HalfShifts(x[1..], PitchY(w));
    DecodePlain(w, ShiftCols, x);
    PitchedCell(w, DecodeParams(w, ShiftCols, false, x), i, j);
    assert t[1 + i + Nx(w)] == ys[i + Nx(w)];
    CentreIsPitched(w, ShiftCols, t, x[0], t[1 + i + Nx(w)], i, j);
  }

  /** The die centred on a centre (ox + i * PitchX, oy + j * PitchY) is the
      corner model's pitched die with offsets (ox, oy). */
  lemma CentreIsPitched(w: Wafer, st: Strategy, t: seq<real>, ox: real, oy: real, i: int, j: int)
    requires Admissible(w) && CentreShaped(w, st, t) && InLattice(w, st, i, j)
    requires CentreOf(w, st, t, i, j) == Point(ox + i as real * PitchX(w), oy + j as real * PitchY(w))
    ensures CentreDie(w, st, t, i, j) == PitchedDie(w, ox, oy, i, j)
  {
  }

  // ---------------------------------------------------------------------
  // Distances

  /** The squared corner distances in `constructV`'s order: (-, -), (-, +),
      (+, -), (+, +) half extents from the centre. */
  function CentreSquaredDistances(w: Wafer, c: Point): (v: seq<real>)
    ensures |v| == 4
  {
    var xl := c.x - w.width / 2.0;
    var xr := c.x + w.width / 2.0;
    var yl := c.y - w.height / 2.0;
    var yu := c.y + w.height / 2.0;
    [xl * xl + yl * yl, xl * xl + yu * yu, xr * xr + yl * yl, xr * xr + yu * yu]
  }

  /** `constructV` lists the corners of `constructV2` with the middle two
      swapped. */
  lemma CentreDistancesReorder(w: Wafer, c: Point)
    ensures var d := Die(c.x - w.width / 2.0, c.y - w.height / 2.0, w.width, w.height);
            var v := SquaredDistances(d);
            CentreSquaredDistances(w, c) == [v[0], v[2], v[1], v[3]]
  {
    var d := Die(c.x - w.width / 2.0, c.y - w.height / 2.0, w.width, w.height);
    assert d.x + d.w == c.x + w.width / 2.0;
    assert d.y + d.h == c.y + w.height / 2.0;
    var v := SquaredDistances(d);
    var u := CentreSquaredDistances(w, c);
    assert u[0] == v[0];
    assert u[1] == v[2];
    assert u[2] == v[1];
    assert u[3] == v[3];
  }

  /** The centre model's test `np.all(V <= ewr)` on unsquared distances. */
  predicate CentreValid(ewr: real, r: seq<real>)
  {
    forall k :: 0 <= k < |r| ==> r[k] <= ewr
  }

  /** The centre model's test `np.any(V <= ewr)`. */
  predicate CentreTouches(ewr: real, r: seq<real>)
  {
    exists k :: 0 <= k < |r| && r[k] <= ewr
  }

  /** On the roots of the squared distances, the centre model's tests are
      the corner model's final tests. */
  lemma CentreTestsAreFinalTests(ewr: real, v: seq<real>, r: seq<real>)
    requires Roots(v, r)
    ensures CentreValid(ewr, r) <==> FinalValid(ewr, v)
    ensures CentreTouches(ewr, r) <==> FinalTouches(ewr, v)
  {
    forall k | 0 <= k < |v|
      ensures r[k] <= ewr <==> WithinRadius(v[k], ewr)
    {
      WithinRadiusIsRootTest(v[k], r[k], ewr);
    }
  }

  /** Reordering the corners changes neither test. */
  lemma TestsIgnoreCornerOrder(ewr: real, v: seq<real>)
    requires |v| == 4
    ensures FinalValid(ewr, [v[0], v[2], v[1], v[3]]) <==> FinalValid(ewr, v)
    ensures FinalTouches(ewr, [v[0], v[2], v[1], v[3]]) <==> FinalTouches(ewr, v)
  {
    var u := [v[0], v[2], v[1], v[3]];
    assert u[0] == v[0] && u[1] == v[2] && u[2] == v[1] && u[3] == v[3];
    if FinalTouches(ewr, v) {
      var k :| 0 <= k < 4 && WithinRadius(v[k], ewr);
      var k2 := if k == 1 then 2 else if k == 2 then 1 else k;
      assert u[k2] == v[k];
    }
    if FinalTouches(ewr, u) {
      var k :| 0 <= k < 4 && WithinRadius(u[k], ewr);
      var k2 := if k == 1 then 2 else if k == 2 then 1 else k;
      assert v[k2] == u[k];
    }
  }

  // ---------------------------------------------------------------------
  // The centre model's solution diameter

  /** A masked entry that bounds every masked entry is `MaskedMax`. */
  lemma MaskedMaxUnique(vs: seq<seq<real>>, mask: seq<bool>, k: nat, c: nat)
    requires |mask| == |vs| && forall k :: 0 <= k < |vs| ==> |vs[k]| >= 1
    requires k < |vs| && mask[k] && c < |vs[k]|
    requires forall k2, c2 :: 0 <= k2 < |vs| && mask[k2] && 0 <= c2 < |vs[k2]| ==> vs[k2][c2] <= vs[k][c]
    ensures MaskedMax(vs, mask) == Some(vs[k][c])
  {
    var r := MaskedMax(vs, mask);
    assert r.Some?;
    assert vs[k][c] <= r.value;
    var k2, c2 :| 0 <= k2 < |vs| && mask[k2] && 0 <= c2 < |vs[k2]| && vs[k2][c2] == r.value;
    assert vs[k2][c2] <= vs[k][c];
  }

  /** A root bounded by m has its square bounded by m * m. */
  lemma RootBound(v: real, r: real, m: real)
    requires IsRoot(r, v) && r <= m
    ensures v <= m * m
  {
    SquareMonotone(r, m);
  }

  /** Point-wise reading of `AllRoots`. */
  lemma RootAt(vs: seq<seq<real>>, rs: seq<seq<real>>, k: nat, c: nat)
    requires AllRoots(vs, rs) && k < |vs| && c < |vs[k]|
    ensures c < |rs[k]| && IsRoot(rs[k][c], vs[k][c])
  {
    assert Roots(vs[k], rs[k]);
  }

  /** Squares are bounded by the square of the largest root. */
  lemma SquaresBounded(vs: seq<seq<real>>, rs: seq<seq<real>>, mask: seq<bool>, k: nat, c: nat)
    requires |mask| == |vs| && AllRoots(vs, rs) && k < |vs| && mask[k] && c < |vs[k]|
    requires forall k2, c2 :: 0 <= k2 < |rs| && mask[k2] && 0 <= c2 < |rs[k2]| ==> rs[k2][c2] <= rs[k][c]
    ensures forall k2, c2 :: 0 <= k2 < |vs| && mask[k2] && 0 <= c2 < |vs[k2]| ==> vs[k2][c2] <= vs[k][c]
  {
    RootAt(vs, rs, k, c);
    forall k2, c2 | 0 <= k2 < |vs| && mask[k2] && 0 <= c2 < |vs[k2]|
      ensures vs[k2][c2] <= vs[k][c]
    {
      RootAt(vs, rs, k2, c2);
      RootBound(vs[k2][c2], rs[k2][c2], rs[k][c]);
    }
  }

  /** The centre model's `Rmax` (the largest unsquared distance over the
      mask) is the root of the corner model's (the largest squared
      distance), so `2 * (Rmax + edge exclusion)` is the corner model's
      solution diameter. */
  lemma CentreRmaxIsRoot(vs: seq<seq<real>>, rs: seq<seq<real>>, mask: seq<bool>)
    requires |mask| == |vs| && AllRoots(vs, rs) && forall k :: 0 <= k < |vs| ==> |vs[k]| >= 1
    requires MaskedMax(rs, mask).Some?
    ensures MaskedMax(vs, mask).Some?
    ensures IsRoot(MaskedMax(rs, mask).value, MaskedMax(vs, mask).value)
  {
    var m := MaskedMax(rs, mask).value;
    var k, c :| 0 <= k < |rs| && mask[k] && 0 <= c < |rs[k]| && rs[k][c] == m;
    RootAt(vs, rs, k, c);
    SquaresBounded(vs, rs, mask, k, c);
    MaskedMaxUnique(vs, mask, k, c);
  }
}
