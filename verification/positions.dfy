/** The geometric half of `CalculatePositions`: the lower-left corner and
    the extent of the die in every lattice cell (i, j), for each strategy.
    Lattice index i runs along x, j along y; arrays are indexed by index
    plus lattice half-size, as numpy's `meshgrid(..., indexing="ij")`. */
module Positions {
  import opened Basics
  import opened Lattice
  import opened Decode

  /** A die placed on the wafer: lower-left corner and extent. */
  datatype Die = Die(x: real, y: real, w: real, h: real)

  /** Lattice half-size along i: `Nx`, or `Nmax` for ShiftRotate. */
  function HalfI(w: Wafer, st: Strategy): nat
    requires Admissible(w)
  {
    if st == ShiftRotate then Nmax(w) else Nx(w)
  }

  /** Lattice half-size along j: `Ny`, or `Nmax` for ShiftRotate. */
  function HalfJ(w: Wafer, st: Strategy): nat
    requires Admissible(w)
  {
    if st == ShiftRotate then Nmax(w) else Ny(w)
  }

  predicate InLattice(w: Wafer, st: Strategy, i: int, j: int)
    requires Admissible(w)
  {
    var ni: int := HalfI(w, st);
    var nj: int := HalfJ(w, st);
    -ni <= i <= ni && -nj <= j <= nj
  }

  // ---------------------------------------------------------------------
  // ShiftRotate rows

  /** Number of rotated rows among array entries lo..hi-1 (numpy's
      `cumsum` of the rotation flags). */
  function RotCount(rot: seq<bool>, lo: int, hi: int): (c: nat)
    requires 0 <= lo <= hi <= |rot|
    ensures c <= hi - lo
    decreases hi - lo
  {
    if lo == hi then 0 else RotCount(rot, lo, hi - 1) + (if rot[hi - 1] then 1 else 0)
  }

  /** The source's `Rsum[b]`: rotated rows between the centre row n and row
      b, counted positively above the centre and negatively below it. */
  function RSum(rot: seq<bool>, n: nat, b: nat): (r: int)
    requires |rot| == 2 * n + 1 && b <= 2 * n
    ensures b >= n ==> 0 <= r <= b - n
    ensures b <= n ==> b - n <= r <= 0
  {
    if b > n then RotCount(rot, n, b)
    else if b < n then 0 - RotCount(rot, b, n)
    else 0
  }

  /** The source's `notRsum[b]`: the unrotated rows over the same range. */
  function NotRSum(rot: seq<bool>, n: nat, b: nat): (q: int)
    requires |rot| == 2 * n + 1 && b <= 2 * n
    ensures b >= n ==> 0 <= q <= b - n
    ensures b <= n ==> b - n <= q <= 0
  {
    (b - n) - RSum(rot, n, b)
  }

  /** The source's `yoffsets[b]`: the bottom edge of row b. */
  function RowBottom(w: Wafer, y0: real, rot: seq<bool>, n: nat, b: nat): real
    requires |rot| == 2 * n + 1 && b <= 2 * n
  {
    Stacked(w, y0 - YExtent(w, rot[n]) / 2.0, b - n, RSum(rot, n, b), NotRSum(rot, n, b))
  }

  /** Height reached from `c` after k spacings, r rotated and q upright dies. */
  function Stacked(w: Wafer, c: real, k: int, r: int, q: int): real
  {
    c + w.yspacing * k as real + r as real * w.width + q as real * w.height
  }

  /** The source's `xoffset0`: x of the die with index 0 in a row. */
  function RowStart(w: Wafer, shifted: bool, rotated: bool): real
  {
    if shifted then w.xspacing / 2.0 else -XExtent(w, rotated) / 2.0
  }

  /** The die centred at (ox + i * PitchX, oy + j * PitchY): Grid, ShiftRows
      and ShiftCols place every die this way, with offsets that depend on
      the row or column. */
  function PitchedDie(w: Wafer, ox: real, oy: real, i: int, j: int): Die
  {
    Die(ox + i as real * PitchX(w) - w.width / 2.0,
        oy + j as real * PitchY(w) - w.height / 2.0,
        w.width, w.height)
  }

  /** Die i of a ShiftRotate row with the given flags and bottom edge. */
  function RowDie(w: Wafer, shifted: bool, rotated: bool, bottom: real, i: int): Die
  {
    Die(RowStart(w, shifted, rotated) + i as real * (XExtent(w, rotated) + w.xspacing),
        bottom, XExtent(w, rotated), YExtent(w, rotated))
  }

  // ---------------------------------------------------------------------
  // Cells

  /** The die in lattice cell (i, j). */
  function CellAt(w: Wafer, p: Params, i: int, j: int): (d: Die)
    requires Admissible(w) && Shaped(w, p) && InLattice(w, StrategyOfParams(p), i, j)
    ensures !p.ShiftRot? ==> d.w == w.width && d.h == w.height
    ensures p.ShiftRot? ==>
              || (d.w == w.width && d.h == w.height)
              || (d.w == w.height && d.h == w.width)
  {
    match p
    case GridAt(ox, oy) => PitchedDie(w, ox, oy, i, j)
    case RowShift(yoff, xs) => PitchedDie(w, xs[j + Ny(w)], yoff, i, j)
    case ColShift(xoff, ys) => PitchedDie(w, xoff, ys[i + Nx(w)], i, j)
    case ShiftRot(y0, sh, rot) =>
      var n := Nmax(w);
      var b := j + n;
      RowDie(w, sh[b], rot[b], RowBottom(w, y0, rot, n, b), i)
  }

  /** Grid, ShiftRows and ShiftCols place the die of cell (i, j) by its
      centre, one pitch per index from the offsets of its row or column. */
  lemma PitchedCell(w: Wafer, p: Params, i: int, j: int)
    requires Admissible(w) && Shaped(w, p) && InLattice(w, StrategyOfParams(p), i, j)
    ensures p.GridAt? ==> CellAt(w, p, i, j) == PitchedDie(w, p.ox, p.oy, i, j)
    ensures p.RowShift? ==> CellAt(w, p, i, j) == PitchedDie(w, p.xshift[j + Ny(w)], p.yoff, i, j)
    ensures p.ColShift? ==> CellAt(w, p, i, j) == PitchedDie(w, p.xoff, p.yshift[i + Nx(w)], i, j)
  {
  }

  /** The four arrays `Xcorner, Ycorner, Xextent, Yextent` of
      `CalculatePositions`, held as one array of dies: entry [a][b] is cell
      (a - HalfI, b - HalfJ). */
  function Layout(w: Wafer, p: Params): (g: seq<seq<Die>>)
    requires Admissible(w) && Shaped(w, p)
    ensures |g| == 2 * HalfI(w, StrategyOfParams(p)) + 1
    ensures forall a :: 0 <= a < |g| ==> |g[a]| == 2 * HalfJ(w, StrategyOfParams(p)) + 1
  {
    var st := StrategyOfParams(p);
    var ni := HalfI(w, st);
    var nj := HalfJ(w, st);
    seq(2 * ni + 1, a requires 0 <= a < 2 * ni + 1 =>
      seq(2 * nj + 1, b requires 0 <= b < 2 * nj + 1 => CellAt(w, p, a - ni, b - nj)))
  }

  /** Number of cells of the lattice of a strategy. */
  function LatticeSize(w: Wafer, st: Strategy): nat
    requires Admissible(w)
  {
    (2 * HalfI(w, st) + 1) * (2 * HalfJ(w, st) + 1)
  }

  /** All dies of the lattice in `ndenumerate` order: one per cell. */
  function Cells(w: Wafer, p: Params): (c: seq<Die>)
    requires Admissible(w) && Shaped(w, p)
    ensures |c| == LatticeSize(w, StrategyOfParams(p))
  {
    var g := Layout(w, p);
    FlattenLength(g, 2 * HalfJ(w, StrategyOfParams(p)) + 1);
    Flatten(g)
  }

  /** Every entry of `Cells` is the die of some lattice cell, the converse
      of `CellsIndex`: the list holds nothing but lattice dies. */
  lemma CellsEntry(w: Wafer, p: Params, k: nat) returns (i: int, j: int)
    requires Admissible(w) && Shaped(w, p) && k < |Cells(w, p)|
    ensures InLattice(w, StrategyOfParams(p), i, j)
    ensures Cells(w, p)[k] == CellAt(w, p, i, j)
  {
    var st := StrategyOfParams(p);
    var g := Layout(w, p);
    var a, b := FlattenEntry(g, 2 * HalfJ(w, st) + 1, k);
    i, j := a - HalfI(w, st), b - HalfJ(w, st);
    LayoutEntry(w, p, i, j);
  }

  /** Cell (i, j) sits at position a * B + b of `Cells`, where a, b are its
      array indices and B the row length: every lattice cell is listed. */
  lemma CellsIndex(w: Wafer, p: Params, i: int, j: int) returns (k: nat)
    requires Admissible(w) && Shaped(w, p) && InLattice(w, StrategyOfParams(p), i, j)
    ensures k < |Cells(w, p)| && Cells(w, p)[k] == CellAt(w, p, i, j)
    ensures var st := StrategyOfParams(p);
            k == (i + HalfI(w, st)) * (2 * HalfJ(w, st) + 1) + (j + HalfJ(w, st))
  {
    var st := StrategyOfParams(p);
    var g := Layout(w, p);
    var nb := 2 * HalfJ(w, st) + 1;
    var a: nat, b: nat := i + HalfI(w, st), j + HalfJ(w, st);
    LayoutEntry(w, p, i, j);
    FlattenIndex(g, nb, a, b);
    var m: nat := RowMajor(a, b, nb);
    k := m;
  }

  /** Position of entry (a, b) in a row-major array with rows of length nb. */
  function RowMajor(a: nat, b: nat, nb: nat): nat
  {
    a * nb + b
  }

  /** The layout array holds cell (i, j) at array indices (i + ni, j + nj). */
  lemma LayoutEntry(w: Wafer, p: Params, i: int, j: int)
    requires Admissible(w) && Shaped(w, p) && InLattice(w, StrategyOfParams(p), i, j)
    ensures var st := StrategyOfParams(p);
            Layout(w, p)[i + HalfI(w, st)][j + HalfJ(w, st)] == CellAt(w, p, i, j)
  {
    var st := StrategyOfParams(p);
    var ni, nj := HalfI(w, st), HalfJ(w, st);
    var a, b := i + ni, j + nj;
    assert a - ni == i && b - nj == j;
  }

  /** Rotation swaps the extents, so every die covers the same area. */
  lemma AreaPreserved(w: Wafer, p: Params, i: int, j: int)
    requires Admissible(w) && Shaped(w, p) && InLattice(w, StrategyOfParams(p), i, j)
    ensures CellAt(w, p, i, j).w * CellAt(w, p, i, j).h == w.width * w.height
  {
    var d := CellAt(w, p, i, j);
    if d.w != w.width {
      assert d.w * d.h == w.height * w.width;
    }
  }

  // ---------------------------------------------------------------------
  // Properties of the lattice

  /** Neighbouring cells of Grid, ShiftRows and ShiftCols are one pitch
      apart along the index that moves, whatever the parameters. */
  lemma PitchSpacing(w: Wafer, p: Params, i: int, j: int)
    requires Admissible(w) && Shaped(w, p) && !p.ShiftRot?
    requires InLattice(w, StrategyOfParams(p), i, j)
    ensures InLattice(w, StrategyOfParams(p), i + 1, j) ==>
              CellAt(w, p, i + 1, j).x == CellAt(w, p, i, j).x + PitchX(w)
    ensures InLattice(w, StrategyOfParams(p), i, j + 1) ==>
              CellAt(w, p, i, j + 1).y == CellAt(w, p, i, j).y + PitchY(w)
  {
    match p
    case GridAt(ox, oy) =>
      PitchedStep(w, ox, oy, ox, oy, i, j);
    case RowShift(yoff, xs) =>
      var o := xs[j + Ny(w)];
      PitchedStep(w, o, yoff, o, yoff, i, j);
      if InLattice(w, ShiftRows, i, j + 1) {
        PitchedStep(w, xs[j + 1 + Ny(w)], yoff, o, yoff, i, j);
      }
    case ColShift(xoff, ys) =>
      var o := ys[i + Nx(w)];
      PitchedStep(w, xoff, o, xoff, o, i, j);
      if InLattice(w, ShiftCols, i + 1, j) {
        PitchedStep(w, xoff, ys[i + 1 + Nx(w)], xoff, o, i, j);
      }
  }

  /** One index step moves a pitched die by one pitch, whatever the
      offset along the other axis. */
  lemma PitchedStep(w: Wafer, ox: real, oy: real, ox2: real, oy2: real, i: int, j: int)
    ensures PitchedDie(w, ox, oy, i + 1, j).x == PitchedDie(w, ox, oy2, i, j).x + PitchX(w)
    ensures PitchedDie(w, ox, oy, i, j + 1).y == PitchedDie(w, ox2, oy, i, j).y + PitchY(w)
  {
    ScaleAdd(i, 1, PitchX(w));
    ScaleAdd(j, 1, PitchY(w));
  }

  /** Low-end unfolding of the rotated-row count. */
  lemma {:induction false} RotCountFromLow(rot: seq<bool>, lo: int, hi: int)
    requires 0 <= lo < hi <= |rot|
    ensures RotCount(rot, lo, hi) == (if rot[lo] then 1 else 0) + RotCount(rot, lo + 1, hi)
    decreases hi - lo
  {
    if lo + 1 < hi {
      RotCountFromLow(rot, lo, hi - 1);
    }
  }

  /** `Rsum` grows by exactly one across a rotated row and is flat across
      an unrotated one, on both sides of the centre. */
  lemma {:induction false} RSumStep(rot: seq<bool>, n: nat, b: nat)
    requires |rot| == 2 * n + 1 && b < 2 * n
    ensures RSum(rot, n, b + 1) == RSum(rot, n, b) + (if rot[b] then 1 else 0)
  {
    if b < n {
      RotCountFromLow(rot, b, n);
    }
  }

  /** ShiftRotate rows stack without gaps or overlaps: the next row starts
      one y spacing above the top of the current row, whether either is
      rotated or not. */
  lemma RowsStack(w: Wafer, y0: real, rot: seq<bool>, n: nat, b: nat)
    requires |rot| == 2 * n + 1 && b < 2 * n
    ensures RowBottom(w, y0, rot, n, b + 1)
            == RowBottom(w, y0, rot, n, b) + YExtent(w, rot[b]) + w.yspacing
  {
    RSumStep(rot, n, b);
    StackStep(w, y0 - YExtent(w, rot[n]) / 2.0, b - n, b + 1 - n,
              RSum(rot, n, b), RSum(rot, n, b + 1),
              NotRSum(rot, n, b), NotRSum(rot, n, b + 1), rot[b]);
  }

  /** `RowsStack` with the row counts as plain integers: one more row adds
      one spacing and one die width (rotated) or height (upright). */
  lemma StackStep(w: Wafer, c: real, k0: int, k1: int, r0: int, r1: int, q0: int, q1: int, rotb: bool)
    requires k1 == k0 + 1
    requires r1 == r0 + (if rotb then 1 else 0) && q1 == q0 + (if rotb then 0 else 1)
    ensures Stacked(w, c, k1, r1, q1) == Stacked(w, c, k0, r0, q0) + YExtent(w, rotb) + w.yspacing
  {
    ScaleAdd(k0, 1, w.yspacing);
    if rotb {
      ScaleAdd(r0, 1, w.width);
    } else {
      ScaleAdd(q0, 1, w.height);
    }
  }

  /** The ShiftRotate centre row (index 0) is centred on `y0`. */
  lemma CentreRowCentred(w: Wafer, y0: real, rot: seq<bool>, n: nat)
    requires |rot| == 2 * n + 1
    ensures RowBottom(w, y0, rot, n, n) + YExtent(w, rot[n]) / 2.0 == y0
  {
  }

  /** Within a ShiftRotate row, neighbouring dies are one (row-specific)
      x extent plus the x spacing apart; die 0 of an unshifted row is
      centred on x = 0, die 0 of a shifted row starts half an x spacing to
      the right of it. */
  lemma RowPlacement(w: Wafer, p: Params, i: int, j: int)
    requires Admissible(w) && Shaped(w, p) && p.ShiftRot?
    requires InLattice(w, ShiftRotate, i, j) && InLattice(w, ShiftRotate, i + 1, j)
    ensures var b := j + Nmax(w);
            CellAt(w, p, i + 1, j).x
            == CellAt(w, p, i, j).x + XExtent(w, p.rotated[b]) + w.xspacing
    ensures var b := j + Nmax(w);
            !p.shifted[b] ==> CellAt(w, p, 0, j).x + CellAt(w, p, 0, j).w / 2.0 == 0.0
    ensures var b := j + Nmax(w);
            p.shifted[b] ==> CellAt(w, p, 0, j).x == w.xspacing / 2.0
  {
    var n := Nmax(w);
    var b := j + n;
    var sh, rot, bottom := p.shifted[b], p.rotated[b], RowBottom(w, p.y0, p.rotated, n, b);
    assert InLattice(w, ShiftRotate, 0, j);
    assert CellAt(w, p, i, j) == RowDie(w, sh, rot, bottom, i);
    assert CellAt(w, p, i + 1, j) == RowDie(w, sh, rot, bottom, i + 1);
    assert CellAt(w, p, 0, j) == RowDie(w, sh, rot, bottom, 0);
    RowDieStep(w, sh, rot, bottom, i);
  }

  /** Neighbouring dies of one row are a pitch apart, and die 0 starts at
      the row's start. */
  lemma RowDieStep(w: Wafer, shifted: bool, rotated: bool, bottom: real, i: int)
    ensures RowDie(w, shifted, rotated, bottom, i + 1).x
            == RowDie(w, shifted, rotated, bottom, i).x + XExtent(w, rotated) + w.xspacing
    ensures RowDie(w, shifted, rotated, bottom, 0).x == RowStart(w, shifted, rotated)
  {
    var c := XExtent(w, rotated) + w.xspacing;
    ScaleAdd(i, 1, c);
    assert Times(i + 1, c) == Times(i, c) + c;
  }

  /** Every ShiftRotate row j + 1 starts one y spacing above the top of row
      j, and the lattice row 0 is centred on the decoded y offset. */
  lemma RotateRowsStack(w: Wafer, p: Params, i: int, j: int)
    requires Admissible(w) && Shaped(w, p) && p.ShiftRot?
    requires InLattice(w, ShiftRotate, i, j) && InLattice(w, ShiftRotate, i, j + 1)
    ensures CellAt(w, p, i, j + 1).y == CellAt(w, p, i, j).y + CellAt(w, p, i, j).h + w.yspacing
    ensures InLattice(w, ShiftRotate, i, 0) ==>
              CellAt(w, p, i, 0).y + CellAt(w, p, i, 0).h / 2.0 == p.y0
  {
    RowsStack(w, p.y0, p.rotated, Nmax(w), j + Nmax(w));
  }
}
