/** Symmetric mode keeps the set of dies that pass the search test
    symmetric: the mirror image, in either axis, of a lattice die that
    passes `np.all(V <= ewr**2)` is again a lattice die that passes it.
    Reflection keeps every corner's distance from the wafer centre, and the
    one row or column whose mirror index falls outside the lattice (the
    outermost one on the side of a half-pitch offset) holds no die within
    the usable radius. */
module ValidMirror {
  import opened Basics
  import opened Lattice
  import opened Decode
  import opened Positions
  import opened Scoring
  import opened Symmetry

  /** Non-negative spacings and usable radius: the inputs the program is
      meant for, and under which the lattice half-sizes cover the radius. */
  predicate Mirrorable(w: Wafer)
  {
    Admissible(w) && w.xspacing >= 0.0 && w.yspacing >= 0.0 && EffectiveRadius(w) >= 0.0
  }

  /** Reflection in either axis permutes the squared corner distances, so
      it keeps the search test's verdict. */
  lemma MirrorKeepsDistances(d: Die, r: real)
    ensures var v := SquaredDistances(d);
            SquaredDistances(MirrorInY(d)) == [v[1], v[0], v[3], v[2]]
    ensures var v := SquaredDistances(d);
            SquaredDistances(MirrorInX(d)) == [v[2], v[3], v[0], v[1]]
    ensures SearchValid(r, SquaredDistances(MirrorInY(d))) <==> SearchValid(r, SquaredDistances(d))
    ensures SearchValid(r, SquaredDistances(MirrorInX(d))) <==> SearchValid(r, SquaredDistances(d))
  {
    MirrorInYDistances(d);
    MirrorInXDistances(d);
  }

  /** Reflection in the y axis swaps the left and right corners. */
  lemma MirrorInYDistances(d: Die)
    ensures var v := SquaredDistances(d);
            SquaredDistances(MirrorInY(d)) == [v[1], v[0], v[3], v[2]]
  {
    var v := SquaredDistances(d);
    var x1 := d.x + d.w;
    var y1 := d.y + d.h;
    assert (-x1) * (-x1) == x1 * x1 && (-d.x) * (-d.x) == d.x * d.x;
    var my := SquaredDistances(MirrorInY(d));
    assert my[0] == (-x1) * (-x1) + d.y * d.y == v[1];
    assert my[1] == (-d.x) * (-d.x) + d.y * d.y == v[0];
    assert my[2] == (-x1) * (-x1) + y1 * y1 == v[3];
    assert my[3] == (-d.x) * (-d.x) + y1 * y1 == v[2];
  }

  /** Reflection in the x axis swaps the lower and upper corners. */
  lemma MirrorInXDistances(d: Die)
    ensures var v := SquaredDistances(d);
            SquaredDistances(MirrorInX(d)) == [v[2], v[3], v[0], v[1]]
  {
    var v := SquaredDistances(d);
    var x1 := d.x + d.w;
    var y1 := d.y + d.h;
    assert (-y1) * (-y1) == y1 * y1 && (-d.y) * (-d.y) == d.y * d.y;
    var mx := SquaredDistances(MirrorInX(d));
    assert mx[0] == d.x * d.x + (-y1) * (-y1) == v[2];
    assert mx[1] == x1 * x1 + (-y1) * (-y1) == v[3];
    assert mx[2] == d.x * d.x + (-d.y) * (-d.y) == v[0];
    assert mx[3] == x1 * x1 + (-d.y) * (-d.y) == v[1];
  }

  /** A die whose top edge lies beyond radius r fails the search test. */
  lemma TopBeyondInvalid(d: Die, r: real)
    requires r >= 0.0 && d.y + d.h > r
    ensures !SearchValid(r, SquaredDistances(d))
  {
    var y1 := d.y + d.h;
    SquareStrictMonotone(r, y1);
    assert SquaredDistances(d)[2] == d.x * d.x + y1 * y1;
  }

  /** Along an axis offset by half a pitch, the die at the last index n
      reaches past n die sides, and so past a radius n sides cover. */
  lemma HalfShiftedEdgeBeyond(ewr: real, e: real, s: real, n: int)
    requires e > 0.0 && s >= 0.0 && n >= 0 && ewr <= n as real * e
    ensures Half(true, e + s) + n as real * (e + s) - e / 2.0 + e > ewr
  {
    ScaleFactorMonotone(n, e, e + s);
  }

  /** The pitched die in the last column, `Nx`, of an x axis offset by
      half a pitch fails the search test. */
  lemma LastColumnInvalid(w: Wafer, oy: real, j: int)
    requires Mirrorable(w)
    ensures !SearchValid(EffectiveRadius(w), SquaredDistances(PitchedDie(w, Half(true, PitchX(w)), oy, Nx(w), j)))
  {
    LatticeReach(w);
    HalfShiftedEdgeBeyond(EffectiveRadius(w), w.width, w.xspacing, Nx(w));
    EdgeBeyondInvalid(PitchedDie(w, Half(true, PitchX(w)), oy, Nx(w), j), EffectiveRadius(w));
  }

  /** The pitched die in the top row, `Ny`, of a y axis offset by half a
      pitch fails the search test. */
  lemma TopRowInvalid(w: Wafer, ox: real, i: int)
    requires Mirrorable(w)
    ensures !SearchValid(EffectiveRadius(w), SquaredDistances(PitchedDie(w, ox, Half(true, PitchY(w)), i, Ny(w))))
  {
    LatticeReach(w);
    HalfShiftedEdgeBeyond(EffectiveRadius(w), w.height, w.yspacing, Ny(w));
    TopBeyondInvalid(PitchedDie(w, ox, Half(true, PitchY(w)), i, Ny(w)), EffectiveRadius(w));
  }

  /** The last die, `Nmax`, of a shifted ShiftRotate row fails the search
      test, whichever way the row is turned. */
  lemma LastRowDieInvalid(w: Wafer, rotated: bool, bottom: real)
    requires Mirrorable(w)
    ensures !SearchValid(EffectiveRadius(w), SquaredDistances(RowDie(w, true, rotated, bottom, Nmax(w))))
  {
    NmaxCovers(w);
    LastRowDieBeyond(w, rotated, bottom, Nmax(w));
  }

  /** Die n of a shifted row fails the search test when n dies of the
      row's width cover the radius. */
  lemma LastRowDieBeyond(w: Wafer, rotated: bool, bottom: real, n: int)
    requires w.width > 0.0 && w.height > 0.0 && w.xspacing >= 0.0 && n >= 0
    requires 0.0 <= EffectiveRadius(w)
    requires EffectiveRadius(w) <= n as real * w.width && EffectiveRadius(w) <= n as real * w.height
    ensures !SearchValid(EffectiveRadius(w), SquaredDistances(RowDie(w, true, rotated, bottom, n)))
  {
    var e := XExtent(w, rotated);
    var s := w.xspacing;
    var d := RowDie(w, true, rotated, bottom, n);
    assert d.x == s / 2.0 + n as real * (e + s) && d.w == e;
    HalfShiftedEdgeBeyond(EffectiveRadius(w), e, s, n);
    EdgeBeyondInvalid(d, EffectiveRadius(w));
  }

  /** `Nmax` die sides, of either orientation, cover the usable radius. */
  lemma NmaxCovers(w: Wafer)
    requires Admissible(w)
    ensures EffectiveRadius(w) <= Nmax(w) as real * w.width
    ensures EffectiveRadius(w) <= Nmax(w) as real * w.height
  {
    LatticeReach(w);
    ScaleMonotone(Nx(w), Nmax(w), w.width);
    ScaleMonotone(Ny(w), Nmax(w), w.height);
  }

  /** A stack of r sides a and q sides b reaches as far as r + q sides of
      the shorter one. */
  lemma MixedSidesCover(ewr: real, a: real, b: real, r: int, q: int)
    requires r >= 0 && q >= 0 && a > 0.0 && b > 0.0
    requires ewr <= (r + q) as real * a && ewr <= (r + q) as real * b
    ensures ewr <= r as real * a + q as real * b
  {
    var m := if a <= b then a else b;
    ScaleFactorMonotone(r, m, a);
    ScaleFactorMonotone(q, m, b);
    ScaleAdd(r, q, m);
  }

  /** With the centre row copied, the top row of a ShiftRotate lattice
      sits on n rows above the centre line, each at least one die side
      high, so its dies end beyond a radius n sides of either orientation
      cover, and fail the search test. */
  lemma CopiedTopRowInvalid(w: Wafer, rot: seq<bool>, n: nat, shifted: bool, i: int)
    requires w.width > 0.0 && w.height > 0.0 && w.yspacing >= 0.0 && |rot| == 2 * n + 1
    requires 0.0 <= EffectiveRadius(w)
    requires EffectiveRadius(w) <= n as real * w.width && EffectiveRadius(w) <= n as real * w.height
    ensures var y0 := Half(true, YExtent(w, rot[n]) + w.yspacing);
            var top := RowDie(w, shifted, rot[2 * n], RowBottom(w, y0, rot, n, 2 * n), i);
            !SearchValid(EffectiveRadius(w), SquaredDistances(top))
  {
    var y0 := Half(true, YExtent(w, rot[n]) + w.yspacing);
    var bottom := RowBottom(w, y0, rot, n, 2 * n);
    CopiedTopRowBottom(w, rot, n);
    TopBeyondInvalid(RowDie(w, shifted, rot[2 * n], bottom, i), EffectiveRadius(w));
  }

  /** The bottom edge of that top row is at least n die sides up. */
  lemma CopiedTopRowBottom(w: Wafer, rot: seq<bool>, n: nat)
    requires w.width > 0.0 && w.height > 0.0 && w.yspacing >= 0.0 && |rot| == 2 * n + 1
    requires EffectiveRadius(w) <= n as real * w.width && EffectiveRadius(w) <= n as real * w.height
    ensures RowBottom(w, Half(true, YExtent(w, rot[n]) + w.yspacing), rot, n, 2 * n) >= EffectiveRadius(w)
  {
    var r := RSum(rot, n, 2 * n);
    var q := NotRSum(rot, n, 2 * n);
    assert r + q == n;
    var y0 := Half(true, YExtent(w, rot[n]) + w.yspacing);
    assert RowBottom(w, y0, rot, n, 2 * n)
        == w.yspacing / 2.0 + w.yspacing * n as real + r as real * w.width + q as real * w.height;
    MixedSidesCover(EffectiveRadius(w), w.width, w.height, r, q);
    assert w.yspacing * n as real >= 0.0;
  }

  /** The same for the ShiftRotate lattice of a wafer: with the centre row
      copied, no die of row `Nmax` passes the search test. */
  lemma CopiedTopRowOfLatticeInvalid(w: Wafer, rot: seq<bool>, shifted: bool, i: int)
    requires Mirrorable(w) && |rot| == 2 * Nmax(w) + 1
    ensures var n := Nmax(w);
            var y0 := Half(true, YExtent(w, rot[n]) + w.yspacing);
            var top := RowDie(w, shifted, rot[2 * n], RowBottom(w, y0, rot, n, 2 * n), i);
            !SearchValid(EffectiveRadius(w), SquaredDistances(top))
  {
    NmaxCovers(w);
    CopiedTopRowInvalid(w, rot, Nmax(w), shifted, i);
  }

  /** Symmetric Grid: both mirror images of a die that passes the search
      test are lattice dies that pass it. */
  lemma GridValidMirror(w: Wafer, x: seq<real>, i: int, j: int)
    requires Mirrorable(w) && |x| == |SearchBounds(w, Grid, true)|
    requires InLattice(w, Grid, i, j)
    requires SearchValid(EffectiveRadius(w), SquaredDistances(CellAt(w, DecodeParams(w, Grid, true, x), i, j)))
    ensures var p := DecodeParams(w, Grid, true, x);
            var i2 := MirrorIndex(Flag(x[0]), i);
            && InLattice(w, Grid, i2, j)
            && CellAt(w, p, i2, j) == MirrorInY(CellAt(w, p, i, j))
            && SearchValid(EffectiveRadius(w), SquaredDistances(CellAt(w, p, i2, j)))
    ensures var p := DecodeParams(w, Grid, true, x);
            var j2 := MirrorIndex(Flag(x[1]), j);
            && InLattice(w, Grid, i, j2)
            && CellAt(w, p, i, j2) == MirrorInX(CellAt(w, p, i, j))
            && SearchValid(EffectiveRadius(w), SquaredDistances(CellAt(w, p, i, j2)))
  {
    var ewr := EffectiveRadius(w);
    var ox := Half(Flag(x[0]), PitchX(w));
    var oy := Half(Flag(x[1]), PitchY(w));
    var p := GridAt(ox, oy);
    assert DecodeParams(w, Grid, true, x) == p;
    var d := CellAt(w, p, i, j);
    assert !(Flag(x[0]) && i == Nx(w)) by {
      if Flag(x[0]) && i == Nx(w) {
        LastColumnInvalid(w, oy, j);
      }
    }
    assert !(Flag(x[1]) && j == Ny(w)) by {
      if Flag(x[1]) && j == Ny(w) {
        TopRowInvalid(w, ox, i);
      }
    }
    GridMirrorY(w, x, i, j);
    GridMirrorX(w, x, i, j);
    MirrorKeepsDistances(d, ewr);
  }

  /** Symmetric ShiftRows: the mirror image within the row and the mirror
      image in the mirrored row of a die that passes the search test are
      lattice dies that pass it. */
  lemma RowsValidMirror(w: Wafer, x: seq<real>, i: int, j: int)
    requires Mirrorable(w) && |x| == |SearchBounds(w, ShiftRows, true)|
    requires InLattice(w, ShiftRows, i, j)
    requires SearchValid(EffectiveRadius(w), SquaredDistances(CellAt(w, DecodeParams(w, ShiftRows, true, x), i, j)))
    ensures var p := DecodeParams(w, ShiftRows, true, x);
            var i2 := MirrorIndex(p.xshift[j + Ny(w)] != 0.0, i);
            && InLattice(w, ShiftRows, i2, j)
            && CellAt(w, p, i2, j) == MirrorInY(CellAt(w, p, i, j))
            && SearchValid(EffectiveRadius(w), SquaredDistances(CellAt(w, p, i2, j)))
    ensures var p := DecodeParams(w, ShiftRows, true, x);
            var j2 := MirrorIndex(Flag(x[0]), j);
            && InLattice(w, ShiftRows, i, j2)
            && CellAt(w, p, i, j2) == MirrorInX(CellAt(w, p, i, j))
            && SearchValid(EffectiveRadius(w), SquaredDistances(CellAt(w, p, i, j2)))
  {
    var ewr := EffectiveRadius(w);
    var n := Ny(w);
    var r := ShiftsWithRule(x, true, CentreUnique(x[0]), n, PitchX(w), PitchY(w));
    var p := RowShift(r.offset, r.shifts);
    assert DecodeParams(w, ShiftRows, true, x) == p;
    var d := CellAt(w, p, i, j);
    assert d == PitchedDie(w, r.shifts[j + n], r.offset, i, j);
    assert !(r.shifts[j + n] != 0.0 && i == Nx(w)) by {
      if r.shifts[j + n] != 0.0 && i == Nx(w) {
        LastColumnInvalid(w, r.offset, j);
      }
    }
    assert !(Flag(x[0]) && j == n) by {
      if Flag(x[0]) && j == n {
        TopRowInvalid(w, r.shifts[j + n], i);
      }
    }
    RowsMirrorY(w, true, x, i, j);
    RowsMirrorX(w, x, i, j);
    MirrorKeepsDistances(d, ewr);
  }

  /** Symmetric ShiftCols: the mirror image within the column and the
      mirror image in the mirrored column of a die that passes the search
      test are lattice dies that pass it. */
  lemma ColsValidMirror(w: Wafer, x: seq<real>, i: int, j: int)
    requires Mirrorable(w) && |x| == |SearchBounds(w, ShiftCols, true)|
    requires InLattice(w, ShiftCols, i, j)
    requires SearchValid(EffectiveRadius(w), SquaredDistances(CellAt(w, DecodeParams(w, ShiftCols, true, x), i, j)))
    ensures var p := DecodeParams(w, ShiftCols, true, x);
            var i2 := MirrorIndex(Flag(x[0]), i);
            && InLattice(w, ShiftCols, i2, j)
            && CellAt(w, p, i2, j) == MirrorInY(CellAt(w, p, i, j))
            && SearchValid(EffectiveRadius(w), SquaredDistances(CellAt(w, p, i2, j)))
    ensures var p := DecodeParams(w, ShiftCols, true, x);
            var j2 := MirrorIndex(p.yshift[i + Nx(w)] != 0.0, j);
            && InLattice(w, ShiftCols, i, j2)
            && CellAt(w, p, i, j2) == MirrorInX(CellAt(w, p, i, j))
            && SearchValid(EffectiveRadius(w), SquaredDistances(CellAt(w, p, i, j2)))
  {
    var ewr := EffectiveRadius(w);
    var n := Nx(w);
    var r := ShiftsWithRule(x, true, CentreUnique(x[0]), n, PitchY(w), PitchX(w));
    var p := ColShift(r.offset, r.shifts);
    assert DecodeParams(w, ShiftCols, true, x) == p;
    var d := CellAt(w, p, i, j);
    assert d == PitchedDie(w, r.offset, r.shifts[i + n], i, j);
    assert !(Flag(x[0]) && i == n) by {
      if Flag(x[0]) && i == n {
        LastColumnInvalid(w, r.shifts[i + n], j);
      }
    }
    assert !(r.shifts[i + n] != 0.0 && j == Ny(w)) by {
      if r.shifts[i + n] != 0.0 && j == Ny(w) {
        TopRowInvalid(w, r.offset, i);
      }
    }
    ColsMirrorY(w, x, i, j);
    ColsMirrorX(w, true, x, i, j);
    MirrorKeepsDistances(d, ewr);
  }

  /** Symmetric ShiftRotate: the mirror image within the row and the
      mirror image in the mirrored row of a die that passes the search test
      are lattice dies that pass it. */
  lemma RotateValidMirror(w: Wafer, x: seq<real>, i: int, j: int)
    requires Mirrorable(w) && |x| == |SearchBounds(w, ShiftRotate, true)|
    requires InLattice(w, ShiftRotate, i, j)
    requires SearchValid(EffectiveRadius(w), SquaredDistances(CellAt(w, DecodeParams(w, ShiftRotate, true, x), i, j)))
    ensures var p := DecodeParams(w, ShiftRotate, true, x);
            var i2 := MirrorIndex(p.shifted[j + Nmax(w)], i);
            && InLattice(w, ShiftRotate, i2, j)
            && CellAt(w, p, i2, j) == MirrorInY(CellAt(w, p, i, j))
            && SearchValid(EffectiveRadius(w), SquaredDistances(CellAt(w, p, i2, j)))
    ensures var p := DecodeParams(w, ShiftRotate, true, x);
            var j2 := MirrorIndex(Flag(x[0]), j);
            && InLattice(w, ShiftRotate, i, j2)
            && CellAt(w, p, i, j2) == MirrorInX(CellAt(w, p, i, j))
            && SearchValid(EffectiveRadius(w), SquaredDistances(CellAt(w, p, i, j2)))
  {
    var n := Nmax(w);
    var p := RotateWithRule(w, x, true, CentreUnique(x[0]), n);
    assert DecodeParams(w, ShiftRotate, true, x) == p;
    RotateRowValidMirror(w, p, i, j);
    var copied := Flag(x[0]);
    assert !(copied && j == n) by {
      if copied && j == n {
        CopiedTopRowOfLattice(w, p, i);
      }
    }
    DecodedRotationMirrored(w, x, n);
    MirroredRowsValidMirror(w, p, copied, i, j);
  }

  /** ShiftRotate, either mode: within a row, the mirror image of a die
      that passes the search test is a lattice die that passes it.  Only a
      shifted row loses its last die's mirror, and that die is outside the
      radius. */
  lemma RotateRowValidMirror(w: Wafer, p: Params, i: int, j: int)
    requires Mirrorable(w) && Shaped(w, p) && p.ShiftRot?
    requires InLattice(w, ShiftRotate, i, j)
    requires SearchValid(EffectiveRadius(w), SquaredDistances(CellAt(w, p, i, j)))
    ensures var i2 := MirrorIndex(p.shifted[j + Nmax(w)], i);
            && InLattice(w, ShiftRotate, i2, j)
            && CellAt(w, p, i2, j) == MirrorInY(CellAt(w, p, i, j))
            && SearchValid(EffectiveRadius(w), SquaredDistances(CellAt(w, p, i2, j)))
  {
    var n := Nmax(w);
    var b := j + n;
    var d := CellAt(w, p, i, j);
    assert !(p.shifted[b] && i == n) by {
      if p.shifted[b] && i == n {
        LastRowDieInvalid(w, p.rotated[b], RowBottom(w, p.y0, p.rotated, n, b));
      }
    }
    RotateMirrorY(w, p, i, j);
    MirrorKeepsDistances(d, EffectiveRadius(w));
  }

  /** ShiftRotate parameters with the flags mirrored about the centre pair
      of rows and the matching centre offset: the mirror image in the
      mirrored row of a die that passes the search test is a lattice die
      that passes it.  Only a copied centre row leaves the top row without
      a mirror, and that row is outside the radius. */
  lemma MirroredRowsValidMirror(w: Wafer, p: Params, copied: bool, i: int, j: int)
    requires Mirrorable(w) && Shaped(w, p) && p.ShiftRot? && (copied ==> Nmax(w) >= 1)
    requires InLattice(w, ShiftRotate, i, j) && !(copied && j == Nmax(w))
    requires var k := if copied then 2 * Nmax(w) - 1 else 2 * Nmax(w);
             MirroredAbout(p.shifted, k) && MirroredAbout(p.rotated, k)
    requires p.y0 == Half(copied, YExtent(w, p.rotated[Nmax(w)]) + w.yspacing)
    requires SearchValid(EffectiveRadius(w), SquaredDistances(CellAt(w, p, i, j)))
    ensures var j2 := MirrorIndex(copied, j);
            && InLattice(w, ShiftRotate, i, j2)
            && CellAt(w, p, i, j2) == MirrorInX(CellAt(w, p, i, j))
            && SearchValid(EffectiveRadius(w), SquaredDistances(CellAt(w, p, i, j2)))
  {
    MirroredRowsReflectDies(w, p, copied, i, j);
    MirrorKeepsDistances(CellAt(w, p, i, j), EffectiveRadius(w));
  }

  /** With the centre row copied, no die of the top row `Nmax` passes the
      search test. */
  lemma CopiedTopRowOfLattice(w: Wafer, p: Params, i: int)
    requires Mirrorable(w) && Shaped(w, p) && p.ShiftRot?
    requires p.y0 == Half(true, YExtent(w, p.rotated[Nmax(w)]) + w.yspacing)
    requires InLattice(w, ShiftRotate, i, Nmax(w))
    ensures !SearchValid(EffectiveRadius(w), SquaredDistances(CellAt(w, p, i, Nmax(w))))
  {
    var n := Nmax(w);
    assert CellAt(w, p, i, n) == RowDie(w, p.shifted[2 * n], p.rotated[2 * n], RowBottom(w, p.y0, p.rotated, n, 2 * n), i);
    CopiedTopRowOfLatticeInvalid(w, p.rotated, p.shifted[2 * n], i);
  }

  /** In symmetric mode, for every strategy, each lattice die that passes
      the search test has a mirror image in the y axis and one in the x
      axis that are again lattice dies passing the test. */
  lemma ValidDiesHaveValidMirrors(w: Wafer, st: Strategy, x: seq<real>, i: int, j: int)
    requires Mirrorable(w) && |x| == |SearchBounds(w, st, true)|
    requires InLattice(w, st, i, j)
    requires SearchValid(EffectiveRadius(w), SquaredDistances(CellAt(w, DecodeParams(w, st, true, x), i, j)))
    ensures var p := DecodeParams(w, st, true, x);
            exists i2 :: && InLattice(w, st, i2, j)
                         && CellAt(w, p, i2, j) == MirrorInY(CellAt(w, p, i, j))
                         && SearchValid(EffectiveRadius(w), SquaredDistances(CellAt(w, p, i2, j)))
    ensures var p := DecodeParams(w, st, true, x);
            exists j2 :: && InLattice(w, st, i, j2)
                         && CellAt(w, p, i, j2) == MirrorInX(CellAt(w, p, i, j))
                         && SearchValid(EffectiveRadius(w), SquaredDistances(CellAt(w, p, i, j2)))
  {
    var p := DecodeParams(w, st, true, x);
    if st == Grid {
      GridValidMirror(w, x, i, j);
      var i2, j2 := MirrorIndex(Flag(x[0]), i), MirrorIndex(Flag(x[1]), j);
      assert InLattice(w, st, i2, j) && InLattice(w, st, i, j2);
    } else if st == ShiftRows {
      RowsValidMirror(w, x, i, j);
      var i2, j2 := MirrorIndex(p.xshift[j + Ny(w)] != 0.0, i), MirrorIndex(Flag(x[0]), j);
      assert InLattice(w, st, i2, j) && InLattice(w, st, i, j2);
    } else if st == ShiftCols {
      ColsValidMirror(w, x, i, j);
      var i2, j2 := MirrorIndex(Flag(x[0]), i), MirrorIndex(p.yshift[i + Nx(w)] != 0.0, j);
      assert InLattice(w, st, i2, j) && InLattice(w, st, i, j2);
    } else {
      RotateValidMirror(w, x, i, j);
      var i2, j2 := MirrorIndex(p.shifted[j + Nmax(w)], i), MirrorIndex(Flag(x[0]), j);
      assert InLattice(w, st, i2, j) && InLattice(w, st, i, j2);
    }
  }
}
