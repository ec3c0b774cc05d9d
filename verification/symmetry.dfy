/** Mirror symmetry of the symmetric-mode layouts.  Reflecting a die with
    lower-left corner (x, y) and extent (w, h) in the y axis gives the die
    at (-x - w, y); reflecting it in the x axis gives the die at
    (x, -y - h).  The lemmas below show that, in symmetric mode, the
    reflected die is again a lattice cell whenever its index is inside the
    lattice, and that the centre-row rule as written breaks this at
    `offsets[0] == 0.5`. */
module Symmetry {
  import opened Basics
  import opened Lattice
  import opened Decode
  import opened Positions

  function MirrorInY(d: Die): Die { Die(-d.x - d.w, d.y, d.w, d.h) }
  function MirrorInX(d: Die): Die { Die(d.x, -d.y - d.h, d.w, d.h) }

  /** The index of the reflected cell along one axis: -i when the axis has
      no half-pitch offset, -i - 1 when it has one. */
  function MirrorIndex(shifted: bool, i: int): int
  {
    if shifted then -i - 1 else -i
  }

  /** One axis of a pitched lattice whose offset is 0 or half a pitch is
      symmetric about 0: the reflection of the cell at i is the cell at
      `MirrorIndex`. */
  lemma AxisMirror(b: bool, pitch: real, e: real, i: int)
    ensures -(Half(b, pitch) + i as real * pitch - e / 2.0) - e
            == Half(b, pitch) + MirrorIndex(b, i) as real * pitch - e / 2.0
  {
    if b {
      assert (-i - 1) as real * pitch == -(i as real * pitch) - pitch;
    }
  }

  /** A pitched die whose y offset is 0 or half a pitch reflects in the x
      axis onto the pitched die of the mirrored row. */
  lemma PitchedMirrorX(w: Wafer, ox: real, b: bool, i: int, j: int)
    ensures var oy := Half(b, PitchY(w));
            PitchedDie(w, ox, oy, i, MirrorIndex(b, j)) == MirrorInX(PitchedDie(w, ox, oy, i, j))
  {
    AxisMirror(b, PitchY(w), w.height, j);
  }

  /** A pitched die whose x offset is 0 or half a pitch reflects in the y
      axis onto the pitched die of the mirrored column. */
  lemma PitchedMirrorY(w: Wafer, b: bool, oy: real, i: int, j: int)
    ensures var ox := Half(b, PitchX(w));
            PitchedDie(w, ox, oy, MirrorIndex(b, i), j) == MirrorInY(PitchedDie(w, ox, oy, i, j))
  {
    AxisMirror(b, PitchX(w), w.width, i);
  }

  /** Symmetric Grid: reflecting any cell in the y axis lands on a cell. */
  lemma GridMirrorY(w: Wafer, x: seq<real>, i: int, j: int)
    requires Admissible(w) && |x| == |SearchBounds(w, Grid, true)|
    requires InLattice(w, Grid, i, j) && InLattice(w, Grid, MirrorIndex(Flag(x[0]), i), j)
    ensures var p := DecodeParams(w, Grid, true, x);
            CellAt(w, p, MirrorIndex(Flag(x[0]), i), j) == MirrorInY(CellAt(w, p, i, j))
  {
    var ox := Half(Flag(x[0]), PitchX(w));
    var oy := Half(Flag(x[1]), PitchY(w));
    assert DecodeParams(w, Grid, true, x) == GridAt(ox, oy);
    PitchedMirrorY(w, Flag(x[0]), oy, i, j);
  }

  /** Symmetric Grid: reflecting any cell in the x axis lands on a cell. */
  lemma GridMirrorX(w: Wafer, x: seq<real>, i: int, j: int)
    requires Admissible(w) && |x| == |SearchBounds(w, Grid, true)|
    requires InLattice(w, Grid, i, j) && InLattice(w, Grid, i, MirrorIndex(Flag(x[1]), j))
    ensures var p := DecodeParams(w, Grid, true, x);
            CellAt(w, p, i, MirrorIndex(Flag(x[1]), j)) == MirrorInX(CellAt(w, p, i, j))
  {
    var ox := Half(Flag(x[0]), PitchX(w));
    var oy := Half(Flag(x[1]), PitchY(w));
    assert DecodeParams(w, Grid, true, x) == GridAt(ox, oy);
    PitchedMirrorX(w, ox, Flag(x[1]), i, j);
  }

  /** ShiftRows, either mode: within every row, reflecting a cell in the y
      axis lands on a cell of the same row. */
  lemma RowsMirrorY(w: Wafer, sym: bool, x: seq<real>, i: int, j: int)
    requires Admissible(w) && |x| == |SearchBounds(w, ShiftRows, sym)|
    requires InLattice(w, ShiftRows, i, j)
    ensures var p := DecodeParams(w, ShiftRows, sym, x);
            var i2 := MirrorIndex(p.xshift[j + Ny(w)] != 0.0, i);
            InLattice(w, ShiftRows, i2, j) ==> CellAt(w, p, i2, j) == MirrorInY(CellAt(w, p, i, j))
  {
    var p := DecodeParams(w, ShiftRows, sym, x);
    var o := p.xshift[j + Ny(w)];
    assert o == Half(o != 0.0, PitchX(w));
    PitchedMirrorY(w, o != 0.0, p.yoff, i, j);
  }

  /** Symmetric ShiftRows: reflecting a cell in the x axis lands on a cell.
      The reflected row carries the same half-pitch shift because the
      centre row is copied exactly when the rows are shifted by half a
      pitch. */
  lemma RowsMirrorX(w: Wafer, x: seq<real>, i: int, j: int)
    requires Admissible(w) && |x| == |SearchBounds(w, ShiftRows, true)|
    requires InLattice(w, ShiftRows, i, j) && InLattice(w, ShiftRows, i, MirrorIndex(Flag(x[0]), j))
    ensures var p := DecodeParams(w, ShiftRows, true, x);
            CellAt(w, p, i, MirrorIndex(Flag(x[0]), j)) == MirrorInX(CellAt(w, p, i, j))
  {
    var n := Ny(w);
    var r := ShiftsWithRule(x, true, CentreUnique(x[0]), n, PitchX(w), PitchY(w));
    var p := RowShift(r.offset, r.shifts);
    assert DecodeParams(w, ShiftRows, true, x) == p;
    var j2 := MirrorIndex(Flag(x[0]), j);
    var a := j + n;
    if Flag(x[0]) {
      assert j2 + n == 2 * n - 1 - a;
    } else {
      assert j2 + n == 2 * n - a;
    }
    assert r.shifts[j2 + n] == r.shifts[a];
    assert CellAt(w, p, i, j2) == PitchedDie(w, r.shifts[a], r.offset, i, j2);
    PitchedMirrorX(w, r.shifts[a], Flag(x[0]), i, j);
  }

  /** ShiftCols, either mode: within every column, reflecting a cell in the
      x axis lands on a cell of the same column. */
  lemma ColsMirrorX(w: Wafer, sym: bool, x: seq<real>, i: int, j: int)
    requires Admissible(w) && |x| == |SearchBounds(w, ShiftCols, sym)|
    requires InLattice(w, ShiftCols, i, j)
    ensures var p := DecodeParams(w, ShiftCols, sym, x);
            var j2 := MirrorIndex(p.yshift[i + Nx(w)] != 0.0, j);
            InLattice(w, ShiftCols, i, j2) ==> CellAt(w, p, i, j2) == MirrorInX(CellAt(w, p, i, j))
  {
    var p := DecodeParams(w, ShiftCols, sym, x);
    var o := p.yshift[i + Nx(w)];
    assert o == Half(o != 0.0, PitchY(w));
    PitchedMirrorX(w, p.xoff, o != 0.0, i, j);
  }

  /** Symmetric ShiftCols: reflecting a cell in the y axis lands on a cell. */
  lemma ColsMirrorY(w: Wafer, x: seq<real>, i: int, j: int)
    requires Admissible(w) && |x| == |SearchBounds(w, ShiftCols, true)|
    requires InLattice(w, ShiftCols, i, j) && InLattice(w, ShiftCols, MirrorIndex(Flag(x[0]), i), j)
    ensures var p := DecodeParams(w, ShiftCols, true, x);
            CellAt(w, p, MirrorIndex(Flag(x[0]), i), j) == MirrorInY(CellAt(w, p, i, j))
  {
    var n := Nx(w);
    var r := ShiftsWithRule(x, true, CentreUnique(x[0]), n, PitchY(w), PitchX(w));
    var p := ColShift(r.offset, r.shifts);
    assert DecodeParams(w, ShiftCols, true, x) == p;
    var i2 := MirrorIndex(Flag(x[0]), i);
    var a := i + n;
    if Flag(x[0]) {
      assert i2 + n == 2 * n - 1 - a;
    } else {
      assert i2 + n == 2 * n - a;
    }
    assert r.shifts[i2 + n] == r.shifts[a];
    assert CellAt(w, p, i2, j) == PitchedDie(w, r.offset, r.shifts[a], i2, j);
    PitchedMirrorY(w, Flag(x[0]), r.shifts[a], i, j);
  }

  // ---------------------------------------------------------------------
  // ShiftRotate

  /** Reflecting die i of a ShiftRotate row in the y axis gives die -i of
      an unshifted row, and die -i - 1 of a shifted one. */
  lemma RowStartMirror(w: Wafer, shifted: bool, rotated: bool, i: int)
    ensures var e := XExtent(w, rotated);
            var step := e + w.xspacing;
            -(RowStart(w, shifted, rotated) + i as real * step) - e
            == RowStart(w, shifted, rotated) + MirrorIndex(shifted, i) as real * step
  {
    var step := XExtent(w, rotated) + w.xspacing;
    if shifted {
      assert (-i - 1) as real * step == -(i as real * step) - step;
    } else {
      assert (-i) as real * step == -(i as real * step);
    }
  }

  /** Reflecting a row's die in the y axis gives the mirrored die of the
      same row. */
  lemma RowDieMirrorY(w: Wafer, shifted: bool, rotated: bool, bottom: real, i: int)
    ensures RowDie(w, shifted, rotated, bottom, MirrorIndex(shifted, i))
            == MirrorInY(RowDie(w, shifted, rotated, bottom, i))
  {
    RowStartMirror(w, shifted, rotated, i);
  }

  /** ShiftRotate, either mode: within every row, reflecting a die in the
      y axis lands on a die of the same row. */
  lemma RotateMirrorY(w: Wafer, p: Params, i: int, j: int)
    requires Admissible(w) && Shaped(w, p) && p.ShiftRot?
    requires InLattice(w, ShiftRotate, i, j)
    requires InLattice(w, ShiftRotate, MirrorIndex(p.shifted[j + Nmax(w)], i), j)
    ensures CellAt(w, p, MirrorIndex(p.shifted[j + Nmax(w)], i), j) == MirrorInY(CellAt(w, p, i, j))
  {
    var b := j + Nmax(w);
    RowDieMirrorY(w, p.shifted[b], p.rotated[b], RowBottom(w, p.y0, p.rotated, Nmax(w), b), i);
  }

  /** Row b2 is the reflection of row b in the x axis. */
  predicate RowsReflect(w: Wafer, y0: real, rot: seq<bool>, n: nat, b: nat, b2: nat)
    requires |rot| == 2 * n + 1 && b <= 2 * n && b2 <= 2 * n
  {
    RowBottom(w, y0, rot, n, b2) == -(RowBottom(w, y0, rot, n, b) + YExtent(w, rot[b]))
  }

  /** If rows b and b2 reflect each other, so do the next row up from b and
      the next row down from b2, provided those two carry the same
      rotation. */
  lemma ReflectStep(w: Wafer, y0: real, rot: seq<bool>, n: nat, b: nat, b2: nat)
    requires |rot| == 2 * n + 1 && b < 2 * n && 0 < b2 <= 2 * n
    requires rot[b + 1] == rot[b2 - 1]
    requires RowsReflect(w, y0, rot, n, b, b2)
    ensures RowsReflect(w, y0, rot, n, b + 1, b2 - 1)
  {
    RowsStack(w, y0, rot, n, b);
    RowsStack(w, y0, rot, n, b2 - 1);
  }

  /** Reflection propagates outwards from a reflected pair of rows b0 and
      k - b0 when the rotation flags are symmetric about k / 2. */
  lemma {:induction false} ReflectFrom(w: Wafer, y0: real, rot: seq<bool>, n: nat, k: nat, b0: nat, b: nat)
    requires |rot| == 2 * n + 1 && b0 <= b <= 2 * n && b <= k && k - b0 <= 2 * n
    requires forall a :: 0 <= a <= 2 * n && a <= k && k - a <= 2 * n ==> rot[a] == rot[k - a]
    requires RowsReflect(w, y0, rot, n, b0, k - b0)
    ensures RowsReflect(w, y0, rot, n, b, k - b)
    decreases b - b0
  {
    if b > b0 {
      ReflectFrom(w, y0, rot, n, k, b0, b - 1);
      assert rot[b] == rot[k - b];
      ReflectStep(w, y0, rot, n, b - 1, k - b + 1);
    }
  }

  /** Rotation flags mirrored about k / 2. */
  predicate MirroredAbout(rot: seq<bool>, k: nat)
  {
    forall a :: 0 <= a < |rot| && a <= k && k - a < |rot| ==> rot[a] == rot[k - a]
  }

  /** The centre pair of rows reflect each other: an unshifted centre row
      (y0 = 0) reflects onto itself, a shifted one (y0 half a row pitch up)
      onto the copied row below it. */
  lemma CentrePairReflects(w: Wafer, rot: seq<bool>, n: nat, copied: bool)
    requires |rot| == 2 * n + 1 && (copied ==> n >= 1 && rot[n - 1] == rot[n])
    ensures var k := if copied then 2 * n - 1 else 2 * n;
            RowsReflect(w, Half(copied, YExtent(w, rot[n]) + w.yspacing), rot, n, n, k - n)
  {
    var y0 := Half(copied, YExtent(w, rot[n]) + w.yspacing);
    if copied {
      RowsStack(w, y0, rot, n, n - 1);
    }
  }

  /** With mirrored rotation flags and the matching centre offset, every
      row b reflects onto row k - b. */
  lemma RotateRowsReflect(w: Wafer, y0: real, rot: seq<bool>, n: nat, copied: bool, b: nat, b2: nat)
    requires |rot| == 2 * n + 1 && (copied ==> n >= 1)
    requires y0 == Half(copied, YExtent(w, rot[n]) + w.yspacing)
    requires MirroredAbout(rot, if copied then 2 * n - 1 else 2 * n)
    requires b <= 2 * n && b2 <= 2 * n && b + b2 == if copied then 2 * n - 1 else 2 * n
    ensures RowsReflect(w, y0, rot, n, b, b2)
  {
    var k := if copied then 2 * n - 1 else 2 * n;
    if copied {
      assert rot[n - 1] == rot[k - (n - 1)];
    }
    CentrePairReflects(w, rot, n, copied);
    if b >= n {
      ReflectFrom(w, y0, rot, n, k, n, b);
    } else {
      ReflectFrom(w, y0, rot, n, k, n, k - b);
      assert k - (k - b) == b;
      assert rot[k - b] == rot[b];
    }
  }

  /** Reflecting a row's die in the x axis gives the same die of the row
      whose bottom edge is the reflection of its top edge. */
  lemma RowDieMirrorX(w: Wafer, shifted: bool, rotated: bool, bottom: real, i: int)
    ensures RowDie(w, shifted, rotated, -(bottom + YExtent(w, rotated)), i)
            == MirrorInX(RowDie(w, shifted, rotated, bottom, i))
  {
  }

  /** Two rows with the same flags that reflect each other hold dies that
      reflect each other in the x axis. */
  lemma ReflectedRowsReflectDies(w: Wafer, p: Params, i: int, j: int, j2: int)
    requires Admissible(w) && Shaped(w, p) && p.ShiftRot?
    requires InLattice(w, ShiftRotate, i, j) && InLattice(w, ShiftRotate, i, j2)
    requires p.rotated[j + Nmax(w)] == p.rotated[j2 + Nmax(w)]
    requires p.shifted[j + Nmax(w)] == p.shifted[j2 + Nmax(w)]
    requires RowsReflect(w, p.y0, p.rotated, Nmax(w), j + Nmax(w), j2 + Nmax(w))
    ensures CellAt(w, p, i, j2) == MirrorInX(CellAt(w, p, i, j))
  {
    var n := Nmax(w);
    var b := j + n;
    var bottom := RowBottom(w, p.y0, p.rotated, n, b);
    assert CellAt(w, p, i, j) == RowDie(w, p.shifted[b], p.rotated[b], bottom, i);
    assert CellAt(w, p, i, j2) == RowDie(w, p.shifted[b], p.rotated[b], -(bottom + YExtent(w, p.rotated[b])), i);
    RowDieMirrorX(w, p.shifted[b], p.rotated[b], bottom, i);
  }

  /** Symmetric ShiftRotate decoding mirrors the shift and rotation flags
      about the centre pair of rows and puts the centre row at the matching
      offset. */
  lemma DecodedRotationMirrored(w: Wafer, x: seq<real>, n: nat)
    requires |x| == 2 * n + 3 && (Flag(x[0]) ==> n >= 1)
    ensures var p := RotateWithRule(w, x, true, CentreUnique(x[0]), n);
            var k := if Flag(x[0]) then 2 * n - 1 else 2 * n;
            && MirroredAbout(p.shifted, k)
            && MirroredAbout(p.rotated, k)
            && p.y0 == Half(Flag(x[0]), YExtent(w, p.rotated[n]) + w.yspacing)
  {
  }

  /** ShiftRotate parameters with flags mirrored about the centre pair of
      rows and the matching centre offset: reflecting a die in the x axis
      lands on a die. */
  lemma MirroredRowsReflectDies(w: Wafer, p: Params, copied: bool, i: int, j: int)
    requires Admissible(w) && Shaped(w, p) && p.ShiftRot? && (copied ==> Nmax(w) >= 1)
    requires InLattice(w, ShiftRotate, i, j) && InLattice(w, ShiftRotate, i, MirrorIndex(copied, j))
    requires var k := if copied then 2 * Nmax(w) - 1 else 2 * Nmax(w);
             MirroredAbout(p.shifted, k) && MirroredAbout(p.rotated, k)
    requires p.y0 == Half(copied, YExtent(w, p.rotated[Nmax(w)]) + w.yspacing)
    ensures CellAt(w, p, i, MirrorIndex(copied, j)) == MirrorInX(CellAt(w, p, i, j))
  {
    var n := Nmax(w);
    var j2 := MirrorIndex(copied, j);
    var b := j + n;
    var b2 := j2 + n;
    if copied {
      assert b2 == (2 * n - 1) - b;
    } else {
      assert b2 == 2 * n - b;
    }
    assert p.rotated[b] == p.rotated[b2] && p.shifted[b] == p.shifted[b2];
    RotateRowsReflect(w, p.y0, p.rotated, n, copied, b, b2);
    ReflectedRowsReflectDies(w, p, i, j, j2);
  }

  /** Symmetric ShiftRotate: reflecting a die in the x axis lands on a die.
      Rows stack sequentially, so this needs the mirrored rotation flags and
      the centre-row offset to work together. */
  lemma RotateMirrorX(w: Wafer, x: seq<real>, i: int, j: int)
    requires Admissible(w) && |x| == |SearchBounds(w, ShiftRotate, true)|
    requires InLattice(w, ShiftRotate, i, j)
    requires InLattice(w, ShiftRotate, i, MirrorIndex(Flag(x[0]), j))
    ensures var p := DecodeParams(w, ShiftRotate, true, x);
            CellAt(w, p, i, MirrorIndex(Flag(x[0]), j)) == MirrorInX(CellAt(w, p, i, j))
  {
    var n := Nmax(w);
    var p := RotateWithRule(w, x, true, CentreUnique(x[0]), n);
    assert DecodeParams(w, ShiftRotate, true, x) == p;
    DecodedRotationMirrored(w, x, n);
    MirroredRowsReflectDies(w, p, Flag(x[0]), i, j);
  }

  // ---------------------------------------------------------------------
  // The centre-row rule as written

  /** A wafer with a 10 x 10 die, unit spacing and usable radius 10, so
      that the lattice has rows -1, 0 and 1. */
  const Small := Wafer(10.0, 10.0, 1.0, 1.0, 20.0, 0.0)

  /** With the rule as written, `offsets[0] == 0.5` copies the centre-row
      flag to row -1 but applies no half-pitch y shift.  For the symmetric
      ShiftRows parameters [0.5, 0, 1] row 1 is shifted and row -1 is not,
      so the reflection in the x axis of the die in cell (0, 1) is not a die
      of the lattice. */
  lemma HalfThresholdBreaksMirror()
    ensures Admissible(Small) && |[0.5, 0.0, 1.0]| == |SearchBounds(Small, ShiftRows, true)|
    ensures var p := DecodeParamsAsWritten(Small, ShiftRows, true, [0.5, 0.0, 1.0]);
            && InLattice(Small, ShiftRows, 0, 1)
            && forall i, j :: InLattice(Small, ShiftRows, i, j) ==>
                 CellAt(Small, p, i, j) != MirrorInX(CellAt(Small, p, 0, 1))
  {
    SmallLattice();
    var p := DecodeParamsAsWritten(Small, ShiftRows, true, [0.5, 0.0, 1.0]);
    HalfThresholdParams();
    var d := CellAt(Small, p, 0, 1);
    assert d == Die(0.5, 6.0, 10.0, 10.0);
    forall i, j | InLattice(Small, ShiftRows, i, j)
      ensures CellAt(Small, p, i, j) != MirrorInX(d)
    {
      var e := CellAt(Small, p, i, j);
      if e.y == -16.0 {
        assert j == -1;
        assert e.x == i as real * 11.0 - 5.0;
      }
    }
  }

  /** The lattice of `Small` has half-size 1 along both axes. */
  lemma SmallLattice()
    ensures Admissible(Small) && Nx(Small) == 1 && Ny(Small) == 1
  {
    assert EffectiveRadius(Small) == 10.0;
    assert (-(10.0 / 10.0)).Floor == -1;
  }

  /** The parameters [0.5, 0, 1] decode, with the rule as written, to no
      y offset and a half-pitch shift of row 1 only. */
  lemma HalfThresholdParams()
    ensures Admissible(Small) && |[0.5, 0.0, 1.0]| == |SearchBounds(Small, ShiftRows, true)|
    ensures DecodeParamsAsWritten(Small, ShiftRows, true, [0.5, 0.0, 1.0]) == RowShift(0.0, [0.0, 0.0, 5.5])
  {
    SmallLattice();
    var x := [0.5, 0.0, 1.0];
    assert !CentreUniqueAsWritten(x[0]);
    var r := ShiftsWithRule(x, true, false, 1, PitchX(Small), PitchY(Small));
    assert Mirror(x[1..], false) == [0.0, 0.0, 1.0];
    assert r.shifts == [0.0, 0.0, 5.5];
  }
}
