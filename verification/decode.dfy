/** From the optimiser's parameter vector to the layout parameters of one
    strategy: the bound lists the driver hands to the optimiser, the 0.5
    threshold that turns a real into a flag, and the mirroring of flags in
    symmetric mode (the first half of `CalculatePositions`). */
module Decode {
  import opened Basics
  import opened Lattice

  /** A boolean carried as a real in [0, 1]: set when above 0.5. */
  predicate Flag(v: real)
  {
    v > 0.5
  }

  /** Zero, or half a pitch when the flag is set. */
  function Half(b: bool, pitch: real): real
  {
    if b then pitch / 2.0 else 0.0
  }

  /** The centre-row rule as written: the centre row (or column) keeps its
      own flag when `offsets[0] < 0.5`. */
  predicate CentreUniqueAsWritten(t0: real)
  {
    t0 < 0.5
  }

  /** The centre-row rule used by the model: the centre row is unique
      exactly when the half-pitch shift selected by the same parameter is
      off, so the two readings of `offsets[0]` never disagree. */
  predicate CentreUnique(t0: real)
  {
    !Flag(t0)
  }

  /** Away from the single value 0.5 the written rule and the model's rule
      coincide: the centre row is unique exactly when there is no shift. */
  lemma CentreRulesAgree(t0: real)
    requires t0 != 0.5
    ensures CentreUniqueAsWritten(t0) <==> CentreUnique(t0)
    ensures CentreUniqueAsWritten(t0) <==> !Flag(t0)
  {
  }

  /** At exactly 0.5 the written rule copies the centre row although no
      half-pitch shift is applied. */
  lemma CentreRulesClashAtHalf()
    ensures !CentreUniqueAsWritten(0.5) && !Flag(0.5)
    ensures CentreUnique(0.5)
  {
  }

  /** The mirrored flag vector of symmetric mode, built from the flags of
      indices 0..N (`h`, so N = |h| - 1).  Entry N of the result is lattice
      index 0.  With a unique centre, index -k copies index k (entry a pairs
      with entry 2N - a); with a copied centre, index -k copies index k - 1
      (entry a pairs with entry 2N - 1 - a). */
  function Mirror<T>(h: seq<T>, unique: bool): (m: seq<T>)
    requires |h| >= 1
    ensures |m| == 2 * |h| - 1
    ensures forall a :: |h| - 1 <= a < |m| ==> m[a] == h[a - (|h| - 1)]
    ensures unique ==> forall a :: 0 <= a < |m| ==> m[a] == m[|m| - 1 - a]
    ensures !unique ==> forall a :: 0 <= a < |m| - 1 ==> m[a] == m[|m| - 2 - a]
  {
    if unique then Reverse(h[1..]) + h else Reverse(h[..|h| - 1]) + h
  }

  /** Elementwise threshold of a parameter slice. */
  function Flags(s: seq<real>): (b: seq<bool>)
    ensures |b| == |s|
    ensures forall k :: 0 <= k < |s| ==> (b[k] <==> s[k] > 0.5)
  {
    seq(|s|, k requires 0 <= k < |s| => Flag(s[k]))
  }

  /** Elementwise half-pitch shift of a parameter slice. */
  function HalfShifts(s: seq<real>, pitch: real): (r: seq<real>)
    ensures |r| == |s|
    ensures forall k :: 0 <= k < |s| ==> r[k] == Half(Flag(s[k]), pitch)
  {
    seq(|s|, k requires 0 <= k < |s| => Half(Flag(s[k]), pitch))
  }

  // ---------------------------------------------------------------------
  // Bound lists handed to the global optimiser

  datatype Interval = Interval(lo: real, hi: real)

  const Unit := Interval(0.0, 1.0)

  function Units(n: nat): (r: seq<Interval>)
    ensures |r| == n && forall k :: 0 <= k < n ==> r[k] == Unit
  {
    seq(n, _ => Unit)
  }

  /** Search interval of the ShiftRotate y offset as written: half of the
      larger die side plus the x spacing.  It reaches every row offset a
      symmetric layout can take (half a row pitch, upright or rotated) only
      when the x spacing is at least the y spacing. */
  function RotateSearchBoundAsWritten(w: Wafer): (r: real)
    ensures (forall rot: bool :: r >= (YExtent(w, rot) + w.yspacing) / 2.0)
            <==> w.xspacing >= w.yspacing
  {
    assert YExtent(w, w.width >= w.height) == Max(w.width, w.height);
    (Max(w.width, w.height) + w.xspacing) / 2.0
  }

  /** Search interval of the ShiftRotate y offset used by the model: half of
      the larger die side plus the y spacing, the same interval the
      centring step uses for this y offset.  It is the largest half row
      pitch, upright or rotated. */
  function RotateSearchBound(w: Wafer): (r: real)
    ensures forall rot: bool :: r >= (YExtent(w, rot) + w.yspacing) / 2.0
    ensures exists rot: bool :: r == (YExtent(w, rot) + w.yspacing) / 2.0
  {
    assert YExtent(w, w.width >= w.height) == Max(w.width, w.height);
    (Max(w.width, w.height) + w.yspacing) / 2.0
  }

  /** The bound list the driver builds for each strategy; its length is the
      length of the parameter vector the optimiser returns.  Without
      symmetry the offsets range over half a pitch (the ShiftRotate row
      offset over `RotateSearchBound`) and every flag over the unit
      interval; with symmetry every entry is a flag. */
  function SearchBounds(w: Wafer, st: Strategy, sym: bool): (b: seq<Interval>)
    requires Admissible(w)
    ensures st == Grid ==> |b| == 2
    ensures st == ShiftRows ==> |b| == if sym then Ny(w) + 2 else 2 * Ny(w) + 2
    ensures st == ShiftCols ==> |b| == if sym then Nx(w) + 2 else 2 * Nx(w) + 2
    ensures st == ShiftRotate ==> |b| == if sym then 2 * Nmax(w) + 3 else 4 * Nmax(w) + 3
    ensures sym ==> forall k :: 0 <= k < |b| ==> b[k] == Unit
    ensures !sym && st != Grid ==> forall k :: 1 <= k < |b| ==> b[k] == Unit
    ensures !sym && st == Grid ==>
              b[0] == Interval(0.0, PitchX(w) / 2.0) && b[1] == Interval(0.0, PitchY(w) / 2.0)
    ensures !sym && st == ShiftRows ==> b[0] == Interval(0.0, PitchY(w) / 2.0)
    ensures !sym && st == ShiftCols ==> b[0] == Interval(0.0, PitchX(w) / 2.0)
    ensures !sym && st == ShiftRotate ==> b[0] == Interval(0.0, RotateSearchBound(w))
  {
    match st
    case Grid =>
      if sym then [Unit, Unit]
      else [Interval(0.0, PitchX(w) / 2.0), Interval(0.0, PitchY(w) / 2.0)]
    case ShiftRows =>
      if sym then [Unit] + Units(Ny(w) + 1)
      else [Interval(0.0, PitchY(w) / 2.0)] + Units(2 * Ny(w) + 1)
    case ShiftCols =>
      if sym then [Unit] + Units(Nx(w) + 1)
      else [Interval(0.0, PitchX(w) / 2.0)] + Units(2 * Nx(w) + 1)
    case ShiftRotate =>
      if sym then [Unit] + Units(2 * Nmax(w) + 2)
      else [Interval(0.0, RotateSearchBound(w))] + Units(4 * Nmax(w) + 2)
  }

  /** The bound list as written: the ShiftRotate row offset is searched up
      to `RotateSearchBoundAsWritten`.  Every other entry agrees with
      `SearchBounds`. */
  function SearchBoundsAsWritten(w: Wafer, st: Strategy, sym: bool): (b: seq<Interval>)
    requires Admissible(w)
    ensures |b| == |SearchBounds(w, st, sym)|
    ensures forall k :: 0 <= k < |b| && (k != 0 || st != ShiftRotate || sym) ==>
              b[k] == SearchBounds(w, st, sym)[k]
    ensures st == ShiftRotate && !sym ==> b[0] == Interval(0.0, RotateSearchBoundAsWritten(w))
  {
    if st == ShiftRotate && !sym then
      [Interval(0.0, RotateSearchBoundAsWritten(w))] + Units(4 * Nmax(w) + 2)
    else SearchBounds(w, st, sym)
  }

  /** The two bound lists coincide exactly when the strategy is not
      ShiftRotate, the search is symmetric, or the two spacings are equal. */
  lemma SearchBoundsAgree(w: Wafer, st: Strategy, sym: bool)
    requires Admissible(w)
    ensures SearchBoundsAsWritten(w, st, sym) == SearchBounds(w, st, sym)
            <==> st != ShiftRotate || sym || w.xspacing == w.yspacing
  {
    if st == ShiftRotate && !sym {
      var a, b := SearchBoundsAsWritten(w, st, sym), SearchBounds(w, st, sym);
      if a == b {
        assert a[0] == b[0];
      }
    }
  }

  // ---------------------------------------------------------------------
  // Decoded layout parameters

  /** The layout parameters of one strategy.  Sequences are indexed by
      lattice index plus the lattice half-size. */
  datatype Params =
    | GridAt(ox: real, oy: real)
    | RowShift(yoff: real, xshift: seq<real>)
    | ColShift(xoff: real, yshift: seq<real>)
    | ShiftRot(y0: real, shifted: seq<bool>, rotated: seq<bool>)

  function StrategyOfParams(p: Params): Strategy
  {
    match p
    case GridAt(_, _) => Grid
    case RowShift(_, _) => ShiftRows
    case ColShift(_, _) => ShiftCols
    case ShiftRot(_, _, _) => ShiftRotate
  }

  /** Every per-row or per-column vector has one entry per lattice index. */
  predicate Shaped(w: Wafer, p: Params)
    requires Admissible(w)
  {
    match p
    case GridAt(_, _) => true
    case RowShift(_, xs) => |xs| == 2 * Ny(w) + 1
    case ColShift(_, ys) => |ys| == 2 * Nx(w) + 1
    case ShiftRot(_, sh, rot) => |sh| == 2 * Nmax(w) + 1 && |rot| == 2 * Nmax(w) + 1
  }

  /** A common offset plus one half-pitch shift per row (or column). */
  datatype Shifts = Shifts(offset: real, shifts: seq<real>)

  /** ShiftRows / ShiftCols decoding with the centre rule given explicitly.
      `n` is the lattice half-size along the shifted index, `shiftPitch` the
      pitch the shifts move along, `offsetPitch` the pitch of the common
      offset. */
  function ShiftsWithRule(x: seq<real>, sym: bool, unique: bool, n: nat,
                          shiftPitch: real, offsetPitch: real): (r: Shifts)
    requires |x| == if sym then n + 2 else 2 * n + 2
    ensures |r.shifts| == 2 * n + 1
    ensures forall a :: 0 <= a < 2 * n + 1 ==>
              r.shifts[a] == 0.0 || r.shifts[a] == shiftPitch / 2.0
    ensures !sym ==> r.offset == x[0]
    ensures !sym ==> forall a :: 0 <= a < 2 * n + 1 ==> r.shifts[a] == Half(Flag(x[1 + a]), shiftPitch)
    ensures sym ==> r.offset == Half(Flag(x[0]), offsetPitch)
    ensures sym ==> forall a :: n <= a < 2 * n + 1 ==> r.shifts[a] == Half(Flag(x[1 + a - n]), shiftPitch)
    ensures sym && unique ==> forall a :: 0 <= a < 2 * n + 1 ==> r.shifts[a] == r.shifts[2 * n - a]
    ensures sym && !unique ==> forall a :: 0 <= a < 2 * n ==> r.shifts[a] == r.shifts[2 * n - 1 - a]
  {
    if sym then
      var m := Mirror(x[1..], unique);
      Shifts(Half(Flag(x[0]), offsetPitch), HalfShifts(m, shiftPitch))
    else
      Shifts(x[0], HalfShifts(x[1..], shiftPitch))
  }

  /** Rotation and shift flags of ShiftRotate with the centre rule given
      explicitly; `n` is `Nmax`. */
  function RotateWithRule(w: Wafer, x: seq<real>, sym: bool, unique: bool, n: nat): (p: Params)
    requires |x| == if sym then 2 * n + 3 else 4 * n + 3
    ensures p.ShiftRot? && |p.shifted| == 2 * n + 1 && |p.rotated| == 2 * n + 1
    ensures !sym ==> p.y0 == x[0]
    ensures !sym ==> forall a :: 0 <= a < 2 * n + 1 ==> (p.shifted[a] <==> Flag(x[1 + a]))
    ensures !sym ==> forall a :: 0 <= a < 2 * n + 1 ==> (p.rotated[a] <==> Flag(x[2 * n + 2 + a]))
    ensures sym ==> p.y0 == Half(Flag(x[0]), YExtent(w, p.rotated[n]) + w.yspacing)
    ensures sym ==> forall a :: n <= a < 2 * n + 1 ==> (p.shifted[a] <==> Flag(x[1 + a - n]))
    ensures sym ==> forall a :: n <= a < 2 * n + 1 ==> (p.rotated[a] <==> Flag(x[2 + a]))
    ensures sym && unique ==> forall a :: 0 <= a < 2 * n + 1 ==>
              p.shifted[a] == p.shifted[2 * n - a] && p.rotated[a] == p.rotated[2 * n - a]
    ensures sym && !unique ==> forall a :: 0 <= a < 2 * n ==>
              p.shifted[a] == p.shifted[2 * n - 1 - a] && p.rotated[a] == p.rotated[2 * n - 1 - a]
  {
    if sym then
      var sh := Flags(Mirror(x[1..n + 2], unique));
      var rot := Flags(Mirror(x[n + 2..], unique));
      ShiftRot(Half(Flag(x[0]), YExtent(w, rot[n]) + w.yspacing), sh, rot)
    else
      ShiftRot(x[0], Flags(x[1..2 * n + 2]), Flags(x[2 * n + 2..]))
  }

  /** `CalculatePositions`' decoding step: the parameter vector returned by
      the optimiser for strategy `st` becomes that strategy's layout
      parameters.  Mirroring follows the model's centre rule. */
  function DecodeParams(w: Wafer, st: Strategy, sym: bool, x: seq<real>): (p: Params)
    requires Admissible(w)
    requires |x| == |SearchBounds(w, st, sym)|
    ensures StrategyOfParams(p) == st && Shaped(w, p)
    ensures p.GridAt? && !sym ==> p.ox == x[0] && p.oy == x[1]
    ensures p.GridAt? && sym ==>
              (p.ox == 0.0 || p.ox == PitchX(w) / 2.0) && (p.oy == 0.0 || p.oy == PitchY(w) / 2.0)
    ensures p.RowShift? && sym ==> p.yoff == 0.0 || p.yoff == PitchY(w) / 2.0
    ensures p.ColShift? && sym ==> p.xoff == 0.0 || p.xoff == PitchX(w) / 2.0
    ensures p.ShiftRot? && sym ==>
              p.y0 == 0.0 || p.y0 == (YExtent(w, p.rotated[Nmax(w)]) + w.yspacing) / 2.0
    ensures p.RowShift? && !sym ==> p.yoff == x[0]
    ensures p.ColShift? && !sym ==> p.xoff == x[0]
    ensures p.ShiftRot? && !sym ==> p.y0 == x[0]
  {
    match st
    case Grid =>
      if sym then GridAt(Half(Flag(x[0]), PitchX(w)), Half(Flag(x[1]), PitchY(w)))
      else GridAt(x[0], x[1])
    case ShiftRows =>
      var r := ShiftsWithRule(x, sym, CentreUnique(x[0]), Ny(w), PitchX(w), PitchY(w));
      RowShift(r.offset, r.shifts)
    case ShiftCols =>
      var r := ShiftsWithRule(x, sym, CentreUnique(x[0]), Nx(w), PitchY(w), PitchX(w));
      ColShift(r.offset, r.shifts)
    case ShiftRotate =>
      RotateWithRule(w, x, sym, CentreUnique(x[0]), Nmax(w))
  }

  /** Without symmetry the offsets are taken as they are and every shift
      flag is thresholded on its own. */
  lemma DecodePlain(w: Wafer, st: Strategy, x: seq<real>)
    requires Admissible(w) && st != ShiftRotate
    requires |x| == |SearchBounds(w, st, false)|
    ensures st == Grid ==> DecodeParams(w, st, false, x) == GridAt(x[0], x[1])
    ensures st == ShiftRows ==> DecodeParams(w, st, false, x) == RowShift(x[0], HalfShifts(x[1..], PitchX(w)))
    ensures st == ShiftCols ==> DecodeParams(w, st, false, x) == ColShift(x[0], HalfShifts(x[1..], PitchY(w)))
  {
  }

  /** Every decoded row (column) shift is nothing or half a pitch along the
      row (column). */
  lemma DecodedShiftsHalfPitch(w: Wafer, st: Strategy, sym: bool, x: seq<real>)
    requires Admissible(w)
    requires |x| == |SearchBounds(w, st, sym)|
    ensures var p := DecodeParams(w, st, sym, x);
            p.RowShift? ==> forall a :: 0 <= a < |p.xshift| ==>
              p.xshift[a] == 0.0 || p.xshift[a] == PitchX(w) / 2.0
    ensures var p := DecodeParams(w, st, sym, x);
            p.ColShift? ==> forall a :: 0 <= a < |p.yshift| ==>
              p.yshift[a] == 0.0 || p.yshift[a] == PitchY(w) / 2.0
  {
  }

  /** The same decoding with the centre rule as written; it differs from
      `DecodeParams` only when `x[0]` is exactly 0.5. */
  function DecodeParamsAsWritten(w: Wafer, st: Strategy, sym: bool, x: seq<real>): (p: Params)
    requires Admissible(w)
    requires |x| == |SearchBounds(w, st, sym)|
    ensures StrategyOfParams(p) == st && Shaped(w, p)
    ensures x[0] != 0.5 ==> p == DecodeParams(w, st, sym, x)
  {
    match st
    case Grid => DecodeParams(w, st, sym, x)
    case ShiftRows =>
      var r := ShiftsWithRule(x, sym, CentreUniqueAsWritten(x[0]), Ny(w), PitchX(w), PitchY(w));
      RowShift(r.offset, r.shifts)
    case ShiftCols =>
      var r := ShiftsWithRule(x, sym, CentreUniqueAsWritten(x[0]), Nx(w), PitchY(w), PitchX(w));
      ColShift(r.offset, r.shifts)
    case ShiftRotate =>
      RotateWithRule(w, x, sym, CentreUniqueAsWritten(x[0]), Nmax(w))
  }
}
