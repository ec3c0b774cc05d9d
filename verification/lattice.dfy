/** The wafer, the lattice of candidate die positions and the four layout
    strategies (the constructor of `DiesPerWaferCalculator` in
    opt/dies_per_wafer_latest.py and the head of `execute` in
    DiesPerWafer_v1.2.py). */
module Lattice {
  import opened Basics

  /** The user inputs: die size, die spacing, wafer diameter and the width
      of the unusable band along the wafer edge. */
  datatype Wafer = Wafer(
    width: real, height: real,
    xspacing: real, yspacing: real,
    diameter: real, edgeExclusion: real)

  /** Radius of the usable circle (`ewr`): the wafer's radius less the
      edge band (`Centering.MinDiameter` inverts it). */
  function EffectiveRadius(w: Wafer): real
  {
    w.diameter / 2.0 - w.edgeExclusion
  }

  function PitchX(w: Wafer): real { w.width + w.xspacing }
  function PitchY(w: Wafer): real { w.height + w.yspacing }

  /** Python's `math.ceil` on a real. */
  function Ceil(x: real): (n: int)
    ensures (n - 1) as real < x <= n as real
  {
    -((-x).Floor)
  }

  /** `ceil(ewr / size)`, the lattice half-size along one axis. */
  function Reach(ewr: real, size: real): int
    requires size > 0.0
  {
    Ceil(ewr / size)
  }

  /** `Reach` is the least number of die sizes that reaches the effective
      radius, so cells -n..n cover every die that could fit. */
  lemma ReachCovers(ewr: real, size: real)
    requires size > 0.0
    ensures (Reach(ewr, size) - 1) as real * size < ewr <= Reach(ewr, size) as real * size
  {
    var n := Reach(ewr, size);
    var q := ewr / size;
    assert (n - 1) as real < q <= n as real;
    assert q * size == ewr;
    assert (n - 1) as real * size < q * size;
    assert q * size <= n as real * size;
  }

  /** Lattice half-size along x (see `LatticeReach`). */
  function Nx(w: Wafer): int
    requires w.width > 0.0
  {
    Reach(EffectiveRadius(w), w.width)
  }

  /** Lattice half-size along y (see `LatticeReach`). */
  function Ny(w: Wafer): int
    requires w.height > 0.0
  {
    Reach(EffectiveRadius(w), w.height)
  }

  /** The lattice half-sizes are the fewest die widths (heights) that
      reach the usable radius: cells -Nx..Nx by -Ny..Ny span it, one cell
      fewer would not. */
  lemma LatticeReach(w: Wafer)
    requires w.width > 0.0 && w.height > 0.0
    ensures (Nx(w) - 1) as real * w.width < EffectiveRadius(w) <= Nx(w) as real * w.width
    ensures (Ny(w) - 1) as real * w.height < EffectiveRadius(w) <= Ny(w) as real * w.height
  {
    ReachCovers(EffectiveRadius(w), w.width);
    ReachCovers(EffectiveRadius(w), w.height);
  }

  /** `Nmax`, the half-size of the square lattice used by ShiftRotate. */
  function Nmax(w: Wafer): (n: int)
    requires w.width > 0.0 && w.height > 0.0
    ensures n >= Nx(w) && n >= Ny(w)
    ensures n == Nx(w) || n == Ny(w)
  {
    if Nx(w) >= Ny(w) then Nx(w) else Ny(w)
  }

  /** What the source needs of its inputs not to fail: positive die sides
      (they divide `ewr`) and non-negative lattice half-sizes (numpy cannot
      allocate an array of negative size). */
  predicate Admissible(w: Wafer)
  {
    && w.width > 0.0 && w.height > 0.0
    && Nx(w) >= 0 && Ny(w) >= 0
  }

  function Max(a: real, b: real): real { if a >= b then a else b }

  /** Horizontal extent of a die, swapped when the die is rotated. */
  function XExtent(w: Wafer, rotated: bool): real
  {
    if rotated then w.height else w.width
  }

  /** Vertical extent of a die, swapped when the die is rotated. */
  function YExtent(w: Wafer, rotated: bool): real
  {
    if rotated then w.width else w.height
  }

  /** The four layout strategies, in evaluation order (`ft` 0..3). */
  datatype Strategy = Grid | ShiftRows | ShiftCols | ShiftRotate

  function Code(st: Strategy): nat
  {
    match st
    case Grid => 0
    case ShiftRows => 1
    case ShiftCols => 2
    case ShiftRotate => 3
  }

  function StrategyOf(k: nat): (st: Strategy)
    requires k < 4
    ensures Code(st) == k
  {
    if k == 0 then Grid else if k == 1 then ShiftRows else if k == 2 then ShiftCols else ShiftRotate
  }

  lemma CodeRoundTrip(st: Strategy)
    ensures Code(st) < 4 && StrategyOf(Code(st)) == st
  {
  }

  datatype InputError = NonPositiveDie | NoUsableArea

  /** Input check the source leaves out: a die side that is not positive,
      or an edge exclusion that leaves no usable radius, is refused before
      any search. */
  function Validate(w: Wafer): (r: Result<Wafer, InputError>)
    ensures r.Ok? <==> w.width > 0.0 && w.height > 0.0 && EffectiveRadius(w) > 0.0
    ensures r.Ok? ==> r.value == w && Admissible(w) && Nx(w) >= 1 && Ny(w) >= 1
    ensures r.Err? && r.error == NoUsableArea ==> EffectiveRadius(w) <= 0.0
  {
    if w.width <= 0.0 || w.height <= 0.0 then Err(NonPositiveDie)
    else if EffectiveRadius(w) <= 0.0 then Err(NoUsableArea)
    else
      LatticeReach(w);
      Ok(w)
  }
}
