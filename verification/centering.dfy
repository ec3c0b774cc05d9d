/** Centring the chosen solution and the solution diameter.  Without
    symmetry, the source re-optimises the strategy's first offset (both
    offsets for Grid) to minimise `Rmax`, the largest squared corner
    distance over the dies that were full before centring, and reports the
    smallest wafer diameter that holds those dies.  With symmetry it keeps
    the solution and reports the same diameter directly.  The minimiser is
    a parameter: the model takes the offsets it returns. */
module Centering {
  import opened Basics
  import opened Lattice
  import opened Decode
  import opened Positions
  import opened Scoring

  // ---------------------------------------------------------------------
  // What centring may change

  /** The ranges the centring minimiser searches. */
  function CentringBounds(w: Wafer, st: Strategy): (b: seq<Interval>)
    ensures |b| == if st == Grid then 2 else 1
  {
    match st
    case Grid => [Interval(0.0, PitchX(w) / 2.0), Interval(0.0, PitchY(w) / 2.0)]
    case ShiftRows => [Interval(0.0, PitchY(w) / 2.0)]
    case ShiftCols => [Interval(0.0, PitchX(w) / 2.0)]
    case ShiftRotate => [Interval(0.0, (Max(w.width, w.height) + w.yspacing) / 2.0)]
  }

  /** Centring searches exactly the range the (corrected) search gave the
      offsets it re-optimises. */
  lemma CentringSearchesSearchRange(w: Wafer, st: Strategy)
    requires Admissible(w)
    ensures var c := CentringBounds(w, st);
            forall k :: 0 <= k < |c| ==> c[k] == SearchBounds(w, st, false)[k]
  {
  }

  /** The ShiftRotate search bound as written agrees with the range
      centring uses for the same offset exactly when the x and y spacings
      are equal. */
  lemma RotateBoundsAsWrittenDisagree(w: Wafer)
    ensures RotateSearchBoundAsWritten(w) == CentringBounds(w, ShiftRotate)[0].hi
            <==> w.xspacing == w.yspacing
  {
  }

  /** A concrete case: 1 x 1 dies, x spacing 0, y spacing 1.  The search
      tries row offsets up to 0.5, while rows repeat every 2. */
  lemma RotateBoundAsWrittenTooShort()
    ensures var w := Wafer(1.0, 1.0, 0.0, 1.0, 10.0, 0.0);
            RotateSearchBoundAsWritten(w) == 0.5 && RotateSearchBound(w) == 1.0
            && CentringBounds(w, ShiftRotate)[0].hi == 1.0
  {
  }

  /** The number of offsets the centring minimiser returns. */
  function CentredCount(st: Strategy): nat
  {
    if st == Grid then 2 else 1
  }

  /** The offsets after centring: the minimiser's result in place of the
      first offset (both offsets for Grid), every other entry kept. */
  function CentredOffsets(st: Strategy, x: seq<real>, c: seq<real>): (r: seq<real>)
    requires |x| >= 2 && |c| == CentredCount(st)
    ensures |r| == |x|
    ensures forall k :: 0 <= k < |c| ==> r[k] == c[k]
    ensures forall k :: |c| <= k < |x| ==> r[k] == x[k]
  {
    if st == Grid then c + x[2..] else x[0 := c[0]]
  }

  /** A die moved by (dx, dy). */
  function Translate(d: Die, dx: real, dy: real): Die
  {
    Die(d.x + dx, d.y + dy, d.w, d.h)
  }

  /** How far centring moves the pattern along x. */
  function MoveX(st: Strategy, x: seq<real>, c: seq<real>): real
    requires |x| >= 2 && |c| == CentredCount(st)
  {
    if st == Grid || st == ShiftCols then c[0] - x[0] else 0.0
  }

  /** How far centring moves the pattern along y. */
  function MoveY(st: Strategy, x: seq<real>, c: seq<real>): real
    requires |x| >= 2 && |c| == CentredCount(st)
  {
    match st
    case Grid => c[1] - x[1]
    case ShiftCols => 0.0
    case _ => c[0] - x[0]
  }

  /** The ShiftRotate rows move with the centre offset. */
  lemma RowBottomMoves(w: Wafer, y0: real, y1: real, rot: seq<bool>, n: nat, b: nat)
    requires |rot| == 2 * n + 1 && b <= 2 * n
    ensures RowBottom(w, y1, rot, n, b) == RowBottom(w, y0, rot, n, b) + (y1 - y0)
  {
  }

  /** ShiftRows decoding of the centred offsets keeps every row shift. */
  lemma CentredRowShifts(w: Wafer, x: seq<real>, c: seq<real>)
    requires Admissible(w) && |x| == |SearchBounds(w, ShiftRows, false)| && |c| == 1
    ensures var p := DecodeParams(w, ShiftRows, false, x);
            var q := DecodeParams(w, ShiftRows, false, CentredOffsets(ShiftRows, x, c));
            q.xshift == p.xshift && q.yoff == c[0]
  {
    var p := DecodeParams(w, ShiftRows, false, x);
    var q := DecodeParams(w, ShiftRows, false, CentredOffsets(ShiftRows, x, c));
    assert |q.xshift| == |p.xshift|;
    forall a | 0 <= a < |p.xshift|
      ensures q.xshift[a] == p.xshift[a]
    {
    }
  }

  /** ShiftCols decoding of the centred offsets keeps every column shift. */
  lemma CentredColShifts(w: Wafer, x: seq<real>, c: seq<real>)
    requires Admissible(w) && |x| == |SearchBounds(w, ShiftCols, false)| && |c| == 1
    ensures var p := DecodeParams(w, ShiftCols, false, x);
            var q := DecodeParams(w, ShiftCols, false, CentredOffsets(ShiftCols, x, c));
            q.yshift == p.yshift && q.xoff == c[0]
  {
    var p := DecodeParams(w, ShiftCols, false, x);
    var q := DecodeParams(w, ShiftCols, false, CentredOffsets(ShiftCols, x, c));
    assert |q.yshift| == |p.yshift|;
    forall a | 0 <= a < |p.yshift|
      ensures q.yshift[a] == p.yshift[a]
    {
    }
  }

  /** ShiftRotate decoding of the centred offsets keeps every row's shift
      and rotation. */
  lemma CentredRotateFlags(w: Wafer, x: seq<real>, c: seq<real>)
    requires Admissible(w) && |x| == |SearchBounds(w, ShiftRotate, false)| && |c| == 1
    ensures var p := DecodeParams(w, ShiftRotate, false, x);
            var q := DecodeParams(w, ShiftRotate, false, CentredOffsets(ShiftRotate, x, c));
            q.shifted == p.shifted && q.rotated == p.rotated && q.y0 == c[0]
  {
    var p := DecodeParams(w, ShiftRotate, false, x);
    var q := DecodeParams(w, ShiftRotate, false, CentredOffsets(ShiftRotate, x, c));
    assert |q.shifted| == |p.shifted| && |q.rotated| == |p.rotated|;
    forall a | 0 <= a < |p.shifted|
      ensures q.shifted[a] == p.shifted[a] && q.rotated[a] == p.rotated[a]
    {
    }
  }

  /** Centring moves the whole pattern rigidly: every cell of the centred
      layout is the same cell of the searched layout, translated. */
  lemma CentringTranslates(w: Wafer, st: Strategy, x: seq<real>, c: seq<real>, i: int, j: int)
    requires Admissible(w) && |x| == |SearchBounds(w, st, false)| && |c| == CentredCount(st)
    requires InLattice(w, st, i, j)
    ensures var p := DecodeParams(w, st, false, x);
            var q := DecodeParams(w, st, false, CentredOffsets(st, x, c));
            CellAt(w, q, i, j) == Translate(CellAt(w, p, i, j), MoveX(st, x, c), MoveY(st, x, c))
  {
    match st
    case Grid =>
    case ShiftRows => CentredRowShifts(w, x, c);
    case ShiftCols => CentredColShifts(w, x, c);
    case ShiftRotate =>
      CentredRotateFlags(w, x, c);
      var p := DecodeParams(w, st, false, x);
      RowBottomMoves(w, p.y0, c[0], p.rotated, Nmax(w), j + Nmax(w));
  }

  // ---------------------------------------------------------------------
  // Rmax and the solution diameter

  /** The largest entry of a non-empty sequence. */
  function MaxOf(v: seq<real>): (m: real)
    requires |v| >= 1
    ensures forall k :: 0 <= k < |v| ==> v[k] <= m
    ensures exists k :: 0 <= k < |v| && v[k] == m
  {
    if |v| == 1 then v[0]
    else
      var front := v[..|v| - 1];
      var rest := MaxOf(front);
      assert forall k :: 0 <= k < |front| ==> front[k] == v[k];
      if v[|v| - 1] > rest then v[|v| - 1] else rest
  }

  /** `V[validmask].max()`: the largest corner distance over the masked
      cells; None where the source raises because the mask is empty. */
  function MaskedMax(vs: seq<seq<real>>, mask: seq<bool>): (r: Option<real>)
    requires |mask| == |vs| && forall k :: 0 <= k < |vs| ==> |vs[k]| >= 1
    ensures r.None? <==> forall k :: 0 <= k < |vs| ==> !mask[k]
    ensures r.Some? ==> forall k, c :: 0 <= k < |vs| && mask[k] && 0 <= c < |vs[k]| ==> vs[k][c] <= r.value
    ensures r.Some? ==> exists k, c :: 0 <= k < |vs| && mask[k] && 0 <= c < |vs[k]| && vs[k][c] == r.value
  {
    if |vs| == 0 then None
    else
      var m := |vs| - 1;
      var rest := MaskedMax(vs[..m], mask[..m]);
      assert forall k :: 0 <= k < m ==> vs[..m][k] == vs[k] && mask[..m][k] == mask[k];
      if !mask[m] then rest
      else
        var here := MaxOf(vs[m]);
        if rest.Some? && rest.value >= here then rest else Some(here)
  }

  /** `2 * (sqrt(Rmax) + edge exclusion)`, given the root of `Rmax`: the
      diameter of the wafer, with the same edge exclusion, whose usable
      radius is exactly that root. */
  function MinDiameter(root: real, edgeExclusion: real): (d: real)
    ensures forall w: Wafer :: w.diameter == d && w.edgeExclusion == edgeExclusion ==>
              EffectiveRadius(w) == root
  {
    2.0 * (root + edgeExclusion)
  }

  /** The diameter recovered from a wafer's own usable radius is the
      wafer's diameter. */
  lemma MinDiameterOfRadius(w: Wafer)
    ensures MinDiameter(EffectiveRadius(w), w.edgeExclusion) == w.diameter
  {
  }

  /** A wafer of the solution diameter, with the same edge exclusion,
      holds every masked die: each corner is within its usable radius. */
  lemma MinDiameterHoldsDies(vs: seq<seq<real>>, mask: seq<bool>, root: real, edgeExclusion: real)
    requires |mask| == |vs| && forall k :: 0 <= k < |vs| ==> |vs[k]| >= 1
    requires MaskedMax(vs, mask).Some?
    requires IsRoot(root, MaskedMax(vs, mask).value)
    ensures forall k, c :: 0 <= k < |vs| && mask[k] && 0 <= c < |vs[k]| ==>
              WithinRadius(vs[k][c], MinDiameter(root, edgeExclusion) / 2.0 - edgeExclusion)
  {
    var r := MinDiameter(root, edgeExclusion) / 2.0 - edgeExclusion;
    assert r == root;
    var m := MaskedMax(vs, mask).value;
    forall k, c | 0 <= k < |vs| && mask[k] && 0 <= c < |vs[k]|
      ensures WithinRadius(vs[k][c], r)
    {
      assert vs[k][c] <= m == root * root;
    }
  }

  /** The solution diameter is at most the wafer diameter exactly when the
      masked dies lie within the usable radius. */
  lemma MinDiameterWithinWafer(w: Wafer, vs: seq<seq<real>>, mask: seq<bool>, root: real)
    requires EffectiveRadius(w) >= 0.0
    requires |mask| == |vs| && forall k :: 0 <= k < |vs| ==> |vs[k]| >= 1
    requires MaskedMax(vs, mask).Some?
    requires IsRoot(root, MaskedMax(vs, mask).value)
    ensures MinDiameter(root, w.edgeExclusion) <= w.diameter
            <==> MaskedMax(vs, mask).value <= EffectiveRadius(w) * EffectiveRadius(w)
  {
    WithinRadiusIsRootTest(MaskedMax(vs, mask).value, root, EffectiveRadius(w));
  }

  /** With symmetry the mask is the full dies themselves, so the reported
      diameter never exceeds the wafer's. */
  lemma SymmetricDiameterFits(w: Wafer, vs: seq<seq<real>>, root: real)
    requires EffectiveRadius(w) >= 0.0
    requires forall k :: 0 <= k < |vs| ==> |vs[k]| >= 1
    requires MaskedMax(vs, ValidMask(EffectiveRadius(w), vs)).Some?
    requires IsRoot(root, MaskedMax(vs, ValidMask(EffectiveRadius(w), vs)).value)
    ensures MinDiameter(root, w.edgeExclusion) <= w.diameter
  {
    var r := EffectiveRadius(w);
    var mask := ValidMask(r, vs);
    var m := MaskedMax(vs, mask).value;
    var k, c :| 0 <= k < |vs| && mask[k] && 0 <= c < |vs[k]| && vs[k][c] == m;
    assert SearchValid(r, vs[k]);
    ValidCornerWithin(r, vs[k], c);
    WithinRadiusIsRootTest(m, root, r);
    assert root <= r;
  }

  /** Below zero the promise fails: the one cell of the 10-unit wafer with
      a 6.1-unit edge exclusion (usable radius -1.1) passes the search
      test, so `Rmax` is 1.0 and the reported diameter 14.2 exceeds the
      wafer's 10. */
  lemma NegativeRadiusDiameterTooLarge()
    ensures var w := Wafer(1.2, 1.6, 1.0, 1.0, 10.0, 6.1);
            var vs := [SquaredDistances(CellAt(w, GridAt(0.0, 0.0), 0, 0))];
            && EffectiveRadius(w) == -1.1
            && MaskedMax(vs, ValidMask(EffectiveRadius(w), vs)) == Some(1.0)
            && IsRoot(1.0, 1.0)
            && MinDiameter(1.0, w.edgeExclusion) == 14.2 > w.diameter
  {
    var w := Wafer(1.2, 1.6, 1.0, 1.0, 10.0, 6.1);
    NegativeRadiusAcceptsDie();
    var v := SquaredDistances(CellAt(w, GridAt(0.0, 0.0), 0, 0));
    assert v == [1.0, 1.0, 1.0, 1.0];
    var vs := [v];
    var m := MaskedMax(vs, ValidMask(EffectiveRadius(w), vs));
    assert ValidMask(EffectiveRadius(w), vs)[0];
    assert m.Some? && m.value <= 1.0 && m.value >= 1.0 by {
      assert vs[0][0] == 1.0;
    }
  }

  /** A corner of a die that passes the search test is within the squared
      radius. */
  lemma ValidCornerWithin(r: real, v: seq<real>, c: nat)
    requires SearchValid(r, v) && c < |v|
    ensures v[c] <= r * r
  {
  }

  /** The diameter as displayed: rounded up to one decimal. */
  function DisplayDiameter(d: real): (r: real)
    ensures d <= r < d + 0.1
  {
    Ceil(10.0 * d) as real / 10.0
  }
}
