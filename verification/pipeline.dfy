/** One search step and the final report end to end: the parameter vector
    the optimiser proposes is decoded into a layout, the lattice of that
    layout is laid out, and either counted (`countfulldies`, the objective)
    or classified and reported (`format_json_obj`).  The lemmas tie the
    counts and the report to the lattice cells themselves. */
module Pipeline {
  import opened Basics
  import opened Lattice
  import opened Decode
  import opened Positions
  import opened Scoring
  import opened Assembly

  /** The dies of the layout that search vector x decodes to. */
  function LayoutDies(w: Wafer, st: Strategy, sym: bool, x: seq<real>): (c: seq<Die>)
    requires Admissible(w) && |x| == |SearchBounds(w, st, sym)|
    ensures |c| == LatticeSize(w, st)
  {
    Cells(w, DecodeParams(w, st, sym, x))
  }

  /** The objective of the search for strategy st: minus the number of
      lattice dies that pass the search test.  It never claims more dies
      than the lattice has cells. */
  function FullDieCount(w: Wafer, st: Strategy, sym: bool, x: seq<real>): (s: int)
    requires Admissible(w) && |x| == |SearchBounds(w, st, sym)|
    ensures s <= 0 && -s <= LatticeSize(w, st)
  {
    CountFullDies(EffectiveRadius(w), Distances(LayoutDies(w, st, sym, x)))
  }

  /** The objective is zero exactly when no cell of the lattice holds a
      die that passes the search test. */
  lemma FullDieCountZero(w: Wafer, st: Strategy, sym: bool, x: seq<real>)
    requires Admissible(w) && |x| == |SearchBounds(w, st, sym)|
    ensures var p := DecodeParams(w, st, sym, x);
            FullDieCount(w, st, sym, x) == 0
            <==> forall i, j :: InLattice(w, st, i, j) ==>
                   !SearchValid(EffectiveRadius(w), SquaredDistances(CellAt(w, p, i, j)))
  {
    var p := DecodeParams(w, st, sym, x);
    var ewr := EffectiveRadius(w);
    var cells := LayoutDies(w, st, sym, x);
    var vs := Distances(cells);
    if FullDieCount(w, st, sym, x) == 0 {
      forall i, j | InLattice(w, st, i, j)
        ensures !SearchValid(ewr, SquaredDistances(CellAt(w, p, i, j)))
      {
        var k := CellsIndex(w, p, i, j);
        assert vs[k] == SquaredDistances(CellAt(w, p, i, j));
      }
    } else {
      var k :| 0 <= k < |vs| && SearchValid(ewr, vs[k]);
      var i, j := CellsEntry(w, p, k);
      assert vs[k] == SquaredDistances(CellAt(w, p, i, j));
    }
  }

  /** `gridwithpartialscore` on the layout that x decodes to: its floor,
      negated, never claims more full dies than the objective counts, and
      so never more than the lattice has cells. */
  lemma PartialScoreOnLayout(w: Wafer, st: Strategy, sym: bool, x: seq<real>,
                             rs: seq<seq<real>>, diag: real)
    requires Admissible(w) && |x| == |SearchBounds(w, st, sym)| && diag > 0.0
    requires AllRoots(Distances(LayoutDies(w, st, sym, x)), rs)
    requires PartialScore(EffectiveRadius(w), Distances(LayoutDies(w, st, sym, x)), rs, diag).Some?
    ensures var ps := PartialScore(EffectiveRadius(w), Distances(LayoutDies(w, st, sym, x)), rs, diag);
            (-ps.value).Floor <= -FullDieCount(w, st, sym, x) <= LatticeSize(w, st)
  {
    PartialScoreFloor(EffectiveRadius(w), Distances(LayoutDies(w, st, sym, x)), rs, diag);
  }

  /** The report for the layout that x decodes to, classified against the
      wafer's usable radius. */
  function FinalReport(w: Wafer, st: Strategy, sym: bool, x: seq<real>, diameter: real): (r: Report)
    requires Admissible(w) && |x| == |SearchBounds(w, st, sym)|
    ensures r.fitType == Code(st) && r.finalDiameter == diameter
    ensures r.numDies <= LatticeSize(w, st)
    ensures EffectiveRadius(w) >= 0.0 ==> r.numDies == -FullDieCount(w, st, sym, x)
  {
    var ewr := EffectiveRadius(w);
    var cells := LayoutDies(w, st, sym, x);
    FullCellsAreValidCells(ewr, cells);
    MakeReport(ewr, cells, diameter, Code(st))
  }

  /** With a non-negative usable radius, the dies the report counts as full
      are the dies the search counted. */
  lemma FullCellsAreValidCells(ewr: real, cells: seq<Die>)
    ensures ewr >= 0.0 ==> FullCells(ewr, cells) == ValidCells(ewr, Distances(cells))
  {
    if ewr >= 0.0 {
      var vs := Distances(cells);
      forall k: nat | k < |cells|
        ensures FinalValid(ewr, SquaredDistances(cells[k])) <==> SearchValid(ewr, vs[k])
      {
        SearchAgreesWithFinal(ewr, vs[k]);
      }
    }
  }

  /** Every die listed as full in the report is the outline of a lattice
      cell whose die lies wholly within the usable radius. */
  lemma ReportedDiesAreLatticeDies(w: Wafer, st: Strategy, sym: bool, x: seq<real>,
                                   diameter: real, t: nat)
    requires Admissible(w) && |x| == |SearchBounds(w, st, sym)|
    requires t < |FinalReport(w, st, sym, x, diameter).validDies|
    ensures var p := DecodeParams(w, st, sym, x);
            exists i, j :: InLattice(w, st, i, j)
              && FinalReport(w, st, sym, x, diameter).validDies[t] == Outline(CellAt(w, p, i, j))
              && FinalValid(EffectiveRadius(w), SquaredDistances(CellAt(w, p, i, j)))
  {
    var p := DecodeParams(w, st, sym, x);
    var ewr := EffectiveRadius(w);
    var cells := LayoutDies(w, st, sym, x);
    ReportedDiesClassified(ewr, cells, Full, t);
    var k := KeptIndices(ClassMask(ewr, cells, Full))[t];
    var i, j := CellsEntry(w, p, k);
    assert FinalReport(w, st, sym, x, diameter).validDies[t] == Outline(CellAt(w, p, i, j));
  }
}
