/** The final pass: every die of the centred layout classified as full,
    partial or outside with the unsquared distance test, and the JSON
    report of `format_json_obj` (the full and partial dies as corner
    outlines, in `ndenumerate` order, and their number). */
module Assembly {
  import opened Basics
  import opened Positions
  import opened Scoring

  datatype Class = Full | Partial | Outside

  /** `valid` and `partial` of the final pass for one die.  A full die with
      at least one corner also touches, so `partial` is `any and not all`. */
  function Classify(ewr: real, v: seq<real>): (c: Class)
    ensures c == Full <==> FinalValid(ewr, v)
    ensures c == Partial <==> FinalTouches(ewr, v) && !FinalValid(ewr, v)
    ensures c == Outside <==> !FinalTouches(ewr, v) && !FinalValid(ewr, v)
    ensures c == Full && |v| >= 1 ==> FinalTouches(ewr, v)
  {
    if FinalValid(ewr, v) then
      assert |v| >= 1 ==> WithinRadius(v[0], ewr);
      Full
    else if FinalTouches(ewr, v) then Partial
    else Outside
  }

  /** A partial die straddles the edge of the usable circle: one corner
      lies within the usable radius and another beyond it. */
  lemma PartialStraddles(ewr: real, v: seq<real>)
    requires Classify(ewr, v) == Partial
    ensures exists k :: 0 <= k < |v| && WithinRadius(v[k], ewr)
    ensures exists k :: 0 <= k < |v| && !WithinRadius(v[k], ewr)
  {
  }

  // ---------------------------------------------------------------------
  // Outlines

  /** Two points on a common vertical or horizontal line. */
  predicate Aligned(p: Point, q: Point)
  {
    p.x == q.x || p.y == q.y
  }

  /** `corner_pts` of the report: lower left, lower right, upper right,
      upper left, that is, counter-clockwise from the die's corner (x, y)
      for a die of positive extent.  Consecutive points, and the last and
      the first, are aligned, so the list walks round the rectangle. */
  function Outline(d: Die): (o: seq<Point>)
    ensures |o| == 4
    ensures o[0] == Point(d.x, d.y) && o[1] == Point(d.x + d.w, d.y)
    ensures o[2] == Point(d.x + d.w, d.y + d.h) && o[3] == Point(d.x, d.y + d.h)
    ensures Aligned(o[0], o[1]) && Aligned(o[1], o[2]) && Aligned(o[2], o[3]) && Aligned(o[3], o[0])
  {
    var c := Corners(d);
    [c[0], c[1], c[3], c[2]]
  }

  /** The outline lists the same four corners as `constructV2`, each
      once. */
  lemma OutlineListsCorners(d: Die)
    ensures multiset(Outline(d)) == multiset(Corners(d))
  {
    var c := Corners(d);
    assert c == [c[0], c[1], c[2], c[3]];
    assert multiset(Outline(d)) == multiset{c[0], c[1], c[2], c[3]};
  }

  /** `constructV2`'s order is not such a walk: its second and third
      corners are diagonally opposite on any die of positive extent. */
  lemma CornerOrderIsNotAWalk(d: Die)
    requires d.w > 0.0 && d.h > 0.0
    ensures !Aligned(Corners(d)[1], Corners(d)[2])
  {
  }

  /** The positions a mask keeps, in increasing order (the order
      `ndenumerate` visits them). */
  function KeptIndices(keep: seq<bool>): (r: seq<nat>)
    ensures |r| == Count(keep)
    ensures forall t :: 0 <= t < |r| ==> r[t] < |keep| && keep[r[t]]
    ensures forall t, u :: 0 <= t < u < |r| ==> r[t] < r[u]
    ensures forall k :: 0 <= k < |keep| && keep[k] ==> k in r
  {
    if |keep| == 0 then []
    else
      var m := |keep| - 1;
      var front := KeptIndices(keep[..m]);
      assert forall k :: 0 <= k < m ==> keep[..m][k] == keep[k];
      if keep[m] then front + [m] else front
  }

  /** The outlines of the dies the mask keeps, in order. */
  function Select(cells: seq<Die>, keep: seq<bool>): (r: seq<seq<Point>>)
    requires |keep| == |cells|
    ensures |r| == Count(keep)
    ensures forall t :: 0 <= t < |r| ==>
              KeptIndices(keep)[t] < |cells| && r[t] == Outline(cells[KeptIndices(keep)[t]])
  {
    var idx := KeptIndices(keep);
    seq(|idx|, t requires 0 <= t < |idx| => Outline(cells[idx[t]]))
  }

  /** The mask of dies of one class. */
  function ClassMask(ewr: real, cells: seq<Die>, cl: Class): (m: seq<bool>)
    ensures |m| == |cells|
    ensures forall k :: 0 <= k < |cells| ==> (m[k] <==> Classify(ewr, SquaredDistances(cells[k])) == cl)
  {
    seq(|cells|, k requires 0 <= k < |cells| => Classify(ewr, SquaredDistances(cells[k])) == cl)
  }

  /** The cells the final pass finds full. */
  function FullCells(ewr: real, cells: seq<Die>): set<nat>
  {
    set k: nat | k < |cells| && FinalValid(ewr, SquaredDistances(cells[k]))
  }

  /** The report of `format_json_obj`. */
  datatype Report = Report(
    finalDiameter: real,
    fitType: nat,
    numDies: nat,
    validDies: seq<seq<Point>>,
    partialDies: seq<seq<Point>>)

  function MakeReport(ewr: real, cells: seq<Die>, diameter: real, fitType: nat): (r: Report)
    ensures r.finalDiameter == diameter && r.fitType == fitType
    ensures r.numDies == |r.validDies| == |FullCells(ewr, cells)|
    ensures r.validDies == Select(cells, ClassMask(ewr, cells, Full))
    ensures r.partialDies == Select(cells, ClassMask(ewr, cells, Partial))
  {
    var full := ClassMask(ewr, cells, Full);
    CountIsCardinality(full);
    assert TrueIndices(full) == FullCells(ewr, cells);
    var valid := Select(cells, full);
    Report(diameter, fitType, |valid|, valid, Select(cells, ClassMask(ewr, cells, Partial)))
  }

  /** Entry t of a report list is the outline of a die of the listed
      class. */
  lemma ReportedDiesClassified(ewr: real, cells: seq<Die>, cl: Class, t: nat)
    requires t < |Select(cells, ClassMask(ewr, cells, cl))|
    ensures var k := KeptIndices(ClassMask(ewr, cells, cl))[t];
            k < |cells| && Classify(ewr, SquaredDistances(cells[k])) == cl
            && Select(cells, ClassMask(ewr, cells, cl))[t] == Outline(cells[k])
  {
  }

  /** Every die of the class is listed. */
  lemma ClassifiedDiesReported(ewr: real, cells: seq<Die>, cl: Class, k: nat)
    requires k < |cells| && Classify(ewr, SquaredDistances(cells[k])) == cl
    ensures Outline(cells[k]) in Select(cells, ClassMask(ewr, cells, cl))
  {
    var m := ClassMask(ewr, cells, cl);
    var idx := KeptIndices(m);
    var t :| 0 <= t < |idx| && idx[t] == k;
    assert Select(cells, m)[t] == Outline(cells[k]);
  }

  /** Every point listed for a full die lies within the usable radius. */
  lemma ReportedFullDieInside(ewr: real, cells: seq<Die>, t: nat, q: Point)
    requires t < |Select(cells, ClassMask(ewr, cells, Full))|
    requires q in Select(cells, ClassMask(ewr, cells, Full))[t]
    ensures WithinRadius(SqNorm(q), ewr)
  {
    ReportedDiesClassified(ewr, cells, Full, t);
    var k := KeptIndices(ClassMask(ewr, cells, Full))[t];
    var v := SquaredDistances(cells[k]);
    var c := Corners(cells[k]);
    assert q == c[0] || q == c[1] || q == c[3] || q == c[2];
    assert WithinRadius(v[0], ewr) && WithinRadius(v[1], ewr);
    assert WithinRadius(v[2], ewr) && WithinRadius(v[3], ewr);
  }
}
