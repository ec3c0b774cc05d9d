/** Choosing the winning strategy from the per-strategy full-die counts:
    the corner model's `Nfits.argmax()` over the enabled strategies, and
    the centre model's chain of comparisons over three strategies. */
module Selection {
  import opened Basics
  import opened Lattice

  /** numpy's `argmax`: the first index holding the maximum. */
  function ArgmaxFirst(ns: seq<int>): (k: nat)
    requires |ns| >= 1
    ensures k < |ns|
    ensures forall a :: 0 <= a < |ns| ==> ns[a] <= ns[k]
    ensures forall a :: 0 <= a < k ==> ns[a] < ns[k]
  {
    if |ns| == 1 then 0
    else
      var m := |ns| - 1;
      var k := ArgmaxFirst(ns[..m]);
      assert forall a :: 0 <= a < m ==> ns[..m][a] == ns[a];
      if ns[m] > ns[k] then m else k
  }

  /** The two properties of `ArgmaxFirst` single it out. */
  lemma ArgmaxFirstUnique(ns: seq<int>, k: nat)
    requires |ns| >= 1 && k < |ns|
    requires forall a :: 0 <= a < |ns| ==> ns[a] <= ns[k]
    requires forall a :: 0 <= a < k ==> ns[a] < ns[k]
    ensures k == ArgmaxFirst(ns)
  {
  }

  // ---------------------------------------------------------------------
  // Corner model: four strategies, each switched on or off

  /** `Nfits`: zero for a strategy that is switched off, its count
      otherwise. */
  function Nfits(enabled: seq<bool>, counts: seq<int>): (ns: seq<int>)
    requires |enabled| == 4 && |counts| == 4
    ensures |ns| == 4
    ensures forall k :: 0 <= k < 4 ==> ns[k] == if enabled[k] then counts[k] else 0
  {
    seq(4, k requires 0 <= k < 4 => if enabled[k] then counts[k] else 0)
  }

  /** The choice as written: the argmax of `Nfits`, which the source then
      maps to `fit0` .. `fit3`.  When the argmax lands on a strategy that
      was switched off, that `fit` variable was never assigned and the
      source raises; this is None. */
  function PickAsWritten(enabled: seq<bool>, counts: seq<int>): (r: Option<Strategy>)
    requires |enabled| == 4 && |counts| == 4
    ensures r.Some? ==> enabled[Code(r.value)]
    ensures r.Some? <==> enabled[ArgmaxFirst(Nfits(enabled, counts))]
  {
    var k := ArgmaxFirst(Nfits(enabled, counts));
    var st := StrategyOf(k);
    if enabled[k] then Some(st) else None
  }

  /** Only the row shift enabled and no full die anywhere: every entry of
      `Nfits` is 0, the argmax is the switched-off Grid, and the source
      reads the unassigned `fit0`. */
  lemma DisabledStrategyPicked()
    ensures PickAsWritten([false, true, false, false], [0, 0, 0, 0]).None?
  {
    var ns := Nfits([false, true, false, false], [0, 0, 0, 0]);
    assert ns == [0, 0, 0, 0];
    ArgmaxFirstUnique(ns, 0);
  }

  /** The first enabled strategy with the largest count among the enabled
      ones, searching from index `from` on. */
  function BestEnabledFrom(enabled: seq<bool>, counts: seq<int>, from: nat): (r: Option<nat>)
    requires |enabled| == |counts| && from <= |counts|
    ensures r.None? <==> forall a :: from <= a < |counts| ==> !enabled[a]
    ensures r.Some? ==> from <= r.value < |counts| && enabled[r.value]
    ensures r.Some? ==> forall a :: from <= a < |counts| && enabled[a] ==> counts[a] <= counts[r.value]
    ensures r.Some? ==> forall a :: from <= a < r.value && enabled[a] ==> counts[a] < counts[r.value]
    decreases |counts| - from
  {
    if from == |counts| then None
    else
      var rest := BestEnabledFrom(enabled, counts, from + 1);
      if !enabled[from] then rest
      else if rest.Some? && counts[rest.value] > counts[from] then rest
      else Some(from)
  }

  /** The corrected choice: the first enabled strategy with the largest
      count among the enabled ones; None only when nothing is enabled. */
  function PickEnabled(enabled: seq<bool>, counts: seq<int>): (r: Option<Strategy>)
    requires |enabled| == 4 && |counts| == 4
    ensures r.None? <==> forall a :: 0 <= a < 4 ==> !enabled[a]
    ensures r.Some? ==> enabled[Code(r.value)]
    ensures r.Some? ==> forall a :: 0 <= a < 4 && enabled[a] ==> counts[a] <= counts[Code(r.value)]
    ensures r.Some? ==> forall a :: 0 <= a < Code(r.value) && enabled[a] ==> counts[a] < counts[Code(r.value)]
  {
    match BestEnabledFrom(enabled, counts, 0)
    case None => None
    case Some(k) => Some(StrategyOf(k))
  }

  /** Whenever the choice as written does not fail, it is the corrected
      choice. */
  lemma PickAsWrittenAgrees(enabled: seq<bool>, counts: seq<int>)
    requires |enabled| == 4 && |counts| == 4
    requires PickAsWritten(enabled, counts).Some?
    ensures PickAsWritten(enabled, counts) == PickEnabled(enabled, counts)
  {
    var ns := Nfits(enabled, counts);
    var k := ArgmaxFirst(ns);
    var q := PickEnabled(enabled, counts);
    var j := Code(q.value);
    assert counts[k] <= counts[j];
    CodeRoundTrip(q.value);
  }

  /** The choice as written succeeds as soon as some enabled strategy
      found at least one full die. */
  lemma PickAsWrittenSucceeds(enabled: seq<bool>, counts: seq<int>, a: nat)
    requires |enabled| == 4 && |counts| == 4
    requires a < 4 && enabled[a] && counts[a] > 0
    ensures PickAsWritten(enabled, counts).Some?
  {
    var ns := Nfits(enabled, counts);
    var k := ArgmaxFirst(ns);
    assert ns[a] <= ns[k];
  }

  // ---------------------------------------------------------------------
  // Centre model: Grid, ShiftRows, ShiftCols, or the best of the three

  /** The chain `if N0 == max(...) ... elif N1 == max(...) ... elif N2 ...`. */
  function Select3(n0: int, n1: int, n2: int): (k: nat)
    ensures k < 3
    ensures [n0, n1, n2][k] >= n0 && [n0, n1, n2][k] >= n1 && [n0, n1, n2][k] >= n2
  {
    var m := if n0 >= n1 && n0 >= n2 then n0 else if n1 >= n2 then n1 else n2;
    if n0 == m then 0 else if n1 == m then 1 else 2
  }

  /** The chain of comparisons is numpy's first-occurrence argmax. */
  lemma Select3IsArgmax(n0: int, n1: int, n2: int)
    ensures Select3(n0, n1, n2) == ArgmaxFirst([n0, n1, n2])
  {
    ArgmaxFirstUnique([n0, n1, n2], Select3(n0, n1, n2));
  }

  /** The strategy the centre model goes on with, given the user's fit
      type (0..2 a single strategy, 3 the best of the three) and the three
      counts the best-of-three search finds; None when the source fails
      because no `fit` was assigned (a fit type outside 0..3). */
  function ChosenType(fitType: int, counts: seq<int>): (r: Option<nat>)
    requires |counts| == 3
    ensures r.Some? <==> 0 <= fitType <= 3
    ensures 0 <= fitType < 3 ==> r == Some(fitType)
    ensures fitType == 3 ==> r.Some? && r.value < 3 && forall a :: 0 <= a < 3 ==> counts[a] <= counts[r.value]
  {
    if 0 <= fitType < 3 then Some(fitType)
    else if fitType == 3 then Some(Select3(counts[0], counts[1], counts[2]))
    else None
  }

  /** The same in `opt/fit.py` as written: `fittype` is assigned only by the
      best-of-three chain, so a single-strategy run reads it unassigned. */
  function ChosenTypeAsWritten(fitType: int, counts: seq<int>): (r: Option<nat>)
    requires |counts| == 3
    ensures r.Some? <==> fitType == 3
    ensures r.Some? ==> r == ChosenType(fitType, counts)
  {
    if fitType == 3 then Some(Select3(counts[0], counts[1], counts[2])) else None
  }

  /** A Grid-only run: the version as written fails, the corrected one
      goes on with Grid. */
  lemma SingleTypeUnbound()
    ensures ChosenTypeAsWritten(0, [0, 0, 0]).None?
    ensures ChosenType(0, [0, 0, 0]) == Some(0)
  {
  }
}
