/** Generic helpers shared by the dies-per-wafer model: an option type,
    boolean-mask counting (numpy's `mask.sum()`), sequence reversal
    (numpy's `flip`) and row flattening (numpy's `ndenumerate` order). */
module Basics {

  datatype Option<+T> = None | Some(value: T)

  datatype Result<+T, +E> = Ok(value: T) | Err(error: E)

  /** The number of `true` entries of a mask. */
  function Count(bs: seq<bool>): (n: nat)
    ensures n <= |bs|
    ensures n == 0 <==> forall k :: 0 <= k < |bs| ==> !bs[k]
    ensures n == |bs| <==> forall k :: 0 <= k < |bs| ==> bs[k]
  {
    if |bs| == 0 then 0
    else
      var n := Count(bs[..|bs| - 1]) + (if bs[|bs| - 1] then 1 else 0);
      assert forall k :: 0 <= k < |bs| - 1 ==> bs[..|bs| - 1][k] == bs[k];
      n
  }

  /** The indices at which a mask is `true`. */
  function TrueIndices(bs: seq<bool>): set<nat>
  {
    set k: nat | k < |bs| && bs[k]
  }

  /** `Count` is the cardinality of the set of marked indices. */
  lemma {:induction false} CountIsCardinality(bs: seq<bool>)
    ensures Count(bs) == |TrueIndices(bs)|
  {
    if |bs| > 0 {
      var m := |bs| - 1;
      var front := bs[..m];
      CountIsCardinality(front);
      assert TrueIndices(front) == set k: nat | k < m && bs[k];
      if bs[m] {
        assert TrueIndices(bs) == TrueIndices(front) + {m};
        assert m !in TrueIndices(front);
      } else {
        assert TrueIndices(bs) == TrueIndices(front);
      }
    }
  }

  /** numpy's `flip`. */
  function Reverse<T>(s: seq<T>): (r: seq<T>)
    ensures |r| == |s|
    ensures forall k :: 0 <= k < |s| ==> r[k] == s[|s| - 1 - k]
  {
    if |s| == 0 then [] else [s[|s| - 1]] + Reverse(s[..|s| - 1])
  }

  /** The rows of a two-dimensional array laid end to end, in the order
      numpy's `ndenumerate` visits a C-ordered array. */
  function Flatten<T>(rows: seq<seq<T>>): seq<T>
  {
    if |rows| == 0 then [] else Flatten(rows[..|rows| - 1]) + rows[|rows| - 1]
  }

  /** Row-major positions stay inside the flattened array. */
  lemma RowMajorBound(r: nat, c: nat, rows: nat, b: nat)
    requires r < rows && c < b
    ensures r * b + c < rows * b
  {
    assert r * b + c < r * b + b == (r + 1) * b;
    assert (r + 1) * b <= rows * b;
  }

  /** The flattened array of rows of a common length `b` has `|rows| * b`
      entries. */
  lemma {:induction false} FlattenLength<T>(rows: seq<seq<T>>, b: nat)
    requires forall r :: 0 <= r < |rows| ==> |rows[r]| == b
    ensures |Flatten(rows)| == |rows| * b
  {
    if |rows| > 0 {
      FlattenLength(rows[..|rows| - 1], b);
      assert |rows| * b == (|rows| - 1) * b + b;
    }
  }

  /** With rows of a common length `b`, entry (r, c) of the array sits at
      position r * b + c of the flattened sequence. */
  lemma {:induction false} FlattenIndex<T>(rows: seq<seq<T>>, b: nat, r: nat, c: nat)
    requires forall q :: 0 <= q < |rows| ==> |rows[q]| == b
    requires r < |rows| && c < b
    ensures r * b + c < |Flatten(rows)|
    ensures Flatten(rows)[r * b + c] == rows[r][c]
  {
    FlattenLength(rows, b);
    RowMajorBound(r, c, |rows|, b);
    var m := |rows| - 1;
    var front := rows[..m];
    FlattenLength(front, b);
    if r < m {
      FlattenIndex(front, b, r, c);
      RowMajorBound(r, c, m, b);
    } else {
      assert r * b + c == m * b + c;
    }
  }

  /** Conversely, every position of the flattened sequence holds some
      entry (r, c) of the array. */
  lemma FlattenEntry<T>(rows: seq<seq<T>>, b: nat, k: nat) returns (r: nat, c: nat)
    requires forall q :: 0 <= q < |rows| ==> |rows[q]| == b
    requires k < |Flatten(rows)|
    ensures r < |rows| && c < b
    ensures Flatten(rows)[k] == rows[r][c]
  {
    FlattenLength(rows, b);
    r, c := k / b, k % b;
    RowOfPosition(k, |rows|, b);
    FlattenIndex(rows, b, r, c);
  }

  /** Position k of a row-major array with `rows` rows of length b lies
      in row k / b. */
  lemma RowOfPosition(k: nat, rows: nat, b: nat)
    requires b > 0 && k < rows * b
    ensures k / b < rows && k / b * b + k % b == k
  {
  }

  // ---------------------------------------------------------------------
  // Integer multiples of a real

  /** The real `k * x` for an integer count k, kept as one term so that
      linear facts about multiples stay linear for the solver. */
  function Times(k: int, x: real): real
  {
    k as real * x
  }

  /** Multiples of a real distribute over integer addition. */
  lemma ScaleAdd(a: int, b: int, c: real)
    ensures (a + b) as real * c == a as real * c + b as real * c
  {
  }

  /** Multiples of a non-negative real grow with the integer. */
  lemma ScaleMonotone(a: int, b: int, c: real)
    requires a <= b && c >= 0.0
    ensures a as real * c <= b as real * c
  {
    ScaleAdd(a, b - a, c);
    assert (b - a) as real * c >= 0.0;
  }

  /** A non-negative multiple grows with the real. */
  lemma ScaleFactorMonotone(n: int, c: real, d: real)
    requires n >= 0 && c <= d
    ensures n as real * c <= n as real * d
  {
    assert n as real * d - n as real * c == n as real * (d - c);
  }
}
