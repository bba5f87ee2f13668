/**
 * Embedding vectors as they arrive from the pickle database or from the
 * embedding extractor, and the flattening both the loader and the matcher
 * apply to them (`np.array(e, dtype=float).flatten()`).
 */
module Vectors {
  import opened Roster

  /**
   * A raw embedding: a flat list of numbers, or a list of rows (for example
   * a `(1, 128)` array, or several stored samples of one face).
   */
  datatype RawVector = Vector(values: seq<real>) | Matrix(rows: seq<seq<real>>)

  /** All rows have the same length, so numpy can build a 2-D array from them. */
  ghost predicate Rectangular(rows: seq<seq<real>>) {
    forall i, j :: 0 <= i < |rows| && 0 <= j < |rows| ==> |rows[i]| == |rows[j]|
  }

  /** The rows laid end to end (row-major order). */
  function Concat(rows: seq<seq<real>>): (r: seq<real>)
    decreases |rows|
  {
    if rows == [] then [] else rows[0] + Concat(rows[1..])
  }

  /** Rows of one common width flatten to `rows * width` numbers. */
  lemma {:induction false} ConcatLength(rows: seq<seq<real>>, width: nat)
    requires forall i :: 0 <= i < |rows| ==> |rows[i]| == width
    ensures |Concat(rows)| == |rows| * width
    decreases |rows|
  {
    if rows != [] {
      ConcatLength(rows[1..], width);
      calc {
        |Concat(rows)|;
        width + |rows[1..]| * width;
        (1 + |rows[1..]|) * width;
      }
    }
  }

  /**
   * `_safe_flatten` / `np.array(e).flatten()`: a flat vector is returned as
   * it is; rows of equal length are concatenated; ragged rows make numpy
   * raise `ValueError`, modelled as `None`.
   */
  function Flatten(raw: RawVector): (r: Option<seq<real>>)
    ensures raw.Vector? ==> r.Some? && |r.value| == |raw.values| && r.value == raw.values
    ensures raw.Matrix? ==> (r.Some? <==> Rectangular(raw.rows))
    ensures raw.Matrix? && r.Some? && raw.rows != [] ==>
      r.value == Concat(raw.rows) && |r.value| == |raw.rows| * |raw.rows[0]|
    ensures raw.Matrix? && raw.rows == [] ==> r == Some([])
  {
    match raw
    case Vector(values) => Some(values)
    case Matrix(rows) =>
      if !Rect(rows) then None
      else if rows == [] then Some([])
      else
        ConcatLength(rows, |rows[0]|);
        Some(Concat(rows))
  }

  /** Executable test for `Rectangular`: every row is as long as the first. */
  function Rect(rows: seq<seq<real>>): (b: bool)
    ensures b <==> Rectangular(rows)
  {
    forall i :: 0 <= i < |rows| ==> |rows[i]| == |rows[0]|
  }
}
