/** Column-major tables: `t[c][r]` is the cell of column `c` in row `r`.
    Every column of a table has the same length, the number of rows. */
module Tables {

  /** The number of rows; a table without columns has none. */
  function Rows<T>(t: seq<seq<T>>): nat {
    if |t| == 0 then 0 else |t[0]|
  }

  /** All columns have the same length. */
  predicate Rectangular<T>(t: seq<seq<T>>) {
    forall c :: 0 <= c < |t| ==> |t[c]| == Rows(t)
  }

  /** `u` has exactly the rows and columns of `t`. */
  predicate SameShape<T, U>(t: seq<seq<T>>, u: seq<seq<U>>) {
    && |u| == |t|
    && forall c :: 0 <= c < |t| ==> |u[c]| == |t[c]|
  }
}
