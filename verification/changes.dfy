/** Derived features between columns: the offset percent change between
    consecutive periods and the offset ratio against a common denominator. */
module Changes {
  import opened Wrappers
  import opened Tables

  type Grid = seq<seq<real>>

  /** No cell of columns `from ..` equals -1, so every `x + 1` denominator
      built from them is non-zero. */
  predicate OffsetNonZero(t: Grid, from: nat) {
    forall c, r :: from <= c < |t| && 0 <= r < |t[c]| ==> t[c][r] != -1.0
  }

  /** The offset percent change of one cell: `(a - b) / (b + 1) * 100`. */
  function PctCell(a: real, b: real): (p: real)
    requires b != -1.0
    ensures p * (b + 1.0) == (a - b) * 100.0
  {
    (a - b) / (b + 1.0) * 100.0
  }

  /** `calculate_pct_change`: one output column per adjacent pair of input
      columns, `(c_i - c_{i+1}) / (c_{i+1} + 1) * 100` cell by cell; a table
      with fewer than two columns has no pairs. */
  function PctChange(t: Grid): (p: Grid)
    requires Rectangular(t) && OffsetNonZero(t, 1)
    ensures |p| == if |t| == 0 then 0 else |t| - 1
    ensures forall i :: 0 <= i < |p| ==> |p[i]| == Rows(t)
    ensures forall i, r :: 0 <= i < |p| && 0 <= r < |p[i]| ==>
              p[i][r] * (t[i + 1][r] + 1.0) == (t[i][r] - t[i + 1][r]) * 100.0
  {
    if |t| <= 1 then []
    else seq(|t| - 1, i requires 0 <= i < |t| - 1 =>
           seq(Rows(t), r requires 0 <= r < Rows(t) => PctCell(t[i][r], t[i + 1][r])))
  }

  /** Where two adjacent columns agree, the percent change is zero. */
  lemma PctChangeZeroOnEqual(t: Grid, i: nat)
    requires Rectangular(t) && OffsetNonZero(t, 1)
    requires i + 1 < |t| && t[i] == t[i + 1]
    ensures forall r :: 0 <= r < Rows(t) ==> PctChange(t)[i][r] == 0.0
  {
  }

  /** The change is positive exactly when the earlier column is larger, as
      long as the later value exceeds -1. */
  lemma PctChangeSign(t: Grid, i: nat, r: nat)
    requires Rectangular(t) && OffsetNonZero(t, 1)
    requires i + 1 < |t| && r < Rows(t) && t[i + 1][r] > -1.0
    ensures PctChange(t)[i][r] > 0.0 <==> t[i][r] > t[i + 1][r]
  {
  }

  /** Undoing one percent change: the earlier value recovered from the later
      value `b` and the change `p`. */
  function UndoPct(p: real, b: real): real {
    b + p * (b + 1.0) / 100.0
  }

  /** The recovered earlier value has exactly the change it was rebuilt from. */
  lemma UndoPctInverts(p: real, b: real)
    requires b != -1.0
    ensures PctCell(UndoPct(p, b), b) == p
  {
    var d, q := b + 1.0, p / 100.0;
    assert UndoPct(p, b) - b == q * d;
    MulDivCancel(q, d);
    assert q * 100.0 == p;
  }

  lemma MulDivCancel(q: real, d: real)
    requires d != 0.0
    ensures (q * d) / d == q
  {
  }

  /** Rebuilds every column from the last one and the percent changes, going
      backwards from the latest period to the earliest. */
  function Rebuild(last: seq<real>, p: Grid): (t: Grid)
    requires forall i :: 0 <= i < |p| ==> |p[i]| == |last|
    ensures |t| == |p| + 1 && t[|p|] == last
    ensures forall c :: 0 <= c < |t| ==> |t[c]| == |last|
  {
    if |p| == 0 then [last]
    else
      var rest := Rebuild(last, p[1..]);
      [seq(|last|, r requires 0 <= r < |last| => UndoPct(p[0][r], rest[0][r]))] + rest
  }

  /** Undoing a percent change gives back the earlier value. */
  lemma UndoPctCell(a: real, b: real)
    requires b != -1.0
    ensures UndoPct(PctCell(a, b), b) == a
  {
  }

  /** Dropping the earliest column drops the first percent-change column. */
  lemma PctChangeTail(t: Grid)
    requires Rectangular(t) && OffsetNonZero(t, 1) && |t| >= 2
    ensures Rectangular(t[1..]) && OffsetNonZero(t[1..], 1)
    ensures PctChange(t)[1..] == PctChange(t[1..])
  {
  }

  /** The percent changes together with the latest column determine the
      whole table: `Rebuild` inverts `PctChange`. */
  lemma {:induction false} PctChangeRoundTrip(t: Grid)
    requires Rectangular(t) && OffsetNonZero(t, 1) && |t| >= 1
    ensures Rebuild(t[|t| - 1], PctChange(t)) == t
  {
    if |t| >= 2 {
      var p := PctChange(t);
      var last := t[|t| - 1];
      PctChangeTail(t);
      PctChangeRoundTrip(t[1..]);
      assert t[1..][|t[1..]| - 1] == last;
      var rest := Rebuild(last, p[1..]);
      assert rest == t[1..];
      var rebuilt := Rebuild(last, p);
      assert rebuilt[1..] == rest;
      forall r | 0 <= r < |last|
        ensures rebuilt[0][r] == t[0][r]
      {
        UndoPctCell(t[0][r], t[1][r]);
      }
      assert rebuilt[0] == t[0];
      assert rebuilt == [t[0]] + t[1..];
    }
  }

  /** `calculate_ratio`: every column after the first divided by the first
      column plus one, cell by cell. A table without columns has no first
      column, and the source fails on it (`None`). */
  function Ratio(t: Grid): (q: Option<Grid>)
    requires Rectangular(t) && (|t| > 1 ==> forall r :: 0 <= r < |t[0]| ==> t[0][r] != -1.0)
    ensures q.None? <==> |t| == 0
    ensures q.Some? ==> |q.value| == |t| - 1
    ensures q.Some? ==> forall j :: 0 <= j < |q.value| ==> |q.value[j]| == Rows(t)
    ensures q.Some? ==> forall j, r :: 0 <= j < |q.value| && 0 <= r < |q.value[j]| ==>
              q.value[j][r] * (t[0][r] + 1.0) == t[j + 1][r]
  {
    if |t| == 0 then None
    else Some(seq(|t| - 1, j requires 0 <= j < |t| - 1 =>
                seq(Rows(t), r requires 0 <= r < Rows(t) => t[j + 1][r] / (t[0][r] + 1.0))))
  }

  /** Multiplying the ratios back by the offset denominator. */
  function Unratio(den: seq<real>, q: Grid): (t: Grid)
    requires forall j :: 0 <= j < |q| ==> |q[j]| == |den|
    ensures |t| == |q| && forall j :: 0 <= j < |t| ==> |t[j]| == |den|
  {
    seq(|q|, j requires 0 <= j < |q| =>
      seq(|den|, r requires 0 <= r < |den| => q[j][r] * (den[r] + 1.0)))
  }

  /** The ratios and the denominator column determine the numerator columns. */
  lemma RatioRoundTrip(t: Grid)
    requires Rectangular(t) && |t| > 0 && forall r :: 0 <= r < |t[0]| ==> t[0][r] != -1.0
    ensures Unratio(t[0], Ratio(t).value) == t[1..]
  {
    var u := Unratio(t[0], Ratio(t).value);
    forall j | 0 <= j < |u|
      ensures u[j] == t[j + 1]
    {
      assert forall r :: 0 <= r < |u[j]| ==> u[j][r] == t[j + 1][r];
    }
  }

  /** With an all-zero denominator column the offset makes every divisor 1,
      so the numerator columns come back unchanged. */
  lemma RatioZeroDenominator(t: Grid)
    requires Rectangular(t) && |t| > 0 && forall r :: 0 <= r < |t[0]| ==> t[0][r] == 0.0
    ensures Ratio(t) == Some(t[1..])
  {
    var q := Ratio(t).value;
    forall j | 0 <= j < |q|
      ensures q[j] == t[j + 1]
    {
      assert forall r :: 0 <= r < |q[j]| ==> q[j][r] == t[j + 1][r];
    }
    assert q == t[1..];
  }
}
