/** Row-wise mean imputation: a missing cell takes the mean of the present
    cells of its own row, taken across every column of the table. */
module Imputation {
  import opened Wrappers
  import opened Tables

  /** A cell of a balance table; `None` is a missing value (NaN). */
  type Cell = Option<real>
  type Frame = seq<seq<Cell>>

  /** Row `r` exists in the rectangular table `t`. */
  predicate ValidRow(t: Frame, r: int) {
    Rectangular(t) && 0 <= r < Rows(t)
  }

  /** Some cell of row `r` among the first `k` columns is present. */
  predicate HasPresent(t: Frame, r: nat, k: nat)
    requires ValidRow(t, r) && k <= |t|
  {
    exists c :: 0 <= c < k && t[c][r].Some?
  }

  /** The sum of `n` copies of `x`, i.e. `n * x` built by repeated addition. */
  function Copies(n: nat, x: real): real {
    if n == 0 then 0.0 else Copies(n - 1, x) + x
  }

  /** The sum of the present cells of row `r` in the first `k` columns. */
  function PresentSum(t: Frame, r: nat, k: nat): real
    requires ValidRow(t, r) && k <= |t|
  {
    if k == 0 then 0.0 else PresentSum(t, r, k - 1) + t[k - 1][r].GetOr(0.0)
  }

  /** How many cells of row `r` in the first `k` columns are present. */
  function PresentCount(t: Frame, r: nat, k: nat): (n: nat)
    requires ValidRow(t, r) && k <= |t|
    ensures n <= k
  {
    if k == 0 then 0 else PresentCount(t, r, k - 1) + (if t[k - 1][r].Some? then 1 else 0)
  }

  lemma {:induction false} PresentCountBounds(t: Frame, r: nat, k: nat)
    requires ValidRow(t, r) && k <= |t|
    ensures PresentCount(t, r, k) > 0 <==> HasPresent(t, r, k)
    ensures PresentCount(t, r, k) == k <==> forall c :: 0 <= c < k ==> t[c][r].Some?
  {
    if k > 0 {
      PresentCountBounds(t, r, k - 1);
      if t[k - 1][r].Some? {
        assert HasPresent(t, r, k);
      } else if HasPresent(t, r, k) {
        var c :| 0 <= c < k && t[c][r].Some?;
        assert HasPresent(t, r, k - 1);
      }
    }
  }

  /** The mean of row `r` skipping missing cells (pandas `mean(axis=1)` with
      `skipna`); a row with no present cell has no mean (NaN). */
  function RowMean(t: Frame, r: nat): (m: Option<real>)
    requires ValidRow(t, r)
    ensures m.Some? <==> HasPresent(t, r, |t|)
    ensures m.Some? ==> Copies(PresentCount(t, r, |t|), m.value) == PresentSum(t, r, |t|)
  {
    PresentCountBounds(t, r, |t|);
    var n := PresentCount(t, r, |t|);
    if n == 0 then None
    else
      var q := PresentSum(t, r, |t|) / n as real;
      CopiesIsProduct(n, q);
      Some(q)
  }

  lemma {:induction false} PresentSumBounds(t: Frame, r: nat, k: nat, lo: real, hi: real)
    requires ValidRow(t, r) && k <= |t|
    requires forall c :: 0 <= c < |t| && t[c][r].Some? ==> lo <= t[c][r].value <= hi
    ensures Copies(PresentCount(t, r, k), lo) <= PresentSum(t, r, k) <= Copies(PresentCount(t, r, k), hi)
  {
    if k > 0 {
      PresentSumBounds(t, r, k - 1, lo, hi);
      if t[k - 1][r].Some? {
        assert lo <= t[k - 1][r].value <= hi;
      }
    }
  }

  /** The row mean lies between any lower and upper bound of the row's
      present cells; in particular it lies between their minimum and maximum,
      and a row whose present cells all equal `v` has mean `v`. */
  lemma MeanWithinBounds(t: Frame, r: nat, lo: real, hi: real)
    requires ValidRow(t, r)
    requires forall c :: 0 <= c < |t| && t[c][r].Some? ==> lo <= t[c][r].value <= hi
    requires RowMean(t, r).Some?
    ensures lo <= RowMean(t, r).value <= hi
  {
    var n := PresentCount(t, r, |t|);
    var m := RowMean(t, r).value;
    PresentSumBounds(t, r, |t|, lo, hi);
    PresentCountBounds(t, r, |t|);
    if m < lo {
      CopiesStrictlyMonotone(n, m, lo);
    }
    if hi < m {
      CopiesStrictlyMonotone(n, hi, m);
    }
  }

  /** A present cell is kept; a missing one takes the fill value, which may
      itself be missing (NaN). */
  function Fill(x: Cell, fill: Cell): Cell {
    if x.Some? then x else fill
  }

  /** `impute_balance`: the same shape, every present cell kept, every missing
      cell replaced by its row's mean over the ORIGINAL table. */
  function ImputeBalance(t: Frame): (u: Frame)
    requires Rectangular(t)
    ensures SameShape(t, u) && Rectangular(u) && Rows(u) == Rows(t)
    ensures forall c, r :: 0 <= c < |t| && 0 <= r < Rows(t) && t[c][r].Some? ==> u[c][r] == t[c][r]
    ensures forall c, r :: 0 <= c < |t| && 0 <= r < Rows(t) && t[c][r].None? ==> u[c][r] == RowMean(t, r)
  {
    seq(|t|, c requires 0 <= c < |t| =>
      seq(Rows(t), r requires 0 <= r < Rows(t) => Fill(t[c][r], RowMean(t, r))))
  }

  /** After imputation a row with a present cell has no missing cell left,
      while a row with no present cell stays entirely missing. */
  lemma ImputeBalanceRowCompletion(t: Frame, r: nat)
    requires ValidRow(t, r)
    ensures HasPresent(t, r, |t|) ==> forall c :: 0 <= c < |t| ==> ImputeBalance(t)[c][r].Some?
    ensures !HasPresent(t, r, |t|) ==> forall c :: 0 <= c < |t| ==> ImputeBalance(t)[c][r].None?
  {
  }

  /** A table without missing cells comes back unchanged. */
  lemma ImputeBalanceComplete(t: Frame)
    requires Rectangular(t)
    requires forall c, r :: 0 <= c < |t| && 0 <= r < Rows(t) ==> t[c][r].Some?
    ensures ImputeBalance(t) == t
  {
    var u := ImputeBalance(t);
    forall c | 0 <= c < |t|
      ensures u[c] == t[c]
    {
      assert forall r :: 0 <= r < Rows(t) ==> u[c][r] == t[c][r];
    }
  }

  /** Imputing twice is imputing once. */
  lemma ImputeBalanceIdempotent(t: Frame)
    requires Rectangular(t)
    ensures ImputeBalance(ImputeBalance(t)) == ImputeBalance(t)
  {
    var u := ImputeBalance(t);
    var w := ImputeBalance(u);
    forall c | 0 <= c < |t|
      ensures w[c] == u[c]
    {
      forall r | 0 <= r < Rows(t)
        ensures w[c][r] == u[c][r]
      {
        ImputeBalanceRowCompletion(t, r);
        if !HasPresent(t, r, |t|) {
          assert !HasPresent(u, r, |u|);
        }
      }
    }
  }

  /** Filling the missing cells of row `r` (first `k` columns) with `m`
      leaves no cell missing and adds one copy of `m` per missing cell to the
      row's sum. */
  lemma {:induction false} FilledRowSums(t: Frame, u: Frame, r: nat, k: nat, m: real)
    requires ValidRow(t, r) && ValidRow(u, r) && |u| == |t| && k <= |t|
    requires forall c :: 0 <= c < |t| ==> u[c][r] == Fill(t[c][r], Some(m))
    ensures PresentCount(u, r, k) == k
    ensures PresentSum(u, r, k) == PresentSum(t, r, k) + Copies(k - PresentCount(t, r, k), m)
  {
    if k > 0 {
      FilledRowSums(t, u, r, k - 1, m);
      assert u[k - 1][r] == Fill(t[k - 1][r], Some(m));
      if t[k - 1][r].None? {
        assert k - PresentCount(t, r, k) == (k - 1 - PresentCount(t, r, k - 1)) + 1;
      }
    }
  }

  /** Imputation does not move a row's mean: the row mean of the imputed
      table is the row mean of the original one. */
  lemma ImputeBalancePreservesMean(t: Frame, r: nat)
    requires ValidRow(t, r)
    ensures ValidRow(ImputeBalance(t), r)
    ensures RowMean(ImputeBalance(t), r) == RowMean(t, r)
  {
    var u := ImputeBalance(t);
    ImputeBalanceRowCompletion(t, r);
    match RowMean(t, r)
    case None =>
      assert !HasPresent(u, r, |u|);
    case Some(m) =>
      var k := |t|;
      var n := PresentCount(t, r, k);
      FilledRowSums(t, u, r, k, m);
      assert u[0][r].Some?;
      assert HasPresent(u, r, |u|);
      var m' := RowMean(u, r).value;
      CopiesAdd(n, k - n, m);
      assert Copies(k, m') == Copies(k, m);
      if m' < m {
        CopiesStrictlyMonotone(k, m', m);
      } else if m < m' {
        CopiesStrictlyMonotone(k, m, m');
      }
  }

  /** `impute_credit_debit`: as `ImputeBalance`, but the row mean is scaled by
      `1 + z[c]`, where `z[c]` is the one standard-normal draw taken while
      column `c` is filled and shared by every row of that column. */
  function ImputeCreditDebit(t: Frame, z: seq<real>): (u: Frame)
    requires Rectangular(t) && |z| == |t|
    ensures SameShape(t, u) && Rectangular(u) && Rows(u) == Rows(t)
    ensures forall c, r :: 0 <= c < |t| && 0 <= r < Rows(t) && t[c][r].Some? ==> u[c][r] == t[c][r]
    ensures forall c, r :: 0 <= c < |t| && 0 <= r < Rows(t) && t[c][r].None? ==>
              (u[c][r].Some? <==> HasPresent(t, r, |t|))
    ensures forall c, r :: 0 <= c < |t| && 0 <= r < Rows(t) && t[c][r].None? && u[c][r].Some? ==>
              u[c][r].value == RowMean(t, r).value * (1.0 + z[c])
  {
    seq(|t|, c requires 0 <= c < |t| =>
      seq(Rows(t), r requires 0 <= r < Rows(t) =>
        Fill(t[c][r], Jitter(RowMean(t, r), z[c]))))
  }

  /** A row mean scaled by `1 + draw`; a missing mean stays missing. */
  function Jitter(m: Option<real>, draw: real): Option<real> {
    match m
    case None => None
    case Some(v) => Some(v * (1.0 + draw))
  }

  /** With every draw equal to zero the jittered imputation is exactly the
      plain row-mean imputation. */
  lemma CreditDebitZeroDraws(t: Frame, z: seq<real>)
    requires Rectangular(t) && |z| == |t|
    requires forall c :: 0 <= c < |z| ==> z[c] == 0.0
    ensures ImputeCreditDebit(t, z) == ImputeBalance(t)
  {
    var u := ImputeCreditDebit(t, z);
    var v := ImputeBalance(t);
    forall c | 0 <= c < |t|
      ensures u[c] == v[c]
    {
      assert forall r :: 0 <= r < Rows(t) ==> u[c][r] == v[c][r];
    }
  }

  // Repeated addition, kept apart from the table structure.

  lemma {:induction false} CopiesIsProduct(n: nat, x: real)
    ensures Copies(n, x) == n as real * x
  {
    if n > 0 {
      CopiesIsProduct(n - 1, x);
      assert n as real * x == (n - 1) as real * x + x;
    }
  }

  lemma {:induction false} CopiesAdd(a: nat, b: nat, x: real)
    ensures Copies(a + b, x) == Copies(a, x) + Copies(b, x)
  {
    if b > 0 {
      CopiesAdd(a, b - 1, x);
    }
  }

  lemma {:induction false} CopiesStrictlyMonotone(n: nat, x: real, y: real)
    requires n > 0 && x < y
    ensures Copies(n, x) < Copies(n, y)
  {
    if n > 1 {
      CopiesStrictlyMonotone(n - 1, x, y);
    }
  }
}
