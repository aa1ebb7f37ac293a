# Column-wise feature transforms for churn scoring

A Dafny model of the feature-engineering transforms in `customfunctions.py`.
They are the steps of a tabular preprocessing pipeline. Each one takes columns
of a table and returns new derived columns. The input table is never changed.

A table is column-major: `t[c][r]` is the cell of column `c` in row `r`, and
all columns have the same length (`Tables.Rectangular`). Cell values are Dafny
`real`s. Where a cell may be missing (pandas NaN), it is an `Option<real>`.
Where pandas would raise an error (an index or conversion error), the model
returns `None`; `Scores.ScoreEqDist` says exactly which inputs do so.

Modules:

- `Wrappers`: the `Option` type.
- `Tables`: row count and shape predicates.
- `Categories`: `combine_cat`, the collapse of rare category codes.
- `Imputation`: `impute_balance` and `impute_credit_debit`, row-mean imputation
  that skips missing cells.
- `Changes`: `calculate_pct_change` and `calculate_ratio`, including their
  inverses (`Rebuild`, `Unratio`).
- `Scores`: `calculate_vintage_age_score_eqdist`, the fixed-bin vintage × age
  score.

Where the docstrings and the code disagree, the model follows the code:

- The `combine_cat` docstring says "greater than or equal to the cutoff". The
  code compares with `>`, so a code equal to the cutoff is kept.
- The score docstring asks for two columns. The code appends the vintage score
  as a new column before it reads column 1 as the age, so a one-column table
  bins its own vintage scores as ages (`Scores.AgeColumn`). Only a table
  without columns fails, on the first column read.

Two more choices follow the code:

- `impute_credit_debit` calls `np.random.randn()` inside the column loop, so
  there is one draw per column, shared by every row of that column. The draws
  are the parameter `z`, with one entry per column.
- `pd.cut`'s default right-closed bins put age 10 in `(0, 10]`, which has
  label 1 (`ScoreBoundaryCases`).

## Model

| member | source | states |
|---|---|---|
| Categories.CombineCat | customfunctions.py:18-21 | Same length. A present code strictly above the cutoff becomes `replace`. Every other cell is copied unchanged, missing cells included. |
| Categories.CombineCatIsClamp | customfunctions.py:10-21 | When `replace` equals `cutoff` (the defaults are 6 and 6), each present code `x` becomes `min(x, cutoff)`. |
| Categories.CombineCatDefaults | customfunctions.py:10 | With the default cutoff and replacement (both 6) no present result exceeds 6, and codes up to 6 are kept. |
| Categories.CombineCatIdempotent | customfunctions.py:19-20 | If `replace <= cutoff`, no present result code exceeds the cutoff, and collapsing a second time changes nothing. |
| Categories.CombineCatUnchangedIff | customfunctions.py:18-21 | The column comes back unchanged if and only if every code above the cutoff already equals `replace`. |
| Imputation.RowMean | customfunctions.py:47 | A row has a mean exactly when it has a present cell. The mean added once per present cell equals the sum of the present cells. |
| Imputation.MeanWithinBounds | customfunctions.py:47 | The row mean lies within any bounds of the row's present cells, so it lies between their minimum and maximum. |
| Imputation.ImputeBalance | customfunctions.py:44-49 | Same shape. Present cells are kept. A missing cell takes the mean of its row in the original table; with no mean it stays missing. |
| Imputation.ImputeBalanceRowCompletion | customfunctions.py:47 | After imputation, a row with a present cell has no missing cell. A row with no present cell stays entirely missing. |
| Imputation.ImputeBalanceComplete | customfunctions.py:44-49 | A table without missing cells comes back unchanged. |
| Imputation.ImputeBalanceIdempotent | customfunctions.py:44-49 | Imputing twice gives the same table as imputing once. |
| Imputation.ImputeBalancePreservesMean | customfunctions.py:47 | Every row of the imputed table has the same mean as in the original table, or, like the original row, no mean. |
| Imputation.FilledRowSums | customfunctions.py:47 | Filling a row's missing cells with `m` leaves the row without missing cells. The row sum grows by `m` for each filled cell. |
| Imputation.ImputeCreditDebit | customfunctions.py:59-64 | Same shape and present cells kept. A missing cell in column `c` is filled exactly when its row has a present cell. Its value is the row mean × `(1 + z[c])`. |
| Imputation.CreditDebitZeroDraws | customfunctions.py:60-62 | With every draw equal to 0, the jittered imputation equals `ImputeBalance`. |
| Changes.PctCell | customfunctions.py:79 | The change `p` of `a` against `b` satisfies `p·(b+1) = (a−b)·100`. |
| Changes.PctChange | customfunctions.py:74-81 | With `k ≥ 1` input columns there are `k−1` output columns (none for none), each with the input's row count. Cell `(i,r)` satisfies `p·(c_{i+1}[r]+1) = (c_i[r]−c_{i+1}[r])·100`. |
| Changes.PctChangeZeroOnEqual | customfunctions.py:79 | Where two adjacent columns are equal, their percent-change column is all zeros. |
| Changes.PctChangeSign | customfunctions.py:79 | For a later value above −1, the change is positive if and only if the earlier value is larger. |
| Changes.UndoPctInverts | customfunctions.py:79 | The earlier value rebuilt from a change `p` and a later value `b ≠ −1` has change exactly `p` against `b`. |
| Changes.UndoPctCell | customfunctions.py:79 | Rebuilding from the change of `a` against `b ≠ −1` gives back `a`, so the change is injective in the earlier value. |
| Changes.PctChangeTail | customfunctions.py:76-80 | Dropping the first input column drops the first output column. |
| Changes.PctChangeRoundTrip | customfunctions.py:76-80 | The latest column plus the percent changes rebuild the whole input table. |
| Changes.Ratio | customfunctions.py:90-97 | Fails exactly on a table with no columns. Otherwise it returns `k−1` columns with the input's row count (none for one column, whatever its values), and cell `(j,r)` × `(c_0[r]+1)` = `c_{j+1}[r]`. |
| Changes.RatioRoundTrip | customfunctions.py:92-95 | Multiplying the ratios by the denominator column plus one gives back the numerator columns. |
| Changes.RatioZeroDenominator | customfunctions.py:92-95 | An all-zero first column returns the numerator columns unchanged. |
| Scores.VintageScore | customfunctions.py:111-113 | Below 7000 the score is `s` with `1000(s−1) ≤ v < 1000s`, i.e. `v // 1000 + 1`. From 7000 on it is exactly 8. It never exceeds 8, and it is at least 1 for `v ≥ 0`. |
| Scores.VintageScoreMonotone | customfunctions.py:111-113 | A larger vintage never scores lower. |
| Scores.LocateBin | customfunctions.py:117-118 | A found bin holds the age in its right-closed interval. Finding none means no later bin holds it. |
| Scores.AgeScore | customfunctions.py:116-118 | An age has a score exactly when it lies in `(0, 100]`. The score `j` is in 1..8 with `edge[j−1] < age ≤ edge[j]`. |
| Scores.AgeScoreMonotone | customfunctions.py:117-118 | Within `(0, 100]`, an older age never scores lower. |
| Scores.ScoreBoundaryCases | customfunctions.py:111-118 | Age 10 → 1, 11 → 2, 100 → 8; ages 0 and 100.5 have no bin. Vintage 0 → 1, 6999 → 7, 7000 → 8. |
| Scores.AgeColumn | customfunctions.py:112-118 | The column binned as age is column 1 when there are two or more columns, and otherwise the vintage-score column appended on line 112. |
| Scores.VintageScoreAsAge | customfunctions.py:112-118 | A vintage score read as an age has a bin exactly when the vintage is not negative, and that bin is the first (label 1). |
| Scores.OneColumnAges | customfunctions.py:111-118 | In a one-column table every age has a bin exactly when no vintage is negative, and each such age scores 1. |
| Scores.ScoreEqDist | customfunctions.py:110-121 | Succeeds exactly when there are at least two columns with every age in `(0, 100]`, or exactly one column with no negative vintage. Then it gives one score per row: vintage score × age score (the vintage score alone for one column), in 1..64 for non-negative vintage. |
| Scores.ScoreShapeCases | customfunctions.py:110-121 | No columns fails; `[[500]]` gives `[1]`, `[[7500]]` gives `[8]`, `[[-1]]` fails; vintage 500 with age 10 gives 1. |
| Scores.ProductBounds | customfunctions.py:119 | A product of a vintage score and an age score lies in 1..64 when the vintage is non-negative. |

## Left out

- `log_transform` (customfunctions.py:24-35): it only applies the floating-point `log1p`, which has no exact counterpart over Dafny reals.
- `calculate_vintage_age_score_eqdens` (customfunctions.py:124-139): `pd.qcut` computes quantile edges from the data with pandas' own interpolation and tie rules. That code is not part of this model.
- The random generator behind `np.random.randn`: its draws are the input `z`.
- NaN and infinity arithmetic: missing cells are `None` only where imputation handles them. `PctChange` and `Ratio` require every denominator `x + 1` that they actually divide by to be non-zero, where pandas would yield infinity or NaN.
- Changes.PctChange: does not model missing cells. Pandas would propagate NaN through the arithmetic.
- Changes.Ratio: does not model missing cells, for the same reason.
- Scores.ScoreEqDist: does not model missing cells. A missing vintage would give that row a NaN score instead of failing, and a missing age would make the integer conversion on line 118 raise; reals cannot hold NaN.
- Pandas mechanics: `DataFrame.from_records(...).transpose()` and index alignment become plain sequences. The `(n, 1)` array from `reshape(-1, 1)` becomes a single sequence of scores. Integer and float dtypes both become `real`, and `//` becomes `Floor`, which agrees on both.
- The chained assignment on line 113 may act on a copy in pandas. The model applies the intended clamp to 8.
