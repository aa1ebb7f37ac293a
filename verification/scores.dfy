/** The vintage-age composite score with fixed, equal-distance bins. */
module Scores {
  import opened Wrappers
  import opened Tables

  /** Bin edges for age; bin `j` (1-based) is the right-closed interval
      `(AgeEdges[j - 1], AgeEdges[j]]`, as pandas `cut` builds by default. */
  const AgeEdges: seq<real> := [0.0, 10.0, 19.0, 29.0, 39.0, 49.0, 59.0, 69.0, 100.0]

  /** The label of bin `j` is `AgeLabels[j - 1]`. */
  const AgeLabels: seq<int> := [1, 2, 3, 4, 5, 6, 7, 8]

  /** Vintage at or above this value scores the maximum. */
  const VintageCap: real := 7000.0
  const MaxVintageScore: int := 8

  /** The vintage score: one point per started thousand (`v // 1000 + 1`),
      clamped to 8 from 7000 on. */
  function VintageScore(v: real): (s: int)
    ensures s <= MaxVintageScore
    ensures v >= VintageCap ==> s == MaxVintageScore
    ensures v < VintageCap ==> 1000.0 * (s - 1) as real <= v < 1000.0 * s as real
    ensures v >= 0.0 ==> 1 <= s
  {
    if v >= VintageCap then MaxVintageScore else (v / 1000.0).Floor + 1
  }

  /** A larger vintage never scores lower. */
  lemma VintageScoreMonotone(v: real, w: real)
    requires v <= w
    ensures VintageScore(v) <= VintageScore(w)
  {
  }

  /** Age lies in bin `j`. */
  predicate InAgeBin(age: real, j: int) {
    1 <= j < |AgeEdges| && AgeEdges[j - 1] < age <= AgeEdges[j]
  }

  /** The first bin after `j` that holds `age`, scanning the edges upwards. */
  function LocateBin(age: real, j: nat): (b: Option<int>)
    requires j < |AgeEdges|
    decreases |AgeEdges| - j
    ensures b.Some? ==> j < b.value && InAgeBin(age, b.value)
    ensures b.None? ==> forall i :: j < i < |AgeEdges| ==> !InAgeBin(age, i)
  {
    if j + 1 == |AgeEdges| then None
    else if InAgeBin(age, j + 1) then Some(j + 1)
    else LocateBin(age, j + 1)
  }

  /** The age score: the label of the bin holding `age`, or `None` when the
      age lies outside `(0, 100]` and pandas leaves the category missing. */
  function AgeScore(age: real): (s: Option<int>)
    ensures s.Some? <==> 0.0 < age <= 100.0
    ensures s.Some? ==> 1 <= s.value <= 8 && InAgeBin(age, s.value)
  {
    match LocateBin(age, 0)
    case None => None
    case Some(j) => Some(AgeLabels[j - 1])
  }

  /** An older age never scores lower. */
  lemma AgeScoreMonotone(a: real, b: real)
    requires 0.0 < a <= b <= 100.0
    ensures AgeScore(a).value <= AgeScore(b).value
  {
  }

  /** Boundary cases: an age on an edge belongs to the bin it closes, and the
      clamp takes over exactly at 7000. */
  lemma ScoreBoundaryCases()
    ensures AgeScore(10.0) == Some(1) && AgeScore(11.0) == Some(2)
    ensures AgeScore(100.0) == Some(8) && AgeScore(0.0).None? && AgeScore(100.5).None?
    ensures VintageScore(0.0) == 1 && VintageScore(6999.0) == 7 && VintageScore(7000.0) == 8
  {
  }

  /** Shape cases of the whole call: no columns fails; one column scores its
      vintage scores and fails only on a negative vintage. */
  lemma ScoreShapeCases()
    ensures ScoreEqDist([]).None?
    ensures ScoreEqDist([[500.0]]) == Some([1])
    ensures ScoreEqDist([[7500.0]]) == Some([8])
    ensures ScoreEqDist([[-1.0]]).None?
    ensures ScoreEqDist([[500.0], [10.0]]) == Some([1])
  {
    var one := ScoreEqDist([[500.0]]);
    assert Rows([[500.0]]) == 1 && [[500.0]][0][0] == 500.0;
    assert one.Some? && one.value[0] == VintageScore(500.0) == 1;
    assert one.value == [1];
    var cap := ScoreEqDist([[7500.0]]);
    assert Rows([[7500.0]]) == 1 && [[7500.0]][0][0] == 7500.0;
    assert cap.Some? && cap.value[0] == VintageScore(7500.0) == 8;
    assert cap.value == [8];
    assert [[-1.0]][0][0] == -1.0;
    var two := ScoreEqDist([[500.0], [10.0]]);
    assert [[500.0], [10.0]][1] == [10.0];
    assert two.Some? && two.value[0] == VintageScore(500.0) * AgeScore(10.0).value == 1;
    assert two.value == [1];
  }

  /** The column the source bins as age: `iloc[:, 1]`. The vintage score is
      appended as a new column before that read, so in a one-column table
      column 1 IS the vintage score. */
  function AgeColumn(t: seq<seq<real>>): (ages: seq<real>)
    requires Rectangular(t) && |t| >= 1
    ensures |ages| == Rows(t)
    ensures |t| >= 2 ==> ages == t[1]
    ensures |t| == 1 ==> forall r :: 0 <= r < |ages| ==> ages[r] == VintageScore(t[0][r]) as real
  {
    if |t| >= 2 then t[1]
    else seq(Rows(t), r requires 0 <= r < Rows(t) => VintageScore(t[0][r]) as real)
  }

  /** A vintage score read back as an age lands in the first bin, and has a
      bin at all exactly when the vintage is not negative. */
  lemma VintageScoreAsAge(v: real)
    ensures AgeScore(VintageScore(v) as real).Some? <==> v >= 0.0
    ensures v >= 0.0 ==> AgeScore(VintageScore(v) as real) == Some(1)
  {
  }

  /** `calculate_vintage_age_score_eqdist`: vintage in column 0, age in
      `AgeColumn`; one composite score per row, the product of the two scores.
      A table without columns fails, and so does any age outside every bin (a
      missing category that the integer conversion rejects). A one-column
      table bins its own vintage scores as ages, so each row scores its
      vintage score, provided no vintage is negative. */
  function ScoreEqDist(t: seq<seq<real>>): (s: Option<seq<int>>)
    requires Rectangular(t)
    ensures s.Some? <==>
              || (|t| >= 2 && forall r :: 0 <= r < |t[1]| ==> 0.0 < t[1][r] <= 100.0)
              || (|t| == 1 && forall r :: 0 <= r < |t[0]| ==> t[0][r] >= 0.0)
    ensures s.Some? ==> |s.value| == Rows(t)
    ensures s.Some? && |t| >= 2 ==> forall r :: 0 <= r < |s.value| ==>
              s.value[r] == VintageScore(t[0][r]) * AgeScore(t[1][r]).value
    ensures s.Some? && |t| == 1 ==> forall r :: 0 <= r < |s.value| ==>
              s.value[r] == VintageScore(t[0][r])
    ensures s.Some? ==> forall r :: 0 <= r < |s.value| && t[0][r] >= 0.0 ==> 1 <= s.value[r] <= 64
  {
    if |t| == 0 then None
    else
      var ages := AgeColumn(t);
      OneColumnAges(t);
      if exists r | 0 <= r < |ages| :: AgeScore(ages[r]).None? then None
      else
        var s := seq(Rows(t), r requires 0 <= r < Rows(t) => VintageScore(t[0][r]) * AgeScore(ages[r]).value);
        ProductBounds(t[0], ages, s);
        Some(s)
  }

  /** In a one-column table every binned age is a vintage score: it has a bin
      exactly when its vintage is not negative, and that bin is the first. */
  lemma OneColumnAges(t: seq<seq<real>>)
    requires Rectangular(t) && |t| >= 1
    ensures |t| == 1 ==> ((forall r :: 0 <= r < Rows(t) ==> AgeScore(AgeColumn(t)[r]).Some?)
                          <==> (forall r :: 0 <= r < Rows(t) ==> t[0][r] >= 0.0))
    ensures |t| == 1 ==> forall r :: 0 <= r < Rows(t) && t[0][r] >= 0.0 ==> AgeScore(AgeColumn(t)[r]) == Some(1)
  {
    if |t| == 1 {
      forall r | 0 <= r < Rows(t)
        ensures AgeScore(AgeColumn(t)[r]).Some? <==> t[0][r] >= 0.0
        ensures t[0][r] >= 0.0 ==> AgeScore(AgeColumn(t)[r]) == Some(1)
      {
        VintageScoreAsAge(t[0][r]);
      }
    }
  }

  /** Both scores lie in 1..8 for a non-negative vintage, so their product lies in 1..64. */
  lemma ProductBounds(vintages: seq<real>, ages: seq<real>, s: seq<int>)
    requires |vintages| == |ages| == |s|
    requires forall r :: 0 <= r < |ages| ==> AgeScore(ages[r]).Some?
    requires forall r :: 0 <= r < |s| ==> s[r] == VintageScore(vintages[r]) * AgeScore(ages[r]).value
    ensures forall r :: 0 <= r < |s| && vintages[r] >= 0.0 ==> 1 <= s[r] <= 64
  {
  }
}
