/** Collapsing infrequent categories of an integer-coded column into one code. */
module Categories {
  import opened Wrappers

  /** The defaults of the source: codes above 6 are collapsed into 6. */
  const DefaultCutoff: real := 6.0
  const DefaultReplace: real := 6.0

  /** A present code strictly above the cutoff. A missing cell never exceeds it,
      because a comparison with NaN is false. */
  predicate Exceeds(x: Option<real>, cutoff: real) {
    x.Some? && x.value > cutoff
  }

  /** A fresh column in which every code strictly greater than `cutoff` becomes
      `replace`; every other cell, missing ones included, is copied. The input
      column is a value and is never changed. */
  function CombineCat(s: seq<Option<real>>, cutoff: real, replace: real): (r: seq<Option<real>>)
    ensures |r| == |s|
    ensures forall i :: 0 <= i < |s| && Exceeds(s[i], cutoff) ==> r[i] == Some(replace)
    ensures forall i :: 0 <= i < |s| && !Exceeds(s[i], cutoff) ==> r[i] == s[i]
  {
    seq(|s|, i requires 0 <= i < |s| => if Exceeds(s[i], cutoff) then Some(replace) else s[i])
  }

  /** When `replace` equals `cutoff`, as with the defaults, the collapse is a
      clamp from above: a present code `x` becomes `min(x, cutoff)`. */
  lemma CombineCatIsClamp(s: seq<Option<real>>, cutoff: real, i: int)
    requires 0 <= i < |s| && s[i].Some?
    ensures CombineCat(s, cutoff, cutoff)[i].Some?
    ensures CombineCat(s, cutoff, cutoff)[i].value == if s[i].value <= cutoff then s[i].value else cutoff
  {
  }

  /** With the defaults no present code of the result exceeds 6, and codes up
      to 6 are kept. */
  lemma CombineCatDefaults(s: seq<Option<real>>)
    ensures DefaultReplace == DefaultCutoff
    ensures forall i :: 0 <= i < |s| ==> !Exceeds(CombineCat(s, DefaultCutoff, DefaultReplace)[i], 6.0)
    ensures forall i :: 0 <= i < |s| && s[i].Some? && s[i].value <= 6.0 ==>
              CombineCat(s, DefaultCutoff, DefaultReplace)[i] == s[i]
  {
  }

  /** When the replacement code is itself not above the cutoff, no present code
      of the result exceeds the cutoff, and collapsing again changes nothing. */
  lemma CombineCatIdempotent(s: seq<Option<real>>, cutoff: real, replace: real)
    requires replace <= cutoff
    ensures forall i :: 0 <= i < |s| ==> !Exceeds(CombineCat(s, cutoff, replace)[i], cutoff)
    ensures CombineCat(CombineCat(s, cutoff, replace), cutoff, replace) == CombineCat(s, cutoff, replace)
  {
  }

  /** The column comes back unchanged exactly when every code above the cutoff
      already equals the replacement code. */
  lemma CombineCatUnchangedIff(s: seq<Option<real>>, cutoff: real, replace: real)
    ensures CombineCat(s, cutoff, replace) == s
        <==> forall i :: 0 <= i < |s| && Exceeds(s[i], cutoff) ==> s[i].value == replace
  {
  }
}
