/**
  Entries of the working correlation matrix.

  The source keeps absolute correlations in a floating-point array in which NaN
  marks an entry that is not a correlation: the diagonal, the row and column of
  a removed variable, or a pair the correlation step could not compute. Here an
  entry is either a real number or NaN, and the two numpy operations the
  pruning loop applies to entries are modelled with NaN's semantics: a
  comparison involving NaN is false, and `nanmean` ignores NaN.
*/
module Entries {

  datatype Entry = NaN | Num(value: real)

  /** The elementwise test `corr_matrix > threshold`: NaN never exceeds it. */
  predicate Exceeds(e: Entry, threshold: real) {
    e.Num? && e.value > threshold
  }

  /** The comparison `mean_corr1 > mean_corr2` of two means, either of which may be NaN. */
  predicate Greater(a: Entry, b: Entry) {
    a.Num? && b.Num? && a.value > b.value
  }

  /** What an entry adds to a `nanmean` sum: its value, or nothing for NaN. */
  function Val(e: Entry): real {
    if e.Num? then e.value else 0.0
  }

  /** What an entry adds to a `nanmean` count: one, or nothing for NaN. */
  function Ind(e: Entry): nat {
    if e.Num? then 1 else 0
  }

  /** The sum of the defined entries of `s`. */
  function Sum(s: seq<Entry>): real {
    if s == [] then 0.0
    else Sum(s[..|s| - 1]) + Val(s[|s| - 1])
  }

  /** The number of defined entries of `s`. */
  function Count(s: seq<Entry>): nat {
    if s == [] then 0
    else Count(s[..|s| - 1]) + Ind(s[|s| - 1])
  }

  /** The positions of the defined entries of `s`. */
  ghost function Defined(s: seq<Entry>): set<nat> {
    set i: nat | i < |s| && s[i].Num?
  }

  lemma {:induction false} CountIsDefined(s: seq<Entry>)
    ensures Count(s) == |Defined(s)|
  {
    if s != [] {
      var p := s[..|s| - 1];
      CountIsDefined(p);
      var last := |s| - 1;
      if s[last].Num? {
        assert Defined(s) == Defined(p) + {last};
        assert last !in Defined(p);
      } else {
        assert Defined(s) == Defined(p);
      }
    }
  }

  /** numpy's `nanmean`: the mean of the defined entries, NaN when there are none. */
  function NanMean(s: seq<Entry>): (m: Entry)
    ensures m.Num? <==> exists i :: 0 <= i < |s| && s[i].Num?
  {
    CountIsDefined(s);
    assert (exists i :: 0 <= i < |s| && s[i].Num?) ==> Defined(s) != {} by {
      if i :| 0 <= i < |s| && s[i].Num? { assert i in Defined(s); }
    }
    if Count(s) == 0 then NaN else Num(Sum(s) / Count(s) as real)
  }

  /** Dividing by the same positive count keeps the order of two sums. */
  lemma QuotientOrder(x: real, y: real, c: real)
    requires c > 0.0
    ensures x / c > y / c <==> x > y
  {
    var q := x / c - y / c;
    assert q * c == x - y;
    if q > 0.0 {
      assert q * c > 0.0;
    } else {
      assert q * c <= 0.0;
    }
  }

  /**
    Two means over the same number of defined entries compare as their sums
    do, so the comparison at the heart of the pruning loop needs no division.
  */
  lemma GreaterMeansIffGreaterSums(a: seq<Entry>, b: seq<Entry>)
    requires Count(a) == Count(b) > 0
    ensures Greater(NanMean(a), NanMean(b)) <==> Sum(a) > Sum(b)
  {
    QuotientOrder(Sum(a), Sum(b), Count(a) as real);
  }
}
