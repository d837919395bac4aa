/**
  Boundary outcomes of a run: a negative threshold, a matrix of two
  variables, and running again on the variables a run keeps.
*/
module Boundaries {
  import opened Outcomes
  import opened Entries
  import opened Matrices
  import opened Pruning
  import opened PruningProperties
  import opened Decisions

  /** Every correlation between distinct variables is defined and, being an absolute value, non-negative. */
  predicate AbsoluteCorrelations(corr: Matrix)
    requires IsSquare(corr)
  {
    && Complete(corr)
    && forall i, j :: 0 <= i < |corr| && 0 <= j < |corr| && i != j ==> corr[i][j].value >= 0.0
  }

  /** With two fewer removals than variables, two distinct variables are still live. */
  lemma TwoLive(n: nat, removed: seq<nat>) returns (i: nat, j: nat)
    requires Distinct(removed) && AllBelow(removed, n) && |removed| + 2 <= n
    ensures i < n && j < n && i != j && i !in removed && j !in removed
  {
    var live := Live(n, removed);
    LiveSize(n, removed);
    i :| i in live;
    assert |live - {i}| == |live| - 1;
    j :| j in live - {i};
  }

  lemma PairExceedsBelowZero(corr: Matrix, threshold: real, i: nat, j: nat)
    requires IsSquare(corr) && AbsoluteCorrelations(corr) && threshold < 0.0
    requires i < |corr| && j < |corr| && i != j
    ensures Exceeds(corr[i][j], threshold)
  {
  }

  /**
    Below zero every pair of distinct live variables exceeds the threshold, so
    the run removes variables until exactly one is left.
  */
  lemma NegativeThresholdLeavesOne(corr: Matrix, threshold: real, exact: bool)
    requires IsSquare(corr) && |corr| > 0 && AbsoluteCorrelations(corr) && threshold < 0.0
    requires !exact || |corr| != 2
    ensures FindCorrelationSpec(corr, threshold, exact).Success?
    ensures |FindCorrelationSpec(corr, threshold, exact).value| == |corr| - 1
  {
    if |corr| == 1 {
      NothingRemovedIffNoneExceeds(corr, threshold, exact);
      return;
    }
    PruneFailsOnlySmallExact(WithNanDiagonal(corr), threshold, exact, []);
    FindCorrelationSucceeds(corr, threshold, exact);
    var r := FindCorrelationSpec(corr, threshold, exact).value;
    if |r| + 2 <= |corr| {
      var i, j := TwoLive(|corr|, r);
      PairExceedsBelowZero(corr, threshold, i, j);
    }
  }

  /** `nanmean` of two entries of which the first is NaN. */
  lemma MeanAfterNaN(x: Entry)
    requires x.Num?
    ensures NanMean([NaN, x]) == x
  {
    assert [NaN, x][..1] == [NaN];
    assert [NaN][..0] == [];
    assert Count([NaN]) == 0 && Sum([NaN]) == 0.0;
    assert Count([NaN, x]) == 1 && Sum([NaN, x]) == x.value;
  }

  /** `nanmean` of two entries of which the second is NaN. */
  lemma MeanBeforeNaN(x: Entry)
    requires x.Num?
    ensures NanMean([x, NaN]) == x
  {
    assert [x, NaN][..1] == [x];
    assert [x][..0] == [];
    assert Count([x]) == 1 && Sum([x]) == x.value;
    assert Count([x, NaN]) == 1 && Sum([x, NaN]) == x.value;
  }

  /**
    With two variables whose correlation exceeds the threshold and the means
    of the initial matrix, both means equal that one correlation, the tie goes
    to `idx2`, and the result is `[1]`.
  */
  lemma TwoVariablesSnapshotRemovesSecond(corr: Matrix, threshold: real)
    requires IsSquare(corr) && |corr| == 2 && Symmetric(corr) && Exceeds(corr[0][1], threshold)
    ensures FindCorrelationSpec(corr, threshold, false) == Success([1])
  {
    var d := WithNanDiagonal(corr);
    assert Masked(d, []) == d;
    assert IsFirstExceeding(d, threshold, 0, 1);
    ArgmaxIsFirst(d, threshold, 0, 1);
    PruneUnfold(d, threshold, false, []);
    assert d[0] == [NaN, corr[0][1]] && d[1] == [corr[0][1], NaN];
    MeanAfterNaN(corr[0][1]);
    MeanBeforeNaN(corr[0][1]);
    assert Loser(d, [], false, 0, 1) == 1;
    var after := Masked(d, [1]);
    forall i, j | 0 <= i < 2 && 0 <= j < 2 ensures !Exceeds(after[i][j], threshold) {
      MaskedAt(d, [1], i, j);
    }
    PruneUnfold(d, threshold, false, [1]);
  }

  /** The variables a run keeps, in increasing order. */
  function Survivors(n: nat, removed: seq<nat>): (s: seq<nat>)
    ensures forall a :: 0 <= a < |s| ==> s[a] < n && s[a] !in removed
    ensures forall a, b :: 0 <= a < b < |s| ==> s[a] < s[b]
    ensures forall k :: 0 <= k < n && k !in removed ==> k in s
  {
    if n == 0 then []
    else Survivors(n - 1, removed) + (if n - 1 in removed then [] else [n - 1])
  }

  /** The correlation matrix of the columns `keep` of the table, which pairwise correlation reads off `corr`. */
  function Restrict(corr: Matrix, keep: seq<nat>): (m: Matrix)
    requires IsSquare(corr) && AllBelow(keep, |corr|)
    ensures IsSquare(m) && |m| == |keep|
    ensures forall a, b :: 0 <= a < |keep| && 0 <= b < |keep| ==> m[a][b] == corr[keep[a]][keep[b]]
  {
    seq(|keep|, a requires 0 <= a < |keep| => seq(|keep|, b requires 0 <= b < |keep| => corr[keep[a]][keep[b]]))
  }

  /** Some variable survives a run that removes fewer than all of them. */
  lemma SurvivorsNonEmpty(n: nat, removed: seq<nat>)
    requires Distinct(removed) && AllBelow(removed, n) && |removed| < n
    ensures |Survivors(n, removed)| > 0
  {
    LiveSize(n, removed);
    var k :| k in Live(n, removed);
    assert k in Survivors(n, removed);
  }

  /** Restricted to variables of which no two exceed the threshold, the matrix has no exceeding pair. */
  lemma RestrictNoneExceeding(corr: Matrix, threshold: real, keep: seq<nat>)
    requires IsSquare(corr) && AllBelow(keep, |corr|)
    requires forall a, b :: 0 <= a < |keep| && 0 <= b < |keep| && a != b ==> !Exceeds(corr[keep[a]][keep[b]], threshold)
    ensures !OffDiagonalExceeding(Restrict(corr, keep), threshold)
  {
  }

  /**
    Dropping the removed columns and running again with the same threshold
    and strategy removes nothing: the run reaches a fixed point.
  */
  lemma RerunRemovesNothing(corr: Matrix, threshold: real, exact: bool)
    requires IsSquare(corr) && FindCorrelationSpec(corr, threshold, exact).Success?
    ensures var r := FindCorrelationSpec(corr, threshold, exact).value;
      var keep := Survivors(|corr|, r);
      FindCorrelationSpec(Restrict(corr, keep), threshold, exact) == Success([])
  {
    FindCorrelationSucceeds(corr, threshold, exact);
    var r := FindCorrelationSpec(corr, threshold, exact).value;
    var keep := Survivors(|corr|, r);
    SurvivorsNonEmpty(|corr|, r);
    forall a, b | 0 <= a < |keep| && 0 <= b < |keep| && a != b ensures !Exceeds(corr[keep[a]][keep[b]], threshold) {
      assert keep[a] != keep[b];
    }
    RestrictNoneExceeding(corr, threshold, keep);
    NothingRemovedIffNoneExceeds(Restrict(corr, keep), threshold, exact);
  }
}
