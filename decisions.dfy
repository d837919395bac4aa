/**
  How each step of the loop decides: which pair it looks at, which of the two
  it removes, and what the two mean strategies compare.
*/
module Decisions {
  import opened Outcomes
  import opened Entries
  import opened Matrices
  import opened Pruning
  import PruningProperties

  /**
    With variables `before` removed, the scan's first exceeding entry in
    row-major order is `(i, j)` and the step removes `k`: `i` when its mean is
    strictly greater than `j`'s, and `j` otherwise, ties included.
  */
  predicate Decision(d: Matrix, threshold: real, exact: bool, before: seq<nat>, i: nat, j: nat, k: nat)
    requires IsSquare(d)
  {
    && IsFirstExceeding(Masked(d, before), threshold, i, j)
    && k == if Greater(CandidateMean(d, before, exact, i), CandidateMean(d, before, exact, j)) then i else j
  }

  /** `k` was removed by the decision taken once `before` had been removed; on a symmetric matrix its pair is ordered. */
  ghost predicate DecidedAt(d: Matrix, threshold: real, exact: bool, before: seq<nat>, k: nat)
    requires IsSquare(d)
  {
    exists i, j :: Decision(d, threshold, exact, before, i, j, k) && (Symmetric(d) ==> i < j)
  }

  /** Whenever the scan finds a pair, the variable the step removes is decided on it. */
  lemma StepDecided(d: Matrix, threshold: real, exact: bool, removed: seq<nat>)
    requires IsSquare(d) && NanDiagonal(d)
    requires Argmax(Masked(d, removed), threshold).0 != Argmax(Masked(d, removed), threshold).1
    ensures var p := Argmax(Masked(d, removed), threshold);
      p.0 < |d| && p.1 < |d| && DecidedAt(d, threshold, exact, removed, Loser(d, removed, exact, p.0, p.1))
  {
    var mat := Masked(d, removed);
    var p := Argmax(mat, threshold);
    assert IsFirstExceeding(mat, threshold, p.0, p.1);
    if Symmetric(d) {
      PruningProperties.MaskedKeepsSymmetry(d, removed);
      PruningProperties.MaskedKeepsNanDiagonal(d, removed);
      FirstExceedingIsAboveDiagonal(mat, threshold, p.0, p.1);
    }
    assert Decision(d, threshold, exact, removed, p.0, p.1, Loser(d, removed, exact, p.0, p.1));
  }

  /** From any reachable state, every further removal of a successful run is the decision taken in the state before it. */
  lemma {:induction false} PruneDecisions(d: Matrix, threshold: real, exact: bool, removed: seq<nat>, r: seq<nat>)
    requires IsSquare(d) && NanDiagonal(d) && Distinct(removed) && AllBelow(removed, |d|)
    requires Prune(d, threshold, exact, removed) == Success(r)
    ensures |removed| <= |r| && r[..|removed|] == removed
    ensures forall m :: |removed| <= m < |r| ==> DecidedAt(d, threshold, exact, r[..m], r[m])
    decreases |d| - |removed|
  {
    PruneUnfold(d, threshold, exact, removed);
    var p := Argmax(Masked(d, removed), threshold);
    if p.0 != p.1 {
      var k := Loser(d, removed, exact, p.0, p.1);
      var next := removed + [k];
      StepDecided(d, threshold, exact, removed);
      PruneDecisions(d, threshold, exact, next, r);
      assert r[..|removed|] == r[..|next|][..|removed|];
      assert r[|removed|] == r[..|next|][|removed|] == k;
      forall m | |removed| <= m < |r| ensures DecidedAt(d, threshold, exact, r[..m], r[m]) {
        if m == |removed| {
          assert r[..m] == removed;
        }
      }
    }
  }

  /**
    Each element of a successful run's removal list is the decision of the
    loop's iteration that appended it. On a symmetric matrix the pair decided
    on has `idx1 < idx2`, so a tie removes the higher-numbered variable.
  */
  lemma RemovalsAreDecisions(corr: Matrix, threshold: real, exact: bool)
    requires IsSquare(corr) && FindCorrelationSpec(corr, threshold, exact).Success?
    ensures var r := FindCorrelationSpec(corr, threshold, exact).value;
      forall m :: 0 <= m < |r| ==> DecidedAt(WithNanDiagonal(corr), threshold, exact, r[..m], r[m])
  {
    var d := WithNanDiagonal(corr);
    assert |d| > 0;
    PruneDecisions(d, threshold, exact, [], FindCorrelationSpec(corr, threshold, exact).value);
  }

  /** Every off-diagonal correlation is a number: no pair was left undefined by the correlation step. */
  predicate Complete(corr: Matrix)
    requires IsSquare(corr)
  {
    forall i, j :: 0 <= i < |corr| && 0 <= j < |corr| && i != j ==> corr[i][j].Num?
  }

  /** In a complete matrix, a live variable's column is defined exactly at the other live variables. */
  lemma LiveColumnDefined(corr: Matrix, removed: seq<nat>, k: nat)
    requires IsSquare(corr) && Complete(corr) && k < |corr| && k !in removed
    ensures Defined(Column(Masked(WithNanDiagonal(corr), removed), k)) == Live(|corr|, removed) - {k}
  {
    var d := WithNanDiagonal(corr);
    var m := Masked(d, removed);
    var c := Column(m, k);
    forall x | x in Defined(c) ensures x in Live(|corr|, removed) - {k} {
      MaskedAt(d, removed, x, k);
    }
    forall x | x in Live(|corr|, removed) - {k} ensures x in Defined(c) {
      MaskedAt(d, removed, x, k);
      assert c[x] == m[x][k] == d[x][k] == corr[x][k];
    }
  }

  /** In a complete matrix, a live variable's column has a defined entry for each other live variable. */
  lemma LiveColumnCount(corr: Matrix, removed: seq<nat>, k: nat)
    requires IsSquare(corr) && Complete(corr) && Distinct(removed) && AllBelow(removed, |corr|)
    requires k < |corr| && k !in removed
    ensures Count(Column(Masked(WithNanDiagonal(corr), removed), k)) == |corr| - |removed| - 1
  {
    var c := Column(Masked(WithNanDiagonal(corr), removed), k);
    LiveColumnDefined(corr, removed, k);
    CountIsDefined(c);
    LiveSize(|corr|, removed);
    assert k in Live(|corr|, removed);
  }

  /**
    With `exact`, the two candidates' columns in the current matrix have the
    same number of defined entries (the live variables but one), so their
    means compare as their sums over the live variables.
  */
  lemma ExactMeansCompareAsSums(corr: Matrix, removed: seq<nat>, i: nat, j: nat)
    requires IsSquare(corr) && Complete(corr) && Distinct(removed) && AllBelow(removed, |corr|)
    requires i < |corr| && j < |corr| && i != j && i !in removed && j !in removed
    ensures var d := WithNanDiagonal(corr);
      var m := Masked(d, removed);
      Greater(CandidateMean(d, removed, true, i), CandidateMean(d, removed, true, j)) <==> Sum(Column(m, i)) > Sum(Column(m, j))
  {
    var m := Masked(WithNanDiagonal(corr), removed);
    LiveColumnCount(corr, removed, i);
    LiveColumnCount(corr, removed, j);
    LiveSize(|corr|, removed);
    assert {i, j} <= Live(|corr|, removed);
    SubsetSize({i, j}, Live(|corr|, removed));
    GreaterMeansIffGreaterSums(Column(m, i), Column(m, j));
  }

  /** In a complete matrix, each row of the diagonal-masked matrix has `n - 1` defined entries. */
  lemma RowCount(corr: Matrix, k: nat)
    requires IsSquare(corr) && Complete(corr) && k < |corr|
    ensures Count(WithNanDiagonal(corr)[k]) == |corr| - 1
  {
    var row := WithNanDiagonal(corr)[k];
    assert Defined(row) == Range(|corr|) - {k};
    CountIsDefined(row);
  }

  /**
    Without `exact`, the candidates' means are their rows' means in the
    initial matrix, each over the other `n - 1` variables, so they compare as
    the initial row sums do, whatever has been removed since.
  */
  lemma SnapshotMeansCompareAsSums(corr: Matrix, removed: seq<nat>, i: nat, j: nat)
    requires IsSquare(corr) && Complete(corr) && i < |corr| && j < |corr| && |corr| >= 2
    ensures var d := WithNanDiagonal(corr);
      Greater(CandidateMean(d, removed, false, i), CandidateMean(d, removed, false, j)) <==> Sum(d[i]) > Sum(d[j])
  {
    var d := WithNanDiagonal(corr);
    RowCount(corr, i);
    RowCount(corr, j);
    GreaterMeansIffGreaterSums(d[i], d[j]);
  }
}
