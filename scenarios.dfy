/**
  Two three-variable runs worked out in full: an example with one redundant
  pair, and a matrix on which the two mean strategies remove different
  variables.
*/
module Scenarios {
  import opened Outcomes
  import opened Entries
  import opened Matrices
  import opened Pruning

  /** `nanmean` bookkeeping for a column or row of three entries. */
  lemma SumCountThree(a: Entry, b: Entry, c: Entry)
    ensures Count([a, b, c]) == Ind(a) + Ind(b) + Ind(c)
    ensures Sum([a, b, c]) == Val(a) + Val(b) + Val(c)
  {
    assert [a, b, c][..2] == [a, b];
    assert [a, b][..1] == [a];
    assert [a][..0] == [];
    assert Count([a]) == Ind(a) && Sum([a]) == Val(a);
    assert Count([a, b]) == Ind(a) + Ind(b) && Sum([a, b]) == Val(a) + Val(b);
  }

  /** A step of a run on three or more variables whose scan finds `(i, j)`, leading to the removals `next`. */
  lemma StepTo(d: Matrix, threshold: real, exact: bool, removed: seq<nat>, i: nat, j: nat, next: seq<nat>)
    requires IsSquare(d) && Distinct(removed) && AllBelow(removed, |d|) && |d| >= 3
    requires Argmax(Masked(d, removed), threshold) == (i, j) && i != j && i < |d| && j < |d|
    requires next == removed + [Loser(d, removed, exact, i, j)]
    ensures Distinct(next) && AllBelow(next, |d|)
    ensures Prune(d, threshold, exact, removed) == Prune(d, threshold, exact, next)
  {
    PruneUnfold(d, threshold, exact, removed);
  }

  /** Variables A, B, C with |AB| = 0.95, |AC| = 0.40 and |BC| = 0.30, as the correlation step returns them. */
  function Abc(): Matrix {
    [[Num(1.0), Num(0.95), Num(0.40)],
     [Num(0.95), Num(1.0), Num(0.30)],
     [Num(0.40), Num(0.30), Num(1.0)]]
  }

  /** The working matrix of the example once its diagonal is masked. */
  lemma AbcDiagonal()
    ensures WithNanDiagonal(Abc()) == [[NaN, Num(0.95), Num(0.40)], [Num(0.95), NaN, Num(0.30)], [Num(0.40), Num(0.30), NaN]]
  {
    var d := WithNanDiagonal(Abc());
    assert d[0] == [NaN, Num(0.95), Num(0.40)];
    assert d[1] == [Num(0.95), NaN, Num(0.30)];
    assert d[2] == [Num(0.40), Num(0.30), NaN];
  }

  /** Both candidate means of the first step, with either strategy: A's is 0.675, B's 0.625. */
  lemma AbcMeans(exact: bool)
    ensures var d := WithNanDiagonal(Abc());
      CandidateMean(d, [], exact, 0) == Num(1.35 / 2.0) && CandidateMean(d, [], exact, 1) == Num(1.25 / 2.0)
  {
    AbcDiagonal();
    var d := WithNanDiagonal(Abc());
    assert Masked(d, []) == d;
    assert Column(d, 0) == d[0];
    assert Column(d, 1) == d[1];
    SumCountThree(NaN, Num(0.95), Num(0.40));
    SumCountThree(Num(0.95), NaN, Num(0.30));
  }

  /** The scan finds (A, B), and A's mean beats B's, so A goes first. */
  lemma AbcFirstStep(exact: bool)
    ensures var d := WithNanDiagonal(Abc());
      Prune(d, 0.9, exact, []) == Prune(d, 0.9, exact, [0])
  {
    AbcDiagonal();
    var d := WithNanDiagonal(Abc());
    assert Masked(d, []) == d;
    assert IsFirstExceeding(d, 0.9, 0, 1);
    ArgmaxIsFirst(d, 0.9, 0, 1);
    PruneUnfold(d, 0.9, exact, []);
    AbcMeans(exact);
    assert Loser(d, [], exact, 0, 1) == 0;
  }

  /** With A masked, B and C correlate at 0.30 and the run stops. */
  lemma AbcStops(exact: bool)
    ensures var d := WithNanDiagonal(Abc());
      Prune(d, 0.9, exact, [0]) == Success([0])
  {
    AbcDiagonal();
    var d := WithNanDiagonal(Abc());
    var after := Masked(d, [0]);
    forall i, j | 0 <= i < 3 && 0 <= j < 3 ensures !Exceeds(after[i][j], 0.9) {
      MaskedAt(d, [0], i, j);
    }
    PruneUnfold(d, 0.9, exact, [0]);
  }

  /**
    At threshold 0.9 only the pair (A, B) exceeds; A has the greater mean, so A
    is removed and the rest stays, with either strategy.
  */
  lemma AbcRemovesA(exact: bool)
    ensures FindCorrelationSpec(Abc(), 0.9, exact) == Success([0])
  {
    AbcFirstStep(exact);
    AbcStops(exact);
  }

  /** Three variables, all pairs above threshold 0.5: |01| = 0.9, |02| = 0.8, |12| = 0.6. */
  function Chain(): Matrix {
    [[Num(1.0), Num(0.9), Num(0.8)],
     [Num(0.9), Num(1.0), Num(0.6)],
     [Num(0.8), Num(0.6), Num(1.0)]]
  }

  /** The working matrix of the second example once its diagonal is masked. */
  lemma ChainDiagonal()
    ensures WithNanDiagonal(Chain()) == [[NaN, Num(0.9), Num(0.8)], [Num(0.9), NaN, Num(0.6)], [Num(0.8), Num(0.6), NaN]]
  {
    var d := WithNanDiagonal(Chain());
    assert d[0] == [NaN, Num(0.9), Num(0.8)];
    assert d[1] == [Num(0.9), NaN, Num(0.6)];
    assert d[2] == [Num(0.8), Num(0.6), NaN];
  }

  /** The first step's means, with either strategy: 0.85 for variable 0 and 0.75 for variable 1. */
  lemma ChainFirstMeans(exact: bool)
    ensures var d := WithNanDiagonal(Chain());
      CandidateMean(d, [], exact, 0) == Num(1.7 / 2.0) && CandidateMean(d, [], exact, 1) == Num(1.5 / 2.0)
  {
    ChainDiagonal();
    var d := WithNanDiagonal(Chain());
    assert Masked(d, []) == d;
    assert Column(d, 0) == d[0];
    assert Column(d, 1) == d[1];
    SumCountThree(NaN, Num(0.9), Num(0.8));
    SumCountThree(Num(0.9), NaN, Num(0.6));
  }

  /** Both strategies remove variable 0 first. */
  lemma ChainFirstStep(exact: bool)
    ensures var d := WithNanDiagonal(Chain());
      Prune(d, 0.5, exact, []) == Prune(d, 0.5, exact, [0])
  {
    ChainDiagonal();
    var d := WithNanDiagonal(Chain());
    assert Masked(d, []) == d;
    assert IsFirstExceeding(d, 0.5, 0, 1);
    ArgmaxIsFirst(d, 0.5, 0, 1);
    PruneUnfold(d, 0.5, exact, []);
    ChainFirstMeans(exact);
    assert Loser(d, [], exact, 0, 1) == 0;
  }

  /** The working matrix once variable 0 is masked: only the pair (1, 2) is left. */
  lemma ChainAfterFirst()
    ensures Masked(WithNanDiagonal(Chain()), [0]) == [[NaN, NaN, NaN], [NaN, NaN, Num(0.6)], [NaN, Num(0.6), NaN]]
  {
    ChainDiagonal();
    var d := WithNanDiagonal(Chain());
    var after := Masked(d, [0]);
    forall i, j | 0 <= i < 3 && 0 <= j < 3 ensures after[i][j] == if i == 0 || j == 0 then NaN else d[i][j] {
      MaskedAt(d, [0], i, j);
    }
    assert after[0] == [NaN, NaN, NaN];
    assert after[1] == [NaN, NaN, Num(0.6)];
    assert after[2] == [NaN, Num(0.6), NaN];
  }

  /** The second step's means over the live variables: both are 0.6, a tie. */
  lemma ChainSecondExactMeans()
    ensures var d := WithNanDiagonal(Chain());
      CandidateMean(d, [0], true, 1) == Num(0.6 / 1.0) && CandidateMean(d, [0], true, 2) == Num(0.6 / 1.0)
  {
    ChainAfterFirst();
    var after := Masked(WithNanDiagonal(Chain()), [0]);
    assert Column(after, 1) == [NaN, NaN, Num(0.6)];
    assert Column(after, 2) == [NaN, Num(0.6), NaN];
    SumCountThree(NaN, NaN, Num(0.6));
    SumCountThree(NaN, Num(0.6), NaN);
  }

  /** The second step's means taken from the initial matrix: 0.75 for variable 1 and 0.7 for variable 2. */
  lemma ChainSecondSnapshotMeans()
    ensures var d := WithNanDiagonal(Chain());
      CandidateMean(d, [0], false, 1) == Num(1.5 / 2.0) && CandidateMean(d, [0], false, 2) == Num(1.4 / 2.0)
  {
    ChainDiagonal();
    SumCountThree(Num(0.9), NaN, Num(0.6));
    SumCountThree(Num(0.8), Num(0.6), NaN);
  }

  /** With variable 0 masked, the scan finds the pair (1, 2). */
  lemma ChainSecondScan()
    ensures Argmax(Masked(WithNanDiagonal(Chain()), [0]), 0.5) == (1, 2)
  {
    ChainAfterFirst();
    var after := Masked(WithNanDiagonal(Chain()), [0]);
    assert IsFirstExceeding(after, 0.5, 1, 2);
    ArgmaxIsFirst(after, 0.5, 1, 2);
  }

  /** After variable 0 goes, the pair (1, 2) still exceeds, and the step removes the loser of the pair. */
  lemma ChainSecondStep(exact: bool)
    ensures var d := WithNanDiagonal(Chain());
      Prune(d, 0.5, exact, [0]) == Prune(d, 0.5, exact, [0, if exact then 2 else 1])
  {
    var d := WithNanDiagonal(Chain());
    ChainSecondScan();
    ChainSecondLoser(exact);
    StepTo(d, 0.5, exact, [0], 1, 2, [0, if exact then 2 else 1]);
  }

  /**
    Recomputed over the live variables the two means tie and `idx2`, variable
    2, is removed; taken from the initial matrix, variable 1's mean is the
    greater and 1 is removed.
  */
  lemma ChainSecondLoser(exact: bool)
    ensures Loser(WithNanDiagonal(Chain()), [0], exact, 1, 2) == if exact then 2 else 1
  {
    if exact {
      ChainSecondExactMeans();
    } else {
      ChainSecondSnapshotMeans();
    }
  }

  /** Once only one variable is live, nothing exceeds the threshold and the run stops. */
  lemma ChainStops(exact: bool, removed: seq<nat>)
    requires removed == [0, 1] || removed == [0, 2]
    ensures var d := WithNanDiagonal(Chain());
      Prune(d, 0.5, exact, removed) == Success(removed)
  {
    ChainDiagonal();
    var d := WithNanDiagonal(Chain());
    var after := Masked(d, removed);
    forall i, j | 0 <= i < 3 && 0 <= j < 3 ensures !Exceeds(after[i][j], 0.5) {
      MaskedAt(d, removed, i, j);
    }
    PruneUnfold(d, 0.5, exact, removed);
  }

  /** The exact and snapshot strategies return different removal lists on the same matrix. */
  lemma ExactAndSnapshotDiverge()
    ensures FindCorrelationSpec(Chain(), 0.5, true) == Success([0, 2])
    ensures FindCorrelationSpec(Chain(), 0.5, false) == Success([0, 1])
  {
    ChainFirstStep(true);
    ChainFirstStep(false);
    ChainSecondStep(true);
    ChainSecondStep(false);
    ChainStops(true, [0, 2]);
    ChainStops(false, [0, 1]);
  }
}
