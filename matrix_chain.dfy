/**
  The matrix-chain-order problem on shapes only: what it costs to multiply two
  matrices, the shape of a product over a range of a chain, and the interval
  recurrence whose value at [i, j) is the cheapest way to multiply s[i..j).
  Ranges are half-open index pairs over one backing sequence, in place of the
  iterator pairs of the original program.
 */
module MatrixChain {

  /** A matrix reduced to its dimensions. */
  datatype Shape = Shape(rows: nat, cols: nat)

  /** The shape of the product x * y; only defined when the inner dimensions agree. */
  function Mul(x: Shape, y: Shape): Shape
    requires x.cols == y.rows
  {
    Shape(x.rows, y.cols)
  }

  /** Scalar multiplications needed to multiply an x by a y. */
  function MultiplicationCost(x: Shape, y: Shape): nat
    requires x.cols == y.rows
  {
    x.rows * x.cols * y.cols
  }

  /** Every neighbouring pair inside [i, j) can be multiplied. */
  predicate Chained(s: seq<Shape>, i: nat, j: nat)
    requires i <= j <= |s|
  {
    forall k :: i < k < j ==> s[k - 1].cols == s[k].rows
  }

  predicate Chainable(s: seq<Shape>)
  {
    Chained(s, 0, |s|)
  }

  /** Every dimension of every shape lies in [lo, hi]. */
  predicate DimensionsWithin(s: seq<Shape>, lo: nat, hi: nat)
  {
    forall k :: 0 <= k < |s| ==> lo <= s[k].rows <= hi && lo <= s[k].cols <= hi
  }

  /** The shape of the product of s[i..j), read off its two ends. */
  function SequenceShape(s: seq<Shape>, i: nat, j: nat): Shape
    requires i < j <= |s|
  {
    Shape(s[i].rows, s[j - 1].cols)
  }

  /**
    The product of s[i..j) folded from the left with Mul. On a chained range
    it agrees with SequenceShape, so reading the two ends is sound.
   */
  function ChainProduct(s: seq<Shape>, i: nat, j: nat): (r: Shape)
    requires i < j <= |s| && Chained(s, i, j)
    ensures r == SequenceShape(s, i, j)
    decreases j - i
  {
    if i + 1 == j then s[i] else Mul(ChainProduct(s, i, j - 1), s[j - 1])
  }

  /** std::min: the first argument unless the second is strictly smaller. */
  function Min(a: nat, b: nat): nat
  {
    if b < a then b else a
  }

  /**
    The interval recurrence: a single matrix costs nothing; a longer range
    costs the cheapest of its split candidates.
   */
  function Cost(s: seq<Shape>, i: nat, j: nat): nat
    requires i < j <= |s| && Chained(s, i, j)
    decreases j - i, 2, 0
  {
    if i + 1 == j then 0 else LowestUpTo(s, i, j, j - 1)
  }

  /** Cost of splitting [i, j) at m: both halves, then one multiplication of their products. */
  function Candidate(s: seq<Shape>, i: nat, m: nat, j: nat): nat
    requires i < m < j <= |s| && Chained(s, i, j)
    decreases j - i, 0, 0
  {
    Cost(s, i, m) + Cost(s, m, j)
      + MultiplicationCost(SequenceShape(s, i, m), SequenceShape(s, m, j))
  }

  /** The running minimum after the split points i + 1, ..., m have been tried, in that order. */
  function LowestUpTo(s: seq<Shape>, i: nat, j: nat, m: nat): nat
    requires i < m < j <= |s| && Chained(s, i, j)
    decreases j - i, 1, m
  {
    if m == i + 1 then Candidate(s, i, m, j)
    else Min(LowestUpTo(s, i, j, m - 1), Candidate(s, i, m, j))
  }

  lemma {:induction false} LowestUpToIsMinimum(s: seq<Shape>, i: nat, j: nat, m: nat)
    requires i < m < j <= |s| && Chained(s, i, j)
    ensures forall k :: i < k <= m ==> LowestUpTo(s, i, j, m) <= Candidate(s, i, k, j)
    ensures exists k :: i < k <= m && LowestUpTo(s, i, j, m) == Candidate(s, i, k, j)
    decreases m
  {
    if m > i + 1 {
      LowestUpToIsMinimum(s, i, j, m - 1);
    } else {
      assert LowestUpTo(s, i, j, m) == Candidate(s, i, m, j);
    }
  }

  /**
    A range of two or more matrices costs at most every split candidate and
    exactly one of them: the recurrence picks the true minimum.
   */
  lemma {:induction false} CostIsMinimumOverSplits(s: seq<Shape>, i: nat, j: nat)
    requires i + 1 < j <= |s| && Chained(s, i, j)
    ensures forall m :: i < m < j ==> Cost(s, i, j) <= Candidate(s, i, m, j)
    ensures exists m :: i < m < j && Cost(s, i, j) == Candidate(s, i, m, j)
  {
    LowestUpToIsMinimum(s, i, j, j - 1);
  }

  lemma ProductOfSmallFactors(a: nat, b: nat, c: nat)
    requires a <= 100 && b <= 100 && c <= 100
    ensures a * b * c <= 1000000
  {
    assert a * b <= 100 * b <= 10000 by {
      assert a * b <= 100 * b;
    }
    assert a * b * c <= 10000 * c;
  }

  /**
    With dimensions at most 100 (what the problem generator produces), the
    cost of [i, j) and every split candidate of it are at most
    (j - i - 1) * 10^6, so for fewer than 4296 matrices every value the
    source computes fits in a 32-bit unsigned int.
   */
  lemma {:induction false} CostBound(s: seq<Shape>, i: nat, j: nat)
    requires i < j <= |s| && Chained(s, i, j) && DimensionsWithin(s, 0, 100)
    ensures Cost(s, i, j) <= (j - i - 1) * 1000000
    ensures forall m :: i < m < j ==> Candidate(s, i, m, j) <= (j - i - 1) * 1000000
    decreases j - i
  {
    if i + 1 < j {
      forall m | i < m < j
        ensures Candidate(s, i, m, j) <= (j - i - 1) * 1000000
      {
        CostBound(s, i, m);
        CostBound(s, m, j);
        ProductOfSmallFactors(s[i].rows, s[m - 1].cols, s[j - 1].cols);
      }
      CostIsMinimumOverSplits(s, i, j);
    }
  }

  /** The three-matrix example of the original program. */
  function ExampleProblem(): seq<Shape>
  {
    [Shape(10, 30), Shape(30, 5), Shape(5, 60)]
  }

  /** (AB)C costs 1500 + 3000; A(BC) costs 9000 + 18000; the recurrence keeps 4500. */
  lemma ExampleProblemCost()
    ensures Chainable(ExampleProblem())
    ensures Cost(ExampleProblem(), 0, 3) == 4500
  {
  }

  /**
    The four-matrix chain of the original program's disabled test. A((BC)D) is
    optimal: 5*60*8 + 5*8*100 + 40*5*100 = 2400 + 4000 + 20000.
   */
  lemma FourMatrixCost()
    ensures Chainable([Shape(40, 5), Shape(5, 60), Shape(60, 8), Shape(8, 100)])
    ensures Cost([Shape(40, 5), Shape(5, 60), Shape(60, 8), Shape(8, 100)], 0, 4) == 26400
  {
    var s := [Shape(40, 5), Shape(5, 60), Shape(60, 8), Shape(8, 100)];
    assert Cost(s, 0, 2) == 12000;
    assert Cost(s, 1, 3) == 2400;
    assert Cost(s, 2, 4) == 48000;
    assert Cost(s, 0, 3) == 4000;
    assert Cost(s, 1, 4) == 6400;
    assert Candidate(s, 0, 1, 4) == 26400;
    assert Candidate(s, 0, 2, 4) == 300000;
    assert Candidate(s, 0, 3, 4) == 36000;
  }
}
