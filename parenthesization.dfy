/**
  An independent oracle for the recurrence: every full parenthesization of a
  chain, its product evaluated with Mul, and what it costs. The recurrence's
  value is proved to be the least cost over all of them.
 */
module Parenthesization {
  import opened MatrixChain

  /** A full parenthesization of a range: one matrix, or a product split at `middle`. */
  datatype Tree = Leaf | Split(middle: nat, left: Tree, right: Tree)

  /** t parenthesizes exactly the range [i, j). */
  predicate Spans(t: Tree, i: nat, j: nat)
  {
    match t
    case Leaf => j == i + 1
    case Split(m, left, right) => i < m < j && Spans(left, i, m) && Spans(right, m, j)
  }

  /**
    The product a parenthesization computes, multiplied with Mul at every
    node. Whatever the bracketing, it is the shape SequenceShape reads off the
    two ends of the range.
   */
  function Evaluate(s: seq<Shape>, t: Tree, i: nat, j: nat): (r: Shape)
    requires i < j <= |s| && Spans(t, i, j) && Chained(s, i, j)
    ensures r == SequenceShape(s, i, j)
    decreases t
  {
    match t
    case Leaf => s[i]
    case Split(m, left, right) => Mul(Evaluate(s, left, i, m), Evaluate(s, right, m, j))
  }

  /** Scalar multiplications performed when the chain is multiplied as t says. */
  function TreeCost(s: seq<Shape>, t: Tree, i: nat, j: nat): nat
    requires i < j <= |s| && Spans(t, i, j) && Chained(s, i, j)
    decreases t
  {
    match t
    case Leaf => 0
    case Split(m, left, right) =>
      TreeCost(s, left, i, m) + TreeCost(s, right, m, j)
        + MultiplicationCost(Evaluate(s, left, i, m), Evaluate(s, right, m, j))
  }

  /** No parenthesization of [i, j) is cheaper than the recurrence. */
  lemma {:induction false} CostIsLowerBound(s: seq<Shape>, t: Tree, i: nat, j: nat)
    requires i < j <= |s| && Spans(t, i, j) && Chained(s, i, j)
    ensures Cost(s, i, j) <= TreeCost(s, t, i, j)
    decreases t
  {
    match t
    case Leaf =>
    case Split(m, left, right) =>
      CostIsLowerBound(s, left, i, m);
      CostIsLowerBound(s, right, m, j);
      CostIsMinimumOverSplits(s, i, j);
      assert Cost(s, i, j) <= Candidate(s, i, m, j);
      assert Evaluate(s, left, i, m) == SequenceShape(s, i, m);
      assert Evaluate(s, right, m, j) == SequenceShape(s, m, j);
  }

  /** Some parenthesization of [i, j) costs exactly what the recurrence says. */
  lemma {:induction false} OptimalTree(s: seq<Shape>, i: nat, j: nat) returns (t: Tree)
    requires i < j <= |s| && Chained(s, i, j)
    ensures Spans(t, i, j) && TreeCost(s, t, i, j) == Cost(s, i, j)
    decreases j - i
  {
    if i + 1 == j {
      t := Leaf;
    } else {
      CostIsMinimumOverSplits(s, i, j);
      var m :| i < m < j && Cost(s, i, j) == Candidate(s, i, m, j);
      var left := OptimalTree(s, i, m);
      var right := OptimalTree(s, m, j);
      t := Split(m, left, right);
    }
  }
}
