/**
  The memoized matrix-chain-order solver and the problem generator.
  MCMSolver holds one backing chain `s` and memoize's table for MCM, keyed by
  the range bounds; fixing `s` per solver is what the original gets from the
  iterators in its keys all pointing into one vector.
 */
module ChainSolver {
  import opened MatrixChain
  import opened Parenthesization

  /** memoize's table for MCM: range bounds to cost. */
  type Table = map<(nat, nat), nat>

  /** Every non-empty sub-range of [i, j) has a key in `keys`. */
  ghost predicate Covers(keys: set<(nat, nat)>, i: nat, j: nat)
  {
    forall a, b :: i <= a < b <= j ==> (a, b) in keys
  }

  /** Every entry is a range of s that holds the recurrence's value. */
  ghost predicate Sound(s: seq<Shape>, t: Table)
  {
    forall key :: key in t ==>
      key.0 < key.1 <= |s| && Chained(s, key.0, key.1) && t[key] == Cost(s, key.0, key.1)
  }

  /** A range is stored only together with all of its sub-ranges. */
  ghost predicate Closed(t: Table)
  {
    forall key :: key in t ==> Covers(t.Keys, key.0, key.1)
  }

  lemma CoversMonotone(keys: set<(nat, nat)>, more: set<(nat, nat)>, i: nat, j: nat)
    requires Covers(keys, i, j) && keys <= more
    ensures Covers(more, i, j)
  {
  }

  /** A range whose key is present, and both halves of each of whose splits are covered, is covered. */
  lemma {:induction false} CoversFromSplits(keys: set<(nat, nat)>, i: nat, j: nat)
    requires i < j && (i, j) in keys
    requires forall m :: i < m < j ==> Covers(keys, i, m) && Covers(keys, m, j)
    ensures Covers(keys, i, j)
  {
    forall a, b | i <= a < b <= j
      ensures (a, b) in keys
    {
      if i < a {
        assert Covers(keys, a, j);
      } else if b < j {
        assert Covers(keys, i, b);
      }
    }
  }

  class MCMSolver {
    const s: seq<Shape>
    var table: Table
    ghost var evaluations: nat

    /** The table is sound and closed, and MCM ran exactly once per entry. */
    ghost predicate Valid()
      reads this
    {
      Sound(s, table) && Closed(table) && evaluations == |table|
    }

    constructor (s: seq<Shape>)
      ensures Valid()
      ensures this.s == s && table == map[] && evaluations == 0
    {
      this.s := s;
      table := map[];
      evaluations := 0;
    }

    /**
      memoize(MCM, i, j). A hit returns the stored cost and leaves the table
      alone; a miss runs MCM once and adds the key (i, j). Afterwards every
      sub-range of [i, j) is in the table, and nothing outside it was added.
     */
    method Memo(i: nat, j: nat) returns (c: nat)
      requires Valid() && i < j <= |s| && Chained(s, i, j)
      modifies this
      decreases j - i, 3
      ensures Valid()
      ensures c == Cost(s, i, j)
      ensures (i, j) in old(table) ==> table == old(table) && evaluations == old(evaluations)
      ensures old(table).Keys <= table.Keys
      ensures forall key :: key in table && key !in old(table) ==> i <= key.0 && key.1 <= j
      ensures Covers(table.Keys, i, j)
    {
      if (i, j) in table {
        c := table[(i, j)];
      } else {
        c := MCM(i, j);
        ghost var before := table;
        assert before[(i, j) := c].Keys == before.Keys + {(i, j)};
        table := table[(i, j) := c];
        evaluations := evaluations + 1;
        forall m | i < m < j
          ensures Covers(table.Keys, i, m) && Covers(table.Keys, m, j)
        {
          CoversMonotone(before.Keys, table.Keys, i, m);
          CoversMonotone(before.Keys, table.Keys, m, j);
        }
        CoversFromSplits(table.Keys, i, j);
        forall key | key in before
          ensures Covers(table.Keys, key.0, key.1)
        {
          CoversMonotone(before.Keys, table.Keys, key.0, key.1);
        }
      }
    }

    /**
      MCM(first, last): a single matrix costs 0 and makes no calls; otherwise
      every split first < middle < last is tried in increasing order and the
      lowest candidate is kept. Both halves of every split end up in the table.
     */
    method MCM(i: nat, j: nat) returns (c: nat)
      requires Valid() && i < j <= |s| && Chained(s, i, j)
      modifies this
      decreases j - i, 2
      ensures Valid()
      ensures c == Cost(s, i, j)
      ensures i + 1 == j ==> table == old(table) && evaluations == old(evaluations)
      ensures old(table).Keys <= table.Keys
      ensures forall key :: key in table && key !in old(table) ==>
                i <= key.0 && key.1 <= j && key != (i, j)
      ensures forall m :: i < m < j ==> Covers(table.Keys, i, m) && Covers(table.Keys, m, j)
    {
      if i + 1 == j {
        return 0;
      }
      // The source's do-while: its body runs once for middle == i + 1 before
      // the test, so the UINT_MAX starting value is never what is returned.
      var middle := i + 1;
      c := SplitCost(i, middle, j);
      middle := middle + 1;
      while middle != j
        invariant i + 1 < middle <= j
        invariant Valid()
        invariant c == LowestUpTo(s, i, j, middle - 1)
        invariant old(table).Keys <= table.Keys
        invariant forall key :: key in table && key !in old(table) ==>
                    i <= key.0 && key.1 <= j && key != (i, j)
        invariant forall m :: i < m < middle ==> Covers(table.Keys, i, m) && Covers(table.Keys, m, j)
        decreases j - middle
      {
        ghost var before := table;
        var cost := SplitCost(i, middle, j);
        c := Min(c, cost);
        forall m | i < m < middle
          ensures Covers(table.Keys, i, m) && Covers(table.Keys, m, j)
        {
          CoversMonotone(before.Keys, table.Keys, i, m);
          CoversMonotone(before.Keys, table.Keys, m, j);
        }
        middle := middle + 1;
      }
    }

    /** One candidate: the two memoized halves plus the multiplication of their products. */
    method SplitCost(i: nat, m: nat, j: nat) returns (c: nat)
      requires Valid() && i < m < j <= |s| && Chained(s, i, j)
      modifies this
      decreases j - i, 1
      ensures Valid()
      ensures c == Candidate(s, i, m, j)
      ensures old(table).Keys <= table.Keys
      ensures forall key :: key in table && key !in old(table) ==>
                (i <= key.0 && key.1 <= m) || (m <= key.0 && key.1 <= j)
      ensures Covers(table.Keys, i, m) && Covers(table.Keys, m, j)
    {
      var left := Memo(i, m);
      ghost var between := table;
      var right := Memo(m, j);
      CoversMonotone(between.Keys, table.Keys, i, m);
      c := left + right + MultiplicationCost(SequenceShape(s, i, m), SequenceShape(s, m, j));
    }
  }

  /** The distinct sub-ranges of [i, j): one memo key each. */
  ghost function SubRanges(i: nat, j: nat): set<(nat, nat)>
  {
    set a: nat, b: nat | i <= a < b <= j :: (a, b)
  }

  /** The ranges [a, b) with a < n that end at b. */
  ghost function EndingAt(b: nat, n: nat): set<(nat, nat)>
  {
    set a: nat | a < n :: (a, b)
  }

  lemma {:induction false} EndingAtSize(b: nat, n: nat)
    ensures |EndingAt(b, n)| == n
  {
    if n > 0 {
      EndingAtSize(b, n - 1);
      assert EndingAt(b, n) == EndingAt(b, n - 1) + {(n - 1, b)};
    }
  }

  /** 1 + 2 + ... + n. */
  ghost function Triangle(n: nat): nat
  {
    n * (n + 1) / 2
  }

  /** A chain of n matrices has n * (n + 1) / 2 distinct sub-ranges. */
  lemma {:induction false} SubRangesSize(n: nat)
    ensures |SubRanges(0, n)| == Triangle(n)
  {
    if n > 0 {
      assert Triangle(n) == Triangle(n - 1) + n;
      SubRangesSize(n - 1);
      EndingAtSize(n, n);
      assert SubRanges(0, n) == SubRanges(0, n - 1) + EndingAt(n, n);
      assert SubRanges(0, n - 1) !! EndingAt(n, n);
    }
  }

  /**
    memoize(MCM, begin, end) over a fresh table: the cheapest way to multiply
    the whole chain, no parenthesization being cheaper and one attaining it.
    `runs` is how often MCM ran: once for each distinct sub-range, so
    n * (n + 1) / 2 times for n matrices.
   */
  method Solve(s: seq<Shape>) returns (c: nat, ghost runs: nat)
    requires 0 < |s| && Chainable(s)
    ensures c == Cost(s, 0, |s|)
    ensures forall t :: Spans(t, 0, |s|) ==> c <= TreeCost(s, t, 0, |s|)
    ensures exists t :: Spans(t, 0, |s|) && c == TreeCost(s, t, 0, |s|)
    ensures runs == |SubRanges(0, |s|)| == Triangle(|s|)
  {
    var solver := new MCMSolver(s);
    c := solver.Memo(0, |s|);
    assert solver.table.Keys == SubRanges(0, |s|);
    runs := solver.evaluations;
    SubRangesSize(|s|);
    forall t | Spans(t, 0, |s|)
      ensures c <= TreeCost(s, t, 0, |s|)
    {
      CostIsLowerBound(s, t, 0, |s|);
    }
    ghost var best := OptimalTree(s, 0, |s|);
  }

  /**
    GenerateProblem(length): `draws` stands for the length + 1 values the
    generator's uniform distribution on [1, 100] yields, in order. The first
    is the rows of the first matrix; each later one closes the current matrix
    and opens the next. `maxSize` is accepted and, as in the source, unused.
   */
  method GenerateProblem(length: nat, maxSize: nat, draws: seq<nat>) returns (result: seq<Shape>)
    requires |draws| == length + 1
    requires forall k :: 0 <= k < |draws| ==> 1 <= draws[k] <= 100
    ensures |result| == length
    ensures forall k :: 0 <= k < length ==> result[k] == Shape(draws[k], draws[k + 1])
    ensures Chainable(result)
    ensures DimensionsWithin(result, 1, 100)
  {
    result := [];
    var previous := draws[0];
    var i := 0;
    while i < length
      invariant 0 <= i <= length
      invariant |result| == i
      invariant previous == draws[i]
      invariant forall k :: 0 <= k < i ==> result[k] == Shape(draws[k], draws[k + 1])
    {
      var current := draws[i + 1];
      result := result + [Shape(previous, current)];
      previous := current;
      i := i + 1;
    }
    forall k | 0 < k < length
      ensures result[k - 1].cols == result[k].rows
    {
      assert result[k - 1] == Shape(draws[k - 1], draws[k]);
      assert result[k] == Shape(draws[k], draws[k + 1]);
    }
    forall k | 0 <= k < length
      ensures 1 <= result[k].rows <= 100 && 1 <= result[k].cols <= 100
    {
      assert result[k] == Shape(draws[k], draws[k + 1]);
    }
  }
}
