/**
  memoize(f, a...): one long-lived table from (function, arguments) to
  result. A call searches the table first; on a hit it returns the stored
  value without calling f, on a miss it calls f once, stores the result under
  the call's key and returns it. Entries are only ever added.
 */
module Memoize {

  /**
    The table for one function type. A function identity F stands for the
    function pointer that is part of the key; `apply` gives its meaning, which
    is a mathematical function because memoize is only promised for
    referentially transparent functions. `evaluations` counts the calls of f.
   */
  class MemoTable<F(==), A(==), R> {
    const apply: (F, A) -> R
    var computed: map<(F, A), R>
    ghost var evaluations: nat

    /** Every stored entry is what its function gives for its arguments, and f ran once per entry. */
    ghost predicate Valid()
      reads this
    {
      && (forall key :: key in computed ==> computed[key] == apply(key.0, key.1))
      && evaluations == |computed|
    }

    constructor (apply: (F, A) -> R)
      ensures Valid()
      ensures this.apply == apply && computed == map[] && evaluations == 0
    {
      this.apply := apply;
      computed := map[];
      evaluations := 0;
    }

    method Memoize(f: F, a: A) returns (r: R)
      requires Valid()
      modifies this
      ensures Valid()
      ensures r == apply(f, a)
      ensures (f, a) in computed
      // a hit: the stored value, f is not called and the table is unchanged
      ensures (f, a) in old(computed) ==>
                computed == old(computed) && evaluations == old(evaluations)
      // a miss: f is called once and exactly this key is added
      ensures (f, a) !in old(computed) ==>
                computed == old(computed)[(f, a) := r] && evaluations == old(evaluations) + 1
    {
      var key := (f, a);
      if key in computed {
        r := computed[key];
      } else {
        r := apply(f, a);
        assert computed[key := r].Keys == computed.Keys + {key};
        computed := computed[key := r];
        evaluations := evaluations + 1;
      }
    }
  }

  /** Two calls with equal arguments agree; the second is a hit, so together they call f at most once. */
  method CallTwice<F(==), A(==), R>(table: MemoTable<F, A, R>, f: F, a: A) returns (first: R, second: R)
    requires table.Valid()
    modifies table
    ensures table.Valid()
    ensures first == second == table.apply(f, a)
    // the table gains at most the one key (f, a), and f runs only if the first call misses
    ensures table.computed == old(table.computed)[(f, a) := first]
    ensures table.evaluations == old(table.evaluations) + (if (f, a) in old(table.computed) then 0 else 1)
  {
    first := table.Memoize(f, a);
    ghost var between := table.evaluations;
    second := table.Memoize(f, a);
    assert table.evaluations == between;
  }

  /** The plain recursive definition of the documented example. */
  function Fib(n: nat): nat
  {
    if n == 0 then 0 else if n == 1 then 1 else Fib(n - 1) + Fib(n - 2)
  }

  /**
    The documented example: fibonacci, whose recursive calls go through
    memoize. `computed` is memoize's table for fibonacci's signature.
   */
  class MemoizedFibonacci {
    var computed: map<nat, nat>
    ghost var evaluations: nat

    ghost predicate Valid()
      reads this
    {
      && (forall n :: n in computed ==> computed[n] == Fib(n))
      && evaluations == |computed|
    }

    constructor ()
      ensures Valid() && computed == map[] && evaluations == 0
    {
      computed := map[];
      evaluations := 0;
    }

    /** fibonacci(n): the base cases, otherwise two memoized recursive calls. */
    method Fibonacci(n: nat) returns (r: nat)
      requires Valid()
      modifies this
      decreases n, 0
      ensures Valid()
      ensures r == Fib(n)
      ensures old(computed).Keys <= computed.Keys
      ensures forall k :: k in computed && k !in old(computed) ==> k < n
    {
      if n == 0 {
        r := 0;
      } else if n == 1 {
        r := 1;
      } else {
        var a := Memoize(n - 1);
        var b := Memoize(n - 2);
        r := a + b;
      }
    }

    /** memoize(fibonacci, n): find, and on a miss compute, store and return. */
    method Memoize(n: nat) returns (r: nat)
      requires Valid()
      modifies this
      decreases n, 1
      ensures Valid()
      ensures r == Fib(n)
      ensures n in computed
      ensures n in old(computed) ==> computed == old(computed) && evaluations == old(evaluations)
      ensures old(computed).Keys <= computed.Keys
      ensures forall k :: k in computed && k !in old(computed) ==> k <= n
    {
      if n in computed {
        r := computed[n];
      } else {
        r := Fibonacci(n);
        assert computed[n := r].Keys == computed.Keys + {n};
        computed := computed[n := r];
        evaluations := evaluations + 1;
      }
    }
  }
}
