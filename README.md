# Memoized matrix-chain ordering

A Dafny model of two pieces of a small C++ program: the generic `memoize`
helper (`memoize.hpp`) and the matrix-chain-order solver built on it
(`matrix_chain_multiply.cpp`).

- `memoize(f, a...)` keeps one long-lived table from `(f, a...)` to a result.
  A call searches the table. On a hit it returns the stored value. On a miss it
  calls `f(a...)`, stores the result under the call's key and returns it.
- `MCM(first, last)` is the interval recurrence for the cheapest way to
  multiply a chain of matrices, where a matrix is only its shape
  `(rows, cols)`. A single matrix costs 0. A longer range tries every split
  `first < middle < last` and keeps the least
  `MCM(first, middle) + MCM(middle, last) + cost of multiplying the two products`,
  with both recursive calls going through `memoize`.

Files and modules:

- `matrix_chain.dfy`, module `MatrixChain`: shapes, `Mul` (the source's
  `operator*`), `MultiplicationCost`, `SequenceShape`, the chainability
  predicates, and the pure recurrence. `Cost` is the value of a range.
  `Candidate` is one split. `LowestUpTo` is the running minimum over the
  splits tried so far, in the source's order. Lemmas say the recurrence picks
  the true minimum over splits and bound every value it computes. Two concrete
  chains are evaluated.
- `parenthesization.dfy`, module `Parenthesization`: an independent oracle.
  It covers every full parenthesization of a range, the product it computes
  with `Mul`, and its cost. The recurrence is proved to equal the least cost
  over all of them.
- `memoize.dfy`, module `Memoize`: `MemoTable`, the generic table with
  find-then-insert semantics, for a function given as a value. Also the
  documented memoized `fibonacci`.
- `solver.dfy`, module `ChainSolver`: `MCMSolver`. It is a class whose `table`
  field is memoize's table for `MCM`, tied to one backing chain `s`. Its
  methods `Memo` (memoize applied to MCM), `MCM` and `SplitCost` are mutually
  recursive. The class invariant says every entry equals the recurrence, every
  stored range has all its sub-ranges stored, and MCM ran exactly once per
  entry. Also `Solve` (the program's top-level call) and `GenerateProblem`.

Ranges are half-open index pairs `[i, j)` over one sequence. They replace the
source's iterator pairs into one `std::vector`. A Dafny method cannot be passed
as a value. So the two recursive users of memoize, `MCMSolver` and
`MemoizedFibonacci`, each hold the table and do the find-then-insert
themselves, with their own method as `f`. `MemoTable` states the same contract
once, for any function value.

## Model

| member | source | states |
|---|---|---|
| MatrixChain.ChainProduct | matrix_chain_multiply.cpp:35-44 | folding `operator*` over a chained range `s[i..j)` never trips its inner-dimension assertion, and yields `SequenceShape(i, j)` = `(s[i].rows, s[j-1].cols)` |
| MatrixChain.LowestUpToIsMinimum | matrix_chain_multiply.cpp:75-81 | after the do-while has tried `middle = i+1 .. m`, `lowest_cost` is at most every candidate tried and equal to one of them |
| MatrixChain.CostIsMinimumOverSplits | matrix_chain_multiply.cpp:69-83 | for two or more matrices, MCM's result is at most `left + right + combine` for every split `i < m < j` and equal to it for some split |
| MatrixChain.CostBound | matrix_chain_multiply.cpp:46-50 | with dimensions at most 100, the cost of `[i, j)` and every candidate of it are at most `(j-i-1) * 10^6`, so below 4296 matrices no `unsigned int` value in MCM wraps |
| MatrixChain.ExampleProblemCost | matrix_chain_multiply.cpp:33 | `ExampleProblem` is chainable and the recurrence gives 4500 = min(1500+3000, 9000+18000) |
| MatrixChain.FourMatrixCost | matrix_chain_multiply.cpp:94-95 | the chain `(40,5),(5,60),(60,8),(8,100)` of the disabled test is chainable and costs 26400 |
| Parenthesization.Evaluate | matrix_chain_multiply.cpp:35-44 | multiplying a chained range with `operator*` in any bracketing gives the shape `SequenceShape` reads off its ends |
| Parenthesization.CostIsLowerBound | matrix_chain_multiply.cpp:64-83 | no full parenthesization of `[i, j)` costs less than MCM's result |
| Parenthesization.OptimalTree | matrix_chain_multiply.cpp:64-83 | some full parenthesization of `[i, j)` costs exactly MCM's result |
| Memoize.MemoTable.constructor | memoize.hpp:26 | the static table starts empty, and no call of `f` has been made |
| Memoize.MemoTable.Memoize | memoize.hpp:7-9 | returns exactly `f(a)`. On a hit the table is unchanged and `f` is not called. On a miss `f` is called once and the table becomes the old table plus the one key `(f, a)`. Every entry stays equal to its function's value, and `f` has run once per entry |
| Memoize.CallTwice | memoize.hpp:30-37 | two calls with equal arguments return the same value, `f(a)`. The second is a hit: afterwards the table is the old table with `(f, a)` added, and `f` ran once if the first call missed and not at all otherwise |
| Memoize.MemoizedFibonacci.constructor | memoize.hpp:26 | fibonacci's memo table starts empty |
| Memoize.MemoizedFibonacci.Fibonacci | memoize.hpp:13-18 | the documented memoized `fibonacci(n)` equals the plain recursive definition `Fib(n)`. Only keys below `n` are added, and the table stays sound |
| Memoize.MemoizedFibonacci.Memoize | memoize.hpp:30-37 | `memoize(fibonacci, n)` returns `Fib(n)` and leaves `n` in the table. A hit changes nothing. Keys only grow, and `fibonacci` ran once per entry |
| ChainSolver.MCMSolver.constructor | memoize.hpp:26 | MCM's table starts empty for the given chain, with no MCM runs |
| ChainSolver.MCMSolver.Memo | memoize.hpp:28-38 | `memoize(MCM, i, j)` returns the recurrence's value. A hit leaves the table and the run count unchanged. Keys only grow, and only sub-ranges of `[i, j)` are added. Afterwards every sub-range of `[i, j)` is stored. The table invariant is kept: each entry equals the recurrence, and MCM ran once per entry |
| ChainSolver.MCMSolver.MCM | matrix_chain_multiply.cpp:69-83 | returns the recurrence's value. A one-matrix range returns 0 and makes no calls. Otherwise it adds only proper sub-ranges of `[i, j)`, and afterwards both halves of every split are stored |
| ChainSolver.MCMSolver.SplitCost | matrix_chain_multiply.cpp:78-79 | one loop body: the memoized left and right costs plus the multiplication cost of their products equal the candidate for that split, and both halves end up stored |
| ChainSolver.SubRangesSize | memoize.hpp:26 | a chain of `n` matrices has `n(n+1)/2` distinct range keys, which bounds the table's size |
| ChainSolver.Solve | matrix_chain_multiply.cpp:110-111 | `memoize(MCM, begin, end)` on a fresh table returns the cheapest cost over all parenthesizations, and one parenthesization attains it. MCM runs exactly once per distinct sub-range, `n(n+1)/2` times in all |
| ChainSolver.GenerateProblem | matrix_chain_multiply.cpp:18-31 | returns exactly `length` shapes; shape `k` is `(draws[k], draws[k+1])`; consecutive shapes are chainable and every dimension lies in `[1, 100]`, whatever `max_size` is |

## Left out

- `timing.hpp` is not part of this model. It only measures wall-clock time, and its `operator()` does not return the wrapped function's result.
- `main`'s argument-count check, `std::stoi` parsing, the usage message and all output are left out (`operator<<`, `PrintProblem`). They are I/O.
- The Mersenne Twister and `uniform_int_distribution` are foreign library code. `GenerateProblem` takes the `length + 1` values they would yield as its `draws` parameter, each required to be in `[1, 100]`.
- ChainSolver.MCMSolver.MCM: costs are unbounded `nat`, not the source's `unsigned int`. `MultiplicationCost` truncates a `size_t` product to 32 bits, and the sums in MCM wrap silently. `MatrixChain.CostBound` shows that no such value exceeds `(n-1) * 10^6` for generated dimensions, so no value wraps below 4296 matrices. Beyond that the source may wrap, and where it does, the model differs.
- The `numeric_limits<unsigned int>::max()` starting value of `lowest_cost` is not modelled. The do-while always runs its body at least once for two or more matrices, so the model runs the first iteration before its `while` loop, and the sentinel is never the result.
- Memoize.MemoizedFibonacci.Fibonacci: results are unbounded `nat`, while the source returns `long long`, which overflows after `fibonacci(92)`. The argument is a `nat`: the source's `int n` recurses without end for negative `n`.
- Function identity in the key: `MemoTable` keys on `(F, A)`, with `apply` giving each function identity's meaning. `MCMSolver` and `MemoizedFibonacci` each hold the table of one function, so the function part of the key is always the same and is dropped.
- Table lifetime: the source's table is `static` and lives for the whole process. Here it lives in a solver object tied to one backing chain `s`. In the source, the iterators in the key tie entries to one vector in the same way. Reuse across different vectors is not modelled.
- The `O(log X)` lookup claim, `std::map` internals and the template machinery (`std::result_of`, variadic arguments) are left out. Only lookup and insert behaviour is modelled.
- C++ evaluation order in `computed[arg_tuple] = f(a...)` is left out. The model computes first, then inserts.
- C++ leaves unspecified which operand of `+` at matrix_chain_multiply.cpp:78 is evaluated first. `SplitCost` always calls `Memo(i, m)` before `Memo(m, j)`. The result, the final table and the run count do not depend on that order.
- One-matrix ranges are cached like any other: MCM calls `memoize` on `[first, first+1)` (matrix_chain_multiply.cpp:75, 78), and the model's `Memo` stores them too.
- Sums of costs wrap silently in the source; the model does not wrap (see the `MCM` line above).
- A malformed chain is excluded by a precondition (`Chained`), which stands for the `assert` at matrix_chain_multiply.cpp:37 and :48, rather than by an error result.
- ChainSolver.Solve: requires a non-empty chain, and `Cost`, `Memo` and `MCM` require `i < j`. The source does not terminate on an empty range: `main` accepts `sequence_length` 0, `GenerateProblem(0)` returns an empty vector, and `MCM(begin, end)` with `first == last` skips the base case at matrix_chain_multiply.cpp:71, sets `middle` past `last` and recurses through `memoize` on ranges whose start only grows past their end, while `SequenceShape` reads out of range. That behaviour (unbounded recursion) is not modelled.
- The comment on the disabled test (matrix_chain_multiply.cpp:95) gives `1600 + 4000 + 20000`. That does not match any parenthesization. `MatrixChain.FourMatrixCost` states the value the recurrence gives, 26400, which is A((BC)D): 2400 + 4000 + 20000.
