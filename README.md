# 0-1 knapsack dynamic programme, modelled and verified in Dafny

This project models `knapsack/knapsack.py`, the 0-1 knapsack module of the
Dynamic-Programming repository. Items are given as two parallel lists,
`values` and `weights`, and a knapsack `capacity`. The module solves the
problem in three ways over one recurrence:

- `build_table` fills an (n+1) x (capacity+1) table bottom-up.
  `solve` reads its bottom-right cell.
  `backtrack` walks the table upwards to recover the chosen items.
- `knapsack` keeps a single list of capacity+1 entries. It overwrites the
  list item by item, sweeping capacities downwards and stopping at the first
  capacity the item no longer fits.
- `recursive_knapsack` evaluates the recurrence top-down through its inner
  `dp_table(i, j)`, then runs the same traceback.

The files:

- `selection.dfy` (module `Selection`) states the problem independently of
  any algorithm. A selection is a strictly increasing list of item indices.
  `Pick` turns it into the `(value, weight)` pairs the routines return.
  `IsOptimum(values, weights, n, w, best)` says `best` is the largest total
  value of a selection of the first `n` items whose total weight is at most `w`.
- `recurrence.dfy` (module `Recurrence`) defines `DpTable`, the source's
  `dp_table`, `TraceBack`, the item indices the traceback loop collects, and
  `BuiltCell`, the table `build_table` and `knapsack` actually fill.
  It proves that every cell of `DpTable` is the optimum. It also proves that
  the traceback yields a subsequence of the input whose weight fits the
  capacity and whose value is that optimum.
- `knapsack.dfy` (module `Knapsack`) holds the routines.
  - `BuildTable` fills an `array2<int>` with nested loops.
  - `Solve` reads the corner.
  - `Backtrack` loops over the table with a residual capacity `j`.
  - `Knapsack` overwrites one `array<int>` and keeps the source's `break`.
  - `RecursiveKnapsack` loops over `DpTable`.

  Each routine is proved against `DpTable` and `TraceBack`, so they agree:
  - every cell of `BuildTable`'s table equals `BuiltCell`, the table as
    filled, and `Knapsack` returns its corner; with weights of at least 1
    that is `DpTable`;
  - `Solve` on a table of `DpTable` values, `Knapsack` with weights of at
    least 1 and `RecursiveKnapsack` all return
    `DpTable(values, weights, n, capacity)`;
  - `Backtrack` and `RecursiveKnapsack` return the same items,
    `Pick(values, weights, TraceBack(values, weights, n, capacity))`.
- `doctests.dfy` (module `KnapsackDoctests`) restates some of the docstring
  examples as lemmas about the recurrence.

Preconditions. The model assumes one weight per value and no negative
weight (`NonNegativeWeights`); a zero weight is allowed, as the repository's
timing script draws weights from `randrange(0, 100)`. The capacity loops of
`build_table` and `knapsack` start at 1 (knapsack/knapsack.py:16 and :137), so
column 0 of their table is never written. `BuiltCell` is the table they
actually fill. With weights of at least 1 (`ValidItems`) it equals `DpTable`
and is optimal. With a zero-weight item it can fall below the optimum; see
"## Findings". `RecursiveKnapsack` and `Backtrack` (on a table of `DpTable`
values) are optimal for every non-negative weight. `BuildTable` accepts a
negative capacity and returns rows with no cells, as `[0] * (capacity + 1)`
does. `Solve`, `Backtrack` and `Knapsack` index the last column, so they
require a non-negative capacity.

## Model

| member | source | states |
|---|---|---|
| `Recurrence.DpTableNonNegative` | knapsack/knapsack.py:179-186 | every value of the recurrence is at least 0, for any values, because skipping every item is always possible |
| `Recurrence.DpTableColumnZero` | knapsack/knapsack.py:14-18 | with weights of at least 1, the recurrence is 0 at capacity 0 (and below): the table's untouched column 0 is exact |
| `Recurrence.DpTableGrowsWithItems` | knapsack/knapsack.py:17-20 | going down a column never lowers the value: `DP[i][w] <= DP[k][w]` whenever `i <= k`, so in particular `DP[i][w] >= DP[i-1][w]` |
| `Recurrence.DpTableGrowsWithCapacity` | knapsack/knapsack.py:15-20 | going right along a row never lowers the value: `DP[i][j] <= DP[i][j']` whenever `j <= j'` |
| `Recurrence.TraceBack` | knapsack/knapsack.py:91-97 | the traceback from row `i` names only items below `i` |
| `Recurrence.TraceBackIsSelection` | knapsack/knapsack.py:91-97 | the traceback's indices are strictly increasing, so its items form a subsequence of the input in input order |
| `Recurrence.TraceBackValue` | knapsack/knapsack.py:91-97 | the values of the items the traceback takes add up exactly to the cell it starts from |
| `Recurrence.TraceBackWeight` | knapsack/knapsack.py:91-97 | the weights of the items the traceback takes add up to at most its starting capacity; the residual never goes negative |
| `Recurrence.DpTableUpperBound` | knapsack/knapsack.py:8-20 | with no negative weight, no selection of the first `i` items that fits capacity `w` is worth more than `DP[i][w]` |
| `Recurrence.DpTableIsOptimum` | knapsack/knapsack.py:8-20 | with no negative weight and `w >= 0`, `DP[i][w]` is the maximum total value over all subsets of the first `i` items of weight at most `w`, and the traceback attains it |
| `Recurrence.TraceBackSound` | knapsack/knapsack.py:59-97 | the traceback's items are a subsequence of the input, worth the corner cell, within a non-negative capacity, and optimal when no weight is negative |
| `Recurrence.BuiltCellAgrees` | knapsack/knapsack.py:14-20 | with weights of at least 1, the table with its never-written column 0 equals the recurrence in every cell |
| `Recurrence.ZeroWeightShortfall` | knapsack/knapsack.py:14-20 | values [5, 3], weights [0, 1], capacity 1: the table as filled has 5 in its corner, while the recurrence gives 8, which is the optimum |
| `Knapsack.BuildTable` | knapsack/knapsack.py:4-21 | for any non-negative weights, returns a fresh table with `len(values)+1` rows of `capacity+1` cells (no cells for a negative capacity), each equal to `BuiltCell`, so row 0 and column 0 are zero; with weights of at least 1 every cell is the recurrence |
| `Knapsack.SolveIsOptimum` | knapsack/knapsack.py:24-56 | `solve` on a table holding the recurrence returns the corner `DP[n][capacity]`, which is the optimum over all subsets of the items |
| `Knapsack.Backtrack` | knapsack/knapsack.py:59-97 | returns the corner value and the traceback's items; the residual capacity stays in `0..capacity`; the items are a subsequence of the input in input order; their weight is at most the capacity; their value equals the returned maximum, which is the optimum |
| `Knapsack.Knapsack` | knapsack/knapsack.py:100-142 | for any non-negative weights the single-list variant returns the corner of `build_table`'s table (`BuiltCell`); after item `i` the list holds row `i+1`, and the early `break` leaves exactly the cells the copy branch would leave; with weights of at least 1 the result is the recurrence and the optimum |
| `Knapsack.RecursiveKnapsack` | knapsack/knapsack.py:145-195 | returns `(dp_table(n, capacity), items)` with the same items as `backtrack` on a table of the recurrence; the items are a subsequence of the input worth the returned value and fitting a non-negative capacity, and optimal when no weight is negative |
| `KnapsackDoctests.ThreeItemOptima` | knapsack/knapsack.py:29-38 | values [5, 6, 3] and weights [4, 5, 2] give 5, 6, 9, 11 and 14 at capacities 4, 5, 8, 10 and 11 |
| `KnapsackDoctests.ThreeItemTraceBack` | knapsack/knapsack.py:68-69 | for capacity 8 the traceback returns `[(6, 5), (3, 2)]` |
| `KnapsackDoctests.FourItemTraceBack` | knapsack/knapsack.py:84-85 | values [10, 40, 30, 50], weights [5, 4, 6, 3], capacity 10 give 90 with items `[(40, 4), (50, 3)]` |

## Left out

- `main` and the `__main__` block (knapsack/knapsack.py:198-226): they read a file, print and exit. This is I/O.
- knapsack/running_times.py: timing, random inputs, garbage-collector switching and plotting. It adds no logic.
- The `lru_cache` memoisation of `dp_table` (knapsack/knapsack.py:176-178): `DpTable` is a plain recursive function. A cache changes the running time, not the results.
- Knapsack.BuildTable: requires no weight below 0. With capacity 1 or more, a negative weight always raises `IndexError`: at `w = capacity` the item counts as fitting, and `capacity - weight` lies past the last column (knapsack/knapsack.py:16-20). With capacity 0 or less, the capacity loop never runs and no weight is read. The source then returns a table of zeros, or of empty rows, whatever the weights. The model does not cover negative weights in that case.
- Knapsack.Knapsack: requires no weight below 0. With capacity 1 or more, the sweep starts at `w = capacity` and a negative weight never triggers the `break`. The first read, `DP[capacity - weight]`, then lies past the end of the list and raises `IndexError` (knapsack/knapsack.py:137-141). With capacity 0 the sweep never runs, no weight is read, and the source returns 0. The model does not cover negative weights in that case.
- Knapsack.Backtrack: requires a table holding the recurrence for the same items and capacity. `build_table` returns exactly that table when every weight is at least 1 (`BuildTable`'s last ensures clause). Every caller in the source passes `build_table`'s table. For zero weights see "## Findings". On an arbitrary table, the residual could leave the table and Python's negative indices would wrap around.
- Negative capacity: passed to `solve`, `backtrack` or `knapsack`, it makes the source raise `IndexError`. This is excluded by a precondition rather than modelled as an error.
- Lists of different lengths: every routine requires `len(values) == len(weights)`, and the model covers none of the cases below.
  - A shorter `weights` with capacity 1 or more makes `build_table` and `knapsack` raise `IndexError`.
  - `recursive_knapsack` raises `IndexError` on a shorter `weights` at any capacity, because `dp_table(n, capacity)` first reads `weights[n-1]` (knapsack/knapsack.py:182).
  - With capacity 0 (or any capacity of 0 or less for `build_table`), `build_table` and `knapsack` read no weight and return zeros. `backtrack` on that all-zero table reads none either.
  - A longer `weights` is accepted: only the first `len(values)` weights are read, and the extra ones are ignored.
- Recursion depth: `dp_table` recurses once per item (knapsack/knapsack.py:179-186). Under CPython's default recursion limit, `recursive_knapsack` raises `RecursionError` at roughly a thousand items. `DpTable` has no such limit.
- Python's integers are unbounded, as Dafny's `int` is, so no overflow is modelled.
- The repository's sequence-alignment, edit-distance, spelling-correction and longest-increasing-subsequence programmes are not part of this model.

## Findings

| source | as written | input that shows it | evidently intended | confidence | as-written member | corrected member |
|---|---|---|---|---|---|---|
| knapsack/knapsack.py:16 | `build_table` fills capacities from 1, so column 0 stays 0 even when a zero-weight item fits there | values [5, 3], weights [0, 1], capacity 1: the corner is 5, but both items fit for 8 | every cell is the best value of its items and capacity, column 0 included | not executed | `Knapsack.BuildTable`, `Recurrence.ZeroWeightShortfall` | `Recurrence.DpTable`, proved optimal by `Recurrence.DpTableIsOptimum` |
| knapsack/knapsack.py:137 | `knapsack` sweeps capacities down to 1, so `dp[0]` stays 0 even when a zero-weight item fits there | values [5, 3], weights [0, 1], capacity 1: returns 5, but both items fit for 8 | the result is the best value for the capacity | not executed | `Knapsack.Knapsack`, `Recurrence.ZeroWeightShortfall` | `Recurrence.DpTable`, proved optimal by `Recurrence.DpTableIsOptimum` |
