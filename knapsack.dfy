/**
  The routines of knapsack/knapsack.py: the bottom-up table, reading its
  corner, the traceback over the table, the single-list variant and the
  top-down recursion with its own traceback. The table and the single list
  are proved to hold `Recurrence.BuiltCell`, which is `Recurrence.DpTable`
  when every weight is at least 1; the tracebacks follow `Recurrence.TraceBack`.
  `DpTable`'s cells are the optimum of `Selection.IsOptimum`.
 */
module Knapsack {
  import opened Selection
  import opened Recurrence

  /** A list read back to front, Python's `items[::-1]`. */
  function Reversed(s: seq<Item>): seq<Item> {
    seq(|s|, k requires 0 <= k < |s| => s[|s| - 1 - k])
  }

  lemma ReversedAppend(s: seq<Item>, x: Item)
    ensures Reversed(s + [x]) == [x] + Reversed(s)
  {
  }

  /**
    One step of a traceback loop at row i: with (j, picked) before the step and
    (j', picked') after it, the items still to be found followed by the
    reversed list gathered so far do not change.
   */
  lemma TraceBackStep(values: seq<int>, weights: seq<int>, i: nat, j: int, picked: seq<Item>, j': int, picked': seq<Item>)
    requires |values| == |weights| && 1 <= i <= |values|
    requires DpTable(values, weights, i, j) != DpTable(values, weights, i - 1, j) ==>
      j' == j - weights[i - 1] && picked' == picked + [(values[i - 1], weights[i - 1])]
    requires DpTable(values, weights, i, j) == DpTable(values, weights, i - 1, j) ==>
      j' == j && picked' == picked
    ensures Pick(values, weights, TraceBack(values, weights, i, j)) + Reversed(picked) ==
            Pick(values, weights, TraceBack(values, weights, i - 1, j')) + Reversed(picked')
  {
    if DpTable(values, weights, i, j) != DpTable(values, weights, i - 1, j) {
      PickAppend(values, weights, TraceBack(values, weights, i - 1, j'), i - 1);
      ReversedAppend(picked, (values[i - 1], weights[i - 1]));
    }
  }

  /** `table` holds, in every cell, the recurrence for its (item count, capacity). */
  ghost predicate IsTableOf(table: array2<int>, values: seq<int>, weights: seq<int>, capacity: int)
    reads table
  {
    && |values| == |weights|
    && capacity >= 0
    && table.Length0 == |values| + 1
    && table.Length1 == capacity + 1
    && forall i, w {:trigger table[i, w]} :: 0 <= i < table.Length0 && 0 <= w < table.Length1 ==>
         table[i, w] == DpTable(values, weights, i, w)
  }

  /**
    Fills the (n+1) x (capacity+1) table row by row. Row 0 and column 0 keep
    their initial zeros; a negative capacity gives rows with no cells, as
    Python's `[0] * (capacity + 1)` does.
   */
  method BuildTable(values: seq<int>, weights: seq<int>, capacity: int) returns (table: array2<int>)
    requires NonNegativeWeights(values, weights)
    ensures fresh(table)
    ensures table.Length0 == |values| + 1
    ensures table.Length1 == if capacity >= 0 then capacity + 1 else 0
    ensures forall i, w :: 0 <= i < table.Length0 && 0 <= w < table.Length1 ==>
              table[i, w] == BuiltCell(values, weights, i, w)
    ensures ValidItems(values, weights) && capacity >= 0 ==> IsTableOf(table, values, weights, capacity)
  {
    var n := |values|;
    var columns := if capacity >= 0 then capacity + 1 else 0;
    table := new int[n + 1, columns]((_, _) => 0);
    var i := 1;
    while i <= n
      invariant 1 <= i <= n + 1
      invariant forall r, x {:trigger table[r, x]} :: 0 <= r < i && 0 <= x < columns ==> table[r, x] == BuiltCell(values, weights, r, x)
      invariant forall r :: i <= r <= n && 0 < columns ==> table[r, 0] == 0
    {
      var w := 1;
      while w <= capacity
        invariant columns == 0 ==> w == 1
        invariant columns > 0 ==> 1 <= w <= columns
        invariant forall r, x {:trigger table[r, x]} :: 0 <= r < i && 0 <= x < columns ==> table[r, x] == BuiltCell(values, weights, r, x)
        invariant forall x {:trigger table[i, x]} :: 0 <= x < w && x < columns ==> table[i, x] == BuiltCell(values, weights, i, x)
        invariant forall r :: i < r <= n && 0 < columns ==> table[r, 0] == 0
      {
        var wt := weights[i - 1];
        assert table[i - 1, w] == BuiltCell(values, weights, i - 1, w);
        if wt > w {
          table[i, w] := table[i - 1, w];
        } else {
          assert table[i - 1, w - wt] == BuiltCell(values, weights, i - 1, w - wt);
          table[i, w] := Max(table[i - 1, w], values[i - 1] + table[i - 1, w - wt]);
        }
        assert table[i, w] == BuiltCell(values, weights, i, w);
        w := w + 1;
      }
      assert w == columns || columns == 0;
      i := i + 1;
    }
    if ValidItems(values, weights) && capacity >= 0 {
      forall r, x | 0 <= r < table.Length0 && 0 <= x < table.Length1
        ensures table[r, x] == DpTable(values, weights, r, x)
      {
        BuiltCellAgrees(values, weights, r, x);
      }
    }
  }

  /** The bottom-right cell of a table, Python's `dp_table[-1][-1]`. */
  function Solve(table: array2<int>): int
    reads table
    requires table.Length0 >= 1 && table.Length1 >= 1
  {
    table[table.Length0 - 1, table.Length1 - 1]
  }

  /** On the table `BuildTable` returns, `Solve` gives the optimum over all item subsets. */
  lemma SolveIsOptimum(table: array2<int>, values: seq<int>, weights: seq<int>, capacity: int)
    requires NonNegativeWeights(values, weights)
    requires IsTableOf(table, values, weights, capacity)
    ensures Solve(table) == DpTable(values, weights, |values|, capacity)
    ensures IsOptimum(values, weights, |values|, capacity, Solve(table))
  {
    DpTableIsOptimum(values, weights, |values|, capacity);
  }

  /**
    Walks rows n..1 of the table with a residual capacity j, taking item i-1
    wherever row i differs from row i-1 in column j; returns the corner value
    and the taken items in input order.
   */
  method Backtrack(values: seq<int>, weights: seq<int>, capacity: int, table: array2<int>)
    returns (best: int, items: seq<Item>)
    requires NonNegativeWeights(values, weights)
    requires IsTableOf(table, values, weights, capacity)
    ensures best == DpTable(values, weights, |values|, capacity)
    ensures items == Pick(values, weights, TraceBack(values, weights, |values|, capacity))
    ensures IsSubsequenceOfItems(items, values, weights)
    ensures TotalWeight(items) <= capacity
    ensures TotalValue(items) == best
    ensures IsOptimum(values, weights, |values|, capacity, best)
  {
    var n := |values|;
    ghost var chosen := TraceBack(values, weights, n, capacity);
    var picked: seq<Item> := [];
    var j := capacity;
    var i := n;
    while i > 0
      invariant 0 <= i <= n
      invariant 0 <= j <= capacity
      invariant Pick(values, weights, chosen) == Pick(values, weights, TraceBack(values, weights, i, j)) + Reversed(picked)
    {
      assert table[i, j] == DpTable(values, weights, i, j);
      assert table[i - 1, j] == DpTable(values, weights, i - 1, j);
      ghost var j0, picked0 := j, picked;
      if table[i, j] != table[i - 1, j] {
        picked := picked + [(values[i - 1], weights[i - 1])];
        j := j - weights[i - 1];
      }
      TraceBackStep(values, weights, i, j0, picked0, j, picked);
      i := i - 1;
    }
    best, items := table[n, capacity], Reversed(picked);
    assert items == Pick(values, weights, chosen);
    TraceBackSound(values, weights, capacity);
  }

  /**
    The O(capacity)-space variant: one list, overwritten item by item with a
    downward sweep over capacities that stops at the first capacity the item
    no longer fits.
   */
  method Knapsack(values: seq<int>, weights: seq<int>, capacity: int) returns (best: int)
    requires NonNegativeWeights(values, weights) && capacity >= 0
    ensures best == BuiltCell(values, weights, |values|, capacity)
    ensures ValidItems(values, weights) ==> best == DpTable(values, weights, |values|, capacity)
    ensures ValidItems(values, weights) ==> IsOptimum(values, weights, |values|, capacity, best)
  {
    var dp := new int[capacity + 1](_ => 0);
    var n := |values|;
    for i := 0 to n
      invariant forall x {:trigger dp[x]} :: 0 <= x <= capacity ==> dp[x] == BuiltCell(values, weights, i, x)
    {
      var w := capacity;
      var wt := weights[i];
      while w > 0
        invariant 0 <= w <= capacity
        invariant forall x {:trigger dp[x]} :: w < x <= capacity ==> dp[x] == BuiltCell(values, weights, i + 1, x)
        invariant forall x {:trigger dp[x]} :: 0 <= x <= w ==> dp[x] == BuiltCell(values, weights, i, x)
      {
        if wt > w {
          break;
        }
        assert dp[w] == BuiltCell(values, weights, i, w);
        assert dp[w - wt] == BuiltCell(values, weights, i, w - wt);
        dp[w] := Max(dp[w], values[i] + dp[w - wt]);
        assert dp[w] == BuiltCell(values, weights, i + 1, w);
        w := w - 1;
      }
      // Whether the sweep ran out or broke off, the cells 0..w left behind
      // are column 0 or capacities item i does not fit: they already hold row i + 1.
      assert w == 0 || w < wt;
      forall x | 0 <= x <= w
        ensures dp[x] == BuiltCell(values, weights, i + 1, x)
      {
        assert dp[x] == BuiltCell(values, weights, i, x);
      }
    }
    best := dp[capacity];
    if ValidItems(values, weights) {
      BuiltCellAgrees(values, weights, n, capacity);
      DpTableIsOptimum(values, weights, n, capacity);
    }
  }

  /**
    The top-down version: the recurrence `DpTable` (memoised in the source)
    queried along the same traceback. Runs for any weights and capacity.
   */
  method RecursiveKnapsack(values: seq<int>, weights: seq<int>, capacity: int)
    returns (best: int, items: seq<Item>)
    requires |values| == |weights|
    ensures best == DpTable(values, weights, |values|, capacity)
    ensures items == Pick(values, weights, TraceBack(values, weights, |values|, capacity))
    ensures IsSubsequenceOfItems(items, values, weights)
    ensures TotalValue(items) == best
    ensures capacity >= 0 ==> TotalWeight(items) <= capacity
    ensures NonNegativeWeights(values, weights) && capacity >= 0 ==> IsOptimum(values, weights, |values|, capacity, best)
  {
    var n := |values|;
    ghost var chosen := TraceBack(values, weights, n, capacity);
    var picked: seq<Item> := [];
    var j := capacity;
    var i := n;
    while i > 0
      invariant 0 <= i <= n
      invariant Pick(values, weights, chosen) == Pick(values, weights, TraceBack(values, weights, i, j)) + Reversed(picked)
    {
      ghost var j0, picked0 := j, picked;
      if DpTable(values, weights, i, j) != DpTable(values, weights, i - 1, j) {
        picked := picked + [(values[i - 1], weights[i - 1])];
        j := j - weights[i - 1];
      }
      TraceBackStep(values, weights, i, j0, picked0, j, picked);
      i := i - 1;
    }
    best, items := DpTable(values, weights, n, capacity), Reversed(picked);
    assert items == Pick(values, weights, chosen);
    TraceBackSound(values, weights, capacity);
  }
}
