/**
  The knapsack recurrence that every routine of knapsack/knapsack.py computes,
  and the traceback that recovers one optimal selection from it. `DpTable` is the
  inner `dp_table` of `recursive_knapsack`; the table of `build_table` and the
  rolling list of `knapsack` are proved to hold its values.
 */
module Recurrence {
  import opened Selection

  /** Python's `max` on two integers. */
  function Max(a: int, b: int): int {
    if a >= b then a else b
  }

  /**
    Best value of the first `i` items with capacity `j`: an item that does not
    fit is skipped; otherwise the better of skipping it or taking it.
   */
  function DpTable(values: seq<int>, weights: seq<int>, i: nat, j: int): int
    requires |values| == |weights| && i <= |values|
    decreases i
  {
    if i == 0 then 0
    else if weights[i - 1] > j then DpTable(values, weights, i - 1, j)
    else Max(DpTable(values, weights, i - 1, j),
             DpTable(values, weights, i - 1, j - weights[i - 1]) + values[i - 1])
  }

  /** The empty selection is always available, so no cell is negative. */
  lemma {:induction false} DpTableNonNegative(values: seq<int>, weights: seq<int>, i: nat, j: int)
    requires |values| == |weights| && i <= |values|
    ensures DpTable(values, weights, i, j) >= 0
  {
    if i > 0 {
      DpTableNonNegative(values, weights, i - 1, j);
    }
  }

  /** With weights of at least 1 nothing fits a capacity below 1: column 0 is all zero. */
  lemma {:induction false} DpTableColumnZero(values: seq<int>, weights: seq<int>, i: nat, j: int)
    requires ValidItems(values, weights) && i <= |values| && j <= 0
    ensures DpTable(values, weights, i, j) == 0
  {
    if i > 0 {
      DpTableColumnZero(values, weights, i - 1, j);
    }
  }

  /** Allowing more items never lowers the best value: each column is non-decreasing downwards. */
  lemma {:induction false} DpTableGrowsWithItems(values: seq<int>, weights: seq<int>, i: nat, k: nat, j: int)
    requires |values| == |weights| && i <= k <= |values|
    ensures DpTable(values, weights, i, j) <= DpTable(values, weights, k, j)
    decreases k
  {
    if i < k {
      DpTableGrowsWithItems(values, weights, i, k - 1, j);
    }
  }

  /** A larger capacity never lowers the best value: each row is non-decreasing rightwards. */
  lemma {:induction false} DpTableGrowsWithCapacity(values: seq<int>, weights: seq<int>, i: nat, j: int, j': int)
    requires |values| == |weights| && i <= |values| && j <= j'
    ensures DpTable(values, weights, i, j) <= DpTable(values, weights, i, j')
    decreases i
  {
    if i > 0 {
      DpTableGrowsWithCapacity(values, weights, i - 1, j, j');
      if weights[i - 1] <= j {
        DpTableGrowsWithCapacity(values, weights, i - 1, j - weights[i - 1], j' - weights[i - 1]);
      }
    }
  }

  /**
    The traceback over rows i..1 with residual capacity j: wherever the cell
    differs from the one above, item i-1 was taken and its weight leaves the
    residual. The result lists item indices in input order.
   */
  ghost function TraceBack(values: seq<int>, weights: seq<int>, i: nat, j: int): (idx: seq<nat>)
    requires |values| == |weights| && i <= |values|
    ensures forall a :: 0 <= a < |idx| ==> idx[a] < i
    decreases i
  {
    if i == 0 then []
    else if DpTable(values, weights, i, j) != DpTable(values, weights, i - 1, j)
    then TraceBack(values, weights, i - 1, j - weights[i - 1]) + [i - 1]
    else TraceBack(values, weights, i - 1, j)
  }

  /** The traceback lists distinct items in input order: a subsequence of the input. */
  lemma {:induction false} TraceBackIsSelection(values: seq<int>, weights: seq<int>, i: nat, j: int)
    requires |values| == |weights| && i <= |values|
    ensures IsSelection(TraceBack(values, weights, i, j), i)
    decreases i
  {
    if i > 0 && DpTable(values, weights, i, j) != DpTable(values, weights, i - 1, j) {
      TraceBackIsSelection(values, weights, i - 1, j - weights[i - 1]);
    } else if i > 0 {
      TraceBackIsSelection(values, weights, i - 1, j);
    }
  }

  /** The items the traceback picks are worth exactly the cell it starts from. */
  lemma {:induction false} TraceBackValue(values: seq<int>, weights: seq<int>, i: nat, j: int)
    requires |values| == |weights| && i <= |values|
    ensures TotalValue(Pick(values, weights, TraceBack(values, weights, i, j))) == DpTable(values, weights, i, j)
    decreases i
  {
    if i > 0 && DpTable(values, weights, i, j) != DpTable(values, weights, i - 1, j) {
      var rest := TraceBack(values, weights, i - 1, j - weights[i - 1]);
      TraceBackValue(values, weights, i - 1, j - weights[i - 1]);
      PickAppend(values, weights, rest, i - 1);
      TotalsAppend(Pick(values, weights, rest), (values[i - 1], weights[i - 1]));
    } else if i > 0 {
      TraceBackValue(values, weights, i - 1, j);
    }
  }

  /** The items the traceback picks fit the capacity it starts from. */
  lemma {:induction false} TraceBackWeight(values: seq<int>, weights: seq<int>, i: nat, j: int)
    requires |values| == |weights| && i <= |values| && j >= 0
    ensures TotalWeight(Pick(values, weights, TraceBack(values, weights, i, j))) <= j
    decreases i
  {
    if i > 0 {
      var w := weights[i - 1];
      if DpTable(values, weights, i, j) != DpTable(values, weights, i - 1, j) {
        // A cell differs from the one above only where the item fits.
        assert w <= j;
        var rest := TraceBack(values, weights, i - 1, j - w);
        assert TraceBack(values, weights, i, j) == rest + [i - 1];
        TraceBackWeight(values, weights, i - 1, j - w);
        PickAppend(values, weights, rest, i - 1);
        TotalsAppend(Pick(values, weights, rest), (values[i - 1], w));
      } else {
        assert TraceBack(values, weights, i, j) == TraceBack(values, weights, i - 1, j);
        TraceBackWeight(values, weights, i - 1, j);
      }
    }
  }

  /** No selection of the first i items that fits capacity w is worth more than the cell. */
  lemma {:induction false} DpTableUpperBound(values: seq<int>, weights: seq<int>, i: nat, w: int, idx: seq<nat>)
    requires NonNegativeWeights(values, weights) && i <= |values|
    requires Feasible(values, weights, idx, i, w)
    ensures TotalValue(Pick(values, weights, idx)) <= DpTable(values, weights, i, w)
    decreases i
  {
    if idx == [] {
      DpTableNonNegative(values, weights, i, w);
    } else {
      var rest := idx[..|idx| - 1];
      var last := idx[|idx| - 1];
      assert idx == rest + [last];
      PickAppend(values, weights, rest, last);
      TotalsAppend(Pick(values, weights, rest), (values[last], weights[last]));
      WeightNonNegative(values, weights, rest);
      if last == i - 1 {
        assert IsSelection(rest, i - 1);
        DpTableUpperBound(values, weights, i - 1, w - weights[i - 1], rest);
      } else {
        assert IsSelection(idx, i - 1);
        DpTableUpperBound(values, weights, i - 1, w, idx);
      }
    }
  }

  /**
    The cell for the first i items and capacity w is the optimum over all
    selections of those items that fit w, and the traceback attains it.
   */
  lemma DpTableIsOptimum(values: seq<int>, weights: seq<int>, i: nat, w: int)
    requires NonNegativeWeights(values, weights) && i <= |values| && w >= 0
    ensures IsOptimum(values, weights, i, w, DpTable(values, weights, i, w))
    ensures Feasible(values, weights, TraceBack(values, weights, i, w), i, w)
  {
    var idx := TraceBack(values, weights, i, w);
    TraceBackIsSelection(values, weights, i, w);
    TraceBackValue(values, weights, i, w);
    TraceBackWeight(values, weights, i, w);
    assert Feasible(values, weights, idx, i, w);
    forall other | Feasible(values, weights, other, i, w)
      ensures TotalValue(Pick(values, weights, other)) <= DpTable(values, weights, i, w)
    {
      DpTableUpperBound(values, weights, i, w, other);
    }
  }

  /**
    Everything the source promises of the traceback's items: they are input
    pairs in input order, worth exactly the corner cell, fitting the capacity,
    and (for weights of at least 0) an optimal choice.
   */
  lemma TraceBackSound(values: seq<int>, weights: seq<int>, capacity: int)
    requires |values| == |weights|
    ensures var items := Pick(values, weights, TraceBack(values, weights, |values|, capacity));
      && IsSubsequenceOfItems(items, values, weights)
      && TotalValue(items) == DpTable(values, weights, |values|, capacity)
      && (capacity >= 0 ==> TotalWeight(items) <= capacity)
      && (NonNegativeWeights(values, weights) && capacity >= 0 ==>
            IsOptimum(values, weights, |values|, capacity, DpTable(values, weights, |values|, capacity)))
  {
    var n := |values|;
    var chosen := TraceBack(values, weights, n, capacity);
    TraceBackIsSelection(values, weights, n, capacity);
    TraceBackValue(values, weights, n, capacity);
    if capacity >= 0 {
      TraceBackWeight(values, weights, n, capacity);
    }
    if NonNegativeWeights(values, weights) && capacity >= 0 {
      DpTableIsOptimum(values, weights, n, capacity);
    }
  }

  /**
    A cell of the table as `build_table` and `knapsack` fill it: their capacity
    loops start at 1, so column 0 keeps its initial 0 whatever the weights.
   */
  function BuiltCell(values: seq<int>, weights: seq<int>, i: nat, j: nat): int
    requires |values| == |weights| && i <= |values|
    decreases i
  {
    if i == 0 || j == 0 then 0
    else if weights[i - 1] > j then BuiltCell(values, weights, i - 1, j)
    else Max(BuiltCell(values, weights, i - 1, j),
             BuiltCell(values, weights, i - 1, j - weights[i - 1]) + values[i - 1])
  }

  /** With weights of at least 1 the untouched column 0 is exact, so the filled table is the recurrence. */
  lemma {:induction false} BuiltCellAgrees(values: seq<int>, weights: seq<int>, i: nat, j: nat)
    requires ValidItems(values, weights) && i <= |values|
    ensures BuiltCell(values, weights, i, j) == DpTable(values, weights, i, j)
    decreases i
  {
    if i > 0 && j == 0 {
      DpTableColumnZero(values, weights, i, 0);
    } else if i > 0 {
      BuiltCellAgrees(values, weights, i - 1, j);
      if weights[i - 1] <= j {
        BuiltCellAgrees(values, weights, i - 1, j - weights[i - 1]);
      }
    }
  }

  /**
    A zero-weight item breaks the filled table: with values [5, 3], weights
    [0, 1] and capacity 1 both items fit together for 8, the optimum, but the
    table's corner holds 5 because the free item never reaches column 0.
   */
  lemma ZeroWeightShortfall()
    ensures BuiltCell([5, 3], [0, 1], 2, 1) == 5
    ensures DpTable([5, 3], [0, 1], 2, 1) == 8
    ensures IsOptimum([5, 3], [0, 1], 2, 1, 8)
  {
    DpTableIsOptimum([5, 3], [0, 1], 2, 1);
  }
}
