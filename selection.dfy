/**
  The 0-1 knapsack problem itself, independent of any algorithm: items are
  (value, weight) pairs given as two parallel lists, a selection names some of
  the first n items in increasing index order, and the optimum is the largest
  total value of a selection whose total weight fits the capacity.
 */
module Selection {

  /** An item as the routines return it: the pair (value, weight). */
  type Item = (int, int)

  /** One weight per value, and every weight at least 1. */
  predicate ValidItems(values: seq<int>, weights: seq<int>) {
    |values| == |weights| && forall k :: 0 <= k < |weights| ==> weights[k] >= 1
  }

  /** One weight per value, and no weight below 0. */
  predicate NonNegativeWeights(values: seq<int>, weights: seq<int>) {
    |values| == |weights| && forall k :: 0 <= k < |weights| ==> weights[k] >= 0
  }

  /** Sum of the values of a list of items. */
  function TotalValue(items: seq<Item>): int {
    if items == [] then 0 else TotalValue(items[..|items| - 1]) + items[|items| - 1].0
  }

  /** Sum of the weights of a list of items. */
  function TotalWeight(items: seq<Item>): int {
    if items == [] then 0 else TotalWeight(items[..|items| - 1]) + items[|items| - 1].1
  }

  lemma TotalsAppend(items: seq<Item>, x: Item)
    ensures TotalValue(items + [x]) == TotalValue(items) + x.0
    ensures TotalWeight(items + [x]) == TotalWeight(items) + x.1
  {
    assert (items + [x])[..|items|] == items;
  }

  /** `idx` lists distinct indices below `n` in increasing order. */
  ghost predicate IsSelection(idx: seq<nat>, n: nat) {
    && (forall a :: 0 <= a < |idx| ==> idx[a] < n)
    && (forall a, b :: 0 <= a < b < |idx| ==> idx[a] < idx[b])
  }

  /** The items that the indices `idx` name, in the order of `idx`. */
  function Pick(values: seq<int>, weights: seq<int>, idx: seq<nat>): (items: seq<Item>)
    requires forall a :: 0 <= a < |idx| ==> idx[a] < |values| && idx[a] < |weights|
  {
    seq(|idx|, a requires 0 <= a < |idx| => (values[idx[a]], weights[idx[a]]))
  }

  lemma PickAppend(values: seq<int>, weights: seq<int>, idx: seq<nat>, k: nat)
    requires forall a :: 0 <= a < |idx| ==> idx[a] < |values| && idx[a] < |weights|
    requires k < |values| && k < |weights|
    ensures Pick(values, weights, idx + [k]) == Pick(values, weights, idx) + [(values[k], weights[k])]
  {
  }

  /** With no negative weight, a selection never weighs less than nothing. */
  lemma {:induction false} WeightNonNegative(values: seq<int>, weights: seq<int>, idx: seq<nat>)
    requires NonNegativeWeights(values, weights)
    requires forall a :: 0 <= a < |idx| ==> idx[a] < |values|
    ensures TotalWeight(Pick(values, weights, idx)) >= 0
  {
    if idx != [] {
      var rest := idx[..|idx| - 1];
      var last := idx[|idx| - 1];
      assert idx == rest + [last];
      PickAppend(values, weights, rest, last);
      WeightNonNegative(values, weights, rest);
      TotalsAppend(Pick(values, weights, rest), (values[last], weights[last]));
    }
  }

  /** The items are some of the input pairs, taken in input order. */
  ghost predicate IsSubsequenceOfItems(items: seq<Item>, values: seq<int>, weights: seq<int>) {
    |values| == |weights| &&
    exists idx :: IsSelection(idx, |values|) && Pick(values, weights, idx) == items
  }

  /** `idx` is a selection among the first `n` items whose total weight is at most `w`. */
  ghost predicate Feasible(values: seq<int>, weights: seq<int>, idx: seq<nat>, n: nat, w: int) {
    n <= |values| && n <= |weights| && IsSelection(idx, n) &&
    TotalWeight(Pick(values, weights, idx)) <= w
  }

  /** `best` is the largest total value of a feasible selection of the first `n` items. */
  ghost predicate IsOptimum(values: seq<int>, weights: seq<int>, n: nat, w: int, best: int) {
    && (exists idx :: Feasible(values, weights, idx, n, w) && TotalValue(Pick(values, weights, idx)) == best)
    && (forall idx :: Feasible(values, weights, idx, n, w) ==> TotalValue(Pick(values, weights, idx)) <= best)
  }
}
