/**
  Worked instances from the docstrings of knapsack/knapsack.py, stated about
  the recurrence that all routines are proved to compute.
 */
module KnapsackDoctests {
  import opened Selection
  import opened Recurrence

  /** values [5, 6, 3], weights [4, 5, 2]: capacities 4, 5, 8, 10 and 11 give 5, 6, 9, 11 and 14. */
  lemma ThreeItemOptima()
    ensures DpTable([5, 6, 3], [4, 5, 2], 3, 4) == 5
    ensures DpTable([5, 6, 3], [4, 5, 2], 3, 5) == 6
    ensures DpTable([5, 6, 3], [4, 5, 2], 3, 8) == 9
    ensures DpTable([5, 6, 3], [4, 5, 2], 3, 10) == 11
    ensures DpTable([5, 6, 3], [4, 5, 2], 3, 11) == 14
  {
  }

  /** values [5, 6, 3], weights [4, 5, 2], capacity 8: the traceback takes (6, 5) and (3, 2). */
  lemma ThreeItemTraceBack()
    ensures Pick([5, 6, 3], [4, 5, 2], TraceBack([5, 6, 3], [4, 5, 2], 3, 8)) == [(6, 5), (3, 2)]
  {
  }

  /** values [10, 40, 30, 50], weights [5, 4, 6, 3], capacity 10: value 90 from (40, 4) and (50, 3). */
  lemma FourItemTraceBack()
    ensures DpTable([10, 40, 30, 50], [5, 4, 6, 3], 4, 10) == 90
    ensures Pick([10, 40, 30, 50], [5, 4, 6, 3], TraceBack([10, 40, 30, 50], [5, 4, 6, 3], 4, 10)) == [(40, 4), (50, 3)]
  {
  }
}
