/** The `HomePage` of frontend/.../App.js as far as it computes anything:
    the over-limit flag it adds to each row of the monthly summary. */
module Home {
  import opened Base
  import opened Models
  import opened Summary

  /** `item.limitMonth && item.sumCost > item.limitMonth`. A NULL or zero
      limit is falsy and means "no limit"; a NULL total compares as 0. */
  predicate IsOverLimit(row: SummaryRow) {
    row.limitMonth.Some? && row.limitMonth.value != 0 && row.sumCost.GetOr(0) > row.limitMonth.value
  }

  /** `summaryRowsWithStyle`: every row kept in place, with its flag. */
  function WithStyle(rows: seq<SummaryRow>): (r: seq<(SummaryRow, bool)>)
    ensures |r| == |rows|
    ensures forall i | 0 <= i < |rows| :: r[i].0 == rows[i] && (r[i].1 <==> IsOverLimit(rows[i]))
  {
    if |rows| == 0 then [] else [(rows[0], IsOverLimit(rows[0]))] + WithStyle(rows[1..])
  }

  /** A type without a limit, or with limit 0, is never flagged. */
  lemma NoLimitNeverOver(row: SummaryRow)
    requires row.limitMonth.GetOr(0) == 0
    ensures !IsOverLimit(row)
  {
  }

  /** A negative limit, which `update_limit` stores without complaint, flags
      the group in every month whose total is not negative, even one whose
      costs are all NULL. */
  lemma NegativeLimitAlwaysOver(row: SummaryRow)
    requires row.limitMonth.Some? && row.limitMonth.value < 0
    requires row.sumCost.GetOr(0) >= 0
    ensures IsOverLimit(row)
  {
  }

  /** On the rows the summary query returns, the flag says that the costs
      recorded for that month and type exceed the type's non-zero limit. */
  lemma OverLimitMeansSpentMore(s: Store, row: SummaryRow)
    requires TypeIdsUnique(s.types)
    requires row in Summarize(s)
    ensures IsOverLimit(row) <==>
              row.limitMonth.Some? && row.limitMonth.value != 0
              && GroupCost(s.types, s.expenses, KeyOfRow(row)) > row.limitMonth.value
  {
  }
}
