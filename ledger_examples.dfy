/** The worked example of the dashboard: one user's income of 100
    followed by expenses of 40 and 10. */
module LedgerExamples {
  import opened Ledger

  /** The totals: income 100, expense 50, balance 50. */
  lemma SummaryExampleTotals(txs: seq<Transaction>)
    requires |txs| == 3
    requires txs[0].userId == 1 && txs[0].amount == 100.0 && txs[0].transactionType == INCOME
    requires txs[1].userId == 1 && txs[1].amount == 40.0 && txs[1].transactionType == EXPENSE
    requires txs[2].userId == 1 && txs[2].amount == 10.0 && txs[2].transactionType == EXPENSE
    ensures Summarize(txs, 1).income == 100.0
    ensures Summarize(txs, 1).expense == 50.0
    ensures Summarize(txs, 1).balance == 50.0
  {
    assert INCOME != EXPENSE by {
      assert INCOME[0] != EXPENSE[0];
    }
    assert txs[..2] + [txs[2]] == txs;
    assert txs[..1] + [txs[1]] == txs[..2];
    assert [] + [txs[0]] == txs[..1];
    TotalIsSum([], 1, INCOME);
    TotalIsSum([], 1, EXPENSE);
    TotalAfterAppend([], txs[0], 1, INCOME);
    TotalAfterAppend([], txs[0], 1, EXPENSE);
    TotalAfterAppend(txs[..1], txs[1], 1, INCOME);
    TotalAfterAppend(txs[..1], txs[1], 1, EXPENSE);
    TotalAfterAppend(txs[..2], txs[2], 1, INCOME);
    TotalAfterAppend(txs[..2], txs[2], 1, EXPENSE);
  }

  /** The latest rows: the three rows, added one after the other, are
      shown latest first. */
  lemma SummaryExampleRecent(txs: seq<Transaction>)
    requires |txs| == 3
    requires txs[0].userId == 1 && txs[1].userId == 1 && txs[2].userId == 1
    requires txs[0].date < txs[1].date < txs[2].date
    ensures |Summarize(txs, 1).recent| == 3
    ensures Summarize(txs, 1).recent[0] == txs[2]
    ensures Summarize(txs, 1).recent[1] == txs[1]
    ensures Summarize(txs, 1).recent[2] == txs[0]
  {
    assert InsertionOrder(txs);
    OfUserAll(txs, 1);
    RecentOfFewOwnRows(txs, 1);
  }
}
