/**
 * What the pass guarantees about the sequence of labels: buys and sells alternate,
 * starting with a buy, and every sale closes the most recent open buy.
 */
module Alternation {
  import opened Options
  import opened Strategy

  /** Number of rows whose status is `s` (len(df[df['Status'] == s])). */
  function Count(rows: seq<Row>, s: Status): (n: nat)
    ensures n <= |rows|
  {
    if rows == [] then 0
    else Count(rows[..|rows| - 1], s) + (if rows[|rows| - 1].status == s then 1 else 0)
  }

  /** Number of rows whose target flag is set (len(df[df['Target_Achieved'] == 'Yes'])). */
  function CountTargets(rows: seq<Row>): (n: nat)
    ensures n <= |rows|
  {
    if rows == [] then 0
    else CountTargets(rows[..|rows| - 1]) + (if rows[|rows| - 1].targetAchieved then 1 else 0)
  }

  /** The index of the last labelled row, if any. */
  function LastLabel(rows: seq<Row>): (r: Option<nat>)
    ensures r.Some? ==> r.value < |rows| && rows[r.value].status != Blank &&
                        forall m :: r.value < m < |rows| ==> rows[m].status == Blank
    ensures r.None? ==> forall m :: 0 <= m < |rows| ==> rows[m].status == Blank
  {
    if rows == [] then None
    else if rows[|rows| - 1].status != Blank then Some(|rows| - 1)
    else LastLabel(rows[..|rows| - 1])
  }

  /**
   * The position agrees with the labels: with no position, buys and sells are equal
   * in number and the last label (if any) is a sale; holding since `p`, there is one
   * buy more than sales and the last label is a buy at price `p`.
   */
  predicate Ledger(p: Pass) {
    match p.position
    case NoPosition =>
      Count(p.rows, Bought) == Count(p.rows, Sold) &&
      (LastLabel(p.rows).Some? ==> p.rows[LastLabel(p.rows).value].status == Sold)
    case Holding(bp) =>
      Count(p.rows, Bought) == Count(p.rows, Sold) + 1 &&
      LastLabel(p.rows).Some? &&
      p.rows[LastLabel(p.rows).value] == Row(bp, Some(bp), None, Bought, false)
  }

  /** The pass keeps the ledger at every prefix. */
  lemma {:induction false} RunKeepsLedger(close: seq<real>, t: Thresholds)
    requires Positive(close)
    ensures Ledger(Run(close, t))
    decreases |close|
  {
    if |close| == 1 {
      var rows := Run(close, t).rows;
      assert rows[..0] == [];
    } else if |close| >= 2 {
      var init := close[..|close| - 1];
      RunKeepsLedger(init, t);
      var before := Run(init, t);
      var after := Run(close, t);
      assert after.rows[..|after.rows| - 1] == before.rows;
    }
  }

  /** Every row is blank, a buy or a sale, so the three counts add up to the number of rows. */
  lemma {:induction false} CountsPartitionRows(rows: seq<Row>)
    ensures Count(rows, Blank) + Count(rows, Bought) + Count(rows, Sold) == |rows|
  {
    if rows != [] {
      CountsPartitionRows(rows[..|rows| - 1]);
    }
  }

  /** Rows none of which is labelled count no buys and no sales. */
  lemma {:induction false} UnlabelledCountsNothing(rows: seq<Row>, s: Status)
    requires s != Blank
    requires forall m :: 0 <= m < |rows| ==> rows[m].status == Blank
    ensures Count(rows, s) == 0
  {
    if rows != [] {
      UnlabelledCountsNothing(rows[..|rows| - 1], s);
    }
  }

  /**
   * Labels alternate: a buy comes when the rows before it hold as many buys as
   * sales, a sale when they hold exactly one buy more.
   */
  lemma BuysAndSellsAlternate(close: seq<real>, t: Thresholds, k: nat)
    requires Positive(close) && k < |close|
    ensures var rows := Run(close, t).rows;
            rows[k].status == Bought ==> Count(rows[..k], Bought) == Count(rows[..k], Sold)
    ensures var rows := Run(close, t).rows;
            rows[k].status == Sold ==> Count(rows[..k], Bought) == Count(rows[..k], Sold) + 1
  {
    if k == 0 {
      FirstRowUnlabelled(close, t);
    } else {
      RunPrefix(close, t, k);
      RunKeepsLedger(close[..k], t);
      BuyRule(close, t, k);
      SellRule(close, t, k);
    }
  }

  /** The first labelled row is a buy. */
  lemma FirstLabelIsBuy(close: seq<real>, t: Thresholds, k: nat)
    requires Positive(close) && k < |close|
    requires Run(close, t).rows[k].status != Blank
    requires forall j :: 0 <= j < k ==> Run(close, t).rows[j].status == Blank
    ensures Run(close, t).rows[k].status == Bought
  {
    var rows := Run(close, t).rows;
    UnlabelledCountsNothing(rows[..k], Bought);
    UnlabelledCountsNothing(rows[..k], Sold);
    BuysAndSellsAlternate(close, t, k);
  }

  /**
   * At the end of the pass sales never outnumber buys and buys exceed sales by at
   * most one, and by exactly one when a position is still open.
   */
  lemma {:induction false} OpenBuysBalance(close: seq<real>, t: Thresholds)
    requires Positive(close)
    ensures Count(Run(close, t).rows, Sold) <= Count(Run(close, t).rows, Bought)
                                            <= Count(Run(close, t).rows, Sold) + 1
    ensures Count(Run(close, t).rows, Bought) == Count(Run(close, t).rows, Sold) + 1
        <==> Run(close, t).position.Holding?
  {
    RunKeepsLedger(close, t);
  }

  /**
   * Every sale closes the most recent buy: there is an earlier buy row `j`, no row
   * between them is labelled, and the sale price is at least sell_profit percent
   * above the close of row `j`, which is its buy price.
   */
  lemma SaleClosesLatestBuy(close: seq<real>, t: Thresholds, k: nat)
    requires Positive(close) && k < |close|
    requires Run(close, t).rows[k].status == Sold
    ensures exists j :: 0 < j < k && Run(close, t).rows[j].status == Bought &&
              Run(close, t).rows[j].buyPrice == Some(close[j]) &&
              (forall m :: j < m < k ==> Run(close, t).rows[m].status == Blank) &&
              SellSignal(close[j], close[k], t) &&
              Run(close, t).rows[k].sellPrice == Some(close[k])
  {
    var rows := Run(close, t).rows;
    FirstRowUnlabelled(close, t);
    SellRule(close, t, k);
    RunPrefix(close, t, k);
    RunKeepsLedger(close[..k], t);
    RowsShaped(close, t);
    var prefix := rows[..k];
    var j := LastLabel(prefix).value;
    assert prefix[j] == rows[j];
    assert forall m :: j < m < k ==> prefix[m] == rows[m];
    assert j != 0;
  }

  /** Target flags are set exactly on sale rows, so the two counts agree. */
  lemma {:induction false} TargetsCountSales(rows: seq<Row>)
    requires forall k :: 0 <= k < |rows| ==> rows[k].targetAchieved == (rows[k].status == Sold)
    ensures CountTargets(rows) == Count(rows, Sold)
  {
    if rows != [] {
      TargetsCountSales(rows[..|rows| - 1]);
    }
  }
}
