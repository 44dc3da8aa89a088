/**
 * backtest_stock: the download outcome, the in-place labelling pass over the price
 * table and the per-symbol summary.
 */
module Backtest {
  import opened Options
  import opened Strategy
  import opened Alternation

  /**
   * What the market-data download gives: a failure (any exception raised while
   * fetching) or the closing prices from the start date on, possibly none.
   */
  datatype Download = Failed | Fetched(close: seq<real>)

  /** The summary record of one symbol. */
  datatype Summary = Summary(symbol: string, totalTrades: nat, openPositions: nat,
                             successfulTrades: nat)

  /** The default thresholds of backtest_stock: buy after a 3% drop, sell at a 5% gain. */
  function DefaultThresholds(): (t: Thresholds)
    ensures t.buyDrop > 0.0 && t.sellProfit > 0.0
  {
    Thresholds(3.0, 5.0)
  }

  /** The result of a successful backtest: the labelled table and its summary. */
  datatype BacktestResult = BacktestResult(data: seq<Row>, summary: Summary)

  /**
   * The summary counts: sale rows, buy rows (every buy, also those sold later) and
   * rows with the target flag.
   */
  function Summarize(symbol: string, rows: seq<Row>): (s: Summary)
    ensures s.symbol == symbol
    ensures s.totalTrades + s.openPositions <= |rows| && s.successfulTrades <= |rows|
  {
    CountsPartitionRows(rows);
    Summary(symbol, Count(rows, Sold), Count(rows, Bought), CountTargets(rows))
  }

  /**
   * The counts of a pass are tied to each other: every completed trade hit the
   * target, and the buy count is the sale count, plus one exactly when a position is
   * still open at the end.
   */
  lemma {:induction false} SummaryCountsAgree(symbol: string, close: seq<real>, t: Thresholds)
    requires Positive(close)
    ensures var s := Summarize(symbol, Run(close, t).rows);
              s.symbol == symbol &&
              s.successfulTrades == s.totalTrades &&
              s.totalTrades <= s.openPositions <= s.totalTrades + 1 &&
              (s.openPositions == s.totalTrades + 1 <==> Run(close, t).position.Holding?)
  {
    RowsShaped(close, t);
    TargetsCountSales(Run(close, t).rows);
    OpenBuysBalance(close, t);
  }

  /**
   * backtest_stock: no result when the download fails or is empty; otherwise the
   * labelled table and its summary.
   */
  method BacktestStock(symbol: string, download: Download, t: Thresholds)
    returns (result: Option<BacktestResult>)
    requires download.Fetched? ==> Positive(download.close)
    ensures result.None? <==> download.Failed? || |download.close| == 0
    ensures result.Some? ==>
              result.value.data == Run(download.close, t).rows &&
              result.value.summary == Summarize(symbol, result.value.data)
    ensures result.Some? ==>
              var s := result.value.summary;
              s.symbol == symbol && s.successfulTrades == s.totalTrades &&
              s.totalTrades <= s.openPositions <= s.totalTrades + 1 &&
              (s.openPositions == s.totalTrades + 1 <==> Run(download.close, t).position.Holding?)
  {
    if download.Failed? || |download.close| == 0 {
      return None;
    }
    var data := LabelPrices(download.close, t);
    var summary := Summarize(symbol, data);
    SummaryCountsAgree(symbol, download.close, t);
    return Some(BacktestResult(data, summary));
  }

  /**
   * The labelling pass of backtest_stock. The price table is an array of rows whose
   * four added columns start as NaN, NaN, '' and ''; one pass from row 1 on, carrying
   * the position and the buy price, writes single cells of it in place. The table
   * it leaves is the fold Run.
   */
  method LabelPrices(close: seq<real>, t: Thresholds) returns (data: seq<Row>)
    requires Positive(close) && |close| >= 1
    ensures data == Run(close, t).rows
  {
    var n := |close|;
    var df := new Row[n](k requires 0 <= k < n => Unlabelled(close[k]));

    var holding := false;
    var buyPrice := 0.0;

    ghost var rows := Run(close, t).rows;
    ghost var pos := NoPosition;
    FirstRowUnlabelled(close, t);
    assert close[..1] == [close[0]];
    var i := 1;
    while i < n
      invariant 1 <= i <= n
      invariant pos == PositionAt(close, t, i)
      invariant holding == pos.Holding?
      invariant holding ==> buyPrice == pos.buyPrice
      invariant df[..i] == rows[..i]
      invariant forall k :: i <= k < n ==> df[k] == Unlabelled(close[k])
    {
      ghost var day := Step(pos, close[i - 1], close[i], t);
      RowAt(close, t, i);
      var changePct := ChangePct(close[i - 1], close[i]);
      if !holding && changePct <= -t.buyDrop {
        holding := true;
        buyPrice := close[i];
        df[i] := df[i].(buyPrice := Some(buyPrice), status := Bought);
      } else if holding {
        var gainPct := ChangePct(buyPrice, close[i]);
        if gainPct >= t.sellProfit {
          df[i] := df[i].(sellPrice := Some(close[i]), status := Sold, targetAchieved := true);
          holding := false;
        }
      }
      assert df[i] == rows[i];
      pos := day.position;
      i := i + 1;
    }
    data := df[..];
    assert data == df[..n];
  }

  /** A one-row series is not rejected: its summary counts are all zero. */
  lemma SingleRowSummary(symbol: string, price: real, t: Thresholds)
    requires price > 0.0
    ensures Summarize(symbol, Run([price], t).rows) == Summary(symbol, 0, 0, 0)
  {
  }

  /** A series in which no close falls by buy_drop percent makes no trade at all. */
  lemma {:induction false} NoDropNoTrades(symbol: string, close: seq<real>, t: Thresholds)
    requires Positive(close)
    requires forall i :: 1 <= i < |close| ==> !BuySignal(close[i - 1], close[i], t)
    ensures forall k :: 0 <= k < |close| ==> Run(close, t).rows[k].status == Blank
    ensures Summarize(symbol, Run(close, t).rows) == Summary(symbol, 0, 0, 0)
  {
    var rows := Run(close, t).rows;
    forall k | 0 <= k < |close|
      ensures rows[k].status == Blank
    {
      if k == 0 {
        FirstRowUnlabelled(close, t);
      } else {
        BuyRule(close, t, k);
        SellRule(close, t, k);
        NeverHolding(close, t, k);
      }
    }
    UnlabelledCountsNothing(rows, Bought);
    UnlabelledCountsNothing(rows, Sold);
    RowsShaped(close, t);
    TargetsCountSales(rows);
  }

  /** Without a buy signal no position is ever opened. */
  lemma {:induction false} NeverHolding(close: seq<real>, t: Thresholds, i: nat)
    requires Positive(close) && 1 <= i <= |close|
    requires forall j :: 1 <= j < |close| ==> !BuySignal(close[j - 1], close[j], t)
    ensures PositionAt(close, t, i) == NoPosition
  {
    if i == 1 {
      assert close[..1] == [close[0]];
    } else {
      NeverHolding(close, t, i - 1);
      RowAt(close, t, i - 1);
    }
  }

  /**
   * The worked example [100, 96, 101] with the default thresholds: a 4% drop buys at 96,
   * a 5.2% gain from 96 sells at 101.
   */
  lemma WorkedExample()
    ensures var rows := Run([100.0, 96.0, 101.0], DefaultThresholds()).rows;
            rows == [Unlabelled(100.0), Row(96.0, Some(96.0), None, Bought, false),
                     Row(101.0, None, Some(101.0), Sold, true)] &&
            Summarize("X", rows) == Summary("X", 1, 1, 1)
  {
    var t := DefaultThresholds();
    var c := [100.0, 96.0, 101.0];
    assert c[..2] == [100.0, 96.0];
    assert c[..2][..1] == [100.0];
    var r0 := Unlabelled(100.0);
    var r1 := Row(96.0, Some(96.0), None, Bought, false);
    var r2 := Row(101.0, None, Some(101.0), Sold, true);
    assert Run(c, t).rows == [r0, r1, r2];
    assert [r0, r1, r2][..2] == [r0, r1];
    assert [r0, r1][..1] == [r0];
    assert [r0][..0] == [];
    assert Summarize("X", [r0]) == Summary("X", 0, 0, 0);
    assert Summarize("X", [r0, r1]) == Summary("X", 0, 1, 0);
  }
}
