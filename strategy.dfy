/**
 * The threshold trading rule of backtest_stock, written as a left fold over the
 * closing prices that carries the position (no position, or holding since a buy
 * price) and produces one labelled row per price.
 */
module Strategy {
  import opened Options

  /** The Status column: '' (Blank), 'Bought' or 'Sold'. */
  datatype Status = Blank | Bought | Sold

  /**
   * One row of the labelled price table. `None` in a price column is the NaN the
   * column starts with; `targetAchieved` is Target_Achieved == 'Yes'.
   */
  datatype Row = Row(close: real, buyPrice: Option<real>, sellPrice: Option<real>,
                     status: Status, targetAchieved: bool)

  /** The two percentages of the rule: buy_drop and sell_profit. */
  datatype Thresholds = Thresholds(buyDrop: real, sellProfit: real)

  /** The position the pass carries: none, or holding since `buyPrice`. */
  datatype Position = NoPosition | Holding(buyPrice: real)

  /** The outcome of one day: the position afterwards and the day's row. */
  datatype Day = Day(position: Position, row: Row)

  /** The state of the pass after a prefix of the prices: position and rows so far. */
  datatype Pass = Pass(position: Position, rows: seq<Row>)

  /** A row as initialised before the pass: NaN prices, empty status, empty target flag. */
  function Unlabelled(close: real): (r: Row)
    ensures r.close == close && r.status == Blank && !r.targetAchieved
    ensures r.buyPrice.None? && r.sellPrice.None?
  {
    Row(close, None, None, Blank, false)
  }

  /** Closing prices are positive, so every percentage below divides by a non-zero price. */
  predicate Positive(close: seq<real>) {
    forall k :: 0 <= k < |close| ==> close[k] > 0.0
  }

  predicate PositionPositive(p: Position) {
    p.Holding? ==> p.buyPrice > 0.0
  }

  /** Percentage change from `base` to `price`, as change_pct and gain_pct compute it. */
  function ChangePct(base: real, price: real): (pct: real)
    requires base != 0.0
    ensures pct * base == (price - base) * 100.0
  {
    (price - base) / base * 100.0
  }

  /**
   * The buy condition on the day's change from the previous close. With a positive
   * previous close it reads multiplicatively: the price is at most prev * (1 - d/100).
   */
  predicate BuySignal(prev: real, price: real, t: Thresholds)
    requires prev != 0.0
    ensures prev > 0.0 ==>
              (BuySignal(prev, price, t) <==> (price - prev) * 100.0 <= -t.buyDrop * prev)
  {
    ChangePct(prev, price) <= -t.buyDrop
  }

  /**
   * The sell condition on the gain measured from the buy price. With a positive buy
   * price it reads multiplicatively: the price is at least buyPrice * (1 + g/100).
   */
  predicate SellSignal(buyPrice: real, price: real, t: Thresholds)
    requires buyPrice != 0.0
    ensures buyPrice > 0.0 ==>
              (SellSignal(buyPrice, price, t) <==> (price - buyPrice) * 100.0 >= t.sellProfit * buyPrice)
  {
    ChangePct(buyPrice, price) >= t.sellProfit
  }

  /** One iteration of the loop, for a row with a previous close `prev`. */
  function Step(pos: Position, prev: real, price: real, t: Thresholds): (d: Day)
    requires prev > 0.0 && price > 0.0 && PositionPositive(pos)
    ensures PositionPositive(d.position)
  {
    if pos.NoPosition? && BuySignal(prev, price, t) then
      Day(Holding(price), Row(price, Some(price), None, Bought, false))
    else if pos.Holding? && SellSignal(pos.buyPrice, price, t) then
      Day(NoPosition, Row(price, None, Some(price), Sold, true))
    else
      Day(pos, Unlabelled(price))
  }

  /**
   * The pass over a price series: row 0 is never examined, every later row is
   * decided by Step from the position left by the rows before it.
   */
  function Run(close: seq<real>, t: Thresholds): (p: Pass)
    requires Positive(close)
    ensures |p.rows| == |close|
    ensures PositionPositive(p.position)
    decreases |close|
  {
    if |close| == 0 then Pass(NoPosition, [])
    else if |close| == 1 then Pass(NoPosition, [Unlabelled(close[0])])
    else
      var before := Run(close[..|close| - 1], t);
      var day := Step(before.position, close[|close| - 2], close[|close| - 1], t);
      Pass(day.position, before.rows + [day.row])
  }

  /** The position in force when row `i` is examined (the position left by rows 0..i-1). */
  function PositionAt(close: seq<real>, t: Thresholds, i: nat): (p: Position)
    requires Positive(close) && i <= |close|
    ensures PositionPositive(p)
  {
    Run(close[..i], t).position
  }

  /**
   * An invariant shape of every row: an unpicked row keeps its initial values, a
   * buy row has only a buy price, a sell row only a sell price and the target flag.
   */
  predicate RowShape(r: Row) {
    match r.status
    case Blank => r == Unlabelled(r.close)
    case Bought => r == Row(r.close, Some(r.close), None, Bought, false)
    case Sold => r == Row(r.close, None, Some(r.close), Sold, true)
  }

  /** The pass on a prefix of the prices yields a prefix of the rows. */
  lemma {:induction false} RunPrefix(close: seq<real>, t: Thresholds, i: nat)
    requires Positive(close) && i <= |close|
    ensures Run(close[..i], t).rows == Run(close, t).rows[..i]
    decreases |close|
  {
    if i == |close| {
      assert close[..i] == close;
    } else {
      var init := close[..|close| - 1];
      assert close[..i] == init[..i];
      RunPrefix(init, t, i);
      if |close| >= 2 {
        var rows := Run(close, t).rows;
        assert rows == Run(init, t).rows + [rows[|rows| - 1]];
        assert rows[..i] == Run(init, t).rows[..i];
      }
    }
  }

  /** Row `i` (i >= 1) is the Step of the position in force and the two closes i-1 and i. */
  lemma {:induction false} RowAt(close: seq<real>, t: Thresholds, i: nat)
    requires Positive(close) && 1 <= i < |close|
    ensures Run(close, t).rows[i] == Step(PositionAt(close, t, i), close[i - 1], close[i], t).row
    ensures PositionAt(close, t, i + 1) == Step(PositionAt(close, t, i), close[i - 1], close[i], t).position
  {
    RunPrefix(close, t, i + 1);
    var pre := close[..i + 1];
    assert pre[..|pre| - 1] == close[..i];
    assert Run(pre, t).rows[i] == Run(close, t).rows[i];
  }

  /** Row 0 has no previous close and is never labelled. */
  lemma {:induction false} FirstRowUnlabelled(close: seq<real>, t: Thresholds)
    requires Positive(close) && |close| >= 1
    ensures Run(close, t).rows[0] == Unlabelled(close[0])
  {
    RunPrefix(close, t, 1);
    assert close[..1] == [close[0]];
  }

  /**
   * Row `i` is a buy exactly when no position is open and the close fell by at least
   * buy_drop percent from the previous close; the buy price is then the day's close
   * and the position opens at it.
   */
  lemma BuyRule(close: seq<real>, t: Thresholds, i: nat)
    requires Positive(close) && 1 <= i < |close|
    ensures Run(close, t).rows[i].status == Bought
        <==> PositionAt(close, t, i) == NoPosition && BuySignal(close[i - 1], close[i], t)
    ensures Run(close, t).rows[i].status == Bought ==>
              Run(close, t).rows[i].buyPrice == Some(close[i]) &&
              PositionAt(close, t, i + 1) == Holding(close[i])
  {
    RowAt(close, t, i);
  }

  /**
   * Row `i` is a sale exactly when a position is open and the close is at least
   * sell_profit percent above the price of that position's buy; the row then has the
   * close as sell price, the target flag, and the position closes.
   */
  lemma SellRule(close: seq<real>, t: Thresholds, i: nat)
    requires Positive(close) && 1 <= i < |close|
    ensures Run(close, t).rows[i].status == Sold
        <==> PositionAt(close, t, i).Holding? &&
             SellSignal(PositionAt(close, t, i).buyPrice, close[i], t)
    ensures Run(close, t).rows[i].status == Sold ==>
              Run(close, t).rows[i].sellPrice == Some(close[i]) &&
              Run(close, t).rows[i].targetAchieved &&
              PositionAt(close, t, i + 1) == NoPosition
  {
    RowAt(close, t, i);
  }

  /** A row the rule does not pick keeps its initial values and leaves the position alone. */
  lemma KeepRule(close: seq<real>, t: Thresholds, i: nat)
    requires Positive(close) && 1 <= i < |close|
    requires Run(close, t).rows[i].status == Blank
    ensures Run(close, t).rows[i] == Unlabelled(close[i])
    ensures PositionAt(close, t, i + 1) == PositionAt(close, t, i)
  {
    RowAt(close, t, i);
  }

  /**
   * Every row keeps its close and has the shape RowShape describes: no row has both
   * a buy and a sell price, and the target flag is set exactly on sale rows.
   */
  lemma {:induction false} RowsShaped(close: seq<real>, t: Thresholds)
    requires Positive(close)
    ensures forall k :: 0 <= k < |close| ==>
              Run(close, t).rows[k].close == close[k] && RowShape(Run(close, t).rows[k])
    ensures forall k :: 0 <= k < |close| ==>
              !(Run(close, t).rows[k].buyPrice.Some? && Run(close, t).rows[k].sellPrice.Some?)
    ensures forall k :: 0 <= k < |close| ==>
              Run(close, t).rows[k].targetAchieved == (Run(close, t).rows[k].status == Sold)
  {
    var rows := Run(close, t).rows;
    forall k | 0 <= k < |close|
      ensures rows[k].close == close[k] && RowShape(rows[k])
    {
      if k == 0 {
        FirstRowUnlabelled(close, t);
      } else {
        RowAt(close, t, k);
      }
    }
  }

}
