# Threshold backtester: a Dafny model

This project models the strategy core of a small stock backtesting script (`app.py`).
`backtest_stock` takes the daily closing prices of a symbol and runs one left-to-right
pass over them. On any day from the second on, it buys when the close fell by at least
`buy_drop` percent from the previous close and no position is open. While a position is
open, it sells when the close is at least `sell_profit` percent above the buy price. Each
row of the price table gets a buy price, a sell price, a status (`''`, `'Bought'`,
`'Sold'`) and a target flag (`''`, `'Yes'`). A summary counts sale rows (`Total_Trades`),
buy rows (`Open_Positions`) and target rows (`Successful_Trades`). `create_excel_report`
drops missing results and computes a guarded success rate over all summaries. It names
one sheet per symbol after the symbol's first 30 characters.

Files:

- `options.dfy`: `Option`, used for missing results and for NaN price cells.
- `strategy.dfy` (module `Strategy`): the rule as a pure left fold, `Run`. The fold
  carries the position (`NoPosition` or `Holding(buyPrice)`) and yields one `Row` per
  close. It also holds the per-row rules (when a row is a buy, a sale or left alone).
- `alternation.dfy` (module `Alternation`): the label counts and the ledger invariant
  that ties the position to the labels. It proves that buys and sells alternate and
  that every sale closes the most recent buy.
- `backtest.dfy` (module `Backtest`): the download outcome, the summary record and the
  imperative pass. `LabelPrices` fills an array of rows in place in a `while` loop that
  carries `holding` and `buyPrice`, just as the source's loop carries `position` and
  `buy_price`. It is proved to leave exactly the rows `Run` gives. `BacktestStock` adds
  the missing-data result and the summary.
- `report.dfy` (module `Report`): the pure part of `create_excel_report`.

Modelling choices:

- Prices and thresholds are exact `real`s. The percentage tests are written exactly as
  the source writes them, as divisions. The contracts of `BuySignal` and `SellSignal`
  state that they read as multiplications when the base price is positive.
- Closing prices are required to be positive. The script never checks this; positive
  prices are what the market data provides, and they keep every division defined.
- The download is a parameter: `Failed` is any exception the fetch raises, and
  `Fetched(close)` is the closing-price column, possibly empty. Both `Failed` and an
  empty table give `None`, as the source's `except` branch and its `df.empty` check do.
- A NaN price cell is `None`; `Target_Achieved == 'Yes'` is `targetAchieved`.
- Rows are identified by position only, as `df['Close'][i]` reads them.
- `LabelPrices` requires at least one price. The source runs its loop only after the
  empty-table check, and `BacktestStock` handles the empty case before calling it.

A single-row series is not rejected: `backtest_stock` returns `None` only for an empty
table, and one row yields a summary whose three counts are 0 (`SingleRowSummary`).
`Open_Positions` counts every buy row, including buys that were later sold, not only a
position still open at the end (`SummaryCountsAgree`, `WorkedExample`).

The defaults `buy_drop=3` and `sell_profit=5` of `backtest_stock` are
`Backtest.DefaultThresholds()`, the thresholds of `WorkedExample`.

## Model

| member | source | states |
|---|---|---|
| `Strategy.Step` | app.py:37-53 | one day of the rule; a position it leaves open has a positive buy price |
| `Strategy.Run` | app.py:33-53 | the pass yields exactly one row per close, and an open position at the end has a positive buy price |
| `Strategy.RowAt` | app.py:36-53 | row i (i >= 1) is decided from the previous close, the day's close and the position left by rows 0..i-1 alone, and it fixes the position for the next row |
| `Strategy.FirstRowUnlabelled` | app.py:28-36 | row 0 is never examined: empty status, NaN buy and sell prices, empty target flag |
| `Strategy.BuyRule` | app.py:40-44 | row i is 'Bought' if and only if no position is open and the change from the previous close is at most -buy_drop percent; its buy price is then the close, and the position opens at that price |
| `Strategy.SellRule` | app.py:47-53 | row i is 'Sold' if and only if a position is open and the gain over its buy price is at least sell_profit percent; the row then has the close as sell price and the target flag, and the position closes |
| `Strategy.KeepRule` | app.py:40-53 | a row the rule does not pick keeps its initial NaN prices, empty status and empty flag, and the position carries over unchanged |
| `Strategy.RowsShaped` | app.py:28-53 | every row keeps its close; no row has both a buy and a sell price; the target flag is set exactly on 'Sold' rows |
| `Strategy.Unlabelled` | app.py:28-31 | the columns a row starts with: its close, NaN buy and sell prices, empty status, empty target flag |
| `Strategy.ChangePct` | app.py:37 | the percentage change times the base price is (price - base) * 100 |
| `Strategy.BuySignal` | app.py:40 | with a positive previous close, change_pct <= -buy_drop is equivalent to (price - prev) * 100 <= -buy_drop * prev |
| `Strategy.SellSignal` | app.py:48-49 | with a positive buy price, gain_pct >= sell_profit is equivalent to (price - buyPrice) * 100 >= sell_profit * buyPrice |
| `Strategy.PositionAt` | app.py:33-36 | the `position`/`buy_price` in force when iteration i starts, left by rows 0..i-1; an open position has a positive buy price |
| `Strategy.RunPrefix` | app.py:36-53 | running the pass on the first i closes gives the first i rows of the full run: a row is never rewritten by a later day |
| `Alternation.Count` | app.py:56-57 | a count of rows is never above the number of rows; what it counts (rows whose status is the given one) is carried by the definition |
| `Alternation.CountTargets` | app.py:58 | a count of rows is never above the number of rows; what it counts (rows whose target flag is 'Yes') is carried by the definition |
| `Alternation.LastLabel` | app.py:33-53 | the index of the last labelled row, with every later row blank, or none when every row is blank |
| `Alternation.CountsPartitionRows` | app.py:56-57 | the blank, buy and sale counts add up to the number of rows |
| `Alternation.RunKeepsLedger` | app.py:33-53 | with no position open, buys equal sales and the last label is a sale; holding at price p, buys exceed sales by one and the last label is a buy at p |
| `Alternation.BuysAndSellsAlternate` | app.py:40-53 | a 'Bought' row comes after equally many buys and sales, a 'Sold' row after exactly one unmatched buy |
| `Alternation.FirstLabelIsBuy` | app.py:40-53 | the first labelled row is 'Bought' |
| `Alternation.OpenBuysBalance` | app.py:33-57 | at the end 0 <= #Bought - #Sold <= 1, and the difference is 1 exactly when a position is still open |
| `Alternation.SaleClosesLatestBuy` | app.py:42-53 | every 'Sold' row k has an earlier 'Bought' row j with no label between them; its sell price is close k, and close k is at least sell_profit percent above close j, the buy price |
| `Alternation.TargetsCountSales` | app.py:52-58 | when the target flag is set exactly on sale rows, the 'Yes' count equals the 'Sold' count |
| `Alternation.UnlabelledCountsNothing` | app.py:56-57 | rows none of which is labelled count zero buys and zero sales |
| `Backtest.DefaultThresholds` | app.py:22 | the defaults buy_drop=3 and sell_profit=5, both positive |
| `Backtest.Summarize` | app.py:56-64 | the summary keeps the symbol; trades plus buy rows never exceed the rows, nor do the successful trades |
| `Backtest.SummaryCountsAgree` | app.py:56-64 | the summary keeps the symbol; Successful_Trades == Total_Trades; Total_Trades <= Open_Positions <= Total_Trades + 1, with the upper bound reached exactly when a position is still open |
| `Backtest.LabelPrices` | app.py:28-53 | the in-place loop over the price table leaves exactly the rows of the fold `Run` |
| `Backtest.BacktestStock` | app.py:22-70 | no result exactly when the download fails or is empty; otherwise the labelled table of `Run` and `Summarize` of it, with Successful_Trades == Total_Trades and Total_Trades <= Open_Positions <= Total_Trades + 1, the upper bound reached exactly when a position is still open |
| `Backtest.SingleRowSummary` | app.py:36-64 | a one-row series is not rejected; its summary counts are all 0 |
| `Backtest.NoDropNoTrades` | app.py:36-64 | when no close falls by buy_drop percent every row stays unlabelled and the summary is all zero |
| `Backtest.NeverHolding` | app.py:40-47 | with no buy signal, no position is open at any row |
| `Backtest.WorkedExample` | app.py:33-64 | closes 100, 96, 101 with thresholds 3 and 5 buy at 96 and sell at 101; the summary is 1 trade, 1 buy row, 1 success |
| `Report.SummaryData` | app.py:78 | the kept summaries are never more than the results; `SummaryDataConcat` and `SummaryDataMembers` fix which ones, how many and in what order |
| `Report.SummaryDataConcat` | app.py:78 | the filter distributes over concatenation, so the summary list holds exactly one record per present result, in result order, and its length is the number of stocks reported |
| `Report.TotalTrades` | app.py:83 | no record's Total_Trades exceeds the sum; that it is the sum of the field is carried by the definition, and `ZeroTotalIffNoTrades`, `SumsOfConcat` and `SuccessesWithinTotal` state its facts |
| `Report.SuccessfulTrades` | app.py:83 | no record's Successful_Trades exceeds the sum; that it is the sum of the field is carried by the definition, and `ZeroSuccessesIffNone`, `SumsOfConcat` and `SuccessesWithinTotal` state its facts |
| `Report.ZeroTotalIffNoTrades` | app.py:83 | the summed Total_Trades is 0 exactly when no record has a completed trade |
| `Report.ZeroSuccessesIffNone` | app.py:83 | the summed Successful_Trades is 0 exactly when no record has a successful trade |
| `Report.Sheets` | app.py:88-90 | at most one sheet per result, and every sheet name has at most 30 characters |
| `Report.SummaryDataMembers` | app.py:78 | a summary is kept exactly when it belongs to a result that is present |
| `Report.NothingPresentIffEmpty` | app.py:78-80 | the filtered summaries are empty exactly when every result is missing |
| `Report.SuccessRate` | app.py:83 | 0 when the summed Total_Trades is 0; otherwise rate * total == successful * 100 |
| `Report.SheetName` | app.py:90 | a sheet name is a prefix of the symbol, min(30, length) characters long |
| `Report.CreateExcelReport` | app.py:77-90 | no workbook exactly when every result is missing; otherwise the kept summaries, their success rate and one sheet per present result |
| `Report.SheetsFollowSummaries` | app.py:88-90 | one sheet per kept summary, in the same order: the k-th sheet holds the table of a present result whose summary is the k-th summary, and is named after its symbol |
| `Report.SumsAgree` | app.py:83 | if every record's Successful_Trades equals its Total_Trades, the two sums agree |
| `Report.SumsOfConcat` | app.py:83 | the sums of Total_Trades and Successful_Trades split over a concatenation of summary lists |
| `Report.ReportedRateIsAllOrNothing` | app.py:83 | for results where successes equal trades (as the backtest produces), the rate is exactly 100 when any trade was completed and 0 otherwise |
| `Report.RateIsPercentage` | app.py:83 | when no record has more successes than trades, the rate lies in [0, 100] |
| `Report.SuccessesWithinTotal` | app.py:83 | per-record successes bounded by trades bound the sums the same way |
| `Report.ShortNamesDistinct` | app.py:90 | symbols of at most 30 characters keep their names, so distinct ones get distinct sheet names |
| `Report.LongNamesCollide` | app.py:90 | symbols that agree on their first 30 characters get the same sheet name: sheet names are not kept unique |

## Left out

- Package installation and imports (app.py:5-16): environment setup only.
- The market-data download `yf.download` (app.py:24) is a network call. It is replaced
  by the `Download` parameter, and `start_date` is used only by that call.
- Positive closes are a precondition the script never checks: it divides by closes without a
  guard, and a zero or negative close is outside what the data provider returns.
- The broad `try`/`except` and its `print` (app.py:23, 68-70) are modelled only as the
  `Failed` download giving `None`. An exception raised later, for example by a
  different column layout of the downloaded table, is not modelled.
- Writing the workbook with `pd.ExcelWriter`/`to_excel` (app.py:85-90) is file I/O. The
  `Workbook` value stands for what is written: the summary records and the named
  per-symbol sheets.
- Sheet-name clashes are not modelled; the model only shows when they arise. What the
  spreadsheet library does with an equal name is not modelled. Names clash when:
  - two symbols share their first 30 characters (`LongNamesCollide`);
  - two results carry the same symbol;
  - a symbol's first 30 characters are `Summary`, the name of the sheet written first
    (app.py:86).
- `to_excel` may reject a sheet name with characters the spreadsheet format forbids.
  `create_excel_report` has no `try`, so such an error would propagate. The model
  accepts every name.
- The formatted message with `:.2f` (app.py:92) is string formatting; the model returns
  the rate and the summary list instead. Its length, one record per present result
  (`SummaryDataConcat`), is the number of stocks the message reports.
- `run_streamlit` and the tunnel/threading glue (app.py:7-10, 99-100) are UI and
  concurrency, and the function's text is incomplete.
- float64 rounding is not modelled: prices and percentages are exact reals, so a value
  exactly at a threshold may be decided differently under IEEE arithmetic.
- The pandas date index is not modelled; rows are identified by position.
- Determinism across re-runs on the same prices needs no lemma here: `Run` is a function.
