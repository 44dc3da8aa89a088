/**
 * The pure part of create_excel_report: dropping the missing results, the
 * aggregate success rate and the per-symbol sheet names.
 */
module Report {
  import opened Options
  import opened Strategy
  import opened Backtest

  /** Longest sheet name the report uses for a symbol. */
  const SheetNameLength: nat := 30

  /** One per-symbol sheet: its name and the labelled table written to it. */
  datatype Sheet = Sheet(name: string, data: seq<Row>)

  /**
   * What the report holds: the summary sheet's records (one per stock), the success
   * rate it reports, and the per-symbol sheets in the order they are written.
   */
  datatype Workbook = Workbook(summaries: seq<Summary>, successRate: real, sheets: seq<Sheet>)

  /** The summaries of the results that are present, in order. */
  function SummaryData(results: seq<Option<BacktestResult>>): (s: seq<Summary>)
    ensures |s| <= |results|
  {
    if results == [] then []
    else (if results[0].Some? then [results[0].value.summary] else []) + SummaryData(results[1..])
  }

  /** Sum of Total_Trades over the summary records. */
  function TotalTrades(s: seq<Summary>): (n: nat)
    ensures forall k :: 0 <= k < |s| ==> s[k].totalTrades <= n
  {
    if s == [] then 0 else s[0].totalTrades + TotalTrades(s[1..])
  }

  /** Sum of Successful_Trades over the summary records. */
  function SuccessfulTrades(s: seq<Summary>): (n: nat)
    ensures forall k :: 0 <= k < |s| ==> s[k].successfulTrades <= n
  {
    if s == [] then 0 else s[0].successfulTrades + SuccessfulTrades(s[1..])
  }

  /** The summed Total_Trades is 0 exactly when no record has a completed trade. */
  lemma {:induction false} ZeroTotalIffNoTrades(s: seq<Summary>)
    ensures TotalTrades(s) == 0 <==> forall k :: 0 <= k < |s| ==> s[k].totalTrades == 0
  {
    if s != [] {
      ZeroTotalIffNoTrades(s[1..]);
      assert forall k :: 1 <= k < |s| ==> s[k] == s[1..][k - 1];
    }
  }

  /** The summed Successful_Trades is 0 exactly when no record has a successful trade. */
  lemma {:induction false} ZeroSuccessesIffNone(s: seq<Summary>)
    ensures SuccessfulTrades(s) == 0 <==> forall k :: 0 <= k < |s| ==> s[k].successfulTrades == 0
  {
    if s != [] {
      ZeroSuccessesIffNone(s[1..]);
      assert forall k :: 1 <= k < |s| ==> s[k] == s[1..][k - 1];
    }
  }

  /**
   * The success rate in percent, guarded against an empty denominator: 0 when no
   * trade was completed, otherwise the share of successful trades times 100.
   */
  function SuccessRate(s: seq<Summary>): (rate: real)
    ensures TotalTrades(s) == 0 ==> rate == 0.0
    ensures TotalTrades(s) > 0 ==>
              rate * (TotalTrades(s) as real) == (SuccessfulTrades(s) as real) * 100.0
  {
    if TotalTrades(s) > 0 then
      (SuccessfulTrades(s) as real) / (TotalTrades(s) as real) * 100.0
    else 0.0
  }

  /** The sheet name of a symbol: its first 30 characters. */
  function SheetName(symbol: string): (name: string)
    ensures |name| == if |symbol| < SheetNameLength then |symbol| else SheetNameLength
    ensures name <= symbol
  {
    if |symbol| <= SheetNameLength then symbol else symbol[..SheetNameLength]
  }

  /** The per-symbol sheets, one for each present result, in order. */
  function Sheets(results: seq<Option<BacktestResult>>): (sheets: seq<Sheet>)
    ensures |sheets| <= |results|
    ensures forall k :: 0 <= k < |sheets| ==> |sheets[k].name| <= SheetNameLength
  {
    if results == [] then []
    else
      (if results[0].Some? then [Sheet(SheetName(results[0].value.summary.symbol), results[0].value.data)]
       else [])
      + Sheets(results[1..])
  }

  /**
   * create_excel_report: no workbook when no result is present; otherwise the
   * summary records, the success rate and one sheet per present result.
   */
  function CreateExcelReport(results: seq<Option<BacktestResult>>): (w: Option<Workbook>)
    ensures w.None? <==> forall i :: 0 <= i < |results| ==> results[i].None?
    ensures w.Some? ==> w.value.summaries == SummaryData(results) &&
                        w.value.successRate == SuccessRate(w.value.summaries) &&
                        w.value.sheets == Sheets(results)
  {
    NothingPresentIffEmpty(results);
    var summaries := SummaryData(results);
    if summaries == [] then None
    else Some(Workbook(summaries, SuccessRate(summaries), Sheets(results)))
  }

  /** The filtered summaries are empty exactly when every result is missing. */
  lemma {:induction false} NothingPresentIffEmpty(results: seq<Option<BacktestResult>>)
    ensures SummaryData(results) == [] <==> forall i :: 0 <= i < |results| ==> results[i].None?
  {
    if results != [] {
      NothingPresentIffEmpty(results[1..]);
      assert forall i :: 1 <= i < |results| ==> results[i] == results[1..][i - 1];
    }
  }

  /**
   * The filter distributes over concatenation: with SummaryData([None]) == [] and
   * SummaryData([Some(r)]) == [r.summary] this fixes one record per present result,
   * in result order.
   */
  lemma {:induction false} SummaryDataConcat(a: seq<Option<BacktestResult>>, b: seq<Option<BacktestResult>>)
    ensures SummaryData(a + b) == SummaryData(a) + SummaryData(b)
  {
    if a == [] {
      assert a + b == b;
    } else {
      assert (a + b)[0] == a[0];
      assert (a + b)[1..] == a[1..] + b;
      SummaryDataConcat(a[1..], b);
    }
  }

  /** A summary is kept exactly when it belongs to a present result. */
  lemma {:induction false} SummaryDataMembers(results: seq<Option<BacktestResult>>, s: Summary)
    ensures s in SummaryData(results) <==>
              exists i :: 0 <= i < |results| && results[i].Some? && results[i].value.summary == s
  {
    if results != [] {
      SummaryDataMembers(results[1..], s);
      if s in SummaryData(results[1..]) {
        var i :| 0 <= i < |results[1..]| && results[1..][i].Some? && results[1..][i].value.summary == s;
        assert results[i + 1] == results[1..][i];
      }
      forall i | 1 <= i < |results| && results[i].Some? && results[i].value.summary == s
        ensures s in SummaryData(results[1..])
      {
        assert results[1..][i - 1] == results[i];
      }
    }
  }

  /**
   * Sheet `k` and summary `k` come from the same present result: the sheet holds
   * that result's table and is named after its symbol.
   */
  lemma {:induction false} SheetsFollowSummaries(results: seq<Option<BacktestResult>>)
    ensures |Sheets(results)| == |SummaryData(results)|
    ensures forall k :: 0 <= k < |Sheets(results)| ==>
              exists i :: 0 <= i < |results| && results[i].Some? &&
                SummaryData(results)[k] == results[i].value.summary &&
                Sheets(results)[k] == Sheet(SheetName(results[i].value.summary.symbol), results[i].value.data)
  {
    if results != [] {
      SheetsFollowSummaries(results[1..]);
      var sheets, data := Sheets(results[1..]), SummaryData(results[1..]);
      var off := if results[0].Some? then 1 else 0;
      if results[0].Some? {
        var r := results[0].value;
        assert Sheets(results) == [Sheet(SheetName(r.summary.symbol), r.data)] + sheets;
        assert SummaryData(results) == [r.summary] + data;
      } else {
        assert Sheets(results) == sheets && SummaryData(results) == data;
      }
      forall k | off <= k < |Sheets(results)|
        ensures exists i :: 0 <= i < |results| && results[i].Some? &&
                  SummaryData(results)[k] == results[i].value.summary &&
                  Sheets(results)[k] == Sheet(SheetName(results[i].value.summary.symbol), results[i].value.data)
      {
        assert Sheets(results)[k] == sheets[k - off];
        assert SummaryData(results)[k] == data[k - off];
        var i :| 0 <= i < |results[1..]| && results[1..][i].Some? &&
                 data[k - off] == results[1..][i].value.summary &&
                 sheets[k - off] == Sheet(SheetName(results[1..][i].value.summary.symbol), results[1..][i].value.data);
        assert results[1..][i] == results[i + 1];
      }
      if off == 1 {
        assert SummaryData(results)[0] == results[0].value.summary;
      }
    }
  }

  /** When every record's successful count is its total count, the two sums agree. */
  lemma {:induction false} SumsAgree(results: seq<Option<BacktestResult>>)
    requires forall i :: 0 <= i < |results| && results[i].Some? ==>
               results[i].value.summary.successfulTrades == results[i].value.summary.totalTrades
    ensures SuccessfulTrades(SummaryData(results)) == TotalTrades(SummaryData(results))
  {
    if results != [] {
      assert forall i :: 0 <= i < |results[1..]| ==> results[1..][i] == results[i + 1];
      SumsAgree(results[1..]);
      var head := if results[0].Some? then [results[0].value.summary] else [];
      SumsOfConcat(head, SummaryData(results[1..]));
    }
  }

  /** The sums split over a concatenation. */
  lemma {:induction false} SumsOfConcat(a: seq<Summary>, b: seq<Summary>)
    ensures TotalTrades(a + b) == TotalTrades(a) + TotalTrades(b)
    ensures SuccessfulTrades(a + b) == SuccessfulTrades(a) + SuccessfulTrades(b)
  {
    if a == [] {
      assert a + b == b;
    } else {
      assert (a + b)[1..] == a[1..] + b;
      SumsOfConcat(a[1..], b);
    }
  }

  /**
   * For results produced by the backtest, where every completed trade counts as a
   * successful one, the reported rate is 100 when any trade was completed and 0
   * otherwise.
   */
  lemma ReportedRateIsAllOrNothing(results: seq<Option<BacktestResult>>)
    requires forall i :: 0 <= i < |results| && results[i].Some? ==>
               results[i].value.summary.successfulTrades == results[i].value.summary.totalTrades
    requires CreateExcelReport(results).Some?
    ensures var w := CreateExcelReport(results).value;
            (TotalTrades(w.summaries) > 0 ==> w.successRate == 100.0) &&
            (TotalTrades(w.summaries) == 0 ==> w.successRate == 0.0)
  {
    SumsAgree(results);
    var s := SummaryData(results);
    if TotalTrades(s) > 0 {
      var d := TotalTrades(s) as real;
      assert SuccessRate(s) == d / d * 100.0;
    }
  }

  /** When no record has more successes than trades the rate lies between 0 and 100. */
  lemma {:induction false} RateIsPercentage(s: seq<Summary>)
    requires forall k :: 0 <= k < |s| ==> s[k].successfulTrades <= s[k].totalTrades
    ensures 0.0 <= SuccessRate(s) <= 100.0
  {
    SuccessesWithinTotal(s);
    if TotalTrades(s) > 0 {
      var d := TotalTrades(s) as real;
      var q := (SuccessfulTrades(s) as real) / d;
      assert q * d == SuccessfulTrades(s) as real;

    }
  }

  lemma {:induction false} SuccessesWithinTotal(s: seq<Summary>)
    requires forall k :: 0 <= k < |s| ==> s[k].successfulTrades <= s[k].totalTrades
    ensures SuccessfulTrades(s) <= TotalTrades(s)
  {
    if s != [] {
      SuccessesWithinTotal(s[1..]);
    }
  }

  /** Symbols of at most 30 characters keep their names, so distinct ones get distinct sheets. */
  lemma ShortNamesDistinct(a: string, b: string)
    requires |a| <= SheetNameLength && |b| <= SheetNameLength
    ensures SheetName(a) == SheetName(b) <==> a == b
  {
  }

  /**
   * Symbols that agree on their first 30 characters get the same sheet name however
   * they differ afterwards: the report does not keep sheet names unique.
   */
  lemma LongNamesCollide(a: string, b: string)
    requires |a| >= SheetNameLength && |b| >= SheetNameLength
    requires a[..SheetNameLength] == b[..SheetNameLength]
    ensures SheetName(a) == SheetName(b)
  {
  }
}
