/** How the two screens agree. The KPI screen's chart shows one point per
    month, and tapping a month opens the detail screen on the same file. The
    detail filter does not ask for a `Sender` cell, but whenever the KPI
    screen has a result every row has one, so the month the detail screen
    totals is the month total the KPI screen plotted. */
module Screens {
  import opened Wrappers
  import opened Calendar
  import opened Csv
  import opened Sorting
  import opened Grouping
  import opened Fields
  import opened Lists
  import opened Kpi
  import opened MonthDetail

  /** With a `Sender` cell a row is kept for `ym` exactly when it is a
      spending transaction of month `ym`, with the same amount. */
  lemma RowAgrees(row: Row, ym: YearMonth)
    requires SenderHeader in row
    ensures ToDetail(row, ym).Some? <==> (ToTxn(row).Some? && TxnMonth(ToTxn(row).value) == ym)
    ensures ToDetail(row, ym).Some? ==> ToDetail(row, ym).value.amount == ToTxn(row).value.amount
  {
  }

  /** One more transaction adds its amount to the spend of its own month
      and nothing to the others. */
  lemma SpendSnoc(before: seq<Txn>, t: Txn, ym: YearMonth)
    ensures MonthSpend(before + [t], ym)
            == MonthSpend(before, ym) + (if TxnMonth(t) == ym then t.amount else 0.0)
  {
    var kvs := Pairs(before + [t], TxnMonth);
    assert kvs[..|kvs| - 1] == Pairs(before, TxnMonth);
    assert kvs[|kvs| - 1] == (TxnMonth(t), t.amount);
  }

  /** The detail screen's total of the kept rows is the KPI screen's spend
      for that month, when every row has a `Sender` cell. */
  lemma {:induction false} KeptSpend(rows: seq<Row>, ym: YearMonth)
    requires forall i :: 0 <= i < |rows| ==> SenderHeader in rows[i]
    ensures SumBy(Kept(rows, ym), LiteAmount) == MonthSpend(Txns(rows), ym)
    decreases |rows|
  {
    if rows != [] {
      var n := |rows| - 1;
      KeptSpend(rows[..n], ym);
      LastRowSpend(rows, ym);
    }
  }

  /** The step of `KeptSpend`: the last row changes both sides alike. */
  lemma LastRowSpend(rows: seq<Row>, ym: YearMonth)
    requires rows != [] && SenderHeader in rows[|rows| - 1]
    ensures var prefix := rows[..|rows| - 1];
            SumBy(Kept(rows, ym), LiteAmount) - SumBy(Kept(prefix, ym), LiteAmount)
            == MonthSpend(Txns(rows), ym) - MonthSpend(Txns(prefix), ym)
  {
    var n := |rows| - 1;
    var prefix := rows[..n];
    var row := rows[n];
    RowAgrees(row, ym);
    match ToTxn(row)
    case None =>
      assert Txns(rows) == Txns(prefix);
      assert Kept(rows, ym) == Kept(prefix, ym);
    case Some(t) =>
      assert Txns(rows) == Txns(prefix) + [t];
      SpendSnoc(Txns(prefix), t, ym);
      if TxnMonth(t) == ym {
        var d := ToDetail(row, ym).value;
        assert Kept(rows, ym) == Kept(prefix, ym) + [d];
        SumBySnoc(Kept(prefix, ym), d, LiteAmount);
      } else {
        assert Kept(rows, ym) == Kept(prefix, ym);
      }
  }

  /** A KPI result needs a spending transaction, which needs a `Sender`
      cell; every row has the same keys, so every row has one. */
  lemma SuccessHasSenders(lines: seq<string>)
    requires ComputeKpis(lines).Success?
    ensures forall i :: 0 <= i < |ReadCsv(lines)| ==> SenderHeader in ReadCsv(lines)[i]
  {
    var rows := ReadCsv(lines);
    ComputeKpisFailure(lines);
    assert Txns(rows) != [];
    TxnsFromRows(rows);
    var t := Txns(rows)[0];
    var j :| 0 <= j < |rows| && ToTxn(rows[j]) == Some(t);
    assert |lines| >= 1;
    var keys := HeaderSet(ParseLine(lines[0]));
    assert rows[j].Keys == keys;
    assert SenderHeader in keys;
    forall i | 0 <= i < |rows|
      ensures SenderHeader in rows[i]
    {
      assert rows[i].Keys == keys;
    }
  }

  /** Whenever the KPI screen has a result, the detail screen's total for any
      month is that month's spend on the KPI screen, and for each point of
      the plotted series it is the point's total. */
  lemma DetailMatchesChart(lines: seq<string>, ym: YearMonth)
    requires ComputeKpis(lines).Success?
    ensures LoadMonth(lines, ym).total == MonthSpend(Txns(ReadCsv(lines)), ym)
    ensures var series := ComputeKpis(lines).value.series;
            forall i :: 0 <= i < |series| ==> LoadMonth(lines, series[i].month).total == series[i].total
  {
    var rows := ReadCsv(lines);
    var ts := Txns(rows);
    SuccessHasSenders(lines);
    KeptSpend(rows, ym);
    ComputeKpisShape(lines);
    TxnsFromRows(rows);
    SeriesPoints(ts);
    var series := ComputeKpis(lines).value.series;
    forall i | 0 <= i < |series|
      ensures LoadMonth(lines, series[i].month).total == series[i].total
    {
      KeptSpend(rows, series[i].month);
    }
  }
}
