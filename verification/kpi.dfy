/** The KPI screen's computation: rows become spending transactions, which
    are totalled per month and per category; the result names the months of
    largest and smallest spend, the top category and the monthly series the
    chart draws. */
module Kpi {
  import opened Wrappers
  import opened Text
  import opened Calendar
  import opened Amounts
  import opened Csv
  import opened Sorting
  import opened Grouping
  import opened Fields
  import opened Lists

  datatype Txn = Txn(sender: string, dateTime: DateTime, amount: real, labelText: string)

  datatype MonthPoint = MonthPoint(month: YearMonth, total: real)

  /** The KPIs before display formatting: months and amounts are kept as
      values rather than the strings `formatMonth` and `money` make of them. */
  datatype KpiResult = KpiResult(
    maxMonth: YearMonth, maxAmount: real,
    minMonth: YearMonth, minAmount: real,
    topCategory: string, topAmount: real,
    series: seq<MonthPoint>)

  /** The three `IllegalStateException`s of the computation. */
  datatype KpiError = NoValidRows | NoMonthTotals | NoCategoryTotals

  // ---------------------------------------------------------------------
  // Rows to transactions
  // ---------------------------------------------------------------------

  /** One row of the `mapNotNull`: a row is a spending transaction when it has
      the `Sender`, `Date` and `Amount` columns, its trimmed label is not
      excluded, its amount parses and its trimmed date parses. */
  function ToTxn(row: Row): (r: Option<Txn>)
    ensures r.Some? ==>
              && SenderHeader in row && DateHeader in row && AmountHeader in row
              && r.value.sender == row[SenderHeader]
              && r.value.labelText == LabelOf(row) && !IsExcluded(r.value.labelText)
              && ParseAmount(row[AmountHeader]) == Some(r.value.amount)
              && ParseDateTime(Trim(row[DateHeader])) == Some(r.value.dateTime)
    ensures (&& SenderHeader in row && DateHeader in row && AmountHeader in row
             && !IsExcluded(LabelOf(row))
             && ParseAmount(row[AmountHeader]).Some?
             && ParseDateTime(Trim(row[DateHeader])).Some?) ==> r.Some?
  {
    if SenderHeader !in row || DateHeader !in row || AmountHeader !in row then None
    else
      var name := LabelOf(row);
      if IsExcluded(name) then None
      else match ParseAmount(row[AmountHeader])
        case None => None
        case Some(amount) =>
          match ParseDateTime(Trim(row[DateHeader]))
          case None => None
          case Some(dt) => Some(Txn(row[SenderHeader], dt, amount, name))
  }

  /** `readCsv(uri).mapNotNull { row -> .. }`: the transactions of the
      rows, in row order. */
  function Txns(rows: seq<Row>): seq<Txn> {
    FilterMap(rows, ToTxn)
  }

  /** Every transaction comes from a row that converts to it, so it has a
      valid date-time and a label that is not excluded; every row that
      converts contributes its transaction. */
  lemma TxnsFromRows(rows: seq<Row>)
    ensures forall k :: 0 <= k < |Txns(rows)| ==>
              exists i :: 0 <= i < |rows| && ToTxn(rows[i]) == Some(Txns(rows)[k])
    ensures forall k :: 0 <= k < |Txns(rows)| ==>
              ValidDateTime(Txns(rows)[k].dateTime) && !IsExcluded(Txns(rows)[k].labelText)
    ensures forall i :: 0 <= i < |rows| && ToTxn(rows[i]).Some? ==> ToTxn(rows[i]).value in Txns(rows)
    ensures Txns(rows) == [] <==> forall i :: 0 <= i < |rows| ==> ToTxn(rows[i]).None?
  {
    FilterMapSources(rows, ToTxn);
    FilterMapKeeps(rows, ToTxn);
    FilterMapEmpty(rows, ToTxn);
    var ts := Txns(rows);
    forall k | 0 <= k < |ts|
      ensures ValidDateTime(ts[k].dateTime) && !IsExcluded(ts[k].labelText)
    {
      var i :| 0 <= i < |rows| && ToTxn(rows[i]) == Some(ts[k]);
    }
  }

  function Amount(t: Txn): real {
    t.amount
  }

  /** `txns.sumOf { it.amount }`. */
  function SumAmounts(ts: seq<Txn>): real {
    SumBy(ts, Amount)
  }

  // ---------------------------------------------------------------------
  // Groupings
  // ---------------------------------------------------------------------

  /** `YearMonth.from(it.dateTime)`, the month key. */
  function TxnMonth(t: Txn): YearMonth {
    MonthOf(t.dateTime)
  }

  /** `it.labelText.ifBlank { "Unknown" }`, the category key. */
  function TxnCategory(t: Txn): string {
    OrUnknown(t.labelText)
  }

  /** Each transaction as a key–amount pair. */
  function Pairs<K>(ts: seq<Txn>, key: Txn -> K): (kvs: seq<(K, real)>)
    ensures |kvs| == |ts|
    ensures forall k :: 0 <= k < |ts| ==> kvs[k] == (key(ts[k]), ts[k].amount)
  {
    seq(|ts|, k requires 0 <= k < |ts| => (key(ts[k]), ts[k].amount))
  }

  lemma {:induction false} PairsTotal<K>(ts: seq<Txn>, key: Txn -> K)
    ensures Total(Pairs(ts, key)) == SumAmounts(ts)
    decreases |ts|
  {
    if ts != [] {
      PairsTotal(ts[1..], key);
      assert Pairs(ts, key)[1..] == Pairs(ts[1..], key);
    }
  }

  /** `txns.groupBy { YearMonth.from(it.dateTime) }.mapValues { sumOf }`. */
  function MonthTotals(ts: seq<Txn>): seq<(YearMonth, real)> {
    GroupSums(Pairs(ts, TxnMonth))
  }

  /** `txns.groupBy { it.labelText.ifBlank { "Unknown" } }.mapValues { sumOf }`. */
  function CategoryTotals(ts: seq<Txn>): seq<(string, real)> {
    GroupSums(Pairs(ts, TxnCategory))
  }

  /** The spend of month `ym`. */
  function MonthSpend(ts: seq<Txn>, ym: YearMonth): real {
    SumFor(Pairs(ts, TxnMonth), ym)
  }

  /** The spend of category `c`. */
  function CategorySpend(ts: seq<Txn>, c: string): real {
    SumFor(Pairs(ts, TxnCategory), c)
  }

  /** Some transaction falls in month `ym`. */
  predicate HasMonth(ts: seq<Txn>, ym: YearMonth) {
    exists k :: 0 <= k < |ts| && TxnMonth(ts[k]) == ym
  }

  lemma HasKeyPairs<K>(ts: seq<Txn>, key: Txn -> K, x: K)
    ensures HasKey(Pairs(ts, key), x) <==> exists k :: 0 <= k < |ts| && key(ts[k]) == x
  {
    var kvs := Pairs(ts, key);
    if HasKey(kvs, x) {
      var k :| 0 <= k < |kvs| && kvs[k].0 == x;
      assert key(ts[k]) == x;
    }
    if exists k :: 0 <= k < |ts| && key(ts[k]) == x {
      var k :| 0 <= k < |ts| && key(ts[k]) == x;
      assert kvs[k].0 == x;
    }
  }

  /** Every month of the grouping is a real month of some transaction. */
  lemma MonthTotalsKeys(ts: seq<Txn>)
    requires forall k :: 0 <= k < |ts| ==> ValidDateTime(ts[k].dateTime)
    ensures DistinctKeys(MonthTotals(ts))
    ensures forall ym :: HasKey(MonthTotals(ts), ym) <==> HasMonth(ts, ym)
    ensures forall i :: 0 <= i < |MonthTotals(ts)| ==> ValidYearMonth(MonthTotals(ts)[i].0)
  {
    GroupSumsKeys(Pairs(ts, TxnMonth));
    forall ym
      ensures HasKey(MonthTotals(ts), ym) <==> HasMonth(ts, ym)
    {
      HasKeyPairs(ts, TxnMonth, ym);
    }
    var g := MonthTotals(ts);
    forall i | 0 <= i < |g|
      ensures ValidYearMonth(g[i].0)
    {
      assert HasKey(g, g[i].0);
      assert HasMonth(ts, g[i].0);
    }
  }

  // ---------------------------------------------------------------------
  // The monthly series
  // ---------------------------------------------------------------------

  /** `sortedBy { it.first }` on the month totals. */
  function MonthKey(kv: (YearMonth, real)): real {
    MonthIndex(kv.0) as real
  }

  /** `sortedBy { it.yearMonth }` on the points. */
  function PointKey(p: MonthPoint): real {
    MonthIndex(p.month) as real
  }

  function PointTotal(p: MonthPoint): real {
    p.total
  }

  function ToPoints(kvs: seq<(YearMonth, real)>): (ps: seq<MonthPoint>)
    ensures |ps| == |kvs|
    ensures forall k :: 0 <= k < |kvs| ==> ps[k] == MonthPoint(kvs[k].0, kvs[k].1)
  {
    seq(|kvs|, k requires 0 <= k < |kvs| => MonthPoint(kvs[k].0, kvs[k].1))
  }

  /** `monthTotals.toList().sortedBy { it.first }.map { MonthPoint(..) }`. */
  function Series(months: seq<(YearMonth, real)>): seq<MonthPoint> {
    ToPoints(SortBy(months, MonthKey))
  }

  /** Strictly ascending by month. */
  predicate Ascending(ps: seq<MonthPoint>) {
    forall i, j :: 0 <= i < j < |ps| ==> MonthBefore(ps[i].month, ps[j].month)
  }

  // ---------------------------------------------------------------------
  // The computation
  // ---------------------------------------------------------------------

  /** `computeKpisFromCsv` on the lines of the file. */
  function ComputeKpis(lines: seq<string>): Result<KpiResult, KpiError> {
    KpisOf(Txns(ReadCsv(lines)))
  }

  /** The computation after the rows are read: it depends on the
      transactions only. */
  function KpisOf(ts: seq<Txn>): Result<KpiResult, KpiError> {
    if ts == [] then Failure(NoValidRows)
    else
      var months := MonthTotals(ts);
      var maxMonth := MaxIndex(months);
      var minMonth := MinIndex(months);
      if maxMonth.None? || minMonth.None? then Failure(NoMonthTotals)
      else
        var series := Series(months);
        var categories := CategoryTotals(ts);
        var top := MaxIndex(categories);
        if top.None? then Failure(NoCategoryTotals)
        else
          Success(KpiResult(
            months[maxMonth.value].0, months[maxMonth.value].1,
            months[minMonth.value].0, months[minMonth.value].1,
            categories[top.value].0, categories[top.value].1,
            series))
  }

  /** The computation fails exactly when no row is a spending transaction,
      and then always as "No valid rows found": the later two throws cannot
      happen. */
  lemma ComputeKpisFailure(lines: seq<string>)
    ensures ComputeKpis(lines).Failure? <==> Txns(ReadCsv(lines)) == []
    ensures ComputeKpis(lines).Failure? ==> ComputeKpis(lines).error == NoValidRows
  {
    KpisOfFailure(Txns(ReadCsv(lines)));
  }

  lemma KpisOfFailure(ts: seq<Txn>)
    ensures KpisOf(ts).Failure? <==> ts == []
    ensures KpisOf(ts).Failure? ==> KpisOf(ts).error == NoValidRows
  {
    if ts != [] {
      GroupSumsKeys(Pairs(ts, TxnMonth));
      GroupSumsKeys(Pairs(ts, TxnCategory));
      HasKeyPairs(ts, TxnMonth, TxnMonth(ts[0]));
      HasKeyPairs(ts, TxnCategory, TxnCategory(ts[0]));
      assert HasKey(MonthTotals(ts), TxnMonth(ts[0]));
      assert HasKey(CategoryTotals(ts), TxnCategory(ts[0]));
    }
  }

  /** A file without data lines fails with "No valid rows found". */
  lemma NoDataFails(lines: seq<string>)
    requires |lines| <= 1
    ensures ComputeKpis(lines) == Failure(NoValidRows)
  {
  }

  /** On success the result is taken from the month and category totals of
      the transactions. */
  lemma ComputeKpisShape(lines: seq<string>)
    requires ComputeKpis(lines).Success?
    ensures var ts := Txns(ReadCsv(lines));
            var r := ComputeKpis(lines).value;
            && ts != []
            && r.series == Series(MonthTotals(ts))
            && HasKey(MonthTotals(ts), r.maxMonth) && HasKey(MonthTotals(ts), r.minMonth)
            && HasKey(CategoryTotals(ts), r.topCategory)
  {
    var ts := Txns(ReadCsv(lines));
    var months := MonthTotals(ts);
    var categories := CategoryTotals(ts);
    assert HasKey(months, months[MaxIndex(months).value].0);
    assert HasKey(months, months[MinIndex(months).value].0);
    assert HasKey(categories, categories[MaxIndex(categories).value].0);
  }

  /** Month totals, category totals and the series all add up to the sum of
      the transaction amounts. */
  lemma {:induction false} Conservation(ts: seq<Txn>)
    ensures Total(MonthTotals(ts)) == SumAmounts(ts)
    ensures Total(CategoryTotals(ts)) == SumAmounts(ts)
    ensures SumBy(Series(MonthTotals(ts)), PointTotal) == SumAmounts(ts)
  {
    PairsTotal(ts, TxnMonth);
    PairsTotal(ts, TxnCategory);
    GroupSumsTotal(Pairs(ts, TxnMonth));
    GroupSumsTotal(Pairs(ts, TxnCategory));
    var sorted := SortBy(MonthTotals(ts), MonthKey);
    SortBySum(MonthTotals(ts), MonthKey, Value);
    PointsTotal(sorted);
  }

  lemma {:induction false} PointsTotal(kvs: seq<(YearMonth, real)>)
    ensures SumBy(ToPoints(kvs), PointTotal) == Total(kvs)
    decreases |kvs|
  {
    if kvs != [] {
      PointsTotal(kvs[1..]);
      assert ToPoints(kvs)[1..] == ToPoints(kvs[1..]);
    }
  }

  /** One entry of the month totals sorted by month: a real month of some
      transaction, holding that month's spend. */
  lemma SortedMonthEntry(ts: seq<Txn>, k: nat)
    requires forall t :: 0 <= t < |ts| ==> ValidDateTime(ts[t].dateTime)
    requires k < |SortBy(MonthTotals(ts), MonthKey)|
    ensures var e := SortBy(MonthTotals(ts), MonthKey)[k];
            ValidYearMonth(e.0) && HasMonth(ts, e.0) && e.1 == MonthSpend(ts, e.0)
  {
    var months := MonthTotals(ts);
    var sorted := SortBy(months, MonthKey);
    SortByCorrect(months, MonthKey);
    MonthTotalsKeys(ts);
    GroupSumsValues(Pairs(ts, TxnMonth));
    var j :| 0 <= j < |months| && months[j] == sorted[k];
    assert HasKey(months, months[j].0);
  }

  /** Every point of the series is a month with spending, holding that
      month's spend. */
  lemma SeriesPoints(ts: seq<Txn>)
    requires forall t :: 0 <= t < |ts| ==> ValidDateTime(ts[t].dateTime)
    ensures var series := Series(MonthTotals(ts));
            forall i :: 0 <= i < |series| ==>
              && ValidYearMonth(series[i].month) && HasMonth(ts, series[i].month)
              && series[i].total == MonthSpend(ts, series[i].month)
  {
    var series := Series(MonthTotals(ts));
    forall i | 0 <= i < |series|
      ensures ValidYearMonth(series[i].month) && HasMonth(ts, series[i].month)
      ensures series[i].total == MonthSpend(ts, series[i].month)
    {
      SortedMonthEntry(ts, i);
    }
  }

  /** Every month with spending has a point in the series. */
  lemma SeriesCovers(ts: seq<Txn>)
    requires forall t :: 0 <= t < |ts| ==> ValidDateTime(ts[t].dateTime)
    ensures var series := Series(MonthTotals(ts));
            forall ym :: HasMonth(ts, ym) ==> exists i :: 0 <= i < |series| && series[i].month == ym
  {
    var months := MonthTotals(ts);
    var sorted := SortBy(months, MonthKey);
    var series := Series(months);
    MonthTotalsKeys(ts);
    SortByCorrect(months, MonthKey);
    forall ym | HasMonth(ts, ym)
      ensures exists i :: 0 <= i < |series| && series[i].month == ym
    {
      var j :| 0 <= j < |months| && months[j].0 == ym;
      assert months[j] in sorted;
      var k :| 0 <= k < |sorted| && sorted[k] == months[j];
      assert series[k].month == ym;
    }
  }

  /** The series is strictly ascending by month, so no month appears twice. */
  lemma SeriesAscending(ts: seq<Txn>)
    requires forall t :: 0 <= t < |ts| ==> ValidDateTime(ts[t].dateTime)
    ensures Ascending(Series(MonthTotals(ts)))
  {
    var months := MonthTotals(ts);
    MonthTotalsKeys(ts);
    forall i, j | 0 <= i < j < |months|
      ensures MonthKey(months[i]) != MonthKey(months[j])
    {
      MonthIndexOrder(months[i].0, months[j].0);
    }
    SortByStrict(months, MonthKey);
    var sorted := SortBy(months, MonthKey);
    var series := Series(months);
    forall i, j | 0 <= i < j < |series|
      ensures MonthBefore(series[i].month, series[j].month)
    {
      SortedMonthEntry(ts, i);
      SortedMonthEntry(ts, j);
      MonthIndexOrder(sorted[i].0, sorted[j].0);
    }
  }

  /** The max month is a month of largest spend, the min month one of
      smallest spend, the top category one of largest spend; when several tie,
      the one whose first transaction comes earliest in the file wins. */
  lemma Extremes(lines: seq<string>)
    requires ComputeKpis(lines).Success?
    ensures var ts := Txns(ReadCsv(lines));
            var r := ComputeKpis(lines).value;
            var months := MonthTotals(ts);
            var categories := CategoryTotals(ts);
            && (forall i :: 0 <= i < |months| ==> r.minAmount <= months[i].1 <= r.maxAmount)
            && (forall i :: 0 <= i < |categories| ==> categories[i].1 <= r.topAmount)
            && r.maxAmount == MonthSpend(ts, r.maxMonth)
            && r.minAmount == MonthSpend(ts, r.minMonth)
            && r.topAmount == CategorySpend(ts, r.topCategory)
            && (forall i :: 0 <= i < |months| && months[i].1 == r.maxAmount ==>
                  IndexOfKey(Pairs(ts, TxnMonth), r.maxMonth) <= IndexOfKey(Pairs(ts, TxnMonth), months[i].0))
            && (forall i :: 0 <= i < |months| && months[i].1 == r.minAmount ==>
                  IndexOfKey(Pairs(ts, TxnMonth), r.minMonth) <= IndexOfKey(Pairs(ts, TxnMonth), months[i].0))
            && (forall i :: 0 <= i < |categories| && categories[i].1 == r.topAmount ==>
                  IndexOfKey(Pairs(ts, TxnCategory), r.topCategory) <= IndexOfKey(Pairs(ts, TxnCategory), categories[i].0))
  {
    ExtremesOf(Txns(ReadCsv(lines)));
  }

  lemma ExtremesOf(ts: seq<Txn>)
    requires KpisOf(ts).Success?
    ensures var r := KpisOf(ts).value;
            var months := MonthTotals(ts);
            var categories := CategoryTotals(ts);
            && (forall i :: 0 <= i < |months| ==> r.minAmount <= months[i].1 <= r.maxAmount)
            && (forall i :: 0 <= i < |categories| ==> categories[i].1 <= r.topAmount)
            && r.maxAmount == MonthSpend(ts, r.maxMonth)
            && r.minAmount == MonthSpend(ts, r.minMonth)
            && r.topAmount == CategorySpend(ts, r.topCategory)
            && (forall i :: 0 <= i < |months| && months[i].1 == r.maxAmount ==>
                  IndexOfKey(Pairs(ts, TxnMonth), r.maxMonth) <= IndexOfKey(Pairs(ts, TxnMonth), months[i].0))
            && (forall i :: 0 <= i < |months| && months[i].1 == r.minAmount ==>
                  IndexOfKey(Pairs(ts, TxnMonth), r.minMonth) <= IndexOfKey(Pairs(ts, TxnMonth), months[i].0))
            && (forall i :: 0 <= i < |categories| && categories[i].1 == r.topAmount ==>
                  IndexOfKey(Pairs(ts, TxnCategory), r.topCategory) <= IndexOfKey(Pairs(ts, TxnCategory), categories[i].0))
  {
    var months := MonthTotals(ts);
    var categories := CategoryTotals(ts);
    ChosenMax(Pairs(ts, TxnMonth), months, MaxIndex(months).value);
    ChosenMin(Pairs(ts, TxnMonth), months, MinIndex(months).value);
    ChosenMax(Pairs(ts, TxnCategory), categories, MaxIndex(categories).value);
  }

  /** The pair `maxByOrNull` picks from a grouping holds the key's sum and
      is the earliest-keyed of the pairs with the largest value. */
  lemma ChosenMax<K>(kvs: seq<(K, real)>, g: seq<(K, real)>, m: nat)
    requires g == GroupSums(kvs) && MaxIndex(g) == Some(m)
    ensures m < |g| && g[m].1 == SumFor(kvs, g[m].0)
    ensures forall i :: 0 <= i < |g| && g[i].1 == g[m].1 ==>
              IndexOfKey(kvs, g[m].0) <= IndexOfKey(kvs, g[i].0)
  {
    GroupSumsValues(kvs);
    GroupSumsOrder(kvs);
    FirstInOrder(g, kvs, m);
  }

  /** The pair `minByOrNull` picks, likewise for the smallest value. */
  lemma ChosenMin<K>(kvs: seq<(K, real)>, g: seq<(K, real)>, m: nat)
    requires g == GroupSums(kvs) && MinIndex(g) == Some(m)
    ensures m < |g| && g[m].1 == SumFor(kvs, g[m].0)
    ensures forall i :: 0 <= i < |g| && g[i].1 == g[m].1 ==>
              IndexOfKey(kvs, g[m].0) <= IndexOfKey(kvs, g[i].0)
  {
    GroupSumsValues(kvs);
    GroupSumsOrder(kvs);
    FirstInOrder(g, kvs, m);
  }

  /** In a grouping ordered by first occurrence, a group no later than every
      group of the same value has the earliest first occurrence among them. */
  lemma FirstInOrder<K>(g: seq<(K, real)>, kvs: seq<(K, real)>, m: nat)
    requires m < |g|
    requires forall i, j :: 0 <= i < j < |g| ==> IndexOfKey(kvs, g[i].0) < IndexOfKey(kvs, g[j].0)
    requires forall j :: 0 <= j < m ==> g[j].1 != g[m].1
    ensures forall i :: 0 <= i < |g| && g[i].1 == g[m].1 ==>
              IndexOfKey(kvs, g[m].0) <= IndexOfKey(kvs, g[i].0)
  {
    forall i | 0 <= i < |g| && g[i].1 == g[m].1
      ensures IndexOfKey(kvs, g[m].0) <= IndexOfKey(kvs, g[i].0)
    {
      if i != m {
        assert m < i;
      }
    }
  }

  // ---------------------------------------------------------------------
  // The chart's window
  // ---------------------------------------------------------------------

  /** The timeframes of the chart's dropdown. */
  datatype Timeframe = Last3 | Last6 | LastYear | Lifetime

  /** `Timeframe.months`: how many trailing months it keeps, none for all. */
  function Months(tf: Timeframe): Option<nat> {
    match tf
    case Last3 => Some(3)
    case Last6 => Some(6)
    case LastYear => Some(12)
    case Lifetime => None
  }

  /** `takeLast(n)`: the last `n` elements, or all of them when there are
      fewer. */
  function TakeLast<T>(s: seq<T>, n: nat): (r: seq<T>)
    ensures |r| == if n < |s| then n else |s|
    ensures s == s[..|s| - |r|] + r
  {
    if n >= |s| then s else s[|s| - n..]
  }

  /** The points the chart shows for a timeframe. */
  function Window(points: seq<MonthPoint>, tf: Timeframe): seq<MonthPoint> {
    match Months(tf)
    case None => points
    case Some(m) => TakeLast(points, m)
  }

  /** The chart's own steps: it sorts the points it is given by month, then
      keeps the timeframe's window. */
  function ChartWindow(points: seq<MonthPoint>, tf: Timeframe): seq<MonthPoint> {
    Window(SortBy(points, PointKey), tf)
  }

  /** On the series the chart's re-sort changes nothing; the window keeps the
      last `N` months that have spending (all of them when there are fewer or
      for `Lifetime`), stays ascending, and every month it drops comes before
      every month it keeps. */
  lemma {:induction false} WindowOfSeries(ts: seq<Txn>, tf: Timeframe)
    requires forall k :: 0 <= k < |ts| ==> ValidDateTime(ts[k].dateTime)
    ensures var series := Series(MonthTotals(ts));
            var w := ChartWindow(series, tf);
            && w == Window(series, tf)
            && (tf == Lifetime ==> w == series)
            && (Months(tf).Some? ==> |w| == if Months(tf).value < |series| then Months(tf).value else |series|)
            && series == series[..|series| - |w|] + w
            && Ascending(w)
            && (forall i, j :: 0 <= i < |series| - |w| <= j < |series| ==>
                  MonthBefore(series[i].month, series[j].month))
  {
    var series := Series(MonthTotals(ts));
    SeriesAscending(ts);
    SeriesPoints(ts);
    SeriesSorted(series);
    SortBySorted(series, PointKey);
    WindowOfAscending(series, tf);
  }

  /** The window of an ascending sequence of points is a suffix of it that
      is itself ascending and comes after everything it drops. */
  lemma WindowOfAscending(ps: seq<MonthPoint>, tf: Timeframe)
    requires Ascending(ps)
    ensures var w := Window(ps, tf);
            && (tf == Lifetime ==> w == ps)
            && (Months(tf).Some? ==> |w| == if Months(tf).value < |ps| then Months(tf).value else |ps|)
            && ps == ps[..|ps| - |w|] + w
            && Ascending(w)
            && (forall i, j :: 0 <= i < |ps| - |w| <= j < |ps| ==>
                  MonthBefore(ps[i].month, ps[j].month))
  {
    var w := Window(ps, tf);
    var d := |ps| - |w|;
    assert ps == ps[..d] + w;
    SuffixAscending(ps, d, w);
  }

  lemma SuffixAscending(ps: seq<MonthPoint>, d: nat, w: seq<MonthPoint>)
    requires Ascending(ps)
    requires d <= |ps| && ps == ps[..d] + w
    ensures Ascending(w)
  {
    forall i, j | 0 <= i < j < |w|
      ensures MonthBefore(w[i].month, w[j].month)
    {
      assert w[i] == ps[d + i];
      assert w[j] == ps[d + j];
    }
  }

  /** An ascending series is sorted by the chart's key. */
  lemma SeriesSorted(ps: seq<MonthPoint>)
    requires forall i :: 0 <= i < |ps| ==> ValidYearMonth(ps[i].month)
    requires Ascending(ps)
    ensures SortedBy(ps, PointKey)
  {
    forall i, j | 0 <= i < j < |ps|
      ensures PointKey(ps[i]) <= PointKey(ps[j])
    {
      MonthIndexOrder(ps[i].month, ps[j].month);
    }
  }

  // ---------------------------------------------------------------------
  // Dropped lines
  // ---------------------------------------------------------------------

  /** A body line that is blank, or whose row is not a spending transaction,
      does not change the result. */
  lemma DroppedLineChangesNothing(lines: seq<string>, line: string)
    requires |lines| >= 1
    requires IsBlank(line) || ToTxn(BuildRow(ParseLine(lines[0]), ParseLine(line))).None?
    ensures ComputeKpis(lines + [line]) == ComputeKpis(lines)
  {
    ReadCsvAppend(lines, line);
    if !IsBlank(line) {
      var row := BuildRow(ParseLine(lines[0]), ParseLine(line));
      FilterMapConcat(ReadCsv(lines), [row], ToTxn);
      FilterMapSingle(row, ToTxn);
      assert Txns(ReadCsv(lines)) + [] == Txns(ReadCsv(lines));
    } else {
      assert ReadCsv(lines) + [] == ReadCsv(lines);
    }
    assert Txns(ReadCsv(lines + [line])) == Txns(ReadCsv(lines));
  }
}
