/** The month breakdown screen: the same spend-only filter as the KPI screen,
    restricted to one month, giving the month's total, its totals per label,
    its transactions newest first, and the label ranking that picks colours
    and pie slices. */
module MonthDetail {
  import opened Wrappers
  import opened Text
  import opened Calendar
  import opened Amounts
  import opened Csv
  import opened Sorting
  import opened Grouping
  import opened Fields
  import opened Lists

  datatype TxnLite = TxnLite(dateTime: DateTime, amount: real, labelText: string)

  /** What the screen's loading effect stores: `total`, `byLabel` and
      `txns`. */
  datatype Detail = Detail(total: real, byLabel: seq<(string, real)>, txns: seq<TxnLite>)

  /** One row of the screen's `mapNotNull`: like the KPI filter, but the
      `Sender` column is not required, the date must fall in `ym`, and a
      blank label is stored as `Unknown`. */
  function ToDetail(row: Row, ym: YearMonth): (r: Option<TxnLite>)
    ensures r.Some? ==>
              && DateHeader in row && AmountHeader in row
              && !IsExcluded(LabelOf(row))
              && ParseAmount(row[AmountHeader]) == Some(r.value.amount)
              && ParseDateTime(Trim(row[DateHeader])) == Some(r.value.dateTime)
              && MonthOf(r.value.dateTime) == ym
              && r.value.labelText == OrUnknown(LabelOf(row))
    ensures (&& DateHeader in row && AmountHeader in row
             && !IsExcluded(LabelOf(row))
             && ParseAmount(row[AmountHeader]).Some?
             && ParseDateTime(Trim(row[DateHeader])).Some?
             && MonthOf(ParseDateTime(Trim(row[DateHeader])).value) == ym) ==> r.Some?
  {
    if DateHeader !in row || AmountHeader !in row then None
    else
      var name := LabelOf(row);
      if IsExcluded(name) then None
      else match ParseAmount(row[AmountHeader])
        case None => None
        case Some(amount) =>
          match ParseDateTime(Trim(row[DateHeader]))
          case None => None
          case Some(dt) =>
            if MonthOf(dt) != ym then None
            else Some(TxnLite(dt, amount, OrUnknown(name)))
  }

  /** The row filter for month `ym`. */
  function InMonth(ym: YearMonth): Row -> Option<TxnLite> {
    row => ToDetail(row, ym)
  }

  /** The transactions of month `ym`, in row order. */
  function Kept(rows: seq<Row>, ym: YearMonth): seq<TxnLite> {
    FilterMap(rows, InMonth(ym))
  }

  function LiteAmount(t: TxnLite): real {
    t.amount
  }

  /** `sortedByDescending { it.dateTime }`: newest first. */
  function NewestFirst(t: TxnLite): real {
    -(ChronoKey(t.dateTime) as real)
  }

  /** Each kept transaction as a label–amount pair. */
  function LabelPairs(kept: seq<TxnLite>): (kvs: seq<(string, real)>)
    ensures |kvs| == |kept|
    ensures forall k :: 0 <= k < |kept| ==> kvs[k] == (kept[k].labelText, kept[k].amount)
  {
    seq(|kept|, k requires 0 <= k < |kept| => (kept[k].labelText, kept[k].amount))
  }

  /** The loading effect once the file is read: the kept transactions'
      total, their per-label totals, and the transactions newest first. */
  function LoadMonth(lines: seq<string>, ym: YearMonth): Detail {
    var kept := Kept(ReadCsv(lines), ym);
    Detail(SumBy(kept, LiteAmount), GroupSums(LabelPairs(kept)), SortBy(kept, NewestFirst))
  }

  // ---------------------------------------------------------------------
  // The filter
  // ---------------------------------------------------------------------

  /** Every kept transaction comes from a row that converts to it, and every
      row that converts for `ym` is kept. */
  lemma KeptFromRows(rows: seq<Row>, ym: YearMonth)
    ensures forall k :: 0 <= k < |Kept(rows, ym)| ==>
              exists i :: 0 <= i < |rows| && ToDetail(rows[i], ym) == Some(Kept(rows, ym)[k])
    ensures forall i :: 0 <= i < |rows| && ToDetail(rows[i], ym).Some? ==>
              ToDetail(rows[i], ym).value in Kept(rows, ym)
  {
    FilterMapSources(rows, InMonth(ym));
    FilterMapKeeps(rows, InMonth(ym));
    var kept := Kept(rows, ym);
    forall k | 0 <= k < |kept|
      ensures exists i :: 0 <= i < |rows| && ToDetail(rows[i], ym) == Some(kept[k])
    {
      var i :| 0 <= i < |rows| && InMonth(ym)(rows[i]) == Some(kept[k]);
      assert ToDetail(rows[i], ym) == Some(kept[k]);
    }
    forall i | 0 <= i < |rows| && ToDetail(rows[i], ym).Some?
      ensures ToDetail(rows[i], ym).value in kept
    {
      assert InMonth(ym)(rows[i]) == ToDetail(rows[i], ym);
    }
  }

  /** Every kept transaction lies in the requested month, so no other month
      contributes; its date-time is valid and its label is not blank. */
  lemma KeptInMonth(rows: seq<Row>, ym: YearMonth)
    ensures forall k :: 0 <= k < |Kept(rows, ym)| ==>
              && MonthOf(Kept(rows, ym)[k].dateTime) == ym
              && ValidDateTime(Kept(rows, ym)[k].dateTime)
              && !IsBlank(Kept(rows, ym)[k].labelText)
  {
    KeptFromRows(rows, ym);
    var kept := Kept(rows, ym);
    forall k | 0 <= k < |kept|
      ensures MonthOf(kept[k].dateTime) == ym && ValidDateTime(kept[k].dateTime)
      ensures !IsBlank(kept[k].labelText)
    {
      var i :| 0 <= i < |rows| && ToDetail(rows[i], ym) == Some(kept[k]);
    }
  }

  /** The detail filter does not look at the `Sender` column. */
  lemma DetailIgnoresSender(row: Row, ym: YearMonth)
    ensures ToDetail(row - {SenderHeader}, ym) == ToDetail(row, ym)
  {
    var r := row - {SenderHeader};
    SenderIsNotRead(row);
    assert (DateHeader in r <==> DateHeader in row) && (AmountHeader in r <==> AmountHeader in row);
    if DateHeader in row && AmountHeader in row {
      assert r[DateHeader] == row[DateHeader] && r[AmountHeader] == row[AmountHeader];
    }
  }

  /** Removing the `Sender` column keeps the other columns the filters read. */
  lemma SenderIsNotRead(row: Row)
    ensures var r := row - {SenderHeader};
            && (DateHeader in r <==> DateHeader in row)
            && (AmountHeader in r <==> AmountHeader in row)
            && (DateHeader in row ==> r[DateHeader] == row[DateHeader])
            && (AmountHeader in row ==> r[AmountHeader] == row[AmountHeader])
            && LabelOf(r) == LabelOf(row)
  {
    assert DateHeader[0] != SenderHeader[0];
    assert AmountHeader[0] != SenderHeader[0];
    assert LabelHeader[0] != SenderHeader[0];
  }

  // ---------------------------------------------------------------------
  // Totals
  // ---------------------------------------------------------------------

  lemma {:induction false} LabelPairsTotal(kept: seq<TxnLite>)
    ensures Total(LabelPairs(kept)) == SumBy(kept, LiteAmount)
    decreases |kept|
  {
    if kept != [] {
      LabelPairsTotal(kept[1..]);
      assert LabelPairs(kept)[1..] == LabelPairs(kept[1..]);
    }
  }

  /** The month total, the sum of the per-label totals and the sum over the
      listed transactions agree: each is the sum of the kept amounts. */
  lemma DetailTotals(lines: seq<string>, ym: YearMonth)
    ensures var d := LoadMonth(lines, ym);
            var kept := Kept(ReadCsv(lines), ym);
            && d.total == SumBy(kept, LiteAmount)
            && Total(d.byLabel) == d.total
            && SumBy(d.txns, LiteAmount) == d.total
  {
    var kept := Kept(ReadCsv(lines), ym);
    LabelPairsTotal(kept);
    GroupSumsTotal(LabelPairs(kept));
    SortBySum(kept, NewestFirst, LiteAmount);
  }

  /** A month without spending shows a zero total and nothing else; it is not
      an error. */
  lemma EmptyMonth(lines: seq<string>, ym: YearMonth)
    requires forall i :: 0 <= i < |ReadCsv(lines)| ==> ToDetail(ReadCsv(lines)[i], ym).None?
    ensures LoadMonth(lines, ym) == Detail(0.0, [], [])
  {
    FilterMapEmpty(ReadCsv(lines), InMonth(ym));
    var rows := ReadCsv(lines);
    forall i | 0 <= i < |rows|
      ensures InMonth(ym)(rows[i]).None?
    {
      assert InMonth(ym)(rows[i]) == ToDetail(rows[i], ym);
    }
  }

  /** Each per-label total is the sum of that label's kept amounts, every
      label appears once, and exactly the labels of kept transactions
      appear. */
  lemma DetailLabels(lines: seq<string>, ym: YearMonth)
    ensures var d := LoadMonth(lines, ym);
            var kept := Kept(ReadCsv(lines), ym);
            && DistinctKeys(d.byLabel)
            && (forall i :: 0 <= i < |d.byLabel| ==> d.byLabel[i].1 == SumFor(LabelPairs(kept), d.byLabel[i].0))
            && (forall name :: HasKey(d.byLabel, name) <==>
                  exists k :: 0 <= k < |kept| && kept[k].labelText == name)
  {
    var kept := Kept(ReadCsv(lines), ym);
    var d := LoadMonth(lines, ym);
    KeptLabels(kept, d.byLabel);
  }

  /** The grouping of the kept transactions by label. */
  lemma KeptLabels(kept: seq<TxnLite>, byLabel: seq<(string, real)>)
    requires byLabel == GroupSums(LabelPairs(kept))
    ensures DistinctKeys(byLabel)
    ensures forall i :: 0 <= i < |byLabel| ==> byLabel[i].1 == SumFor(LabelPairs(kept), byLabel[i].0)
    ensures forall name :: HasKey(byLabel, name) <==>
              exists k :: 0 <= k < |kept| && kept[k].labelText == name
  {
    var kvs := LabelPairs(kept);
    GroupSumsKeys(kvs);
    GroupSumsValues(kvs);
    forall name
      ensures HasKey(byLabel, name) <==> exists k :: 0 <= k < |kept| && kept[k].labelText == name
    {
      if HasKey(kvs, name) {
        var k :| 0 <= k < |kvs| && kvs[k].0 == name;
        assert kept[k].labelText == name;
      }
      if exists k :: 0 <= k < |kept| && kept[k].labelText == name {
        var k :| 0 <= k < |kept| && kept[k].labelText == name;
        assert kvs[k].0 == name;
      }
    }
  }

  // ---------------------------------------------------------------------
  // The transaction list
  // ---------------------------------------------------------------------

  /** The listed transactions are the kept ones reordered newest first;
      transactions with the same date-time keep their order in the file. */
  lemma DetailTxnsOrder(lines: seq<string>, ym: YearMonth)
    ensures var d := LoadMonth(lines, ym);
            var kept := Kept(ReadCsv(lines), ym);
            && multiset(d.txns) == multiset(kept)
            && (forall i, j :: 0 <= i < j < |d.txns| ==> !Before(d.txns[i].dateTime, d.txns[j].dateTime))
            && (forall v :: WithKey(d.txns, NewestFirst, v) == WithKey(kept, NewestFirst, v))
  {
    var kept := Kept(ReadCsv(lines), ym);
    SortByCorrect(kept, NewestFirst);
    KeptInMonth(ReadCsv(lines), ym);
    NewestFirstOrder(kept);
    forall v
      ensures WithKey(SortBy(kept, NewestFirst), NewestFirst, v) == WithKey(kept, NewestFirst, v)
    {
      SortByStable(kept, NewestFirst, v);
    }
  }

  /** Sorting valid date-times by `NewestFirst` puts no date-time before an
      earlier one. */
  lemma NewestFirstOrder(kept: seq<TxnLite>)
    requires forall k :: 0 <= k < |kept| ==> ValidDateTime(kept[k].dateTime)
    ensures forall i, j :: 0 <= i < j < |SortBy(kept, NewestFirst)| ==>
              !Before(SortBy(kept, NewestFirst)[i].dateTime, SortBy(kept, NewestFirst)[j].dateTime)
  {
    var txns := SortBy(kept, NewestFirst);
    SortByCorrect(kept, NewestFirst);
    forall i, j | 0 <= i < j < |txns|
      ensures !Before(txns[i].dateTime, txns[j].dateTime)
    {
      var a :| 0 <= a < |kept| && kept[a] == txns[i];
      var b :| 0 <= b < |kept| && kept[b] == txns[j];
      assert NewestFirst(txns[i]) <= NewestFirst(txns[j]);
      ChronoKeyOrder(txns[i].dateTime, txns[j].dateTime);
    }
  }

  // ---------------------------------------------------------------------
  // Label ranking, colours and pie
  // ---------------------------------------------------------------------

  /** `sortedByDescending { it.second }`: largest total first. */
  function LargestFirst(kv: (string, real)): real {
    -kv.1
  }

  function Label(kv: (string, real)): string {
    kv.0
  }

  /** `byLabel.toList().sortedByDescending { it.second }.map { it.first }`. */
  function LabelRanking(byLabel: seq<(string, real)>): seq<string> {
    KeysOf(SortBy(byLabel, LargestFirst))
  }

  /** `withIndex().associate { it.value to it.index }`: each name mapped to
      its position, a repeated name to its last position. */
  function Associate(names: seq<string>): (m: map<string, nat>)
    ensures m.Keys == set k | 0 <= k < |names| :: names[k]
    decreases |names|
  {
    if names == [] then map[]
    else
      var n := |names| - 1;
      assert (set k | 0 <= k < |names| :: names[k])
          == (set k | 0 <= k < n :: names[..n][k]) + {names[n]} by {
        assert forall k :: 0 <= k < n ==> names[..n][k] == names[k];
      }
      Associate(names[..n])[names[n] := n]
  }

  /** The colour index of each label. */
  function LabelIndexMap(byLabel: seq<(string, real)>): map<string, nat> {
    Associate(LabelRanking(byLabel))
  }

  /** With distinct names each name is mapped to its own position. */
  lemma {:induction false} AssociateDistinct(names: seq<string>)
    requires forall i, j :: 0 <= i < j < |names| ==> names[i] != names[j]
    ensures forall i :: 0 <= i < |names| ==> Associate(names)[names[i]] == i
    decreases |names|
  {
    if names != [] {
      var n := |names| - 1;
      var prefix := names[..n];
      AssociateDistinct(prefix);
      var m := Associate(prefix);
      assert Associate(names) == m[names[n] := n];
      forall i | 0 <= i < n
        ensures Associate(names)[names[i]] == i
      {
        assert prefix[i] == names[i];
        assert names[i] != names[n];
        assert m[prefix[i]] == i;
      }
    }
  }

  /** On a grouping the ranking names every label once, largest total
      first. */
  lemma RankingFacts(byLabel: seq<(string, real)>)
    requires DistinctKeys(byLabel)
    ensures var names := LabelRanking(byLabel);
            && (forall i, j :: 0 <= i < j < |names| ==> names[i] != names[j])
            && (forall k :: 0 <= k < |byLabel| ==> exists p :: 0 <= p < |names| && names[p] == byLabel[k].0)
            && (forall p :: 0 <= p < |names| ==> HasKey(byLabel, names[p]))
  {
    var sorted := SortBy(byLabel, LargestFirst);
    SortByCorrect(byLabel, LargestFirst);
    SortByDistinct(byLabel, LargestFirst, Label);
    var names := LabelRanking(byLabel);
    forall k | 0 <= k < |byLabel|
      ensures exists p :: 0 <= p < |names| && names[p] == byLabel[k].0
    {
      var p :| 0 <= p < |sorted| && sorted[p] == byLabel[k];
      assert names[p] == byLabel[k].0;
    }
    forall p | 0 <= p < |names|
      ensures HasKey(byLabel, names[p])
    {
      var k :| 0 <= k < |byLabel| && byLabel[k] == sorted[p];
      assert byLabel[k].0 == names[p];
    }
  }

  /** `labelIndexMap` holds exactly the labels of the grouping. */
  lemma LabelIndexKeys(byLabel: seq<(string, real)>)
    requires DistinctKeys(byLabel)
    ensures forall name :: name in LabelIndexMap(byLabel) <==> HasKey(byLabel, name)
  {
    var names := LabelRanking(byLabel);
    RankingFacts(byLabel);
    forall name
      ensures name in LabelIndexMap(byLabel) <==> HasKey(byLabel, name)
    {
      if HasKey(byLabel, name) {
        var k :| 0 <= k < |byLabel| && byLabel[k].0 == name;
        var p :| 0 <= p < |names| && names[p] == byLabel[k].0;
      }
    }
  }

  /** `labelIndexMap` numbers the `k` labels of a grouping `0` to `k - 1`,
      one label per number. */
  lemma LabelIndexNumbers(byLabel: seq<(string, real)>)
    requires DistinctKeys(byLabel)
    ensures var idx := LabelIndexMap(byLabel);
            && (forall name :: name in idx ==> idx[name] < |byLabel|)
            && (forall a, b :: a in idx && b in idx && a != b ==> idx[a] != idx[b])
  {
    var names := LabelRanking(byLabel);
    var idx := LabelIndexMap(byLabel);
    RankingFacts(byLabel);
    AssociateDistinct(names);
    SortByCorrect(byLabel, LargestFirst);
    forall name | name in idx
      ensures idx[name] < |byLabel| && names[idx[name]] == name
    {
      var p :| 0 <= p < |names| && names[p] == name;
    }
  }

  /** A label with a strictly larger total gets a smaller colour index. */
  lemma LabelIndexOrder(byLabel: seq<(string, real)>)
    requires DistinctKeys(byLabel)
    ensures var idx := LabelIndexMap(byLabel);
            forall i, j :: 0 <= i < |byLabel| && 0 <= j < |byLabel| && byLabel[i].1 > byLabel[j].1 ==>
              byLabel[i].0 in idx && byLabel[j].0 in idx && idx[byLabel[i].0] < idx[byLabel[j].0]
  {
    var idx := LabelIndexMap(byLabel);
    RankingFacts(byLabel);
    AssociateDistinct(LabelRanking(byLabel));
    SortByCorrect(byLabel, LargestFirst);
    forall i, j | 0 <= i < |byLabel| && 0 <= j < |byLabel| && byLabel[i].1 > byLabel[j].1
      ensures byLabel[i].0 in idx && byLabel[j].0 in idx && idx[byLabel[i].0] < idx[byLabel[j].0]
    {
      LabelIndexPair(byLabel, i, j);
    }
  }

  lemma LabelIndexPair(byLabel: seq<(string, real)>, i: nat, j: nat)
    requires i < |byLabel| && j < |byLabel| && byLabel[i].1 > byLabel[j].1
    requires SortedBy(SortBy(byLabel, LargestFirst), LargestFirst)
    requires |SortBy(byLabel, LargestFirst)| == |byLabel|
    requires forall k :: 0 <= k < |byLabel| ==> byLabel[k] in SortBy(byLabel, LargestFirst)
    requires forall p :: 0 <= p < |LabelRanking(byLabel)| ==>
               Associate(LabelRanking(byLabel))[LabelRanking(byLabel)[p]] == p
    ensures var idx := LabelIndexMap(byLabel);
            byLabel[i].0 in idx && byLabel[j].0 in idx && idx[byLabel[i].0] < idx[byLabel[j].0]
  {
    var sorted := SortBy(byLabel, LargestFirst);
    var names := LabelRanking(byLabel);
    var p :| 0 <= p < |sorted| && sorted[p] == byLabel[i];
    var q :| 0 <= q < |sorted| && sorted[q] == byLabel[j];
    assert names[p] == byLabel[i].0 && names[q] == byLabel[j].0;
    assert LargestFirst(sorted[p]) < LargestFirst(sorted[q]);
  }

  /** The pairs with a positive total, in order. */
  function Positive(kvs: seq<(string, real)>): (r: seq<(string, real)>)
    ensures |r| <= |kvs|
    decreases |kvs|
  {
    if kvs == [] then []
    else if kvs[0].1 > 0.0 then [kvs[0]] + Positive(kvs[1..])
    else Positive(kvs[1..])
  }

  /** `filter { it.second > 0 }` keeps exactly the positive pairs. */
  lemma {:induction false} PositiveMembers(kvs: seq<(string, real)>)
    ensures forall k :: 0 <= k < |Positive(kvs)| ==> Positive(kvs)[k] in kvs && Positive(kvs)[k].1 > 0.0
    ensures forall k :: 0 <= k < |kvs| && kvs[k].1 > 0.0 ==> kvs[k] in Positive(kvs)
    decreases |kvs|
  {
    if kvs != [] {
      PositiveMembers(kvs[1..]);
      var r := Positive(kvs);
      var q := Positive(kvs[1..]);
      forall k | 0 <= k < |r|
        ensures r[k] in kvs && r[k].1 > 0.0
      {
        if kvs[0].1 > 0.0 && k > 0 {
          assert r[k] == q[k - 1];
        }
      }
      forall k | 0 <= k < |kvs| && kvs[k].1 > 0.0
        ensures kvs[k] in r
      {
        if k > 0 {
          assert kvs[k] == kvs[1..][k - 1];
        }
      }
    }
  }

  /** A subsequence of a sequence sorted by `key` is sorted by `key`. */
  lemma {:induction false} PositiveSorted(kvs: seq<(string, real)>)
    requires SortedBy(kvs, LargestFirst)
    ensures SortedBy(Positive(kvs), LargestFirst)
    decreases |kvs|
  {
    if kvs != [] {
      PositiveSorted(kvs[1..]);
      PositiveMembers(kvs[1..]);
      var r := Positive(kvs[1..]);
      forall k | 0 <= k < |r|
        ensures LargestFirst(kvs[0]) <= LargestFirst(r[k])
      {
        var j :| 0 <= j < |kvs[1..]| && kvs[1..][j] == r[k];
        assert kvs[j + 1] == r[k];
      }
      if kvs[0].1 > 0.0 {
        PrependSorted(kvs[0], r, LargestFirst);
      }
    }
  }

  /** `SpendingPieCard`'s entries: the grouping largest first, without the
      labels whose total is not positive. */
  function PieEntries(byLabel: seq<(string, real)>): seq<(string, real)> {
    Positive(SortBy(byLabel, LargestFirst))
  }

  /** The pie shows exactly the labels with a positive total, largest
      first. */
  lemma PieEntriesFacts(byLabel: seq<(string, real)>)
    ensures forall k :: 0 <= k < |PieEntries(byLabel)| ==>
              PieEntries(byLabel)[k] in byLabel && PieEntries(byLabel)[k].1 > 0.0
    ensures forall k :: 0 <= k < |byLabel| && byLabel[k].1 > 0.0 ==> byLabel[k] in PieEntries(byLabel)
    ensures forall i, j :: 0 <= i < j < |PieEntries(byLabel)| ==>
              PieEntries(byLabel)[i].1 >= PieEntries(byLabel)[j].1
  {
    var sorted := SortBy(byLabel, LargestFirst);
    SortByCorrect(byLabel, LargestFirst);
    PositiveSorted(sorted);
    PositiveMembers(sorted);
    var e := PieEntries(byLabel);
    forall k | 0 <= k < |byLabel| && byLabel[k].1 > 0.0
      ensures byLabel[k] in e
    {
      var p :| 0 <= p < |sorted| && sorted[p] == byLabel[k];
    }
    forall k | 0 <= k < |e|
      ensures e[k] in byLabel
    {
      var p :| 0 <= p < |sorted| && sorted[p] == e[k];
    }
    forall i, j | 0 <= i < j < |e|
      ensures e[i].1 >= e[j].1
    {
      assert LargestFirst(e[i]) <= LargestFirst(e[j]);
    }
  }

  /** Every listed transaction's label has a colour index, so the card's
      `?: 0` fallback is never taken. */
  lemma TxnLabelsIndexed(lines: seq<string>, ym: YearMonth)
    ensures var d := LoadMonth(lines, ym);
            forall k :: 0 <= k < |d.txns| ==> d.txns[k].labelText in LabelIndexMap(d.byLabel)
  {
    var kept := Kept(ReadCsv(lines), ym);
    var d := LoadMonth(lines, ym);
    KeptLabelsIndexed(kept, d.byLabel, d.txns);
  }

  lemma KeptLabelsIndexed(kept: seq<TxnLite>, byLabel: seq<(string, real)>, txns: seq<TxnLite>)
    requires byLabel == GroupSums(LabelPairs(kept))
    requires txns == SortBy(kept, NewestFirst)
    ensures forall k :: 0 <= k < |txns| ==> txns[k].labelText in LabelIndexMap(byLabel)
  {
    var kvs := LabelPairs(kept);
    GroupSumsKeys(kvs);
    LabelIndexKeys(byLabel);
    SortByCorrect(kept, NewestFirst);
    forall k | 0 <= k < |txns|
      ensures txns[k].labelText in LabelIndexMap(byLabel)
    {
      var j :| 0 <= j < |kept| && kept[j] == txns[k];
      assert kvs[j].0 == txns[k].labelText;
      assert HasKey(kvs, txns[k].labelText);
    }
  }
}
