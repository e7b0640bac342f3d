/** The minimal CSV reader shared, in two textual copies, by the KPI screen and
    the month-detail screen: a per-line tokenizer with quoted spans and `""`
    escapes, and the step that turns a header line plus body lines into
    header -> cell maps. The input is the list of lines already read from the
    stream, so a quoted field never spans two lines. */
module Csv {
  import opened Text

  /** One data record: column header -> cell text. */
  type Row = map<string, string>

  // ---------------------------------------------------------------------
  // Tokenizer
  // ---------------------------------------------------------------------

  /** The tokenizer's state machine run over the unread part `rest` of a line:
      `inQuotes` is the in-quotes flag, `cur` the field being built and `acc`
      the fields already finished. A quote toggles the flag, except that a
      quote followed by a quote inside a quoted span emits one literal quote;
      a comma outside quotes ends the field; anything else is copied. */
  function Scan(rest: string, inQuotes: bool, cur: string, acc: seq<string>): seq<string>
    decreases |rest|
  {
    if rest == [] then acc + [cur]
    else if rest[0] == '"' then
      if inQuotes && |rest| > 1 && rest[1] == '"' then Scan(rest[2..], inQuotes, cur + ['"'], acc)
      else Scan(rest[1..], !inQuotes, cur, acc)
    else if rest[0] == ',' && !inQuotes then Scan(rest[1..], inQuotes, [], acc + [cur])
    else Scan(rest[1..], inQuotes, cur + [rest[0]], acc)
  }

  /** Number of `"` characters in `s`. */
  function QuoteCount(s: string): nat
    decreases |s|
  {
    if s == [] then 0 else (if s[0] == '"' then 1 else 0) + QuoteCount(s[1..])
  }

  /** Number of commas in `s` that are preceded by an even number of quote
      characters (counting from a point where `odd` tells the parity so far). */
  function CommasAtEvenParity(s: string, odd: bool): nat
    decreases |s|
  {
    if s == [] then 0
    else if s[0] == '"' then CommasAtEvenParity(s[1..], !odd)
    else if s[0] == ',' && !odd then 1 + CommasAtEvenParity(s[1..], odd)
    else CommasAtEvenParity(s[1..], odd)
  }

  /** The commas of `line` that lie outside quoted spans: those with an even
      number of quote characters before them. */
  function SeparatorCount(line: string): nat {
    CommasAtEvenParity(line, false)
  }

  lemma {:induction false} ScanFieldCount(rest: string, inQuotes: bool, cur: string, acc: seq<string>)
    ensures |Scan(rest, inQuotes, cur, acc)| == |acc| + 1 + CommasAtEvenParity(rest, inQuotes)
    decreases |rest|
  {
    if rest == [] {
    } else if rest[0] == '"' {
      if inQuotes && |rest| > 1 && rest[1] == '"' {
        ScanFieldCount(rest[2..], inQuotes, cur + ['"'], acc);
        assert rest[1..][0] == '"' && rest[1..][1..] == rest[2..];
      } else {
        ScanFieldCount(rest[1..], !inQuotes, cur, acc);
      }
    } else if rest[0] == ',' && !inQuotes {
      ScanFieldCount(rest[1..], inQuotes, [], acc + [cur]);
    } else {
      ScanFieldCount(rest[1..], inQuotes, cur + [rest[0]], acc);
    }
  }

  /** `parseCsvLine`: the fields of one line. There is always one more field
      than there are commas outside quotes, so the result is never empty. */
  function ParseLine(line: string): (fields: seq<string>)
    ensures |fields| == 1 + SeparatorCount(line)
    ensures |fields| >= 1
  {
    ScanFieldCount(line, false, [], []);
    Scan(line, false, [], [])
  }

  /** The fields laid end to end. */
  function Concat(fields: seq<string>): string
    decreases |fields|
  {
    if fields == [] then [] else Concat(fields[..|fields| - 1]) + fields[|fields| - 1]
  }

  lemma QuoteCountAppend(a: string, b: string)
    ensures QuoteCount(a + b) == QuoteCount(a) + QuoteCount(b)
    decreases |a|
  {
    if a == [] {
      assert a + b == b;
    } else {
      assert (a + b)[0] == a[0];
      assert (a + b)[1..] == a[1..] + b;
      QuoteCountAppend(a[1..], b);
    }
  }

  lemma {:induction false} ScanQuoteBound(rest: string, inQuotes: bool, cur: string, acc: seq<string>)
    ensures 2 * QuoteCount(Concat(Scan(rest, inQuotes, cur, acc)))
            <= 2 * QuoteCount(Concat(acc) + cur) + QuoteCount(rest)
    decreases |rest|
  {
    if rest == [] {
      assert (acc + [cur])[..|acc|] == acc;
    } else if rest[0] == '"' {
      if inQuotes && |rest| > 1 && rest[1] == '"' {
        ScanQuoteBound(rest[2..], inQuotes, cur + ['"'], acc);
        assert rest == ['"', '"'] + rest[2..];
        QuoteCountAppend(['"', '"'], rest[2..]);
        assert Concat(acc) + (cur + ['"']) == (Concat(acc) + cur) + ['"'];
        QuoteCountAppend(Concat(acc) + cur, ['"']);
      } else {
        ScanQuoteBound(rest[1..], !inQuotes, cur, acc);
      }
    } else if rest[0] == ',' && !inQuotes {
      ScanQuoteBound(rest[1..], inQuotes, [], acc + [cur]);
      assert (acc + [cur])[..|acc|] == acc;
      assert Concat(acc + [cur]) + [] == Concat(acc) + cur;
    } else {
      ScanQuoteBound(rest[1..], inQuotes, cur + [rest[0]], acc);
      assert Concat(acc) + (cur + [rest[0]]) == (Concat(acc) + cur) + [rest[0]];
      QuoteCountAppend(Concat(acc) + cur, [rest[0]]);
    }
  }

  /** A quote character is never copied to a field on its own: every quote in
      the output stands for two adjacent quotes of the line, so the output
      holds at most half as many quotes as the line. */
  lemma ParseLineQuoteBound(line: string)
    ensures 2 * QuoteCount(Concat(ParseLine(line))) <= QuoteCount(line)
  {
    ScanQuoteBound(line, false, [], []);
  }

  /** `s` never has two quote characters side by side. */
  predicate NoAdjacentQuotes(s: string) {
    forall i :: 0 <= i < |s| - 1 ==> !(s[i] == '"' && s[i + 1] == '"')
  }

  lemma {:induction false} ScanNoQuotes(rest: string, inQuotes: bool, cur: string, acc: seq<string>)
    requires NoAdjacentQuotes(rest)
    requires '"' !in cur
    requires forall k :: 0 <= k < |acc| ==> '"' !in acc[k]
    ensures forall k :: 0 <= k < |Scan(rest, inQuotes, cur, acc)| ==> '"' !in Scan(rest, inQuotes, cur, acc)[k]
    decreases |rest|
  {
    if rest == [] {
    } else if rest[0] == '"' {
      assert !(|rest| > 1 && rest[1] == '"');
      ScanNoQuotes(rest[1..], !inQuotes, cur, acc);
    } else if rest[0] == ',' && !inQuotes {
      ScanNoQuotes(rest[1..], inQuotes, [], acc + [cur]);
    } else {
      ScanNoQuotes(rest[1..], inQuotes, cur + [rest[0]], acc);
    }
  }

  /** Without a doubled quote in the line, no field contains a quote at all:
      quotes only open and close quoted spans. */
  lemma ParseLineDropsLoneQuotes(line: string)
    requires NoAdjacentQuotes(line)
    ensures forall k :: 0 <= k < |ParseLine(line)| ==> '"' !in ParseLine(line)[k]
  {
    ScanNoQuotes(line, false, [], []);
  }

  /** The fields joined with `,` between them. */
  function Join(fields: seq<string>): string
    decreases |fields|
  {
    if |fields| == 0 then []
    else if |fields| == 1 then fields[0]
    else fields[0] + [','] + Join(fields[1..])
  }

  lemma {:induction false} JoinSnoc(fields: seq<string>, x: string)
    requires |fields| >= 1
    ensures Join(fields + [x]) == Join(fields) + [','] + x
    decreases |fields|
  {
    if |fields| == 1 {
      assert fields + [x] == [fields[0], x];
      assert [fields[0], x][1..] == [x];
    } else {
      assert (fields + [x])[1..] == fields[1..] + [x];
      JoinSnoc(fields[1..], x);
    }
  }

  lemma {:induction false} ScanPlain(rest: string, cur: string, acc: seq<string>)
    requires '"' !in rest && ',' !in cur
    requires forall k :: 0 <= k < |acc| ==> ',' !in acc[k]
    ensures var out := Scan(rest, false, cur, acc);
      && (forall k :: 0 <= k < |out| ==> ',' !in out[k])
      && Join(out) == Join(acc + [cur]) + rest
    decreases |rest|
  {
    if rest == [] {
    } else if rest[0] == ',' {
      ScanPlain(rest[1..], [], acc + [cur]);
      if |acc + [cur]| >= 1 {
        JoinSnoc(acc + [cur], []);
      }
    } else {
      ScanPlain(rest[1..], cur + [rest[0]], acc);
      if acc == [] {
        assert acc + [cur + [rest[0]]] == [cur + [rest[0]]];
        assert acc + [cur] == [cur];
      } else {
        JoinSnoc(acc, cur + [rest[0]]);
        JoinSnoc(acc, cur);
      }
    }
  }

  /** For a line without quotes the fields are exactly the pieces between
      commas: none of them contains a comma, and joining them with `,`
      reproduces the line. */
  lemma ParseLinePlain(line: string)
    requires '"' !in line
    ensures forall k :: 0 <= k < |ParseLine(line)| ==> ',' !in ParseLine(line)[k]
    ensures Join(ParseLine(line)) == line
  {
    ScanPlain(line, [], []);
  }

  // ---------------------------------------------------------------------
  // Quoting: the encoder whose output the tokenizer inverts
  // ---------------------------------------------------------------------

  /** Doubles every quote character of `s`. */
  function Escape(s: string): string
    decreases |s|
  {
    if s == [] then []
    else if s[0] == '"' then ['"', '"'] + Escape(s[1..])
    else [s[0]] + Escape(s[1..])
  }

  /** One field written as a quoted span. */
  function EncodeField(s: string): string {
    ['"'] + Escape(s) + ['"']
  }

  /** Every field written as a quoted span, the spans separated by commas. */
  function EncodeLine(fields: seq<string>): string
    decreases |fields|
  {
    if |fields| == 0 then []
    else if |fields| == 1 then EncodeField(fields[0])
    else EncodeField(fields[0]) + [','] + EncodeLine(fields[1..])
  }

  lemma {:induction false} ScanEscaped(s: string, rest: string, cur: string, acc: seq<string>)
    requires rest == [] || rest[0] == ','
    ensures Scan(Escape(s) + ['"'] + rest, true, cur, acc) == Scan(rest, false, cur + s, acc)
    decreases |s|, 1
  {
    if s == [] {
      assert Escape(s) + ['"'] + rest == ['"'] + rest;
      assert (['"'] + rest)[1..] == rest;
      assert cur + s == cur;
    } else if s[0] == '"' {
      ScanEscapedQuote(s, rest, cur, acc);
    } else {
      ScanEscapedPlain(s, rest, cur, acc);
    }
  }

  /** A doubled quote inside the span is read as one literal quote. */
  lemma {:induction false} ScanEscapedQuote(s: string, rest: string, cur: string, acc: seq<string>)
    requires rest == [] || rest[0] == ','
    requires s != [] && s[0] == '"'
    ensures Scan(Escape(s) + ['"'] + rest, true, cur, acc) == Scan(rest, false, cur + s, acc)
    decreases |s|, 0
  {
    var line := Escape(s) + ['"'] + rest;
    assert line == ['"', '"'] + (Escape(s[1..]) + ['"'] + rest);
    assert line[2..] == Escape(s[1..]) + ['"'] + rest;
    ScanEscaped(s[1..], rest, cur + ['"'], acc);
    assert cur + ['"'] + s[1..] == cur + s;
  }

  /** Any other character inside the span is copied. */
  lemma {:induction false} ScanEscapedPlain(s: string, rest: string, cur: string, acc: seq<string>)
    requires rest == [] || rest[0] == ','
    requires s != [] && s[0] != '"'
    ensures Scan(Escape(s) + ['"'] + rest, true, cur, acc) == Scan(rest, false, cur + s, acc)
    decreases |s|, 0
  {
    var line := Escape(s) + ['"'] + rest;
    assert line == [s[0]] + (Escape(s[1..]) + ['"'] + rest);
    assert line[1..] == Escape(s[1..]) + ['"'] + rest;
    ScanEscaped(s[1..], rest, cur + [s[0]], acc);
    assert cur + [s[0]] + s[1..] == cur + s;
  }

  lemma {:induction false} ScanEncoded(fields: seq<string>, acc: seq<string>)
    requires |fields| >= 1
    ensures Scan(EncodeLine(fields), false, [], acc) == acc + fields
    decreases |fields|
  {
    var f := fields[0];
    if |fields| == 1 {
      var line := EncodeField(f);
      assert line[1..] == Escape(f) + ['"'] + [];
      ScanEscaped(f, [], [], acc);
      assert [] + f == f;
      assert acc + [f] == acc + fields;
    } else {
      var tail := EncodeLine(fields[1..]);
      var line := EncodeLine(fields);
      assert line == ['"'] + (Escape(f) + ['"'] + ([','] + tail));
      assert line[1..] == Escape(f) + ['"'] + ([','] + tail);
      ScanEscaped(f, [','] + tail, [], acc);
      assert ([','] + tail)[1..] == tail;
      assert [] + f == f;
      ScanEncoded(fields[1..], acc + [f]);
      assert acc + [f] + fields[1..] == acc + fields;
    }
  }

  /** Round trip: a line written by quoting every field (doubling the quotes
      inside) parses back to exactly those fields, embedded commas and quotes
      included. */
  lemma ParseEncodedLine(fields: seq<string>)
    requires |fields| >= 1
    ensures ParseLine(EncodeLine(fields)) == fields
  {
    ScanEncoded(fields, []);
  }

  lemma {:induction false} EscapeWithoutQuotes(s: string)
    requires '"' !in s
    ensures Escape(s) == s
    decreases |s|
  {
    if s != [] {
      EscapeWithoutQuotes(s[1..]);
    }
  }

  /** A quoted field with an embedded comma, `"Food, Groceries"`, is one value. */
  lemma QuotedCommaIsOneField()
    ensures ParseLine(['"'] + "Food, Groceries" + ['"']) == ["Food, Groceries"]
  {
    var s := "Food, Groceries";
    EscapeWithoutQuotes(s);
    assert EncodeLine([s]) == ['"'] + s + ['"'];
    ParseEncodedLine([s]);
  }

  // ---------------------------------------------------------------------
  // Rows
  // ---------------------------------------------------------------------

  /** The set of header names. */
  function HeaderSet(headers: seq<string>): set<string> {
    set k | 0 <= k < |headers| :: headers[k]
  }

  /** Index `i` holds the last occurrence of its header name. */
  predicate LastOccurrence(headers: seq<string>, i: nat)
    requires i < |headers|
  {
    forall j :: i < j < |headers| ==> headers[j] != headers[i]
  }

  /** `cols.getOrNull(i) ?: ""`: the `i`-th cell, or the empty string past
      the last parsed cell. */
  function CellAt(cols: seq<string>, i: nat): string {
    if i < |cols| then cols[i] else ""
  }

  /** The row map built by assigning, for each header index `i` in turn, the
      `i`-th cell to the `i`-th header name; a repeated header keeps the cell
      of its last occurrence. */
  function BuildRow(headers: seq<string>, cols: seq<string>): (row: Row)
    ensures row.Keys == HeaderSet(headers)
    decreases |headers|
  {
    if |headers| == 0 then map[]
    else
      var n := |headers| - 1;
      var prefix := headers[..n];
      assert HeaderSet(headers) == HeaderSet(prefix) + {headers[n]} by {
        assert forall k :: 0 <= k < n ==> prefix[k] == headers[k];
      }
      BuildRow(prefix, cols)[headers[n] := CellAt(cols, n)]
  }

  /** Each header name holds the cell under its last occurrence. */
  lemma BuildRowCells(headers: seq<string>, cols: seq<string>)
    ensures forall i :: 0 <= i < |headers| && LastOccurrence(headers, i) ==>
              BuildRow(headers, cols)[headers[i]] == CellAt(cols, i)
  {
    forall i | 0 <= i < |headers| && LastOccurrence(headers, i)
      ensures BuildRow(headers, cols)[headers[i]] == CellAt(cols, i)
    {
      BuildRowCellAt(headers, cols, i);
    }
  }

  lemma {:induction false} BuildRowCellAt(headers: seq<string>, cols: seq<string>, i: nat)
    requires i < |headers| && LastOccurrence(headers, i)
    ensures BuildRow(headers, cols)[headers[i]] == CellAt(cols, i)
    decreases |headers|
  {
    var n := |headers| - 1;
    if i < n {
      var prefix := headers[..n];
      assert prefix[i] == headers[i];
      assert LastOccurrence(prefix, i);
      BuildRowCellAt(prefix, cols, i);
      assert BuildRow(headers, cols) == BuildRow(prefix, cols)[headers[n] := CellAt(cols, n)];
      assert headers[i] != headers[n];
    }
  }

  /** Only the first `|headers|` cells matter: later columns are ignored. */
  lemma {:induction false} BuildRowIgnoresExtraColumns(headers: seq<string>, cols: seq<string>, extra: seq<string>)
    requires |cols| >= |headers|
    ensures BuildRow(headers, cols + extra) == BuildRow(headers, cols)
    decreases |headers|
  {
    if |headers| > 0 {
      var n := |headers| - 1;
      BuildRowIgnoresExtraColumns(headers[..n], cols, extra);
      assert CellAt(cols + extra, n) == CellAt(cols, n);
    }
  }

  /** The body lines that are not blank, in order. */
  function NonBlankLines(body: seq<string>): (r: seq<string>)
    ensures |r| <= |body|
    ensures forall k :: 0 <= k < |r| ==> !IsBlank(r[k])
    decreases |body|
  {
    if body == [] then []
    else
      var n := |body| - 1;
      NonBlankLines(body[..n]) + (if IsBlank(body[n]) then [] else [body[n]])
  }

  /** Exactly the non-blank lines are kept. */
  lemma {:induction false} NonBlankLinesMembers(body: seq<string>)
    ensures forall l :: l in NonBlankLines(body) <==> l in body && !IsBlank(l)
    decreases |body|
  {
    if body != [] {
      var n := |body| - 1;
      NonBlankLinesMembers(body[..n]);
      assert body == body[..n] + [body[n]];
    }
  }

  /** Dropping blank lines works line by line, so it keeps the order of the
      lines it keeps. */
  lemma {:induction false} NonBlankLinesConcat(a: seq<string>, b: seq<string>)
    ensures NonBlankLines(a + b) == NonBlankLines(a) + NonBlankLines(b)
    decreases |b|
  {
    if b == [] {
      assert a + b == a;
    } else {
      var n := |b| - 1;
      assert (a + b)[..|a| + n] == a + b[..n];
      assert (a + b)[|a| + n] == b[n];
      NonBlankLinesConcat(a, b[..n]);
      var tail := if IsBlank(b[n]) then [] else [b[n]];
      assert NonBlankLines(a + b) == NonBlankLines(a + b[..n]) + tail;
      assert NonBlankLines(b) == NonBlankLines(b[..n]) + tail;
      assert NonBlankLines(a) + NonBlankLines(b[..n]) + tail
          == NonBlankLines(a) + (NonBlankLines(b[..n]) + tail);
    }
  }

  /** Lines none of which is blank are all kept, unchanged. */
  lemma {:induction false} NonBlankLinesKeepsAll(body: seq<string>)
    requires forall k :: 0 <= k < |body| ==> !IsBlank(body[k])
    ensures NonBlankLines(body) == body
    decreases |body|
  {
    if body != [] {
      var n := |body| - 1;
      NonBlankLinesKeepsAll(body[..n]);
      assert body == body[..n] + [body[n]];
    }
  }

  /** The rows for the body lines, blank lines skipped. */
  function DataRows(headers: seq<string>, body: seq<string>): seq<Row>
    decreases |body|
  {
    if body == [] then []
    else
      var n := |body| - 1;
      DataRows(headers, body[..n])
        + (if IsBlank(body[n]) then [] else [BuildRow(headers, ParseLine(body[n]))])
  }

  /** One row per non-blank body line, in order, built from that line. */
  lemma {:induction false} DataRowsPerLine(headers: seq<string>, body: seq<string>)
    ensures |DataRows(headers, body)| == |NonBlankLines(body)|
    ensures forall k :: 0 <= k < |DataRows(headers, body)| ==>
              DataRows(headers, body)[k] == BuildRow(headers, ParseLine(NonBlankLines(body)[k]))
    decreases |body|
  {
    if body != [] {
      var n := |body| - 1;
      DataRowsPerLine(headers, body[..n]);
    }
  }

  /** `readCsv` once the stream is read: the first line names the columns and
      every later non-blank line becomes one row keyed by those names. */
  function ReadCsv(lines: seq<string>): (rows: seq<Row>)
    ensures |lines| <= 1 ==> rows == []
    ensures |lines| >= 1 ==> |rows| == |NonBlankLines(lines[1..])|
    ensures |lines| >= 1 ==> forall k :: 0 <= k < |rows| ==>
              rows[k] == BuildRow(ParseLine(lines[0]), ParseLine(NonBlankLines(lines[1..])[k]))
    ensures |lines| >= 1 ==> forall k :: 0 <= k < |rows| ==>
              rows[k].Keys == HeaderSet(ParseLine(lines[0]))
  {
    if |lines| == 0 then []
    else
      var headers := ParseLine(lines[0]);
      DataRowsPerLine(headers, lines[1..]);
      DataRows(headers, lines[1..])
  }

  /** A further line adds one row built from it under the header line, or
      nothing when it is blank. */
  lemma ReadCsvAppend(lines: seq<string>, line: string)
    requires |lines| >= 1
    ensures ReadCsv(lines + [line])
            == ReadCsv(lines) + (if IsBlank(line) then [] else [BuildRow(ParseLine(lines[0]), ParseLine(line))])
  {
    var body := lines[1..];
    assert (lines + [line])[0] == lines[0];
    assert (lines + [line])[1..] == body + [line];
    assert (body + [line])[..|body|] == body;
  }

  // ---------------------------------------------------------------------
  // The month-detail screen's copies
  // ---------------------------------------------------------------------

  /** `parseCsvLineForDetails`, the imperative copy of the tokenizer: it
      computes the same fields as `ParseLine`. */
  method ParseLineForDetails(line: string) returns (fields: seq<string>)
    ensures fields == ParseLine(line)
  {
    var result: seq<string> := [];
    var sb: string := [];
    var inQuotes := false;
    var i := 0;
    while i < |line|
      invariant 0 <= i <= |line|
      invariant Scan(line[i..], inQuotes, sb, result) == Scan(line, false, [], [])
      decreases |line| - i
    {
      var c := line[i];
      if c == '"' {
        if inQuotes && i + 1 < |line| && line[i + 1] == '"' {
          assert line[i..][2..] == line[i + 2..];
          sb := sb + ['"'];
          i := i + 1;
        } else {
          assert line[i..][1..] == line[i + 1..];
          inQuotes := !inQuotes;
        }
      } else if c == ',' && !inQuotes {
        assert line[i..][1..] == line[i + 1..];
        result := result + [sb];
        sb := [];
      } else {
        assert line[i..][1..] == line[i + 1..];
        sb := sb + [c];
      }
      i := i + 1;
    }
    fields := result + [sb];
  }

  /** The header loop of `readCsvForDetails`: it builds the same map as
      `BuildRow`. */
  method BuildRowForDetails(headers: seq<string>, cols: seq<string>) returns (m: Row)
    ensures m == BuildRow(headers, cols)
  {
    m := map[];
    var i := 0;
    while i < |headers|
      invariant 0 <= i <= |headers|
      invariant m == BuildRow(headers[..i], cols)
      decreases |headers| - i
    {
      assert headers[..i + 1][..i] == headers[..i];
      m := m[headers[i] := CellAt(cols, i)];
      i := i + 1;
    }
    assert headers[..i] == headers;
  }

  /** The body loop of `readCsvForDetails`: it builds the same rows as
      `DataRows`. */
  method DataRowsForDetails(headers: seq<string>, body: seq<string>) returns (rows: seq<Row>)
    ensures rows == DataRows(headers, body)
  {
    rows := [];
    var k := 0;
    assert body[..k] == [];
    while k < |body|
      invariant 0 <= k <= |body|
      invariant rows == DataRows(headers, body[..k])
      decreases |body| - k
    {
      var line := body[k];
      assert body[..k + 1][..k] == body[..k];
      assert body[..k + 1][k] == line;
      if !IsBlank(line) {
        var cols := ParseLineForDetails(line);
        var m := BuildRowForDetails(headers, cols);
        rows := rows + [m];
      }
      k := k + 1;
    }
    assert body[..k] == body;
  }

  /** `readCsvForDetails`, the imperative copy of the reader: it computes the
      same rows as `ReadCsv`. Its `headers.isEmpty()` test is left out, since
      `ParseLine` never returns an empty list. */
  method ReadCsvForDetails(lines: seq<string>) returns (rows: seq<Row>)
    ensures rows == ReadCsv(lines)
  {
    if |lines| == 0 {
      return [];
    }
    var headers := ParseLineForDetails(lines[0]);
    rows := DataRowsForDetails(headers, lines[1..]);
  }
}
