/**
 * The quote-aware CSV reader of the dashboard (`parseCSV`, app.js:226-282).
 *
 * The source reads in two passes: it cuts the text into lines at every
 * newline outside quotes, then cuts each line into fields at every comma
 * outside quotes; a doubled quote inside quotes stands for one literal quote
 * (section 2 of RFC 4180). Every non-blank line after the first becomes a
 * record keyed by the trimmed header names.
 *
 * As written, the first pass already consumes the quote characters, so the
 * second pass never sees them: a quoted comma still splits a field, and a
 * doubled quote comes out as a lone quote which the second pass then
 * swallows. `ParseCsvAsWritten` models the code as it stands and the lemmas
 * `AsWrittenSplitsQuotedComma` and `AsWrittenDropsEscapedQuote` exhibit the
 * difference; `ParseCsv` is the corrected reader, whose first pass keeps the
 * quotes and whose header line is split like any other line, and
 * `ParseRoundTrip` proves that it reads back any RFC 4180 encoding.
 */
module Csv {
  import opened Wrappers
  import opened JsString

  /** A parsed row: trimmed header name to trimmed cell. */
  type Record = map<string, string>

  /**
   * One quote-aware pass over `s`: pieces end at `sep` outside quotes, quote
   * characters are consumed, and `""` inside quotes yields one `"`. `current`
   * is the piece being built. The field loop of app.js:258-274 is
   * `Scan(line, ',', "", false)`; the line loop of app.js:231-246 is the same
   * scan with `sep == '\n'`.
   */
  function Scan(s: string, sep: char, current: string, inQuotes: bool): (pieces: seq<string>)
    ensures |pieces| >= 1
    decreases |s|
  {
    if s == [] then [current]
    else if s[0] == '"' then
      if inQuotes && |s| > 1 && s[1] == '"' then Scan(s[2..], sep, current + ['"'], inQuotes)
      else Scan(s[1..], sep, current, !inQuotes)
    else if s[0] == sep && !inQuotes then [current] + Scan(s[1..], sep, [], inQuotes)
    else Scan(s[1..], sep, current + [s[0]], inQuotes)
  }

  /**
   * The corrected first pass: it tracks quotes only to decide where lines
   * end and keeps every character, quotes included, for the field pass.
   */
  function ScanKeepingQuotes(s: string, sep: char, current: string, inQuotes: bool): (pieces: seq<string>)
    ensures |pieces| >= 1
    decreases |s|
  {
    if s == [] then [current]
    else if s[0] == '"' then ScanKeepingQuotes(s[1..], sep, current + ['"'], !inQuotes)
    else if s[0] == sep && !inQuotes then [current] + ScanKeepingQuotes(s[1..], sep, [], inQuotes)
    else ScanKeepingQuotes(s[1..], sep, current + [s[0]], inQuotes)
  }

  /** `s.split(sep)` with a one-character separator, `current` prefixed to the first piece. */
  function PlainSplit(s: string, sep: char, current: string): (pieces: seq<string>)
    ensures |pieces| >= 1
  {
    if s == [] then [current]
    else if s[0] == sep then [current] + PlainSplit(s[1..], sep, [])
    else PlainSplit(s[1..], sep, current + [s[0]])
  }

  /** The last piece is kept only when it is not empty (`if (current) lines.push(current)`). */
  function DropEmptyLast(pieces: seq<string>): seq<string>
    requires |pieces| >= 1
  {
    if pieces[|pieces| - 1] == [] then pieces[..|pieces| - 1] else pieces
  }

  /** The lines of the first pass as written (app.js:227-249). */
  function LinesAsWritten(text: string): seq<string> {
    DropEmptyLast(Scan(text, '\n', [], false))
  }

  /** The lines of the corrected first pass. */
  function Lines(text: string): seq<string> {
    DropEmptyLast(ScanKeepingQuotes(text, '\n', [], false))
  }

  /** The cells of one line (app.js:255-274). */
  function Fields(line: string): seq<string> {
    Scan(line, ',', [], false)
  }

  /** `!line.trim()`. */
  predicate IsBlank(line: string) {
    Trim(line) == []
  }

  /** `values[idx] ?? ''`. */
  function FieldAt(values: seq<string>, idx: nat): string {
    if idx < |values| then values[idx] else []
  }

  /** The record of app.js:275-278: headers in order, a later equal header overwriting an earlier one. */
  function MakeRecord(headers: seq<string>, values: seq<string>): Record
    decreases |headers|
  {
    if headers == [] then map[]
    else MakeRecord(headers[..|headers| - 1], values)[Trim(headers[|headers| - 1]) := Trim(FieldAt(values, |headers| - 1))]
  }

  /** One record per non-blank line, in order (app.js:252-280). */
  function RecordsOf(headers: seq<string>, lines: seq<string>): seq<Record>
    decreases |lines|
  {
    if lines == [] then []
    else
      var last := lines[|lines| - 1];
      RecordsOf(headers, lines[..|lines| - 1]) + (if IsBlank(last) then [] else [MakeRecord(headers, Fields(last))])
  }

  /** What `parseCSV` returns as written; `None` when there is no line at all, where `lines[0].split` throws. */
  function ParseAsWritten(text: string): Option<seq<Record>> {
    var lines := LinesAsWritten(text);
    if lines == [] then None else Some(RecordsOf(PlainSplit(lines[0], ',', []), lines[1..]))
  }

  /** What the corrected reader returns. */
  function Parse(text: string): Option<seq<Record>> {
    var lines := Lines(text);
    if lines == [] then None else Some(RecordsOf(Fields(lines[0]), lines[1..]))
  }

  // ---------------------------------------------------------------------------
  // The imperative reader

  /** The first pass of app.js:227-249. */
  method SplitLinesAsWritten(text: string) returns (lines: seq<string>)
    ensures lines == LinesAsWritten(text)
  {
    var current := "";
    var inQuotes := false;
    lines := [];
    var i := 0;
    while i < |text|
      invariant 0 <= i <= |text|
      invariant lines + Scan(text[i..], '\n', current, inQuotes) == Scan(text, '\n', [], false)
      decreases |text| - i
    {
      var c := text[i];
      if c == '"' {
        if inQuotes && i + 1 < |text| && text[i + 1] == '"' {
          current := current + ['"'];
          i := i + 1;
        } else {
          inQuotes := !inQuotes;
        }
      } else if c == '\n' && !inQuotes {
        lines := lines + [current];
        current := "";
      } else {
        current := current + [c];
      }
      i := i + 1;
    }
    if current != [] {
      lines := lines + [current];
    }
  }

  /** The corrected first pass: quotes are kept for the field pass. */
  method SplitLines(text: string) returns (lines: seq<string>)
    ensures lines == Lines(text)
  {
    var current := "";
    var inQuotes := false;
    lines := [];
    var i := 0;
    while i < |text|
      invariant 0 <= i <= |text|
      invariant lines + ScanKeepingQuotes(text[i..], '\n', current, inQuotes) == ScanKeepingQuotes(text, '\n', [], false)
      decreases |text| - i
    {
      var c := text[i];
      if c == '"' {
        current := current + ['"'];
        inQuotes := !inQuotes;
      } else if c == '\n' && !inQuotes {
        lines := lines + [current];
        current := "";
      } else {
        current := current + [c];
      }
      i := i + 1;
    }
    if current != [] {
      lines := lines + [current];
    }
  }

  /** The field pass over one line (app.js:255-274). */
  method SplitFields(line: string) returns (values: seq<string>)
    ensures values == Fields(line)
  {
    values := [];
    var value := "";
    var quote := false;
    var j := 0;
    while j < |line|
      invariant 0 <= j <= |line|
      invariant values + Scan(line[j..], ',', value, quote) == Fields(line)
      decreases |line| - j
    {
      var c := line[j];
      if c == '"' {
        if quote && j + 1 < |line| && line[j + 1] == '"' {
          value := value + ['"'];
          j := j + 1;
        } else {
          quote := !quote;
        }
      } else if c == ',' && !quote {
        values := values + [value];
        value := "";
      } else {
        value := value + [c];
      }
      j := j + 1;
    }
    values := values + [value];
  }

  /** The `headers.forEach` of app.js:275-278. */
  method BuildRecord(headers: seq<string>, values: seq<string>) returns (record: Record)
    ensures record == MakeRecord(headers, values)
  {
    record := map[];
    var idx := 0;
    while idx < |headers|
      invariant 0 <= idx <= |headers|
      invariant record == MakeRecord(headers[..idx], values)
    {
      assert headers[..idx + 1][..idx] == headers[..idx];
      record := record[Trim(headers[idx]) := Trim(FieldAt(values, idx))];
      idx := idx + 1;
    }
    assert headers[..idx] == headers;
  }

  /** The row loop of app.js:252-280 over the lines after the header. */
  method BuildRecords(headers: seq<string>, lines: seq<string>) returns (rows: seq<Record>)
    requires |lines| >= 1
    ensures rows == RecordsOf(headers, lines[1..])
  {
    rows := [];
    var i := 1;
    while i < |lines|
      invariant 1 <= i <= |lines|
      invariant rows == RecordsOf(headers, lines[1..i])
    {
      assert lines[1..i + 1][..i - 1] == lines[1..i];
      var line := lines[i];
      if Trim(line) != [] {
        var values := SplitFields(line);
        var record := BuildRecord(headers, values);
        rows := rows + [record];
      }
      i := i + 1;
    }
    assert lines[1..i] == lines[1..];
  }

  /** `parseCSV` as written (app.js:226-282); `None` where the source throws on `lines[0]`. */
  method ParseCsvAsWritten(text: string) returns (result: Option<seq<Record>>)
    ensures result == ParseAsWritten(text)
  {
    var lines := SplitLinesAsWritten(text);
    if lines == [] {
      return None;
    }
    var headers := PlainSplit(lines[0], ',', []);
    var rows := BuildRecords(headers, lines);
    return Some(rows);
  }

  /** The corrected `parseCSV`: the same loops, with quotes kept by the first pass. */
  method ParseCsv(text: string) returns (result: Option<seq<Record>>)
    ensures result == Parse(text)
  {
    var lines := SplitLines(text);
    if lines == [] {
      return None;
    }
    var headers := SplitFields(lines[0]);
    var rows := BuildRecords(headers, lines);
    return Some(rows);
  }

  // ---------------------------------------------------------------------------
  // Quoting

  /** Inside quotes, a run without quote characters is never cut: neither a comma nor a newline splits it. */
  lemma {:induction false} QuotedRunNotSplit(s: string, sep: char, current: string)
    requires '"' !in s
    ensures Scan(s, sep, current, true) == [current + s]
  {
    if s != [] {
      assert s[1..] == s[1..] && '"' !in s[1..];
      QuotedRunNotSplit(s[1..], sep, current + [s[0]]);
      assert current + [s[0]] + s[1..] == current + s;
    } else {
      assert current + s == current;
    }
  }

  /** Outside quotes, every separator ends a piece: without quotes the scan is a plain split. */
  lemma {:induction false} UnquotedSplitsAtEverySeparator(s: string, sep: char, current: string)
    requires '"' !in s
    ensures Scan(s, sep, current, false) == PlainSplit(s, sep, current)
  {
    if s != [] {
      assert '"' !in s[1..];
      if s[0] == sep {
        UnquotedSplitsAtEverySeparator(s[1..], sep, []);
      } else {
        UnquotedSplitsAtEverySeparator(s[1..], sep, current + [s[0]]);
      }
    }
  }

  /** The RFC 4180 escape of a field's content: every quote doubled. */
  function Escape(f: string): (r: string)
    ensures |r| >= |f|
  {
    if f == [] then [] else (if f[0] == '"' then "\"\"" else [f[0]]) + Escape(f[1..])
  }

  /** A field in quotes. */
  function QuoteField(f: string): string {
    "\"" + Escape(f) + "\""
  }

  /** Fields in quotes joined by commas. */
  function EncodeLine(fields: seq<string>): string
    requires |fields| >= 1
  {
    if |fields| == 1 then QuoteField(fields[0]) else QuoteField(fields[0]) + "," + EncodeLine(fields[1..])
  }

  /** Encoded lines joined by newlines. */
  function EncodeTable(table: seq<seq<string>>): string
    requires |table| >= 1 && forall k :: 0 <= k < |table| ==> |table[k]| >= 1
  {
    if |table| == 1 then EncodeLine(table[0]) else EncodeLine(table[0]) + "\n" + EncodeTable(table[1..])
  }

  /**
   * Inside quotes, the escaped content of a field followed by the closing quote
   * yields the field itself: each `""` gives one `"`, and a separator inside
   * does not split.
   */
  lemma {:induction false} QuotedFieldUnescapes(f: string, rest: string, sep: char, current: string)
    requires sep != '"'
    requires rest == [] || rest[0] != '"'
    ensures Scan(Escape(f) + "\"" + rest, sep, current, true) == Scan(rest, sep, current + f, false)
  {
    var s := Escape(f) + "\"" + rest;
    if f == [] {
      assert s == "\"" + rest;
      assert s[1..] == rest;
      assert current + f == current;
    } else if f[0] == '"' {
      assert s == "\"\"" + (Escape(f[1..]) + "\"" + rest);
      assert s[2..] == Escape(f[1..]) + "\"" + rest;
      QuotedFieldUnescapes(f[1..], rest, sep, current + ['"']);
      assert current + ['"'] + f[1..] == current + f;
    } else {
      assert s == [f[0]] + (Escape(f[1..]) + "\"" + rest);
      assert s[1..] == Escape(f[1..]) + "\"" + rest;
      QuotedFieldUnescapes(f[1..], rest, sep, current + [f[0]]);
      assert current + [f[0]] + f[1..] == current + f;
    }
  }

  /** The field pass reads back every encoded line. */
  lemma {:induction false} FieldsRoundTrip(fields: seq<string>)
    requires |fields| >= 1
    ensures Fields(EncodeLine(fields)) == fields
  {
    FieldsRoundTripFrom(fields);
  }

  lemma {:induction false} FieldsRoundTripFrom(fields: seq<string>)
    requires |fields| >= 1
    ensures Scan(EncodeLine(fields), ',', [], false) == fields
  {
    var f := fields[0];
    if |fields| == 1 {
      var s := EncodeLine(fields);
      assert s == "\"" + (Escape(f) + "\"" + []);
      assert s[1..] == Escape(f) + "\"" + [];
      QuotedFieldUnescapes(f, [], ',', []);
      assert Scan(s, ',', [], false) == Scan(s[1..], ',', [], true);
      assert [] + f == f;
    } else {
      var rest := "," + EncodeLine(fields[1..]);
      var s := EncodeLine(fields);
      assert s == "\"" + (Escape(f) + "\"" + rest);
      assert s[1..] == Escape(f) + "\"" + rest;
      QuotedFieldUnescapes(f, rest, ',', []);
      assert Scan(s, ',', [], false) == Scan(s[1..], ',', [], true);
      assert [] + f == f;
      assert rest[1..] == EncodeLine(fields[1..]);
      assert Scan(rest, ',', f, false) == [f] + Scan(rest[1..], ',', [], false);
      FieldsRoundTripFrom(fields[1..]);
      assert [f] + fields[1..] == fields;
    }
  }

  /** The corrected first pass carries escaped content through unchanged, newlines included. */
  lemma {:induction false} KeepingQuotesPassesEscape(f: string, rest: string, current: string)
    ensures ScanKeepingQuotes(Escape(f) + rest, '\n', current, true)
         == ScanKeepingQuotes(rest, '\n', current + Escape(f), true)
  {
    var s := Escape(f) + rest;
    if f != [] {
      var e := Escape(f[1..]);
      if f[0] == '"' {
        assert s == "\"\"" + (e + rest);
        assert s[1..] == "\"" + (e + rest) && s[1..][1..] == e + rest;
        KeepingQuotesPassesEscape(f[1..], rest, current + "\"\"");
        assert current + ['"'] + ['"'] == current + "\"\"";
        assert current + "\"\"" + e == current + Escape(f);
      } else {
        assert s == [f[0]] + (e + rest);
        assert s[1..] == e + rest;
        KeepingQuotesPassesEscape(f[1..], rest, current + [f[0]]);
        assert current + [f[0]] + e == current + Escape(f);
      }
    } else {
      assert s == rest;
      assert current + Escape(f) == current;
    }
  }

  /** The corrected first pass carries a quoted field through whole. */
  lemma KeepingQuotesPassesField(f: string, tail: string, current: string)
    ensures ScanKeepingQuotes(QuoteField(f) + tail, '\n', current, false)
         == ScanKeepingQuotes(tail, '\n', current + QuoteField(f), false)
  {
    var s := QuoteField(f) + tail;
    assert s == "\"" + (Escape(f) + ("\"" + tail));
    assert s[1..] == Escape(f) + ("\"" + tail);
    assert ScanKeepingQuotes(s, '\n', current, false) == ScanKeepingQuotes(s[1..], '\n', current + "\"", true);
    KeepingQuotesPassesEscape(f, "\"" + tail, current + "\"");
    var c1 := current + "\"" + Escape(f);
    assert ("\"" + tail)[1..] == tail;
    assert ScanKeepingQuotes("\"" + tail, '\n', c1, true) == ScanKeepingQuotes(tail, '\n', c1 + "\"", false);
    assert c1 + "\"" == current + QuoteField(f);
  }

  /** The corrected first pass carries an encoded line through whole. */
  lemma {:induction false} KeepingQuotesPassesLine(fields: seq<string>, rest: string, current: string)
    requires |fields| >= 1
    ensures ScanKeepingQuotes(EncodeLine(fields) + rest, '\n', current, false)
         == ScanKeepingQuotes(rest, '\n', current + EncodeLine(fields), false)
  {
    var q := QuoteField(fields[0]);
    if |fields| == 1 {
      KeepingQuotesPassesField(fields[0], rest, current);
    } else {
      var line := EncodeLine(fields[1..]);
      var tail := "," + (line + rest);
      assert EncodeLine(fields) + rest == q + tail;
      assert ScanKeepingQuotes(q + tail, '\n', current, false) == ScanKeepingQuotes(tail, '\n', current + q, false) by {
        KeepingQuotesPassesField(fields[0], tail, current);
      }
      assert ScanKeepingQuotes(tail, '\n', current + q, false) == ScanKeepingQuotes(line + rest, '\n', current + q + ",", false) by {
        assert tail[0] == ',' && tail[1..] == line + rest;
      }
      assert ScanKeepingQuotes(line + rest, '\n', current + q + ",", false) == ScanKeepingQuotes(rest, '\n', current + q + "," + line, false) by {
        KeepingQuotesPassesLine(fields[1..], rest, current + q + ",");
      }
      assert current + q + "," + line == current + EncodeLine(fields);
    }
  }

  /** The pieces of the corrected first pass over an encoded table are the encoded lines. */
  lemma {:induction false} KeepingQuotesTable(table: seq<seq<string>>)
    requires |table| >= 1 && forall k :: 0 <= k < |table| ==> |table[k]| >= 1
    ensures ScanKeepingQuotes(EncodeTable(table), '\n', [], false) == EncodedLines(table)
  {
    var line := EncodeLine(table[0]);
    if |table| == 1 {
      KeepingQuotesPassesLine(table[0], [], []);
      assert EncodeTable(table) == line + [];
      assert [] + line == line;
    } else {
      var rest := "\n" + EncodeTable(table[1..]);
      assert EncodeTable(table) == line + rest;
      KeepingQuotesPassesLine(table[0], rest, []);
      assert [] + line == line;
      assert rest[1..] == EncodeTable(table[1..]);
      KeepingQuotesTable(table[1..]);
      assert EncodedLines(table) == [line] + EncodedLines(table[1..]);
    }
  }

  function EncodedLines(table: seq<seq<string>>): (lines: seq<string>)
    requires forall k :: 0 <= k < |table| ==> |table[k]| >= 1
    ensures |lines| == |table|
    ensures forall k :: 0 <= k < |table| ==> lines[k] == EncodeLine(table[k])
  {
    if table == [] then [] else [EncodeLine(table[0])] + EncodedLines(table[1..])
  }

  /** Without blank lines, each line gives exactly one record, in order. */
  lemma {:induction false} RecordsOfNoBlank(headers: seq<string>, lines: seq<string>)
    requires forall k :: 0 <= k < |lines| ==> !IsBlank(lines[k])
    ensures |RecordsOf(headers, lines)| == |lines|
    ensures forall k :: 0 <= k < |lines| ==> RecordsOf(headers, lines)[k] == MakeRecord(headers, Fields(lines[k]))
  {
    if lines != [] {
      RecordsOfNoBlank(headers, lines[..|lines| - 1]);
    }
  }

  /** The corrected first pass over an encoded table yields exactly its encoded lines. */
  lemma LinesOfTable(table: seq<seq<string>>)
    requires |table| >= 1 && forall k :: 0 <= k < |table| ==> |table[k]| >= 1
    ensures Lines(EncodeTable(table)) == EncodedLines(table)
  {
    var text := EncodeTable(table);
    var lines := EncodedLines(table);
    var pieces := ScanKeepingQuotes(text, '\n', [], false);
    assert pieces == lines by {
      KeepingQuotesTable(table);
    }
    assert lines[|lines| - 1] != [] by {
      var last := table[|table| - 1];
      assert lines[|lines| - 1] == EncodeLine(last);
      EncodeLineOpensQuote(last);
    }
    assert Lines(text) == DropEmptyLast(pieces);
  }

  /** An encoded line starts with the opening quote of its first field. */
  lemma EncodeLineOpensQuote(fields: seq<string>)
    requires |fields| >= 1
    ensures |EncodeLine(fields)| >= 1 && EncodeLine(fields)[0] == '"'
  {
    assert EncodeLine(fields) == QuoteField(fields[0]) + (if |fields| == 1 then [] else "," + EncodeLine(fields[1..]));
  }

  /** Each encoded row gives one record holding its cells. */
  lemma RecordsOfEncodedRows(header: seq<string>, rows: seq<seq<string>>)
    requires forall k :: 0 <= k < |rows| ==> |rows[k]| >= 1
    ensures |RecordsOf(header, EncodedLines(rows))| == |rows|
    ensures forall k :: 0 <= k < |rows| ==> RecordsOf(header, EncodedLines(rows))[k] == MakeRecord(header, rows[k])
  {
    var body := EncodedLines(rows);
    forall k | 0 <= k < |body| ensures !IsBlank(body[k]) && Fields(body[k]) == rows[k] {
      assert body[k] == EncodeLine(rows[k]);
      assert body[k][0] == '"';
      TrimNonBlank(body[k]);
      FieldsRoundTrip(rows[k]);
    }
    RecordsOfNoBlank(header, body);
  }

  /**
   * Round trip of the corrected reader: the RFC 4180 encoding of a header and
   * rows reads back as one record per row, built from exactly those cells.
   */
  lemma ParseRoundTrip(header: seq<string>, rows: seq<seq<string>>)
    requires |header| >= 1 && forall k :: 0 <= k < |rows| ==> |rows[k]| >= 1
    ensures Parse(EncodeTable([header] + rows)).Some?
    ensures |Parse(EncodeTable([header] + rows)).value| == |rows|
    ensures forall k :: 0 <= k < |rows| ==> Parse(EncodeTable([header] + rows)).value[k] == MakeRecord(header, rows[k])
  {
    var table := [header] + rows;
    LinesOfTable(table);
    var lines := EncodedLines(table);
    assert lines[0] == EncodeLine(header);
    FieldsRoundTrip(header);
    assert lines[1..] == EncodedLines(rows) by {
      assert table[1..] == rows;
    }
    RecordsOfEncodedRows(header, rows);
    assert Parse(EncodeTable(table)) == Some(RecordsOf(header, EncodedLines(rows)));
  }

  // ---------------------------------------------------------------------------
  // Row shape

  /** A record has one key per header, the header trimmed. */
  lemma {:induction false} RecordKeys(headers: seq<string>, values: seq<string>)
    ensures MakeRecord(headers, values).Keys == set h | h in headers :: Trim(h)
  {
    if headers != [] {
      var init := headers[..|headers| - 1];
      RecordKeys(init, values);
      assert headers == init + [headers[|headers| - 1]];
      assert (set h | h in headers :: Trim(h)) == (set h | h in init :: Trim(h)) + {Trim(headers[|headers| - 1])};
    }
  }

  /** Every cell of a record is trimmed. */
  lemma {:induction false} RecordValuesTrimmed(headers: seq<string>, values: seq<string>)
    ensures forall k :: k in MakeRecord(headers, values) ==> IsTrimmed(MakeRecord(headers, values)[k])
  {
    if headers != [] {
      RecordValuesTrimmed(headers[..|headers| - 1], values);
    }
  }

  /**
   * The cell under a header is the trimmed value at the last position with
   * that trimmed header name, or "" when the row is too short to reach it.
   */
  lemma {:induction false} RecordCell(headers: seq<string>, values: seq<string>, i: nat)
    requires i < |headers|
    requires forall j :: i < j < |headers| ==> Trim(headers[j]) != Trim(headers[i])
    ensures Trim(headers[i]) in MakeRecord(headers, values)
    ensures MakeRecord(headers, values)[Trim(headers[i])] == if i < |values| then Trim(values[i]) else []
  {
    if i < |headers| - 1 {
      var init := headers[..|headers| - 1];
      assert init[i] == headers[i];
      RecordCell(init, values, i);
    }
  }

  /** A blank line contributes no record; every other line after the header contributes one. */
  lemma {:induction false} RecordsCount(headers: seq<string>, lines: seq<string>)
    ensures |RecordsOf(headers, lines)| == |NonBlank(lines)|
  {
    if lines != [] {
      RecordsCount(headers, lines[..|lines| - 1]);
    }
  }

  function NonBlank(lines: seq<string>): seq<string> {
    if lines == [] then []
    else NonBlank(lines[..|lines| - 1]) + (if IsBlank(lines[|lines| - 1]) then [] else [lines[|lines| - 1]])
  }

  /** `NonBlank` keeps no blank line. */
  lemma {:induction false} NonBlankHasNoBlank(lines: seq<string>)
    ensures forall k :: 0 <= k < |NonBlank(lines)| ==> !IsBlank(NonBlank(lines)[k])
    decreases |lines|
  {
    if lines != [] {
      NonBlankHasNoBlank(lines[..|lines| - 1]);
    }
  }

  /** Blank lines are skipped and nothing else: the records are those of the non-blank lines. */
  lemma {:induction false} RecordsSkipBlank(headers: seq<string>, lines: seq<string>)
    ensures RecordsOf(headers, lines) == RecordsOf(headers, NonBlank(lines))
    decreases |lines|
  {
    if lines != [] {
      var n := |lines| - 1;
      var init := lines[..n];
      var last := lines[n];
      RecordsSkipBlank(headers, init);
      assert RecordsOf(headers, lines) == RecordsOf(headers, init) + (if IsBlank(last) then [] else [MakeRecord(headers, Fields(last))]);
      assert NonBlank(lines) == NonBlank(init) + (if IsBlank(last) then [] else [last]);
      if IsBlank(last) {
        assert NonBlank(lines) == NonBlank(init);
        assert RecordsOf(headers, lines) == RecordsOf(headers, init);
      } else {
        RecordsAppendLine(headers, NonBlank(init), last);
      }
    }
  }

  /** A non-blank line appended after others adds its record after theirs. */
  lemma RecordsAppendLine(headers: seq<string>, lines: seq<string>, last: string)
    requires !IsBlank(last)
    ensures RecordsOf(headers, lines + [last]) == RecordsOf(headers, lines) + [MakeRecord(headers, Fields(last))]
  {
    var s := lines + [last];
    assert s[..|s| - 1] == lines && s[|s| - 1] == last;
  }

  /** Record `k` is built from the fields of the `k`-th non-blank line. */
  lemma RecordsAreNonBlankLines(headers: seq<string>, lines: seq<string>)
    ensures |RecordsOf(headers, lines)| == |NonBlank(lines)|
    ensures forall k :: 0 <= k < |NonBlank(lines)| ==>
              RecordsOf(headers, lines)[k] == MakeRecord(headers, Fields(NonBlank(lines)[k]))
  {
    RecordsSkipBlank(headers, lines);
    NonBlankHasNoBlank(lines);
    RecordsOfNoBlank(headers, NonBlank(lines));
  }

  // ---------------------------------------------------------------------------
  // The discrepancy of the first pass as written

  /** A run with neither quotes nor separators stays in the current piece. */
  lemma {:induction false} ScanPlainPrefix(p: string, rest: string, sep: char, current: string)
    requires '"' !in p && sep !in p
    ensures Scan(p + rest, sep, current, false) == Scan(rest, sep, current + p, false)
  {
    if p != [] {
      assert (p + rest)[0] == p[0] && (p + rest)[1..] == p[1..] + rest;
      ScanPlainPrefix(p[1..], rest, sep, current + [p[0]]);
      assert current + [p[0]] + p[1..] == current + p;
    } else {
      assert p + rest == rest;
      assert current + p == current;
    }
  }

  /** The same for the corrected first pass. */
  lemma {:induction false} KeepingPlainPrefix(p: string, rest: string, sep: char, current: string)
    requires '"' !in p && sep !in p
    ensures ScanKeepingQuotes(p + rest, sep, current, false) == ScanKeepingQuotes(rest, sep, current + p, false)
  {
    if p != [] {
      assert (p + rest)[0] == p[0] && (p + rest)[1..] == p[1..] + rest;
      KeepingPlainPrefix(p[1..], rest, sep, current + [p[0]]);
      assert current + [p[0]] + p[1..] == current + p;
    } else {
      assert p + rest == rest;
      assert current + p == current;
    }
  }

  /** One step of the scan at an opening quote. */
  lemma ScanOpenQuote(rest: string, sep: char, current: string)
    ensures Scan("\"" + rest, sep, current, false) == Scan(rest, sep, current, true)
  {
    assert ("\"" + rest)[1..] == rest;
  }

  /** One step of the scan at a separator outside quotes. */
  lemma ScanAtSeparator(rest: string, sep: char, current: string)
    requires sep != '"'
    ensures Scan([sep] + rest, sep, current, false) == [current] + Scan(rest, sep, [], false)
  {
    assert ([sep] + rest)[1..] == rest;
  }

  /** One step of the corrected first pass at a separator outside quotes. */
  lemma KeepingAtSeparator(rest: string, sep: char, current: string)
    requires sep != '"'
    ensures ScanKeepingQuotes([sep] + rest, sep, current, false) == [current] + ScanKeepingQuotes(rest, sep, [], false)
  {
    assert ([sep] + rest)[1..] == rest;
  }

  /** A field without quotes escapes to itself. */
  lemma {:induction false} EscapeWithoutQuotes(f: string)
    requires '"' !in f
    ensures Escape(f) == f
  {
    if f != [] {
      assert '"' !in f[1..];
      EscapeWithoutQuotes(f[1..]);
      assert [f[0]] + f[1..] == f;
    }
  }

  /** The split at the first separator. */
  lemma PlainSplitAt(p: string, rest: string, sep: char)
    requires sep !in p
    ensures PlainSplit(p + [sep] + rest, sep, []) == [p] + PlainSplit(rest, sep, [])
  {
    PlainSplitAtFrom(p, rest, sep, []);
    assert [] + p == p;
  }

  lemma {:induction false} PlainSplitAtFrom(p: string, rest: string, sep: char, current: string)
    requires sep !in p
    ensures PlainSplit(p + [sep] + rest, sep, current) == [current + p] + PlainSplit(rest, sep, [])
  {
    var s := p + [sep] + rest;
    if p == [] {
      assert s == [sep] + rest && s[1..] == rest;
      assert current + p == current;
    } else {
      assert s[0] == p[0] && s[1..] == p[1..] + [sep] + rest;
      PlainSplitAtFrom(p[1..], rest, sep, current + [p[0]]);
      assert current + [p[0]] + p[1..] == current + p;
    }
  }

  /** Without a separator, the split is one piece. */
  lemma {:induction false} PlainRun(s: string, sep: char)
    requires sep !in s
    ensures PlainSplit(s, sep, []) == [s]
  {
    PlainRunFrom(s, sep, []);
    assert [] + s == s;
  }

  lemma {:induction false} PlainRunFrom(s: string, sep: char, current: string)
    requires sep !in s
    ensures PlainSplit(s, sep, current) == [current + s]
  {
    if s == [] {
      assert current + s == current;
    } else {
      assert sep !in s[1..];
      PlainRunFrom(s[1..], sep, current + [s[0]]);
      assert current + [s[0]] + s[1..] == current + s;
    }
  }

  /** The header and row of the quoted-comma example. */
  const QuotedCommaText: string := "h1,h2\n\"a,b\",c"

  /** The header and row of the doubled-quote example. */
  const EscapedQuoteText: string := "h\n\"x\"\"y\""

  /**
   * As written, a header line, a newline and a quoted field followed by plain
   * text give two lines; the quotes of the field are gone from the second.
   */
  lemma HeaderThenQuotedAsWritten(h: string, a: string, c: string)
    requires '"' !in h && '\n' !in h && '"' !in c && '\n' !in c && a + c != []
    ensures LinesAsWritten(h + ['\n'] + QuoteField(a) + c) == [h, a + c]
  {
    var row := QuoteField(a) + c;
    var inner := Escape(a) + "\"" + c;
    assert Scan(row, '\n', [], false) == [a + c] by {
      assert row == "\"" + inner;
      ScanOpenQuote(inner, '\n', []);
      QuotedFieldUnescapes(a, c, '\n', []);
      assert [] + a == a;
      ScanPlainPrefix(c, [], '\n', a);
      assert c + [] == c;
    }
    assert Scan(h + ['\n'] + row, '\n', [], false) == [h] + Scan(row, '\n', [], false) by {
      assert h + ['\n'] + row == h + (['\n'] + row);
      ScanPlainPrefix(h, ['\n'] + row, '\n', []);
      assert [] + h == h;
      ScanAtSeparator(row, '\n', h);
    }
    assert Scan(h + ['\n'] + row, '\n', [], false) == [h, a + c];
    assert h + ['\n'] + QuoteField(a) + c == h + ['\n'] + row;
  }

  /** With the corrected first pass the same text gives the header and the row with its quotes. */
  lemma HeaderThenQuotedKept(h: string, a: string, c: string)
    requires '"' !in h && '\n' !in h && '"' !in c && '\n' !in c
    ensures Lines(h + ['\n'] + QuoteField(a) + c) == [h, QuoteField(a) + c]
  {
    var row := QuoteField(a) + c;
    assert ScanKeepingQuotes(row, '\n', [], false) == [row] by {
      KeepingQuotesPassesField(a, c, []);
      assert [] + QuoteField(a) == QuoteField(a);
      KeepingPlainPrefix(c, [], '\n', QuoteField(a));
      assert c + [] == c;
    }
    assert ScanKeepingQuotes(h + ['\n'] + row, '\n', [], false) == [h] + ScanKeepingQuotes(row, '\n', [], false) by {
      assert h + ['\n'] + row == h + (['\n'] + row);
      KeepingPlainPrefix(h, ['\n'] + row, '\n', []);
      assert [] + h == h;
      KeepingAtSeparator(row, '\n', h);
    }
    assert ScanKeepingQuotes(h + ['\n'] + row, '\n', [], false) == [h, row];
    assert h + ['\n'] + QuoteField(a) + c == h + ['\n'] + row;
    assert row != [];
  }

  lemma QuotedCommaShape()
    ensures QuotedCommaText == "h1,h2" + ['\n'] + QuoteField("a,b") + ",c"
  {
    assert QuoteField("a,b") == "\"a,b\"" by {
      EscapeWithoutQuotes("a,b");
    }
    assert "h1,h2" + ['\n'] + "\"a,b\"" + ",c" == QuotedCommaText;
  }

  lemma QuotedCommaLinesAsWritten()
    ensures LinesAsWritten(QuotedCommaText) == ["h1,h2", "a,b,c"]
  {
    QuotedCommaShape();
    HeaderThenQuotedAsWritten("h1,h2", "a,b", ",c");
    assert "a,b" + ",c" == "a,b,c";
  }

  lemma QuotedCommaLines()
    ensures Lines(QuotedCommaText) == ["h1,h2", "\"a,b\",c"]
  {
    QuotedCommaShape();
    HeaderThenQuotedKept("h1,h2", "a,b", ",c");
    EscapeWithoutQuotes("a,b");
    assert QuoteField("a,b") + ",c" == "\"a,b\",c";
  }
  lemma HeaderFields()
    ensures PlainSplit("h1,h2", ',', []) == ["h1", "h2"]
    ensures Fields("h1,h2") == ["h1", "h2"]
  {
    assert "h1,h2" == "h1" + [','] + "h2";
    PlainSplitAt("h1", "h2", ',');
    PlainRun("h2", ',');
    UnquotedSplitsAtEverySeparator("h1,h2", ',', []);
  }

  lemma SplitRowFields()
    ensures Fields("a,b,c") == ["a", "b", "c"]
  {
    assert "a,b,c" == "a" + [','] + "b,c";
    assert "b,c" == "b" + [','] + "c";
    PlainSplitAt("a", "b,c", ',');
    PlainSplitAt("b", "c", ',');
    PlainRun("c", ',');
    UnquotedSplitsAtEverySeparator("a,b,c", ',', []);
  }

  /** Four pieces of text joined left to right, regrouped to the right. */
  lemma Regroup(p: string, q: string, r: string, t: string)
    ensures p + q + r + t == p + (q + r + t)
  {
  }

  /** A quoted field, a separator and a plain field give those two cells. */
  lemma QuotedThenPlainFields(a: string, c: string, sep: char)
    requires sep != '"' && '"' !in c && sep !in c
    ensures Scan(QuoteField(a) + [sep] + c, sep, [], false) == [a, c]
  {
    var inner := Escape(a) + "\"" + ([sep] + c);
    assert QuoteField(a) + [sep] + c == "\"" + inner by {
      Regroup("\"", Escape(a), "\"", [sep] + c);
    }
    assert Scan("\"" + inner, sep, [], false) == Scan(inner, sep, [], true) by {
      ScanOpenQuote(inner, sep, []);
    }
    assert Scan(inner, sep, [], true) == Scan([sep] + c, sep, a, false) by {
      QuotedFieldUnescapes(a, [sep] + c, sep, []);
      assert [] + a == a;
    }
    assert Scan([sep] + c, sep, a, false) == [a] + Scan(c, sep, [], false) by {
      ScanAtSeparator(c, sep, a);
    }
    assert Scan(c, sep, [], false) == [c] by {
      ScanPlainPrefix(c, [], sep, []);
      assert c + [] == c && [] + c == c;
    }
  }

  lemma QuotedRowFields()
    ensures Fields("\"a,b\",c") == ["a,b", "c"]
  {
    assert QuoteField("a,b") == "\"a,b\"" by {
      EscapeWithoutQuotes("a,b");
    }
    assert "\"a,b\",c" == "\"a,b\"" + [','] + "c";
    QuotedThenPlainFields("a,b", "c", ',');
  }
  lemma LostQuoteFields()
    ensures Fields("x\"y") == ["xy"]
  {
    assert "x\"y" == "x" + ("\"" + "y");
    ScanPlainPrefix("x", "\"" + "y", ',', []);
    assert [] + "x" == "x";
    ScanOpenQuote("y", ',', "x");
    QuotedRunNotSplit("y", ',', "x");
    assert "x" + "y" == "xy";
  }

  lemma TrimOfPlain(s: string)
    requires s != [] && !IsWhiteSpace(s[0]) && !IsWhiteSpace(s[|s| - 1])
    ensures Trim(s) == s
  {
  }

  /** A text of a header line and one non-blank row parses to the one record of that row. */
  lemma ParsedSingleRow(text: string, header: string, row: string, headers: seq<string>, values: seq<string>)
    requires Lines(text) == [header, row] && Fields(header) == headers && Fields(row) == values && !IsBlank(row)
    ensures Parse(text) == Some([MakeRecord(headers, values)])
  {
    assert [header, row][1..] == [row];
    RecordsOfSingle(headers, row);
  }

  /** The same for the reader as written. */
  lemma ParsedSingleRowAsWritten(text: string, header: string, row: string, headers: seq<string>, values: seq<string>)
    requires LinesAsWritten(text) == [header, row] && PlainSplit(header, ',', []) == headers
    requires Fields(row) == values && !IsBlank(row)
    ensures ParseAsWritten(text) == Some([MakeRecord(headers, values)])
  {
    assert [header, row][1..] == [row];
    RecordsOfSingle(headers, row);
  }

  lemma RecordsOfSingle(headers: seq<string>, line: string)
    requires !IsBlank(line)
    ensures RecordsOf(headers, [line]) == [MakeRecord(headers, Fields(line))]
  {
    assert [line][..0] == [];
  }

  lemma MakeRecordOne(h: string, values: seq<string>)
    ensures MakeRecord([h], values) == map[Trim(h) := Trim(FieldAt(values, 0))]
  {
    assert [h][..0] == [];
  }

  lemma MakeRecordTwo(h1: string, h2: string, values: seq<string>)
    ensures MakeRecord([h1, h2], values) == map[Trim(h1) := Trim(FieldAt(values, 0)), Trim(h2) := Trim(FieldAt(values, 1))]
  {
    assert [h1, h2][..1] == [h1];
    MakeRecordOne(h1, values);
  }

  lemma QuotedCommaRecords()
    ensures MakeRecord(["h1", "h2"], ["a", "b", "c"]) == map["h1" := "a", "h2" := "b"]
    ensures MakeRecord(["h1", "h2"], ["a,b", "c"]) == map["h1" := "a,b", "h2" := "c"]
  {
    MakeRecordTwo("h1", "h2", ["a", "b", "c"]);
    MakeRecordTwo("h1", "h2", ["a,b", "c"]);
    TrimOfPlain("h1"); TrimOfPlain("h2"); TrimOfPlain("a"); TrimOfPlain("b");
    TrimOfPlain("a,b"); TrimOfPlain("c");
  }

  /**
   * As written, a quoted comma splits the field: the header `h1,h2` and the
   * row `"a,b",c` give `h1 = a` and `h2 = b`.
   */
  lemma AsWrittenSplitsQuotedComma()
    ensures ParseAsWritten(QuotedCommaText) == Some([map["h1" := "a", "h2" := "b"]])
  {
    QuotedCommaLinesAsWritten();
    HeaderFields();
    SplitRowFields();
    TrimNonBlank("a,b,c");
    QuotedCommaRecords();
    ParsedSingleRowAsWritten(QuotedCommaText, "h1,h2", "a,b,c", ["h1", "h2"], ["a", "b", "c"]);
  }

  /** The corrected reader keeps the quoted comma: `h1 = a,b` and `h2 = c`. */
  lemma CorrectedKeepsQuotedComma()
    ensures Parse(QuotedCommaText) == Some([map["h1" := "a,b", "h2" := "c"]])
  {
    QuotedCommaLines();
    HeaderFields();
    QuotedRowFields();
    TrimNonBlank("\"a,b\",c");
    QuotedCommaRecords();
    ParsedSingleRow(QuotedCommaText, "h1,h2", "\"a,b\",c", ["h1", "h2"], ["a,b", "c"]);
  }

  lemma EscapeOfLostQuote()
    ensures Escape("x\"y") == "x\"\"y"
  {
    assert "x\"y"[1..] == "\"y" && "\"y"[1..] == "y" && "y"[1..] == [];
  }

  lemma EscapedQuoteShape()
    ensures EscapedQuoteText == "h" + ['\n'] + QuoteField("x\"y") + []
  {
    EscapeOfLostQuote();
  }

  lemma EscapedQuoteLinesAsWritten()
    ensures LinesAsWritten(EscapedQuoteText) == ["h", "x\"y"]
  {
    EscapedQuoteShape();
    HeaderThenQuotedAsWritten("h", "x\"y", []);
    assert "x\"y" + [] == "x\"y";
  }

  lemma EscapedQuoteLines()
    ensures Lines(EscapedQuoteText) == ["h", "\"x\"\"y\""]
  {
    EscapedQuoteShape();
    HeaderThenQuotedKept("h", "x\"y", []);
    EscapeOfLostQuote();
    assert QuoteField("x\"y") + [] == "\"x\"\"y\"";
  }
  lemma EscapedRowFields()
    ensures Fields("\"x\"\"y\"") == ["x\"y"]
  {
    FieldsRoundTrip(["x\"y"]);
    EscapeOfLostQuote();
    assert EncodeLine(["x\"y"]) == "\"x\"\"y\"";
  }

  lemma EscapedQuoteRecords()
    ensures MakeRecord(["h"], ["xy"]) == map["h" := "xy"]
    ensures MakeRecord(["h"], ["x\"y"]) == map["h" := "x\"y"]
  {
    MakeRecordOne("h", ["xy"]);
    MakeRecordOne("h", ["x\"y"]);
    TrimOfPlain("h"); TrimOfPlain("xy"); TrimOfPlain("x\"y");
  }

  lemma SingleHeader()
    ensures PlainSplit("h", ',', []) == ["h"] && Fields("h") == ["h"]
  {
    PlainRun("h", ',');
    UnquotedSplitsAtEverySeparator("h", ',', []);
  }

  /** As written, a doubled quote inside quotes is lost: the row `"x""y"` under header `h` gives `h = xy`. */
  lemma AsWrittenDropsEscapedQuote()
    ensures ParseAsWritten(EscapedQuoteText) == Some([map["h" := "xy"]])
  {
    EscapedQuoteLinesAsWritten();
    SingleHeader();
    LostQuoteFields();
    TrimNonBlank("x\"y");
    EscapedQuoteRecords();
    ParsedSingleRowAsWritten(EscapedQuoteText, "h", "x\"y", ["h"], ["xy"]);
  }

  /** The corrected reader reads the doubled quote as one quote: `h = x"y`. */
  lemma CorrectedKeepsEscapedQuote()
    ensures Parse(EscapedQuoteText) == Some([map["h" := "x\"y"]])
  {
    EscapedQuoteLines();
    SingleHeader();
    EscapedRowFields();
    TrimNonBlank("\"x\"\"y\"");
    EscapedQuoteRecords();
    ParsedSingleRow(EscapedQuoteText, "h", "\"x\"\"y\"", ["h"], ["x\"y"]);
  }
}
