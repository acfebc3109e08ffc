/** CSV export (packages/shared/src/serialize.ts) and a reader for it written from RFC 4180, section 2. */
module Csv {
  import opened Wrappers
  import opened Text

  /** A cell value: absent or null, a string, or anything else with its compact JSON or string form. */
  datatype Value = Null | Str(s: string) | Other(rendered: string)

  type Row = map<string, Value>

  function CellToString(v: Value): string {
    match v
    case Null => ""
    case Str(s) => s
    case Other(r) => r
  }

  function Cell(row: Row, col: string): string {
    CellToString(if col in row then row[col] else Null)
  }

  predicate NeedsQuoting(s: string) { ',' in s || '"' in s || '\r' in s || '\n' in s }

  /** `s.replace(/"/g, '""')`. */
  function Doubled(s: string): string {
    if s == "" then "" else (if s[0] == '"' then "\"\"" else [s[0]]) + Doubled(s[1..])
  }

  function QuoteField(s: string): string {
    if NeedsQuoting(s) then "\"" + Doubled(s) + "\"" else s
  }

  function QuoteAll(cells: seq<string>): seq<string> {
    seq(|cells|, i requires 0 <= i < |cells| => QuoteField(cells[i]))
  }

  function Cells(row: Row, columns: seq<string>): seq<string> {
    seq(|columns|, i requires 0 <= i < |columns| => Cell(row, columns[i]))
  }

  function Line(cells: seq<string>): string { Join(QuoteAll(cells), ",") }

  const CRLF := "\r\n"

  /** The table the export stands for: the header, then each record's cell strings. */
  function Table(rows: seq<Row>, columns: seq<string>): (t: seq<seq<string>>)
    ensures |t| == |rows| + 1
  {
    [columns] + seq(|rows|, i requires 0 <= i < |rows| => Cells(rows[i], columns))
  }

  /** Every line closed by CRLF. */
  function Closed(table: seq<seq<string>>): string {
    if table == [] then "" else Line(table[0]) + CRLF + Closed(table[1..])
  }

  method ToCsv(rows: seq<Row>, columns: seq<string>) returns (out: string)
    ensures out == Closed(Table(rows, columns))
  {
    var lines := [Line(columns)];
    ghost var t := Table(rows, columns);
    for i := 0 to |rows|
      invariant |lines| == i + 1 && forall k :: 0 <= k <= i ==> lines[k] == Line(t[k])
    {
      lines := lines + [Line(Cells(rows[i], columns))];
    }
    JoinCloses(lines, t);
    out := Join(lines, CRLF) + CRLF;
  }

  lemma {:induction false} JoinCloses(lines: seq<string>, table: seq<seq<string>>)
    requires |lines| == |table| >= 1 && forall k :: 0 <= k < |lines| ==> lines[k] == Line(table[k])
    ensures Join(lines, CRLF) + CRLF == Closed(table)
    decreases |lines|
  {
    if |lines| == 1 {
      assert Closed(table[1..]) == "";
    } else {
      JoinCloses(lines[1..], table[1..]);
    }
  }

  // ----- RFC 4180, section 2 -----

  /** An escaped field's content up to its closing quote; a doubled quote stands for one. */
  function ReadQuoted(s: string): Option<(string, string)>
    decreases |s|
  {
    if s == "" then None
    else if s[0] != '"' then
      match ReadQuoted(s[1..]) case None => None case Some((v, rest)) => Some(([s[0]] + v, rest))
    else if |s| > 1 && s[1] == '"' then
      match ReadQuoted(s[2..]) case None => None case Some((v, rest)) => Some((['"'] + v, rest))
    else Some(("", s[1..]))
  }

  /** A non-escaped field: no comma, quote, CR or LF. */
  function ReadPlain(s: string): (string, string)
    decreases |s|
  {
    if s == "" || s[0] == ',' || s[0] == '"' || s[0] == '\r' || s[0] == '\n' then ("", s)
    else
      var (v, rest) := ReadPlain(s[1..]);
      ([s[0]] + v, rest)
  }

  function ReadField(s: string): Option<(string, string)> {
    if s != "" && s[0] == '"' then ReadQuoted(s[1..]) else Some(ReadPlain(s))
  }

  lemma {:induction false} ReadFieldShrinks(s: string)
    ensures ReadField(s).Some? ==> |ReadField(s).value.1| <= |s|
  {
    ReadQuotedShrinks(if s == "" then s else s[1..]);
    ReadPlainShrinks(s);
  }

  lemma ReadQuotedShrinks(s: string)
    ensures ReadQuoted(s).Some? ==> |ReadQuoted(s).value.1| < |s|
    decreases |s|
  {}

  lemma ReadPlainShrinks(s: string)
    ensures |ReadPlain(s).1| <= |s|
    decreases |s|
  {}

  /** One record: fields separated by commas, closed by CRLF. */
  function ReadRecord(s: string): (r: Option<(seq<string>, string)>)
    ensures r.Some? ==> |r.value.1| < |s|
    decreases |s|
  {
    ReadFieldShrinks(s);
    match ReadField(s)
    case None => None
    case Some((v, rest)) =>
      if rest != "" && rest[0] == ',' then
        match ReadRecord(rest[1..]) case None => None case Some((vs, rest')) => Some(([v] + vs, rest'))
      else if |rest| >= 2 && rest[..2] == CRLF then Some(([v], rest[2..]))
      else None
  }

  function ReadFile(s: string): Option<seq<seq<string>>>
    decreases |s|
  {
    if s == "" then Some([])
    else
      match ReadRecord(s)
      case None => None
      case Some((record, rest)) =>
        match ReadFile(rest) case None => None case Some(records) => Some([record] + records)
  }

  // ----- reading undoes writing -----

  lemma {:induction false} QuotedReads(s: string, tail: string)
    requires tail == "" || tail[0] != '"'
    ensures ReadQuoted(Doubled(s) + "\"" + tail) == Some((s, tail))
  {
    if s == "" {
      assert Doubled(s) + "\"" + tail == "\"" + tail;
      assert ("\"" + tail)[1..] == tail;
    } else {
      QuotedReads(s[1..], tail);
      var y := Doubled(s[1..]) + "\"" + tail;
      assert [s[0]] + s[1..] == s;
      if s[0] == '"' {
        assert Doubled(s) + "\"" + tail == "\"\"" + y;
        TwoRead(y);
      } else {
        assert Doubled(s) + "\"" + tail == [s[0]] + y;
        OneReads(s[0], y);
      }
    }
  }

  lemma TwoRead(y: string)
    ensures ReadQuoted("\"\"" + y) == match ReadQuoted(y) case None => None case Some((v, rest)) => Some((['"'] + v, rest))
  {
    var z := "\"\"" + y;
    assert z[0] == '"' && z[1] == '"' && z[2..] == y;
  }

  lemma OneReads(c: char, y: string)
    requires c != '"'
    ensures ReadQuoted([c] + y) == match ReadQuoted(y) case None => None case Some((v, rest)) => Some(([c] + v, rest))
  {
    assert ([c] + y)[1..] == y;
  }

  lemma {:induction false} PlainReads(s: string, tail: string)
    requires !NeedsQuoting(s) && tail != "" && (tail[0] == ',' || tail[0] == '\r')
    ensures ReadPlain(s + tail) == (s, tail)
  {
    if s == "" {
      assert s + tail == tail;
    } else {
      assert s[0] in s && forall c | c in s[1..] :: c in s;
      PlainReads(s[1..], tail);
      assert (s + tail)[1..] == s[1..] + tail;
      assert [s[0]] + s[1..] == s;
    }
  }

  lemma FieldReads(s: string, tail: string)
    requires tail != "" && (tail[0] == ',' || tail[0] == '\r')
    ensures ReadField(QuoteField(s) + tail) == Some((s, tail))
  {
    if NeedsQuoting(s) {
      QuotedFieldReads(s, tail);
    } else {
      UnquotedReads(s, tail);
    }
  }

  lemma QuotedFieldReads(s: string, tail: string)
    requires tail == "" || tail[0] != '"'
    ensures ReadField("\"" + Doubled(s) + "\"" + tail) == Some((s, tail))
  {
    QuotedReads(s, tail);
    OpenQuote(Doubled(s) + "\"" + tail);
    Regroup("\"", Doubled(s), "\"", tail);
  }

  lemma OpenQuote(y: string)
    ensures ReadField("\"" + y) == ReadQuoted(y)
  {
    assert ("\"" + y)[1..] == y;
  }

  lemma Regroup(a: string, b: string, c: string, d: string)
    ensures a + b + c + d == a + (b + c + d)
  {}

  lemma UnquotedReads(s: string, tail: string)
    requires !NeedsQuoting(s) && tail != "" && (tail[0] == ',' || tail[0] == '\r')
    ensures ReadField(s + tail) == Some((s, tail))
  {
    PlainReads(s, tail);
    if s != "" { assert s[0] in s && (s + tail)[0] == s[0]; }
  }

  lemma RecordLast(c: string, tail: string)
    ensures ReadRecord(QuoteField(c) + (CRLF + tail)) == Some(([c], tail))
  {
    var after := CRLF + tail;
    FieldReads(c, after);
    assert after[..2] == CRLF && after[2..] == tail;
  }

  lemma RecordNext(c: string, next: string, cells: seq<string>, tail: string)
    requires ReadRecord(next) == Some((cells, tail))
    ensures ReadRecord(QuoteField(c) + ("," + next)) == Some(([c] + cells, tail))
  {
    var after := "," + next;
    FieldReads(c, after);
    assert after[1..] == next;
  }

  lemma LineHead(cells: seq<string>)
    requires cells != []
    ensures Line(cells) == if |cells| == 1 then QuoteField(cells[0]) else QuoteField(cells[0]) + "," + Line(cells[1..])
  {
    assert QuoteAll(cells)[1..] == QuoteAll(cells[1..]);
  }

  lemma {:induction false} RecordReads(cells: seq<string>, tail: string)
    requires cells != []
    ensures ReadRecord(Line(cells) + CRLF + tail) == Some((cells, tail))
    decreases |cells|
  {
    LineHead(cells);
    if |cells| == 1 {
      RecordLast(cells[0], tail);
      assert Line(cells) + CRLF + tail == QuoteField(cells[0]) + (CRLF + tail);
      assert cells == [cells[0]];
    } else {
      var more := Line(cells[1..]);
      RecordReads(cells[1..], tail);
      RecordNext(cells[0], more + CRLF + tail, cells[1..], tail);
      assert (QuoteField(cells[0]) + "," + more) + CRLF + tail == QuoteField(cells[0]) + ("," + (more + CRLF + tail));
      assert [cells[0]] + cells[1..] == cells;
    }
  }

  lemma {:induction false} FileReads(table: seq<seq<string>>)
    requires forall i :: 0 <= i < |table| ==> table[i] != []
    ensures ReadFile(Closed(table)) == Some(table)
    decreases |table|
  {
    if table != [] {
      FileReads(table[1..]);
      RecordReads(table[0], Closed(table[1..]));
      assert Closed(table) == Line(table[0]) + CRLF + Closed(table[1..]) && |CRLF| == 2;
      assert [table[0]] + table[1..] == table;
    }
  }

  /** A table without columns reads back with an empty field in place of no field. */
  lemma EmptyColumns(rows: seq<Row>)
    ensures ReadFile(Closed(Table(rows, []))) != Some(Table(rows, []))
  {
    var t := Table(rows, []);
    assert t[0] == [] && Line([]) == "";
    var z := Closed(t);
    var rest := Closed(t[1..]);
    assert z == CRLF + rest;
    assert z[..2] == CRLF && z[2..] == rest;
    assert ReadRecord(z) == Some(([""], rest));
  }

  /** The export reads back to the header and every record's cell strings exactly when it has a column. */
  lemma CsvRoundTrip(rows: seq<Row>, columns: seq<string>)
    ensures ReadFile(Closed(Table(rows, columns))) == Some(Table(rows, columns)) <==> columns != []
  {
    if columns == [] { EmptyColumns(rows); } else { FileReads(Table(rows, columns)); }
  }

  /** The encoding is injective on cell strings. */
  lemma CsvInjective(rows1: seq<Row>, columns1: seq<string>, rows2: seq<Row>, columns2: seq<string>)
    requires columns1 != [] && columns2 != []
    requires Closed(Table(rows1, columns1)) == Closed(Table(rows2, columns2))
    ensures columns1 == columns2 && |rows1| == |rows2|
    ensures forall i :: 0 <= i < |rows1| ==> Cells(rows1[i], columns1) == Cells(rows2[i], columns2)
  {
    CsvRoundTrip(rows1, columns1);
    CsvRoundTrip(rows2, columns2);
    var t1, t2 := Table(rows1, columns1), Table(rows2, columns2);
    assert t1 == t2;
    assert t1[0] == columns1 && t2[0] == columns2;
    forall i | 0 <= i < |rows1| ensures Cells(rows1[i], columns1) == Cells(rows2[i], columns2) {
      assert t1[i + 1] == t2[i + 1];
    }
  }
}
