/** The CSV reader of the admin app (frontend/src/lib/csv.ts) and the writer it
    inverts: section 2 of RFC 4180, with LF or CRLF line ends. */
module Csv {
  import opened Text

  type Record = r: seq<string> | r != [] witness [""]

  /** A lone empty field is an empty line, which the reader drops. */
  function Kept(row: Record): seq<Record> {
    if |row| > 1 || row[0] != "" then [row] else []
  }

  /** The rows still to come when `row` and `field` have been read so far. */
  function Rows(inQuotes: bool, row: seq<string>, field: string, s: string): seq<Record>
    decreases |s|
  {
    if s == "" then Kept(row + [field])
    else if inQuotes then
      if s[0] != '"' then Rows(true, row, field + [s[0]], s[1..])
      else if |s| > 1 && s[1] == '"' then Rows(true, row, field + ['"'], s[2..])
      else Rows(false, row, field, s[1..])
    else if s[0] == '"' then Rows(true, row, field, s[1..])
    else if s[0] == ',' then Rows(false, row + [field], "", s[1..])
    else if s[0] == '\n' then Kept(row + [field]) + Rows(false, [], "", s[1..])
    else if s[0] == '\r' then Rows(false, row, field, s[1..])
    else Rows(false, row, field + [s[0]], s[1..])
  }

  function RowsOf(text: string): seq<Record> {
    Rows(false, [], "", text)
  }

  /** The names under which a plain object keeps a text: not the empty one, which the
      reader skips, and not __proto__, an assignment to which does nothing. */
  predicate Keyed(name: string) {
    name != "" && name != "__proto__"
  }

  /** One object per row after the header; later columns of a name win. */
  function Object(header: seq<string>, r: seq<string>): map<string, string>
    decreases |header|
  {
    if header == [] then map[] else
      var i := |header| - 1;
      var obj := Object(header[..i], r);
      if !Keyed(header[i]) then obj else obj[header[i] := Trim(if i < |r| then r[i] else "", JsSpace)]
  }

  function Names(header: seq<string>, lower: string -> string): (names: seq<string>)
    ensures |names| == |header|
    ensures forall i | 0 <= i < |names| :: names[i] == lower(Trim(header[i], JsSpace))
  {
    seq(|header|, i requires 0 <= i < |header| => lower(Trim(header[i], JsSpace)))
  }

  function Objects(rows: seq<Record>, lower: string -> string): seq<map<string, string>> {
    if rows == [] then [] else
      var names := Names(rows[0], lower);
      seq(|rows| - 1, i requires 0 <= i < |rows| - 1 => Object(names, rows[i + 1]))
  }

  /** parseCSV; `lower` stands for String.prototype.toLowerCase. */
  method ParseCSV(text: string, lower: string -> string) returns (objects: seq<map<string, string>>)
    ensures objects == Objects(RowsOf(text), lower)
  {
    var rows: seq<Record> := [];
    var row: seq<string> := [];
    var field := "";
    var inQuotes := false;
    var i := 0;
    assert text[0..] == text && [] + RowsOf(text) == RowsOf(text);
    while i < |text|
      invariant 0 <= i <= |text|
      invariant RowsOf(text) == rows + Rows(inQuotes, row, field, text[i..])
    {
      var c := text[i];
      assert text[i..][1..] == text[i + 1..];
      if inQuotes {
        if c == '"' {
          if i + 1 < |text| && text[i + 1] == '"' {
            assert text[i..][2..] == text[i + 2..];
            field := field + ['"'];
            i := i + 1;
          } else {
            inQuotes := false;
          }
        } else {
          field := field + [c];
        }
      } else if c == '"' {
        inQuotes := true;
      } else if c == ',' {
        row := row + [field];
        field := "";
      } else if c == '\n' {
        row := row + [field];
        field := "";
        assert rows + (Kept(row) + Rows(false, [], "", text[i + 1..])) == rows + Kept(row) + Rows(false, [], "", text[i + 1..]);
        if |row| > 1 || row[0] != "" {
          rows := rows + [row];
        } else {
          assert rows + Kept(row) == rows;
        }
        row := [];
      } else if c != '\r' {
        field := field + [c];
      }
      i := i + 1;
    }
    assert text[i..] == "";
    row := row + [field];
    if |row| > 1 || row[0] != "" {
      rows := rows + [row];
    } else {
      assert rows + [] == rows;
    }
    if |rows| == 0 {
      return [];
    }
    var header := Names(rows[0], lower);
    objects := seq(|rows| - 1, k requires 0 <= k < |rows| - 1 => Object(header, rows[k + 1]));
  }

  // ---- the writer ----

  /** A field and the writer's choice to quote it; a bare field holds nothing that needs quoting. */
  datatype Cell = Cell(text: string, quoted: bool)

  predicate Bare(text: string) {
    forall i | 0 <= i < |text| :: text[i] != ',' && text[i] != '"' && text[i] != '\r' && text[i] != '\n'
  }

  predicate CellOk(c: Cell) { c.quoted || Bare(c.text) }

  /** Quotes are written twice. */
  function Escape(text: string): string {
    if text == "" then "" else (if text[0] == '"' then "\"\"" else [text[0]]) + Escape(text[1..])
  }

  function PrintCell(c: Cell): string {
    if c.quoted then "\"" + Escape(c.text) + "\"" else c.text
  }

  function PrintCells(cells: seq<Cell>): string
    requires cells != []
  {
    if |cells| == 1 then PrintCell(cells[0]) else PrintCell(cells[0]) + "," + PrintCells(cells[1..])
  }

  datatype Ending = LF | CRLF | NoEnd

  function PrintEnding(e: Ending): string {
    match e case LF => "\n" case CRLF => "\r\n" case NoEnd => ""
  }

  datatype Row = Row(cells: seq<Cell>, ending: Ending)

  /** Rows have at least one field, bare fields are bare, and only the last row may lack its line end. */
  predicate Printable(rows: seq<Row>) {
    rows == [] || (
      && rows[0].cells != [] && (forall i | 0 <= i < |rows[0].cells| :: CellOk(rows[0].cells[i]))
      && (rows[0].ending.NoEnd? ==> |rows| == 1)
      && Printable(rows[1..]))
  }

  function PrintRows(rows: seq<Row>): string
    requires Printable(rows)
  {
    if rows == [] then "" else PrintCells(rows[0].cells) + PrintEnding(rows[0].ending) + PrintRows(rows[1..])
  }

  function Texts(cells: seq<Cell>): (r: seq<string>)
    ensures |r| == |cells|
  {
    if cells == [] then [] else [cells[0].text] + Texts(cells[1..])
  }

  function Records(rows: seq<Row>): seq<Record>
    requires Printable(rows)
  {
    if rows == [] then [] else [Texts(rows[0].cells)] + Records(rows[1..])
  }

  function Filled(records: seq<Record>): seq<Record> {
    if records == [] then [] else Kept(records[0]) + Filled(records[1..])
  }

  // ---- reading undoes writing ----

  lemma {:induction false} ReadBare(row: seq<string>, field: string, text: string, rest: string)
    requires Bare(text)
    ensures Rows(false, row, field, text + rest) == Rows(false, row, field + text, rest)
    decreases |text|
  {
    if text == "" {
      assert text + rest == rest && field + text == field;
    } else {
      assert (text + rest)[1..] == text[1..] + rest;
      assert field + text == field + [text[0]] + text[1..];
      ReadBare(row, field + [text[0]], text[1..], rest);
    }
  }

  /** What may follow a field. */
  predicate Follows(rest: string) {
    rest == "" || rest[0] == ',' || rest[0] == '\n' || rest[0] == '\r'
  }

  lemma {:induction false} ReadQuoted(row: seq<string>, field: string, text: string, rest: string)
    requires Follows(rest)
    ensures Rows(true, row, field, Escape(text) + "\"" + rest) == Rows(false, row, field + text, rest)
    decreases |text|
  {
    var s := Escape(text) + "\"" + rest;
    if text == "" {
      assert s == "\"" + rest && s[1..] == rest && field + text == field;
    } else {
      var tail := Escape(text[1..]) + "\"" + rest;
      if text[0] == '"' {
        assert s == "\"\"" + tail && s[2..] == tail;
      } else {
        assert s == [text[0]] + tail && s[1..] == tail;
      }
      assert field + text == field + [text[0]] + text[1..];
      ReadQuoted(row, field + [text[0]], text[1..], rest);
    }
  }

  /** Outside quotes a carriage return is dropped wherever it stands. */
  lemma {:induction false} ReturnsAreDropped(row: seq<string>, field: string, text: string, rest: string)
    requires forall i | 0 <= i < |text| :: text[i] == '\r'
    ensures Rows(false, row, field, text + rest) == Rows(false, row, field, rest)
    decreases |text|
  {
    if text == "" {
      assert text + rest == rest;
    } else {
      assert (text + rest)[0] == '\r' && (text + rest)[1..] == text[1..] + rest;
      ReturnsAreDropped(row, field, text[1..], rest);
    }
  }

  /** A quote in the middle of a field opens a quoted part of it. */
  lemma QuotesInside(row: seq<string>, field: string, text: string, rest: string)
    requires Follows(rest)
    ensures Rows(false, row, field, "\"" + Escape(text) + "\"" + rest) == Rows(false, row, field + text, rest)
  {
    var body := Escape(text) + "\"" + rest;
    assert "\"" + Escape(text) + "\"" + rest == "\"" + body;
    assert ("\"" + body)[0] == '"' && ("\"" + body)[1..] == body;
    ReadQuoted(row, field, text, rest);
  }

  lemma ReadCell(row: seq<string>, c: Cell, rest: string)
    requires CellOk(c) && Follows(rest)
    ensures Rows(false, row, "", PrintCell(c) + rest) == Rows(false, row, c.text, rest)
  {
    assert "" + c.text == c.text;
    if c.quoted {
      var body := Escape(c.text) + "\"" + rest;
      assert PrintCell(c) + rest == "\"" + body;
      assert ("\"" + body)[1..] == body;
      ReadQuoted(row, "", c.text, rest);
    } else {
      ReadBare(row, "", c.text, rest);
    }
  }

  /** A row and its line end are read back as one record, kept or dropped. */
  lemma {:induction false} ReadCells(row: seq<string>, cells: seq<Cell>, ending: Ending, rest: string)
    requires cells != [] && forall i | 0 <= i < |cells| :: CellOk(cells[i])
    requires ending.NoEnd? ==> rest == ""
    ensures Rows(false, row, "", PrintCells(cells) + PrintEnding(ending) + rest)
         == Kept(row + Texts(cells)) + if ending.NoEnd? then [] else RowsOf(rest)
    decreases |cells|
  {
    hide PrintCell, PrintEnding, Rows, CellOk;
    var c := cells[0];
    var tail := PrintEnding(ending) + rest;
    EndingFollows(ending, rest);
    if |cells| == 1 {
      assert PrintCells(cells) + PrintEnding(ending) + rest == PrintCell(c) + tail;
      ReadCell(row, c, tail);
      assert Texts(cells) == [c.text] by { assert cells[1..] == []; }
      ReadEnding(row, c.text, ending, rest);
    } else {
      hide PrintCells, Texts;
      var more := PrintCells(cells[1..]) + PrintEnding(ending) + rest;
      PrintedFirst(cells, PrintEnding(ending), rest);
      ReadCell(row, c, "," + more);
      ReadComma(row, c.text, more);
      ReadCells(row + [c.text], cells[1..], ending, rest);
      TextsFirst(row, cells);
    }
  }

  lemma PrintedFirst(cells: seq<Cell>, ending: string, rest: string)
    requires |cells| > 1
    ensures PrintCells(cells) + ending + rest
         == PrintCell(cells[0]) + ("," + (PrintCells(cells[1..]) + ending + rest))
  {
    PrintsFirst(cells);
    Regrouped(PrintCell(cells[0]), ",", PrintCells(cells[1..]), ending, rest);
  }

  lemma PrintsFirst(cells: seq<Cell>)
    requires |cells| > 1
    ensures PrintCells(cells) == PrintCell(cells[0]) + "," + PrintCells(cells[1..])
  {
  }

  lemma Regrouped(a: string, b: string, c: string, d: string, e: string)
    ensures a + b + c + d + e == a + (b + (c + d + e))
  {
  }

  lemma TextsFirst(row: seq<string>, cells: seq<Cell>)
    requires cells != []
    ensures row + Texts(cells) == row + [cells[0].text] + Texts(cells[1..])
  {
  }

  lemma ReadComma(row: seq<string>, field: string, rest: string)
    ensures Rows(false, row, field, "," + rest) == Rows(false, row + [field], "", rest)
  {
    assert ("," + rest)[1..] == rest;
  }

  lemma EndingFollows(ending: Ending, rest: string)
    requires ending.NoEnd? ==> rest == ""
    ensures Follows(PrintEnding(ending) + rest)
  {
  }

  lemma ReadEnding(row: seq<string>, field: string, ending: Ending, rest: string)
    requires ending.NoEnd? ==> rest == ""
    ensures Rows(false, row, field, PrintEnding(ending) + rest) == Kept(row + [field]) + if ending.NoEnd? then [] else RowsOf(rest)
  {
    match ending {
      case LF => assert ("\n" + rest)[1..] == rest;
      case CRLF =>
        assert ("\r\n" + rest)[1..] == "\n" + rest;
        assert ("\n" + rest)[1..] == rest;
      case NoEnd => assert "" + rest == "";
    }
  }

  /** Reading what the writer wrote gives its records back, whatever was quoted
      and however lines end, except that records of one empty field disappear. */
  lemma {:induction false} ReadPrinted(rows: seq<Row>)
    requires Printable(rows)
    ensures RowsOf(PrintRows(rows)) == Filled(Records(rows))
    decreases |rows|
  {
    if rows != [] {
      var rest := PrintRows(rows[1..]);
      ReadPrinted(rows[1..]);
      if rows[0].ending.NoEnd? {
        assert rows[1..] == [];
      }
      ReadCells([], rows[0].cells, rows[0].ending, rest);
      assert [] + Texts(rows[0].cells) == Texts(rows[0].cells);
      assert Records(rows)[1..] == Records(rows[1..]);
    }
  }

  /** The round trip is exact if and only if no record is a single empty field. */
  lemma RoundTripIff(rows: seq<Row>)
    requires Printable(rows)
    ensures RowsOf(PrintRows(rows)) == Records(rows) <==> [""] !in Records(rows)
  {
    ReadPrinted(rows);
    FilledIff(Records(rows));
  }

  lemma {:induction false} FilledIff(records: seq<Record>)
    ensures |Filled(records)| <= |records|
    ensures Filled(records) == records <==> [""] !in records
    ensures |Filled(records)| == |records| ==> [""] !in records
  {
    if records != [] {
      FilledIff(records[1..]);
      var r := records[0];
      if Kept(r) == [] {
        assert r == [""];
      } else {
        assert Filled(records) == [r] + Filled(records[1..]);
        assert records == [r] + records[1..];
      }
    }
  }

  // ---- the keyed stage ----

  /** An object has exactly the named columns of the header. */
  lemma {:induction false} ObjectKeys(header: seq<string>, r: seq<string>, h: string)
    ensures h in Object(header, r) <==> h != "" && h != "__proto__" && h in header
    decreases |header|
  {
    if header != [] {
      hide Trim;
      var n := |header| - 1;
      ObjectKeys(header[..n], r, h);
      InLast(header, h);
    }
  }

  lemma InLast(header: seq<string>, h: string)
    requires header != []
    ensures h in header <==> h in header[..|header| - 1] || h == header[|header| - 1]
  {
    assert header == header[..|header| - 1] + [header[|header| - 1]];
  }

  /** Under a name it has the trimmed field of the last column so named; a short row reads as empty. */
  lemma {:induction false} ObjectAt(header: seq<string>, r: seq<string>, i: nat)
    requires i < |header| && header[i] !in header[i + 1..]
    ensures header[i] in Object(header, r) <==> Keyed(header[i])
    ensures Keyed(header[i]) ==> Object(header, r)[header[i]] == Trim(if i < |r| then r[i] else "", JsSpace)
    decreases |header|
  {
    hide Trim;
    ObjectKeys(header, r, header[i]);
    var n := |header| - 1;
    if i < n {
      assert header[i + 1..][n - i - 1] == header[n];
      assert header[i + 1..] == header[..n][i + 1..] + [header[n]];
      ObjectAt(header[..n], r, i);
    }
  }

  /** A whole table, written and parsed: every record after the header comes back
      as an object that has the named columns, no others, and gives each distinct
      column name its own field, names and fields without the white space around
      them, or empty where the record is too short. */
  lemma TableReadsBack(rows: seq<Row>, lower: string -> string, k: nat, i: nat)
    requires Printable(rows) && |rows| > 0 && [""] !in Records(rows)
    requires 0 < k < |Records(rows)| && i < |Records(rows)[0]|
    requires forall j | i < j < |Records(rows)[0]| ::
      lower(Trim(Records(rows)[0][j], JsSpace)) != lower(Trim(Records(rows)[0][i], JsSpace))
    ensures var objects := Objects(RowsOf(PrintRows(rows)), lower);
      var header, record := Records(rows)[0], Records(rows)[k];
      var name := lower(Trim(header[i], JsSpace));
      && |objects| == |Records(rows)| - 1
      && (Keyed(name) ==> name in objects[k - 1] && objects[k - 1][name] == if i < |record| then Trim(record[i], JsSpace) else "")
      && forall h :: h in objects[k - 1] <==> Keyed(h) && exists j | 0 <= j < |header| :: h == lower(Trim(header[j], JsSpace))
  {
    hide Trim, Records, PrintRows, RowsOf, Object, Printable;
    RoundTripIff(rows);
    var header, record := Records(rows)[0], Records(rows)[k];
    var names := Names(header, lower);
    TrimTrimmed("");
    ObjectAt(names, record, i);
    forall h ensures h in Object(names, record) <==> Keyed(h) && exists j | 0 <= j < |header| :: h == lower(Trim(header[j], JsSpace)) {
      ObjectKeys(names, record, h);
      if j :| 0 <= j < |header| && h == lower(Trim(header[j], JsSpace)) {
        assert names[j] == h;
      }
    }
  }

  lemma TrimTrimmed(s: string)
    requires Trimmed(s, JsSpace)
    ensures Trim(s, JsSpace) == s
  {
    hide Trim, Trimmed, JsSpace;
    assert AllSpace("", JsSpace);
    TrimPadded("", s, "", JsSpace);
    assert "" + s + "" == s;
  }
}
