/**
 * CSV exports: quoted cells with a guard against spreadsheet formulas, read back by a reader that
 * follows section 2 of RFC 4180.
 */
module Csv {
  import opened Options

  // ---------------------------------------------------------------- writing

  /** What a cell holds, as text; `null` and `undefined` are empty. */
  function Guarded(x: Option<string>): string {
    var s := if x.Some? then x.value else "";
    if s != "" && s[0] in "=+-@\t\r" then "'" + s else s
  }

  function Doubled(s: string): string {
    if s == "" then "" else (if s[0] == '"' then "\"\"" else [s[0]]) + Doubled(s[1..])
  }

  function CsvCell(x: Option<string>): string {
    "\"" + Doubled(Guarded(x)) + "\""
  }

  function Joined(parts: seq<string>, sep: string): string {
    if parts == [] then "" else if |parts| == 1 then parts[0] else parts[0] + sep + Joined(parts[1..], sep)
  }

  function Line(row: seq<Option<string>>): string {
    Joined(seq(|row|, i requires 0 <= i < |row| => CsvCell(row[i])), ",")
  }

  /** The file: a byte order mark, the plain names of the columns, and a line for each row. */
  function Export(header: seq<string>, rows: seq<seq<Option<string>>>): string {
    "\U{FEFF}" + Joined([Joined(header, ",")] + seq(|rows|, i requires 0 <= i < |rows| => Line(rows[i])), "\r\n")
  }

  // ---------------------------------------------------------------- reading

  predicate Textdata(c: char) {
    c != ',' && c != '"' && c != '\r' && c != '\n'
  }

  /** The rest of a quoted field: its text, and what follows the closing quote. */
  function ReadQuoted(s: string): Option<(string, string)> {
    if s == "" then None
    else if s[0] != '"' then
      match ReadQuoted(s[1..]) { case None => None case Some(r) => Some(([s[0]] + r.0, r.1)) }
    else if |s| > 1 && s[1] == '"' then
      match ReadQuoted(s[2..]) { case None => None case Some(r) => Some(("\"" + r.0, r.1)) }
    else Some(("", s[1..]))
  }

  function ReadPlain(s: string): (r: (string, string))
    ensures |r.1| <= |s|
  {
    if s == "" || !Textdata(s[0]) then ("", s)
    else var r := ReadPlain(s[1..]); ([s[0]] + r.0, r.1)
  }

  function ReadField(s: string): Option<(string, string)> {
    if s != "" && s[0] == '"' then ReadQuoted(s[1..]) else Some(ReadPlain(s))
  }

  lemma {:induction false} QuotedShrinks(s: string)
    ensures ReadQuoted(s).Some? ==> |ReadQuoted(s).value.1| < |s|
    decreases |s|
  {
    if s != "" {
      if s[0] != '"' { QuotedShrinks(s[1..]); }
      else if |s| > 1 && s[1] == '"' { QuotedShrinks(s[2..]); }
    }
  }

  lemma FieldShrinks(s: string)
    ensures ReadField(s).Some? ==> |ReadField(s).value.1| <= |s|
  {
    if s != "" && s[0] == '"' { QuotedShrinks(s[1..]); }
  }

  /** Fields up to the end of the line or of the file, and what follows. */
  function ReadRecord(s: string): (r: Option<(seq<string>, string)>)
    ensures r.Some? ==> |r.value.1| <= |s|
    decreases |s|
  {
    FieldShrinks(s);
    match ReadField(s)
    case None => None
    case Some(f) =>
      if f.1 != "" && f.1[0] == ',' then
        match ReadRecord(f.1[1..]) { case None => None case Some(r) => Some(([f.0] + r.0, r.1)) }
      else Some(([f.0], f.1))
  }

  /** Records with CRLF between them; the last may or may not end with one. */
  function ReadAll(s: string): Option<seq<seq<string>>>
    decreases |s|
  {
    match ReadRecord(s)
    case None => None
    case Some(r) =>
      if r.1 == "" || r.1 == "\r\n" then Some([r.0])
      else if |r.1| > 2 && r.1[..2] == "\r\n" then
        match ReadAll(r.1[2..]) { case None => None case Some(more) => Some([r.0] + more) }
      else None
  }

  function ReadFile(s: string): Option<seq<seq<string>>> {
    ReadAll(if s != "" && s[0] == '\U{FEFF}' then s[1..] else s)
  }

  // ---------------------------------------------------------------- reading what was written

  /** Where a field may end. */
  predicate Ends(rest: string) {
    rest == "" || rest[0] == ',' || rest[0] == '\r'
  }

  /** The reader takes `written` for a field holding `text`, wherever it stands. */
  ghost predicate Reads(written: string, text: string) {
    forall rest :: Ends(rest) ==> ReadField(written + rest) == Some((text, rest))
  }

  lemma {:induction false} QuotedReads(text: string, rest: string)
    requires rest == "" || rest[0] != '"'
    ensures ReadQuoted(Doubled(text) + "\"" + rest) == Some((text, rest))
  {
    var s := Doubled(text) + "\"" + rest;
    if text == "" {
      assert s == "\"" + rest;
    } else {
      QuotedReads(text[1..], rest);
      var tail := Doubled(text[1..]) + "\"" + rest;
      assert text == [text[0]] + text[1..];
      if text[0] == '"' {
        assert s == "\"\"" + tail && s[2..] == tail;
      } else {
        assert s == [text[0]] + tail && s[1..] == tail;
      }
    }
  }

  lemma CellReads(x: Option<string>)
    ensures Reads(CsvCell(x), Guarded(x))
  {
    hide ReadQuoted, Doubled, Guarded, ReadPlain;
    forall rest | Ends(rest) ensures ReadField(CsvCell(x) + rest) == Some((Guarded(x), rest)) {
      QuotedReads(Guarded(x), rest);
      var s := CsvCell(x) + rest;
      assert s[0] == '"' && s[1..] == Doubled(Guarded(x)) + "\"" + rest;
    }
  }

  lemma {:induction false} PlainReads(name: string, rest: string)
    requires (forall c <- name :: Textdata(c)) && Ends(rest)
    ensures ReadPlain(name + rest) == (name, rest)
  {
    if name == "" {
      assert name + rest == rest;
    } else {
      assert name[0] in name && name == [name[0]] + name[1..];
      PlainReads(name[1..], rest);
      assert (name + rest)[1..] == name[1..] + rest;
    }
  }

  lemma NameReads(name: string)
    requires forall c <- name :: Textdata(c)
    ensures Reads(name, name)
  {
    forall rest | Ends(rest) ensures ReadField(name + rest) == Some((name, rest)) {
      PlainReads(name, rest);
      if name == "" { assert name + rest == rest; } else { assert name[0] in name; }
    }
  }

  /** Fields joined by commas are read as one record. */
  lemma {:induction false} RecordReads(written: seq<string>, texts: seq<string>, rest: string)
    requires written != [] && |texts| == |written| && (rest == "" || rest[0] == '\r')
    requires forall i :: 0 <= i < |written| ==> Reads(written[i], texts[i])
    ensures ReadRecord(Joined(written, ",") + rest) == Some((texts, rest))
    decreases |written|
  {
    assert Reads(written[0], texts[0]);
    var s := Joined(written, ",") + rest;
    if |written| == 1 {
      assert texts == [texts[0]];
    } else {
      var after := Joined(written[1..], ",") + rest;
      assert s == written[0] + ("," + after);
      assert ("," + after)[0] == ',' && ("," + after)[1..] == after;
      RecordReads(written[1..], texts[1..], rest);
      assert texts == [texts[0]] + texts[1..];
    }
  }

  /** A line that the reader takes for a record, at the end or before another. */
  ghost predicate LineReads(line: string, record: seq<string>) {
    && (forall rest :: rest == "" || rest[0] == '\r' ==> ReadRecord(line + rest) == Some((record, rest)))
    && line != ""
  }

  lemma JoinedNotEmpty(written: seq<string>)
    requires written != [] && written[0] != ""
    ensures Joined(written, ",") != ""
  {
  }

  /** Lines joined by CRLF are read as one record each. */
  lemma {:induction false} AllReads(lines: seq<string>, records: seq<seq<string>>)
    requires lines != [] && |records| == |lines|
    requires forall i :: 0 <= i < |lines| ==> LineReads(lines[i], records[i])
    ensures ReadAll(Joined(lines, "\r\n")) == Some(records)
    decreases |lines|
  {
    assert LineReads(lines[0], records[0]);
    hide ReadRecord;
    var s := Joined(lines, "\r\n");
    if |lines| == 1 {
      assert s == lines[0] + "";
      assert ReadRecord(lines[0] + "") == Some((records[0], ""));
      assert records == [records[0]];
    } else {
      var after := Joined(lines[1..], "\r\n");
      assert s == lines[0] + ("\r\n" + after);
      AllReads(lines[1..], records[1..]);
      assert after != "" by { assert LineReads(lines[1], records[1]); }
      FirstLine(lines[0], records[0], after);
      assert records == [records[0]] + records[1..];
    }
  }

  lemma FirstLine(line: string, record: seq<string>, after: string)
    requires LineReads(line, record) && after != ""
    ensures ReadAll(line + ("\r\n" + after)) ==
        match ReadAll(after) { case None => None case Some(more) => Some([record] + more) }
  {
    var rest := "\r\n" + after;
    assert rest[0] == '\r' && rest[..2] == "\r\n" && rest[2..] == after;
    assert ReadRecord(line + rest) == Some((record, rest));
  }

  /**
   * The export is read back as exactly the table it was made from: the column names, then a record
   * for each row with the guarded text of each cell. No content adds or removes a row or a field.
   */
  lemma ExportReadsBack(header: seq<string>, rows: seq<seq<Option<string>>>)
    requires header != [] && header[0] != "" && forall h <- header :: forall c <- h :: Textdata(c)
    requires forall r <- rows :: r != []
    ensures ReadFile(Export(header, rows)) ==
        Some([header] + seq(|rows|, i requires 0 <= i < |rows| => GuardedRow(rows[i])))
  {
    var lines := [Joined(header, ",")] + seq(|rows|, i requires 0 <= i < |rows| => Line(rows[i]));
    var records := [header] + seq(|rows|, i requires 0 <= i < |rows| => GuardedRow(rows[i]));
    forall i | 0 <= i < |lines| ensures LineReads(lines[i], records[i]) {
      if i == 0 { HeaderReads(header); } else {
        assert rows[i - 1] in rows;
        RowReads(rows[i - 1]);
      }
    }
    AllReads(lines, records);
    assert Export(header, rows)[1..] == Joined(lines, "\r\n");
  }

  function GuardedRow(row: seq<Option<string>>): seq<string> {
    seq(|row|, i requires 0 <= i < |row| => Guarded(row[i]))
  }

  lemma HeaderReads(header: seq<string>)
    requires header != [] && header[0] != "" && forall h <- header :: forall c <- h :: Textdata(c)
    ensures LineReads(Joined(header, ","), header)
  {
    forall i | 0 <= i < |header| ensures Reads(header[i], header[i]) {
      assert header[i] in header;
      NameReads(header[i]);
    }
    forall rest | rest == "" || rest[0] == '\r' ensures ReadRecord(Joined(header, ",") + rest) == Some((header, rest)) {
      RecordReads(header, header, rest);
    }
    JoinedNotEmpty(header);
  }

  lemma RowReads(row: seq<Option<string>>)
    requires row != []
    ensures LineReads(Line(row), GuardedRow(row))
  {
    var written := seq(|row|, i requires 0 <= i < |row| => CsvCell(row[i]));
    forall i | 0 <= i < |row| ensures Reads(written[i], GuardedRow(row)[i]) {
      CellReads(row[i]);
    }
    forall rest | rest == "" || rest[0] == '\r'
        ensures ReadRecord(Joined(written, ",") + rest) == Some((GuardedRow(row), rest)) {
      RecordReads(written, GuardedRow(row), rest);
    }
    JoinedNotEmpty(written);
  }

  /** No cell of the export starts like a formula, and a text that does not is left as it is. */
  lemma NoFormula(x: Option<string>)
    ensures Guarded(x) != "" ==> Guarded(x)[0] !in "=+-@\t\r"
    ensures x.Some? ==> Guarded(x) == x.value || Guarded(x) == "'" + x.value
    ensures x.Some? && (x.value == "" || x.value[0] !in "=+-@\t\r") ==> Guarded(x) == x.value
  {
  }
}
