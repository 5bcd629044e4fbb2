/**
 The report of licenses: cells that may be null, quoted and joined into rows, and a reader for the format
 of section 2 of RFC 4180 with LF as the line break.
 */
module CsvReport {
  import opened Options
  import Strings

  type Row = seq<Option<string>>

  /** Every double quote twice. */
  function Doubled(s: string): string {
    if s == "" then "" else (if s[0] == '"' then "\"\"" else [s[0]]) + Doubled(s[1..])
  }

  /** `escapeValue`; joining turns what it returns for null into nothing. */
  function EscapeValue(cell: Option<string>): string {
    match cell
    case None => ""
    case Some(text) => "\"" + Doubled(text) + "\""
  }

  function Cells(fields: seq<string>, values: map<string, Option<string>>): (row: Row)
    ensures |row| == |fields|
  {
    if fields == [] then []
    else [if fields[0] in values then values[fields[0]] else None] + Cells(fields[1..], values)
  }

  function Escaped(row: Row): (texts: seq<string>)
    ensures |texts| == |row|
  {
    if row == [] then [] else [EscapeValue(row[0])] + Escaped(row[1..])
  }

  function PrintRow(row: Row): string {
    Strings.Join(Escaped(row), ",")
  }

  function PrintedRows(rows: seq<Row>): (lines: seq<string>)
    ensures |lines| == |rows|
  {
    if rows == [] then [] else [PrintRow(rows[0])] + PrintedRows(rows[1..])
  }

  function PrintTable(rows: seq<Row>): string {
    Strings.Join(PrintedRows(rows), "\n")
  }

  /** The whole file: the names of the fields as they are, then the rows. */
  function Report(fields: seq<string>, packages: seq<map<string, Option<string>>>): string {
    Strings.Join(fields, ",") + "\n" + PrintTable(Table(fields, packages))
  }

  function Table(fields: seq<string>, packages: seq<map<string, Option<string>>>): (rows: seq<Row>)
    ensures |rows| == |packages| && forall k :: 0 <= k < |rows| ==> |rows[k]| == |fields|
  {
    if packages == [] then [] else [Cells(fields, packages[0])] + Table(fields, packages[1..])
  }

  // The reader. Each part returns what it read and what is left.

  /** The rest of a quoted field after its first quote. */
  function ReadQuoted(s: string): (r: Option<(string, string)>)
    ensures r.Some? ==> |r.value.1| < |s|
  {
    if s == "" then None
    else if s[0] != '"' then
      match ReadQuoted(s[1..]) case None => None case Some(r) => Some(([s[0]] + r.0, r.1))
    else if |s| > 1 && s[1] == '"' then
      match ReadQuoted(s[2..]) case None => None case Some(r) => Some((['"'] + r.0, r.1))
    else
      Some(("", s[1..]))
  }

  function ReadPlain(s: string): (r: (string, string))
    ensures |r.1| <= |s|
  {
    if s == "" || s[0] == ',' || s[0] == '\n' || s[0] == '"' then ("", s)
    else var r := ReadPlain(s[1..]); ([s[0]] + r.0, r.1)
  }

  /** An empty field without quotes is null. */
  function ReadCell(s: string): (r: Option<(Option<string>, string)>)
    ensures r.Some? ==> |r.value.1| <= |s|
  {
    if s != "" && s[0] == '"' then
      match ReadQuoted(s[1..]) case None => None case Some(r) => Some((Some(r.0), r.1))
    else
      var r := ReadPlain(s);
      Some((if r.0 == "" then None else Some(r.0), r.1))
  }

  function ReadRow(s: string): (r: Option<(Row, string)>)
    ensures r.Some? ==> |r.value.1| <= |s| && (r.value.1 == "" || r.value.1[0] == '\n')
    decreases |s|
  {
    match ReadCell(s)
    case None => None
    case Some((cell, rest)) =>
      if rest == "" || rest[0] == '\n' then Some(([cell], rest))
      else if rest[0] != ',' then None
      else match ReadRow(rest[1..]) case None => None case Some(r) => Some(([cell] + r.0, r.1))
  }

  /** The last row may end with a line break or not. */
  function ReadTable(s: string): Option<seq<Row>>
    decreases |s|
  {
    if s == "" then Some([])
    else
      match ReadRow(s)
      case None => None
      case Some((row, rest)) =>
        if rest == "" then Some([row])
        else match ReadTable(rest[1..]) case None => None case Some(rows) => Some([row] + rows)
  }

  // What has been printed is read back.

  lemma {:induction false} QuotedIsRead(text: string, rest: string)
    requires rest == "" || rest[0] != '"'
    ensures ReadQuoted(Doubled(text) + "\"" + rest) == Some((text, rest))
  {
    var s := Doubled(text) + "\"" + rest;
    if text == "" {
      assert s == "\"" + rest && s[1..] == rest;
    } else {
      QuotedIsRead(text[1..], rest);
      var tail := Doubled(text[1..]) + "\"" + rest;
      assert text == [text[0]] + text[1..];
      if text[0] == '"' {
        assert s == "\"\"" + tail && s[2..] == tail;
      } else {
        assert s == [text[0]] + tail && s[1..] == tail;
      }
    }
  }

  lemma CellIsRead(cell: Option<string>, rest: string)
    requires rest == "" || rest[0] == ',' || rest[0] == '\n'
    ensures ReadCell(EscapeValue(cell) + rest) == Some((cell, rest))
  {
    hide Doubled, ReadQuoted;
    var s := EscapeValue(cell) + rest;
    match cell
    case None =>
      assert s == rest;
    case Some(text) =>
      QuotedIsRead(text, rest);
      assert s[0] == '"' && s[1..] == Doubled(text) + "\"" + rest;
  }

  lemma PrintedRow(row: Row)
    requires row != []
    ensures PrintRow(row) == EscapeValue(row[0]) + if |row| == 1 then "" else "," + PrintRow(row[1..])
  {
    assert Escaped(row)[0] == EscapeValue(row[0]) && Escaped(row)[1..] == Escaped(row[1..]);
    if |row| > 1 {
      var first, more := EscapeValue(row[0]), Strings.Join(Escaped(row[1..]), ",");
      assert first + "," + more == first + ("," + more);
    } else {
      assert EscapeValue(row[0]) + "" == EscapeValue(row[0]);
    }
  }

  lemma {:induction false} RowIsRead(row: Row, rest: string)
    requires row != [] && (rest == "" || rest[0] == '\n')
    ensures ReadRow(PrintRow(row) + rest) == Some((row, rest))
    decreases |row|
  {
    hide PrintRow, EscapeValue, ReadCell;
    PrintedRow(row);
    if |row| == 1 {
      assert PrintRow(row) + rest == EscapeValue(row[0]) + rest;
      CellIsRead(row[0], rest);
      assert row == [row[0]];
    } else {
      var more := "," + (PrintRow(row[1..]) + rest);
      assert PrintRow(row) + rest == EscapeValue(row[0]) + more;
      assert more[1..] == PrintRow(row[1..]) + rest;
      CellIsRead(row[0], more);
      RowIsRead(row[1..], rest);
      assert row == [row[0]] + row[1..];
    }
  }

  lemma OnlyNullIsEmpty(row: Row)
    requires row != []
    ensures PrintRow(row) == "" <==> row == [None]
  {
    if |row| == 1 {
      assert Escaped(row) == [EscapeValue(row[0])] && row == [row[0]];
    } else {
      assert |Strings.Join(Escaped(row), ",")| >= 1;
    }
  }

  /** Exactly one kind of table is not read back: one whose last row is a single null, for which nothing is printed. */
  lemma {:induction false} TableIsRead(rows: seq<Row>)
    requires rows != [] && forall k :: 0 <= k < |rows| ==> rows[k] != []
    ensures ReadTable(PrintTable(rows)) == Some(if rows[|rows| - 1] == [None] then rows[..|rows| - 1] else rows)
    decreases |rows|
  {
    hide PrintRow, ReadRow;
    var s := PrintTable(rows);
    OnlyNullIsEmpty(rows[0]);
    assert rows == [rows[0]] + rows[1..];
    if |rows| == 1 {
      RowIsRead(rows[0], "");
      assert s == PrintRow(rows[0]) + "";
      assert rows == [rows[0]] && rows[..0] == [];
    } else {
      var rest := "\n" + PrintTable(rows[1..]);
      RowIsRead(rows[0], rest);
      assert PrintedRows(rows)[1..] == PrintedRows(rows[1..]);
      assert s == PrintRow(rows[0]) + rest && rest[1..] == PrintTable(rows[1..]);
      TableIsRead(rows[1..]);
      assert rows[1..][|rows| - 2] == rows[|rows| - 1];
      assert rows[..|rows| - 1] == [rows[0]] + rows[1..][..|rows| - 2];
    }
  }

  /** A table of at least two columns is read back, quotes, commas, line breaks and nulls included. */
  lemma RoundTrip(rows: seq<Row>)
    requires forall k :: 0 <= k < |rows| ==> |rows[k]| >= 2
    ensures ReadTable(PrintTable(rows)) == Some(rows)
  {
    if rows != [] {
      TableIsRead(rows);
    }
  }

  // The header.

  ghost predicate Plain(s: string) {
    s != "" && forall k :: 0 <= k < |s| ==> s[k] != ',' && s[k] != '\n' && s[k] != '"'
  }

  ghost function Present(fields: seq<string>): (row: Row)
    ensures |row| == |fields|
  {
    if fields == [] then [] else [Some(fields[0])] + Present(fields[1..])
  }

  lemma {:induction false} PlainIsRead(s: string, rest: string)
    requires forall k :: 0 <= k < |s| ==> s[k] != ',' && s[k] != '\n' && s[k] != '"'
    requires rest == "" || rest[0] == ',' || rest[0] == '\n'
    ensures ReadPlain(s + rest) == (s, rest)
  {
    if s == "" {
      assert s + rest == rest;
    } else {
      PlainIsRead(s[1..], rest);
      assert (s + rest)[1..] == s[1..] + rest && s == [s[0]] + s[1..];
    }
  }

  lemma {:induction false} HeaderIsRead(fields: seq<string>, rest: string)
    requires fields != [] && (forall k :: 0 <= k < |fields| ==> Plain(fields[k])) && (rest == "" || rest[0] == '\n')
    ensures ReadRow(Strings.Join(fields, ",") + rest) == Some((Present(fields), rest))
    decreases |fields|
  {
    var s := Strings.Join(fields, ",") + rest;
    if |fields| == 1 {
      PlainIsRead(fields[0], rest);
      assert Present(fields) == [Some(fields[0])];
    } else {
      var more := "," + Strings.Join(fields[1..], ",") + rest;
      assert s == fields[0] + more && more[1..] == Strings.Join(fields[1..], ",") + rest;
      PlainIsRead(fields[0], more);
      HeaderIsRead(fields[1..], rest);
    }
  }

  /** A row says of every field what the package says of it, null where it says nothing. */
  ghost predicate Lists(row: Row, fields: seq<string>, values: map<string, Option<string>>) {
    && |row| == |fields|
    && forall j :: 0 <= j < |row| ==> row[j] == if fields[j] in values then values[fields[j]] else None
  }

  ghost predicate ListsNames(row: Row, fields: seq<string>) {
    |row| == |fields| && forall j :: 0 <= j < |row| ==> row[j] == Some(fields[j])
  }

  lemma {:induction false} CellsList(fields: seq<string>, values: map<string, Option<string>>)
    ensures Lists(Cells(fields, values), fields, values)
  {
    if fields != [] {
      CellsList(fields[1..], values);
    }
  }

  lemma {:induction false} PresentLists(fields: seq<string>)
    ensures ListsNames(Present(fields), fields)
  {
    if fields != [] {
      PresentLists(fields[1..]);
    }
  }

  lemma {:induction false} TableLists(fields: seq<string>, packages: seq<map<string, Option<string>>>, k: nat)
    requires k < |packages|
    ensures Lists(Table(fields, packages)[k], fields, packages[k])
  {
    CellsList(fields, packages[0]);
    if k > 0 {
      TableLists(fields, packages[1..], k - 1);
    }
  }

  /** The file reads as the names of the fields, then for each package in turn what it says of every field. */
  lemma ReportIsRead(fields: seq<string>, packages: seq<map<string, Option<string>>>)
    requires |fields| >= 2 && forall k :: 0 <= k < |fields| ==> Plain(fields[k])
    ensures var read := ReadTable(Report(fields, packages));
            && read.Some?
            && |read.value| == 1 + |packages|
            && ListsNames(read.value[0], fields)
            && forall k :: 0 <= k < |packages| ==> Lists(read.value[k + 1], fields, packages[k])
  {
    hide PrintTable, ReadRow, Table, Lists, ListsNames;
    var rows := Table(fields, packages);
    var header, rest := Strings.Join(fields, ","), "\n" + PrintTable(rows);
    HeaderIsRead(fields, rest);
    assert Report(fields, packages) == header + rest && rest[1..] == PrintTable(rows);
    RoundTrip(rows);
    PresentLists(fields);
    var all := [Present(fields)] + rows;
    forall k | 0 <= k < |packages| ensures Lists(all[k + 1], fields, packages[k]) {
      TableLists(fields, packages, k);
      assert all[k + 1] == rows[k];
    }
  }

  // The licenses.

  datatype Package = Package(name: string, version: string, repository: Option<string>, licenses: seq<string>,
      sourceUrl: Option<string>)

  const FIELDS: seq<string> := ["name", "version", "url", "license", "sourceURL"]

  function Url(p: Package): string {
    if p.repository.Some? && p.repository.value != "" then p.repository.value
    else "https://www.npmjs.com/package/" + p.name
  }

  function Data(p: Package): map<string, Option<string>> {
    map[
      "name" := Some(p.name),
      "version" := Some(p.version),
      "url" := Some(Url(p)),
      "license" := Some(Strings.Join(p.licenses, ",")),
      "sourceURL" := p.sourceUrl
    ]
  }

  function AllData(packages: seq<Package>): (data: seq<map<string, Option<string>>>)
    ensures |data| == |packages|
  {
    seq(|packages|, k requires 0 <= k < |packages| => Data(packages[k]))
  }

  /** What the report of licenses says of each package. */
  lemma LicensesAreRead(packages: seq<Package>, k: nat)
    requires k < |packages|
    ensures var read := ReadTable(Report(FIELDS, AllData(packages)));
            && read.Some?
            && |read.value| == 1 + |packages|
            && read.value[0] == [Some("name"), Some("version"), Some("url"), Some("license"), Some("sourceURL")]
            && DescribesPackage(read.value[k + 1], packages[k])
  {
    hide Report, ReadTable, DescribesPackage;
    ReportIsRead(FIELDS, AllData(packages));
    var rows := ReadTable(Report(FIELDS, AllData(packages))).value;
    assert Lists(rows[k + 1], FIELDS, AllData(packages)[k]);
    RowDescribes(rows[k + 1], packages[k]);
  }

  /** Name, version, address, licenses, source; a package without a repository has its address at npm. */
  ghost predicate DescribesPackage(row: Row, p: Package) {
    && |row| == 5
    && row[0] == Some(p.name)
    && row[1] == Some(p.version)
    && row[2] == (match p.repository
                  case None => Some("https://www.npmjs.com/package/" + p.name)
                  case Some(url) => if url == "" then Some("https://www.npmjs.com/package/" + p.name) else Some(url))
    && row[3] == Some(Strings.Join(p.licenses, ","))
    && row[4] == p.sourceUrl
  }

  lemma RowDescribes(row: Row, p: Package)
    requires Lists(row, FIELDS, Data(p))
    ensures DescribesPackage(row, p)
  {
    FieldsDiffer();
    hide Strings.Join;
    assert FIELDS[0] == "name" && FIELDS[1] == "version" && FIELDS[2] == "url" && FIELDS[3] == "license"
        && FIELDS[4] == "sourceURL";
  }

  lemma FieldsDiffer()
    ensures |"name"| == 4 && |"version"| == 7 && |"url"| == 3 && |"license"| == 7 && |"sourceURL"| == 9
    ensures "version"[0] != "license"[0]
  {
  }

  /** Text as it is written: quotes doubled, nothing for null, nothing after the last row. */
  lemma WrittenText(first: map<string, Option<string>>, second: map<string, Option<string>>)
    requires first == map["a" := Some("x\"y")] && second == map["b" := Some("")]
    ensures Report(["a", "b"], [first, second]) == "a,b\n\"x\"\"y\",\n,\"\""
  {
    hide Doubled, EscapeValue, PrintRow, Cells;
    var fields, rows := ["a", "b"], [[Some("x\"y"), None], [None, Some("")]];
    WrittenCells(first, second);
    assert [first, second][1..] == [second] && [second][1..] == [];
    assert Table(fields, [second]) == [rows[1]];
    assert Table(fields, [first, second]) == rows;
    PrintedPair(Some("x\"y"), None);
    PrintedPair(None, Some(""));
    assert rows[1..] == [rows[1]] && [rows[1]][1..] == [];
    assert PrintedRows([rows[1]]) == [PrintRow(rows[1])];
    assert PrintedRows(rows) == [PrintRow(rows[0]), PrintRow(rows[1])];
    JoinOfTwo(PrintRow(rows[0]), PrintRow(rows[1]), "\n");
    JoinOfTwo("a", "b", ",");
    WrittenCell();
  }

  lemma WrittenCells(first: map<string, Option<string>>, second: map<string, Option<string>>)
    requires first == map["a" := Some("x\"y")] && second == map["b" := Some("")]
    ensures Cells(["a", "b"], first) == [Some("x\"y"), None] && Cells(["a", "b"], second) == [None, Some("")]
  {
    CellsList(["a", "b"], first);
    CellsList(["a", "b"], second);
  }

  lemma WrittenCell()
    ensures EscapeValue(Some("x\"y")) == "\"x\"\"y\"" && EscapeValue(Some("")) == "\"\"" && EscapeValue(None) == ""
  {
    assert "x\"y"[1..] == "\"y" && "\"y"[1..] == "y" && "y"[1..] == "";
    assert Doubled("y") == "y" && Doubled("\"y") == "\"\"y";
  }

  lemma PrintedPair(a: Option<string>, b: Option<string>)
    ensures PrintRow([a, b]) == EscapeValue(a) + "," + EscapeValue(b)
  {
    assert [a, b][1..] == [b] && [b][1..] == [];
    assert Escaped([b]) == [EscapeValue(b)] && Escaped([a, b]) == [EscapeValue(a), EscapeValue(b)];
    JoinOfTwo(EscapeValue(a), EscapeValue(b), ",");
  }

  lemma JoinOfTwo(a: string, b: string, sep: string)
    ensures Strings.Join([a, b], sep) == a + sep + b
  {
    assert [a, b][1..] == [b];
  }
}
