/** The catalogue's CSV automaton, and the printings under section 2 of RFC 4180 that it reads back. */
module Csv {

  type Row = seq<string>

  /** A row is kept when one of its cells is not empty. */
  predicate IsBlank(row: Row) {
    forall cell :: cell in row ==> cell == ""
  }

  function Kept(row: Row): seq<Row> {
    if IsBlank(row) then [] else [row]
  }

  /** What the rest of the contents adds, from a state of the automaton. */
  function ParseFrom(rest: string, row: Row, value: string, quoted: bool): seq<Row>
    decreases |rest|
  {
    if rest == "" then Kept(row + [value])
    else
      var c, after := rest[0], rest[1..];
      if c == '\"' then
        if quoted && after != "" && after[0] == '\"' then ParseFrom(after[1..], row, value + "\"", quoted)
        else ParseFrom(after, row, value, !quoted)
      else if c == ',' && !quoted then ParseFrom(after, row + [value], "", quoted)
      else if (c == '\n' || c == '\r') && !quoted then
        Kept(row + [value])
        + ParseFrom(if c == '\r' && after != "" && after[0] == '\n' then after[1..] else after, [], "", quoted)
      else ParseFrom(after, row, value + [c], quoted)
  }

  /** `parseCsv`. */
  method ParseCsv(contents: string) returns (rows: seq<Row>)
    ensures rows == ParseFrom(contents, [], "", false)
  {
    hide ParseFrom, IsBlank;
    assert contents[0..] == contents;
    rows := [];
    var row: Row := [];
    var value, quoted, index := "", false, 0;
    while index < |contents|
      invariant index <= |contents|
      invariant rows + ParseFrom(contents[index..], row, value, quoted) == ParseFrom(contents, [], "", false)
    {
      Tail(contents, index);
      Step(contents[index..], row, value, quoted);
      var character := contents[index];
      if character == '\"' {
        if quoted && index + 1 < |contents| && contents[index + 1] == '\"' {
          value := value + "\"";
          index := index + 1;
        } else {
          quoted := !quoted;
        }
      } else if character == ',' && !quoted {
        row := row + [value];
        value := "";
      } else if (character == '\n' || character == '\r') && !quoted {
        if character == '\r' && index + 1 < |contents| && contents[index + 1] == '\n' {
          index := index + 1;
        }
        row := row + [value];
        Associate(rows, Kept(row), ParseFrom(contents[index + 1..], [], "", quoted));
        if !IsBlank(row) {
          rows := rows + [row];
        }
        row := [];
        value := "";
      } else {
        value := value + [character];
      }
      index := index + 1;
    }
    assert contents[index..] == "";
    Step("", row, value, quoted);
    Associate(rows, Kept(row + [value]), []);
    row := row + [value];
    if !IsBlank(row) {
      rows := rows + [row];
    }
  }

  /** The automaton's next move. */
  lemma Step(rest: string, row: Row, value: string, quoted: bool)
    ensures rest == "" ==> ParseFrom(rest, row, value, quoted) == Kept(row + [value])
    ensures rest != "" ==>
              var c, after := rest[0], rest[1..];
              ParseFrom(rest, row, value, quoted) ==
                if c == '\"' && quoted && after != "" && after[0] == '\"' then ParseFrom(after[1..], row, value + "\"", quoted)
                else if c == '\"' then ParseFrom(after, row, value, !quoted)
                else if c == ',' && !quoted then ParseFrom(after, row + [value], "", quoted)
                else if c == '\r' && !quoted && after != "" && after[0] == '\n' then
                  Kept(row + [value]) + ParseFrom(after[1..], [], "", quoted)
                else if (c == '\n' || c == '\r') && !quoted then Kept(row + [value]) + ParseFrom(after, [], "", quoted)
                else ParseFrom(after, row, value + [c], quoted)
  {
    hide Kept;
  }

  lemma Associate(a: seq<Row>, b: seq<Row>, c: seq<Row>)
    ensures a + (b + c) == a + b + c
    ensures b == [] ==> a + b == a
  {
  }

  lemma Tail(contents: string, index: nat)
    requires index < |contents|
    ensures contents[index..][0] == contents[index] && contents[index..][1..] == contents[index + 1..]
    ensures index + 1 < |contents| ==>
              contents[index + 1..][0] == contents[index + 1] && contents[index + 1..][1..] == contents[index + 2..]
  {
  }

  // ----- Nothing is lost -----

  /** The text without its structure: outside quotes no commas and line breaks, and no quotes but the second of two inside quotes. */
  function Stripped(rest: string, quoted: bool): string
    decreases |rest|
  {
    if rest == "" then ""
    else if rest[0] == '\"' then
      if quoted && |rest| > 1 && rest[1] == '\"' then "\"" + Stripped(rest[2..], true) else Stripped(rest[1..], !quoted)
    else if !quoted && (rest[0] == ',' || rest[0] == '\n' || rest[0] == '\r') then Stripped(rest[1..], false)
    else [rest[0]] + Stripped(rest[1..], quoted)
  }

  function Joined(row: Row): string {
    if row == [] then "" else Joined(row[..|row| - 1]) + row[|row| - 1]
  }

  function JoinedRows(rows: seq<Row>): string {
    if rows == [] then "" else Joined(rows[0]) + JoinedRows(rows[1..])
  }

  lemma JoinedMore(row: Row, value: string)
    ensures Joined(row + [value]) == Joined(row) + value
  {
    assert (row + [value])[..|row|] == row;
  }

  lemma {:induction false} JoinedBlank(row: Row)
    requires IsBlank(row)
    ensures Joined(row) == ""
  {
    if row != [] {
      var front := row[..|row| - 1];
      assert row[|row| - 1] in row;
      forall cell | cell in front ensures cell == "" {
        assert cell in row;
      }
      JoinedBlank(front);
    }
  }

  lemma JoinedKept(row: Row, rows: seq<Row>)
    ensures JoinedRows(Kept(row) + rows) == Joined(row) + JoinedRows(rows)
  {
    if IsBlank(row) {
      JoinedBlank(row);
      assert Kept(row) + rows == rows;
    } else {
      assert (Kept(row) + rows)[1..] == rows;
    }
  }

  /** Every character of any text, well formed or not, that is no structure ends up in the cells, in its order. */
  lemma {:induction false} TextIsKept(rest: string, row: Row, value: string, quoted: bool)
    ensures JoinedRows(ParseFrom(rest, row, value, quoted)) == Joined(row) + value + Stripped(rest, quoted)
    decreases |rest|
  {
    hide Kept, IsBlank, JoinedRows, Joined, ParseFrom, Stripped;
    Step(rest, row, value, quoted);
    StripStep(rest, quoted);
    JoinedMore(row, value);
    NothingJoined();
    if rest == "" {
      RowAlone(row + [value]);
    } else {
      var c, after := rest[0], rest[1..];
      if c == '\"' {
        if quoted && after != "" && after[0] == '\"' {
          TextIsKept(after[1..], row, value + "\"", quoted);
          Regroup(Joined(row), value, "\"", Stripped(after[1..], true));
        } else {
          TextIsKept(after, row, value, !quoted);
        }
      } else if c == ',' && !quoted {
        TextIsKept(after, row + [value], "", quoted);
      } else if (c == '\n' || c == '\r') && !quoted {
        var next := if c == '\r' && after != "" && after[0] == '\n' then after[1..] else after;
        TextIsKept(next, [], "", quoted);
        JoinedKept(row + [value], ParseFrom(next, [], "", quoted));
      } else {
        TextIsKept(after, row, value + [c], quoted);
        Regroup(Joined(row), value, [c], Stripped(after, quoted));
      }
    }
  }

  lemma Regroup(joined: string, value: string, more: string, rest: string)
    ensures joined + (value + more) + rest == joined + value + (more + rest)
    ensures "" + "" + rest == rest
  {
  }

  lemma StripStep(rest: string, quoted: bool)
    ensures rest == "" ==> Stripped(rest, quoted) == ""
    ensures rest != "" ==>
              var c, after := rest[0], rest[1..];
              Stripped(rest, quoted) ==
                if c == '\"' && quoted && after != "" && after[0] == '\"' then "\"" + Stripped(after[1..], true)
                else if c == '\"' then Stripped(after, !quoted)
                else if (c == '\n' || c == '\r') && !quoted then
                  Stripped(if c == '\r' && after != "" && after[0] == '\n' then after[1..] else after, false)
                else if c == ',' && !quoted then Stripped(after, false)
                else [c] + Stripped(after, quoted)
  {
    if |rest| > 1 {
      assert rest[2..] == rest[1..][1..];
    }
  }

  lemma RowAlone(row: Row)
    ensures JoinedRows(Kept(row)) == Joined(row)
  {
    JoinedKept(row, []);
    assert Kept(row) + [] == Kept(row);
  }

  lemma NothingJoined()
    ensures Joined([]) == "" && JoinedRows([]) == ""
  {
  }

  // ----- Printing -----

  datatype Break = Lf | Cr | CrLf

  /** A cell is written between quotes or as it is, whichever the printer likes where both are allowed. */
  datatype Cell = Cell(text: string, quoted: bool)

  datatype Line = Line(cells: seq<Cell>, end: Break)

  predicate NeedsQuotes(text: string) {
    exists i :: 0 <= i < |text| && (text[i] == '\"' || text[i] == ',' || text[i] == '\n' || text[i] == '\r')
  }

  predicate IsPrintable(lines: seq<Line>) {
    forall line :: line in lines ==>
      line.cells != [] && forall cell :: cell in line.cells ==> cell.quoted || !NeedsQuotes(cell.text)
  }

  /** Quotes are doubled. */
  function Escape(text: string): string {
    if text == "" then ""
    else (if text[0] == '\"' then "\"\"" else [text[0]]) + Escape(text[1..])
  }

  function PrintCell(cell: Cell): string {
    if cell.quoted then "\"" + Escape(cell.text) + "\"" else cell.text
  }

  function PrintCells(cells: seq<Cell>): string {
    if cells == [] then ""
    else if |cells| == 1 then PrintCell(cells[0])
    else PrintCell(cells[0]) + "," + PrintCells(cells[1..])
  }

  function PrintBreak(end: Break): string {
    match end
    case Lf => "\n"
    case Cr => "\r"
    case CrLf => "\r\n"
  }

  /** The lines, with or without the last line's break. */
  function Print(lines: seq<Line>, final: bool): string {
    if lines == [] then ""
    else if |lines| == 1 && !final then PrintCells(lines[0].cells)
    else PrintCells(lines[0].cells) + PrintBreak(lines[0].end) + Print(lines[1..], final)
  }

  function Texts(cells: seq<Cell>): Row {
    if cells == [] then [] else [cells[0].text] + Texts(cells[1..])
  }

  /** The table, minus the rows whose cells are all empty. */
  function Table(lines: seq<Line>): seq<Row> {
    if lines == [] then []
    else
      var row := Texts(lines[0].cells);
      (if exists cell :: cell in row && cell != "" then [row] else []) + Table(lines[1..])
  }

  /** The automaton's test of a row. */
  lemma KeptExactlyWhen(row: Row)
    ensures Kept(row) == if exists cell :: cell in row && cell != "" then [row] else []
  {
  }

  // ----- Reading back -----

  lemma {:induction false} ReadQuoted(text: string, rest: string, row: Row, value: string)
    requires rest == "" || rest[0] != '\"'
    ensures ParseFrom(Escape(text) + "\"" + rest, row, value, true) == ParseFrom(rest, row, value + text, false)
    decreases |text|
  {
    hide IsBlank;
    var all := Escape(text) + "\"" + rest;
    if text == "" {
      assert all == "\"" + rest && all[1..] == rest;
      assert value + "" == value;
    } else {
      var more := Escape(text[1..]) + "\"" + rest;
      ReadQuoted(text[1..], rest, row, value + [text[0]]);
      assert value + [text[0]] + text[1..] == value + text;
      if text[0] == '\"' {
        assert all == "\"\"" + more && all[1..] == "\"" + more && all[1..][1..] == more;
        assert value + [text[0]] == value + "\"";
      } else {
        assert all == [text[0]] + more && all[1..] == more;
      }
    }
  }

  lemma {:induction false} ReadPlain(text: string, rest: string, row: Row, value: string)
    requires !NeedsQuotes(text)
    ensures ParseFrom(text + rest, row, value, false) == ParseFrom(rest, row, value + text, false)
    decreases |text|
  {
    hide IsBlank;
    if text == "" {
      assert text + rest == rest && value + text == value;
    } else {
      assert text[0] != '\"' && text[0] != ',' && text[0] != '\n' && text[0] != '\r';
      assert !NeedsQuotes(text[1..]) by {
        assert forall i :: 0 <= i < |text| - 1 ==> text[1..][i] == text[i + 1];
      }
      assert (text + rest)[1..] == text[1..] + rest;
      ReadPlain(text[1..], rest, row, value + [text[0]]);
      assert value + [text[0]] + text[1..] == value + text;
    }
  }

  lemma ReadCell(cell: Cell, rest: string, row: Row)
    requires cell.quoted || !NeedsQuotes(cell.text)
    requires rest == "" || rest[0] != '\"'
    ensures ParseFrom(PrintCell(cell) + rest, row, "", false) == ParseFrom(rest, row, cell.text, false)
  {
    hide IsBlank, NeedsQuotes;
    assert "" + cell.text == cell.text;
    if cell.quoted {
      var inner := Escape(cell.text) + "\"" + rest;
      assert PrintCell(cell) + rest == "\"" + inner && ("\"" + inner)[1..] == inner;
      ReadQuoted(cell.text, rest, row, "");
    } else {
      ReadPlain(cell.text, rest, row, "");
    }
  }

  /** The cells of a line become the row, up to the last value. */
  lemma {:induction false} ReadCells(cells: seq<Cell>, rest: string, row: Row)
    requires cells != [] && (rest == "" || rest[0] != '\"')
    requires forall cell :: cell in cells ==> cell.quoted || !NeedsQuotes(cell.text)
    ensures var all := row + Texts(cells);
            ParseFrom(PrintCells(cells) + rest, row, "", false)
            == ParseFrom(rest, all[..|all| - 1], all[|all| - 1], false)
    decreases |cells|
  {
    hide IsBlank, NeedsQuotes, PrintCell, PrintCells, Kept, ParseFrom, Texts;
    var first := cells[0];
    TextsLength(cells);
    if |cells| == 1 {
      ReadCell(first, rest, row);
      OneText(cells, row);
    } else {
      MoreTexts(cells, rest, row);
      ReadCell(first, "," + (PrintCells(cells[1..]) + rest), row);
      ReadComma(PrintCells(cells[1..]) + rest, row, first.text);
      ReadCells(cells[1..], rest, row + [first.text]);
    }
  }

  lemma MoreTexts(cells: seq<Cell>, rest: string, row: Row)
    requires |cells| > 1
    ensures PrintCells(cells) + rest == PrintCell(cells[0]) + ("," + (PrintCells(cells[1..]) + rest))
    ensures row + [cells[0].text] + Texts(cells[1..]) == row + Texts(cells)
  {
    hide PrintCell;
    MoreText(cells, row);
    var first, others := PrintCell(cells[0]), PrintCells(cells[1..]);
    assert (first + "," + others) + rest == first + ("," + (others + rest));
  }

  lemma MoreText(cells: seq<Cell>, row: Row)
    requires |cells| > 1
    ensures row + [cells[0].text] + Texts(cells[1..]) == row + Texts(cells)
  {
  }

  lemma OneText(cells: seq<Cell>, row: Row)
    requires |cells| == 1
    ensures PrintCells(cells) == PrintCell(cells[0])
    ensures var all := row + Texts(cells); all[..|all| - 1] == row && all[|all| - 1] == cells[0].text
  {
    assert Texts(cells) == [cells[0].text] + Texts([]);
  }

  lemma ReadComma(rest: string, row: Row, value: string)
    ensures ParseFrom("," + rest, row, value, false) == ParseFrom(rest, row + [value], "", false)
  {
    hide IsBlank, Kept;
    assert ("," + rest)[1..] == rest;
  }

  /** An empty line changes nothing, so a line feed after a carriage return may as well belong to it. */
  lemma ReadBreak(end: Break, rest: string, row: Row, value: string)
    ensures ParseFrom(PrintBreak(end) + rest, row, value, false) == Kept(row + [value]) + ParseFrom(rest, [], "", false)
  {
    hide IsBlank;
    var all := PrintBreak(end) + rest;
    assert all[1..] == if end.CrLf? then "\n" + rest else rest;
    assert end.CrLf? ==> ("\n" + rest)[1..] == rest;
    if end.Cr? && rest != "" && rest[0] == '\n' {
      BlankLine();
    }
  }

  lemma BlankLine()
    ensures Kept([] + [""]) == []
  {
  }

  lemma BlankEnd()
    ensures ParseFrom("", [], "", false) == []
  {
  }

  ghost predicate IsLine(line: Line) {
    line.cells != [] && forall cell :: cell in line.cells ==> cell.quoted || !NeedsQuotes(cell.text)
  }

  lemma SplitLast(row: Row)
    requires row != []
    ensures [] + row == row && row == row[..|row| - 1] + [row[|row| - 1]]
  {
  }

  lemma ReadLine(line: Line, rest: string)
    requires IsLine(line)
    ensures ParseFrom(PrintCells(line.cells) + PrintBreak(line.end) + rest, [], "", false)
            == Kept(Texts(line.cells)) + ParseFrom(rest, [], "", false)
  {
    hide IsBlank, NeedsQuotes, PrintCell, PrintCells, Kept, ParseFrom, Texts;
    var texts, tail := Texts(line.cells), PrintBreak(line.end) + rest;
    TextsLength(line.cells);
    SplitLast(texts);
    assert PrintCells(line.cells) + PrintBreak(line.end) + rest == PrintCells(line.cells) + tail;
    ReadCells(line.cells, tail, []);
    ReadBreak(line.end, rest, texts[..|texts| - 1], texts[|texts| - 1]);
  }

  lemma ReadLastLine(line: Line)
    requires IsLine(line)
    ensures ParseFrom(PrintCells(line.cells), [], "", false) == Kept(Texts(line.cells))
  {
    hide IsBlank, NeedsQuotes, PrintCell, PrintCells, Kept, Texts;
    var texts := Texts(line.cells);
    TextsLength(line.cells);
    SplitLast(texts);
    assert PrintCells(line.cells) + "" == PrintCells(line.cells);
    ReadCells(line.cells, "", []);
  }

  /** Whatever is printed reads back as the table without its blank rows: for every choice of quotes and line breaks, with
      or without a final break. */
  lemma {:induction false} RoundTrip(lines: seq<Line>, final: bool)
    requires IsPrintable(lines)
    ensures ParseFrom(Print(lines, final), [], "", false) == Table(lines)
  {
    hide NeedsQuotes, PrintCells, Kept, ParseFrom, PrintBreak, Texts;
    if lines == [] {
      BlankEnd();
    } else {
      assert lines[0] in lines;
      assert IsLine(lines[0]);
      KeptExactlyWhen(Texts(lines[0].cells));
      if |lines| == 1 && !final {
        ReadLastLine(lines[0]);
        assert Table(lines) == Kept(Texts(lines[0].cells)) + Table([]);
      } else {
        ReadLine(lines[0], Print(lines[1..], final));
        RoundTrip(lines[1..], final);
      }
    }
  }

  lemma {:induction false} TextsLength(cells: seq<Cell>)
    ensures |Texts(cells)| == |cells|
  {
    if cells != [] {
      TextsLength(cells[1..]);
    }
  }

  // ----- What is read can be printed again -----

  /** No row read is empty or blank. */
  lemma {:induction false} RowsAreKept(rest: string, row: Row, value: string, quoted: bool)
    ensures forall r :: r in ParseFrom(rest, row, value, quoted) ==> r != [] && !IsBlank(r)
    decreases |rest|
  {
    hide IsBlank;
    if rest != "" {
      var c, after := rest[0], rest[1..];
      if c == '\"' && quoted && after != "" && after[0] == '\"' {
        RowsAreKept(after[1..], row, value + "\"", quoted);
      } else if c == '\"' {
        RowsAreKept(after, row, value, !quoted);
      } else if c == ',' && !quoted {
        RowsAreKept(after, row + [value], "", quoted);
      } else if (c == '\n' || c == '\r') && !quoted {
        RowsAreKept(if c == '\r' && after != "" && after[0] == '\n' then after[1..] else after, [], "", quoted);
      } else {
        RowsAreKept(after, row, value + [c], quoted);
      }
    }
  }

  /** A printer that quotes every cell. */
  function Quoted(rows: seq<Row>): seq<Line> {
    if rows == [] then [] else [Line(QuotedCells(rows[0]), CrLf)] + Quoted(rows[1..])
  }

  function QuotedCells(row: Row): (cells: seq<Cell>)
    ensures |cells| == |row| && forall i :: 0 <= i < |row| ==> cells[i] == Cell(row[i], true)
  {
    seq(|row|, i requires 0 <= i < |row| => Cell(row[i], true))
  }

  lemma {:induction false} QuotedIsPrintable(rows: seq<Row>)
    requires forall r :: r in rows ==> r != []
    ensures IsPrintable(Quoted(rows))
  {
    hide NeedsQuotes;
    if rows != [] {
      assert rows[0] in rows;
      assert forall r :: r in rows[1..] ==> r in rows;
      QuotedIsPrintable(rows[1..]);
    }
  }

  lemma {:induction false} TextsOfQuoted(cells: seq<Cell>, row: Row)
    requires |cells| == |row| && forall i :: 0 <= i < |row| ==> cells[i].text == row[i]
    ensures Texts(cells) == row
  {
    if row != [] {
      assert forall i :: 0 <= i < |row| - 1 ==> cells[1..][i].text == row[1..][i];
      TextsOfQuoted(cells[1..], row[1..]);
      assert [row[0]] + row[1..] == row;
    } else {
      assert cells == [];
    }
  }

  lemma {:induction false} TableOfQuoted(rows: seq<Row>)
    requires forall r :: r in rows ==> !IsBlank(r)
    ensures Table(Quoted(rows)) == rows
  {
    hide IsBlank;
    if rows != [] {
      KeptExactlyWhen(rows[0]);
      TextsOfQuoted(QuotedCells(rows[0]), rows[0]);
      TableOfQuoted(rows[1..]);
      assert rows[0] in rows;
      assert [rows[0]] + rows[1..] == rows;
    }
  }

  /** For every text whatever: what is read from it, printed and read again, is the same table. */
  lemma ReadingIsIdempotent(contents: string, final: bool)
    ensures var rows := ParseFrom(contents, [], "", false);
            ParseFrom(Print(Quoted(rows), final), [], "", false) == rows
  {
    hide ParseFrom, Print, Quoted, IsPrintable, Table;
    var rows := ParseFrom(contents, [], "", false);
    RowsAreKept(contents, [], "", false);
    QuotedIsPrintable(rows);
    TableOfQuoted(rows);
    RoundTrip(Quoted(rows), final);
  }
}
