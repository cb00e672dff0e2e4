/**
 * The rows the import loop sees. Tokenising is the CSV library's business,
 * so a line arrives already split into cells; a cell is `None` where the
 * library yields `nil`. What is modelled is what `parsed_csv` and the loop
 * do to those lines: drop the instruction preamble, take the header, drop
 * rows whose every value is blank, and read cells by fixed column positions.
 */
module CsvRows {
  import opened Wrappers

  type Cell = Option<string>
  type Row = seq<Cell>

  /** Lines of instructions at the top of the file (`IGNORE_LINES`). */
  const IgnoreLines: nat := 5

  /** `COLUMN_POSITIONS`. */
  const NameColumn: nat := 0
  const PriceColumn: nat := 1
  const Category1Column: nat := 2
  const Category2Column: nat := 3
  const Category3Column: nat := 4
  const DescriptionColumn: nat := 5

  /** `row[column]`: a position past the end of the row reads as `nil`. */
  function CellAt(row: Row, column: nat): (c: Cell)
    ensures column >= |row| ==> c == None
  {
    if column < |row| then row[column] else None
  }

  /** A column the row reaches reads as that cell. */
  lemma CellAtInRow(row: Row, column: nat)
    requires column < |row|
    ensures CellAt(row, column) == row[column]
  {
  }

  /** The category names of a row come from its cells 2, 3 and 4 when it reaches them. */
  lemma CategoryNamesOfCells(row: Row)
    requires |row| > Category3Column
    ensures CategoryNames(row) == Present([row[Category1Column]]) + Present([row[Category2Column]]) + Present([row[Category3Column]])
  {
    CellAtInRow(row, Category1Column);
    CellAtInRow(row, Category2Column);
    CellAtInRow(row, Category3Column);
    CategoryNamesInColumnOrder(row);
  }

  predicate IsWhitespace(c: char) {
    c == ' ' || c == '\t' || c == '\n' || c == '\U{B}' || c == '\U{C}' || c == '\r'
  }

  /** `blank?`: `nil`, or a string of whitespace only (the empty string included). */
  predicate IsBlank(cell: Cell) {
    cell.None? || forall i :: 0 <= i < |cell.value| ==> IsWhitespace(cell.value[i])
  }

  /**
   * Column `i` is the first one under its header name. A column past the end
   * of the header has the `nil` header, as has an empty header field, so all
   * of those share one name.
   */
  predicate FirstUnderHeader(header: Row, i: nat) {
    forall j :: 0 <= j < i ==> CellAt(header, j) != CellAt(header, i)
  }

  /**
   * `row.to_hash.values.all?(&:blank?)`. `to_hash` keeps one value per
   * distinct header name, the one of the first column under that name, so a
   * cell under a repeated name is never looked at. A column the row does not
   * reach holds `nil`, which is blank.
   */
  predicate AllBlank(header: Row, row: Row) {
    forall i :: 0 <= i < |row| && FirstUnderHeader(header, i) ==> IsBlank(row[i])
  }

  /** A row whose every cell is blank is all blank under any header. */
  lemma AllBlankOfBlankCells(header: Row, row: Row)
    requires forall i :: 0 <= i < |row| ==> IsBlank(row[i])
    ensures AllBlank(header, row)
  {
  }

  /** Under a header of distinct names that covers the row, the test looks at every cell. */
  lemma AllBlankDistinctHeader(header: Row, row: Row)
    requires |row| <= |header|
    requires forall i, j :: 0 <= i < j < |header| ==> header[i] != header[j]
    ensures AllBlank(header, row) <==> forall i :: 0 <= i < |row| ==> IsBlank(row[i])
  {
    forall i | 0 <= i < |row|
      ensures FirstUnderHeader(header, i)
    {
      forall j | 0 <= j < i
        ensures CellAt(header, j) != CellAt(header, i)
      {
        assert header[j] != header[i];
      }
    }
  }

  /**
   * Under the header `name,price,category,category,category,description` the
   * row `,,,Shoes,,` has a category name, and yet it is all blank: its one
   * value sits under the second `category`.
   */
  lemma RepeatedHeaderHidesCell()
    ensures var header := [Some("name"), Some("price"), Some("category"), Some("category"), Some("category"), Some("description")];
      var row := [None, None, None, Some("Shoes"), None, None];
      AllBlank(header, row) && CategoryNames(row) == ["Shoes"]
  {
    var header := [Some("name"), Some("price"), Some("category"), Some("category"), Some("category"), Some("description")];
    var row: Row := [None, None, None, Some("Shoes"), None, None];
    assert !FirstUnderHeader(header, 3) by {
      assert CellAt(header, 2) == CellAt(header, 3);
    }
    CategoryNamesInColumnOrder(row);
    PresentOne(None);
    PresentOne(Some("Shoes"));
  }

  /** Cells past the end of the header share the `nil` header, so only the first of them is looked at. */
  lemma ExtraCellsShareNilHeader()
    ensures AllBlank([Some("name")], [Some(" "), None, Some("x")])
  {
    assert !FirstUnderHeader([Some("name")], 2) by {
      assert CellAt([Some("name")], 1) == CellAt([Some("name")], 2);
    }
  }

  /** The `delete_if` filter: the rows that have some non-blank value, in their order. */
  function DropBlankRows(header: Row, rows: seq<Row>): (kept: seq<Row>)
    ensures |kept| <= |rows|
  {
    if rows == [] then []
    else (if AllBlank(header, rows[0]) then [] else [rows[0]]) + DropBlankRows(header, rows[1..])
  }

  /** The filter keeps exactly the rows that have some non-blank value. */
  lemma {:induction false} DropBlankRowsMembers(header: Row, rows: seq<Row>)
    ensures forall r :: r in DropBlankRows(header, rows) <==> r in rows && !AllBlank(header, r)
  {
    if rows != [] {
      DropBlankRowsMembers(header, rows[1..]);
      assert rows == [rows[0]] + rows[1..];
    }
  }

  /** The filter works row by row, so it keeps the order of the rows it keeps. */
  lemma {:induction false} DropBlankRowsAppend(header: Row, a: seq<Row>, b: seq<Row>)
    ensures DropBlankRows(header, a + b) == DropBlankRows(header, a) + DropBlankRows(header, b)
  {
    if a == [] {
      assert a + b == b;
    } else {
      assert (a + b)[1..] == a[1..] + b;
      DropBlankRowsAppend(header, a[1..], b);
    }
  }

  /** A file without blank rows loses none. */
  lemma {:induction false} DropBlankRowsKeepsAll(header: Row, rows: seq<Row>)
    requires forall i :: 0 <= i < |rows| ==> !AllBlank(header, rows[i])
    ensures DropBlankRows(header, rows) == rows
  {
    if rows != [] {
      DropBlankRowsKeepsAll(header, rows[1..]);
    }
  }

  /** A parsed table: the header line and the data lines under it. */
  datatype Table = Table(header: Row, data: seq<Row>)

  /**
   * `headers: true` with `skip_blanks`: the parser passes over lines that
   * hold no field at all, the first line it does return is the header, and
   * the rest are data. Without such a line there is no header and no data.
   */
  function SplitHeader(lines: seq<Row>): (t: Table)
    ensures |t.data| < |lines| || lines == []
    ensures lines != [] && lines[0] != [] ==> t == Table(lines[0], lines[1..])
    ensures t.header == [] ==> t.data == []
  {
    if lines == [] then Table([], [])
    else if lines[0] == [] then SplitHeader(lines[1..])
    else Table(lines[0], lines[1..])
  }

  /** Lines without any field before the header change nothing. */
  lemma {:induction false} SplitHeaderSkipsEmptyLines(empties: seq<Row>, lines: seq<Row>)
    requires forall i :: 0 <= i < |empties| ==> empties[i] == []
    ensures SplitHeader(empties + lines) == SplitHeader(lines)
  {
    if empties == [] {
      assert empties + lines == lines;
    } else {
      assert (empties + lines)[0] == [];
      assert (empties + lines)[1..] == empties[1..] + lines;
      SplitHeaderSkipsEmptyLines(empties[1..], lines);
    }
  }

  /** `lines.drop(IGNORE_LINES)`. */
  function AfterPreamble(lines: seq<Row>): (rest: seq<Row>)
    ensures |lines| > IgnoreLines ==> |rest| == |lines| - IgnoreLines
    ensures |lines| <= IgnoreLines ==> rest == []
  {
    if |lines| <= IgnoreLines then [] else lines[IgnoreLines..]
  }

  /** The header the rows of a file are read under. */
  function FileHeader(lines: seq<Row>): Row {
    SplitHeader(AfterPreamble(lines)).header
  }

  /** `parsed_csv`: drop the preamble, parse under the header, drop all-blank rows. */
  function ParsedCsv(lines: seq<Row>): (rows: seq<Row>)
    ensures forall i :: 0 <= i < |rows| ==> !AllBlank(FileHeader(lines), rows[i])
    ensures |lines| <= IgnoreLines + 1 ==> rows == []
  {
    var table := SplitHeader(AfterPreamble(lines));
    DropBlankRowsMembers(table.header, table.data);
    DropBlankRows(table.header, table.data)
  }

  /** What the first lines say never matters: any preamble of the right length gives the same rows. */
  lemma PreambleIgnored(preamble: seq<Row>, other: seq<Row>, rest: seq<Row>)
    requires |preamble| == |other| == IgnoreLines
    ensures ParsedCsv(preamble + rest) == ParsedCsv(other + rest)
  {
    assert (preamble + rest)[IgnoreLines..] == rest;
    assert (other + rest)[IgnoreLines..] == rest;
  }

  /** Under a non-empty header line, the rows are the lines that follow it, without the all-blank ones. */
  lemma ParsedCsvUnderHeader(preamble: seq<Row>, header: Row, data: seq<Row>)
    requires |preamble| == IgnoreLines && header != []
    ensures FileHeader(preamble + [header] + data) == header
    ensures ParsedCsv(preamble + [header] + data) == DropBlankRows(header, data)
  {
    var lines := preamble + [header] + data;
    assert lines[IgnoreLines..] == [header] + data;
    assert ([header] + data)[1..] == data;
  }

  /** The filter drops an all-blank row wherever it stands. */
  lemma DropBlankRowsSkipsBlank(header: Row, before: seq<Row>, blank: Row, after: seq<Row>)
    requires AllBlank(header, blank)
    ensures DropBlankRows(header, before + [blank] + after) == DropBlankRows(header, before + after)
  {
    DropBlankRowsAppend(header, before + [blank], after);
    DropBlankRowsAppend(header, before, [blank]);
    DropBlankRowsAppend(header, before, after);
    assert DropBlankRows(header, [blank]) == [] by {
      assert [blank][1..] == [];
    }
  }

  /** An all-blank row after the header gets no number: the rows are as if it were not in the file. */
  lemma ParsedCsvIgnoresBlankRow(preamble: seq<Row>, header: Row, before: seq<Row>, blank: Row, after: seq<Row>)
    requires |preamble| == IgnoreLines && header != [] && AllBlank(header, blank)
    ensures ParsedCsv(preamble + [header] + before + [blank] + after) == ParsedCsv(preamble + [header] + before + after)
  {
    assert preamble + [header] + before + [blank] + after == preamble + [header] + (before + [blank] + after);
    assert preamble + [header] + before + after == preamble + [header] + (before + after);
    ParsedCsvUnderHeader(preamble, header, before + [blank] + after);
    ParsedCsvUnderHeader(preamble, header, before + after);
    DropBlankRowsSkipsBlank(header, before, blank, after);
  }

  /** The `filter { |category| category }` on a list of cells: the strings of the non-`nil` cells, in order. */
  function Present(cells: seq<Cell>): (names: seq<string>)
    ensures |names| <= |cells|
    ensures forall x :: x in names <==> Some(x) in cells
  {
    if cells == [] then []
    else (if cells[0].Some? then [cells[0].value] else []) + Present(cells[1..])
  }

  /** One cell: its string if it has one, nothing for `nil`. */
  lemma PresentOne(c: Cell)
    ensures c.Some? ==> Present([c]) == [c.value]
    ensures c.None? ==> Present([c]) == []
  {
    assert [c][1..] == [];
  }

  /** The filter works cell by cell, so it keeps order and repetitions. */
  lemma {:induction false} PresentAppend(a: seq<Cell>, b: seq<Cell>)
    ensures Present(a + b) == Present(a) + Present(b)
  {
    if a == [] {
      assert a + b == b;
    } else {
      assert (a + b)[1..] == a[1..] + b;
      PresentAppend(a[1..], b);
    }
  }

  /** The filter keeps every present cell, in order, when none is `nil`. */
  lemma {:induction false} PresentAllSome(cells: seq<Cell>)
    requires forall i :: 0 <= i < |cells| ==> cells[i].Some?
    ensures |Present(cells)| == |cells|
    ensures forall i :: 0 <= i < |cells| ==> Present(cells)[i] == cells[i].value
  {
    if cells != [] {
      PresentAllSome(cells[1..]);
    }
  }

  /** The category names of a row: cells 2, 3 and 4 without the `nil` ones; empty strings stay. */
  function CategoryNames(row: Row): (names: seq<string>)
    ensures |names| <= 3
    ensures forall x :: x in names <==>
      Some(x) == CellAt(row, Category1Column) || Some(x) == CellAt(row, Category2Column) || Some(x) == CellAt(row, Category3Column)
  {
    var cells := [CellAt(row, Category1Column), CellAt(row, Category2Column), CellAt(row, Category3Column)];
    Present(cells)
  }

  /** The names follow the column order 2, 3, 4, each non-`nil` cell giving one name, repetitions kept. */
  lemma CategoryNamesInColumnOrder(row: Row)
    ensures CategoryNames(row) ==
      Present([CellAt(row, Category1Column)]) + Present([CellAt(row, Category2Column)]) + Present([CellAt(row, Category3Column)])
  {
    var c1, c2, c3 := CellAt(row, Category1Column), CellAt(row, Category2Column), CellAt(row, Category3Column);
    assert [c1] + [c2, c3] == [c1, c2, c3];
    assert [c2] + [c3] == [c2, c3];
    PresentAppend([c1], [c2, c3]);
    PresentAppend([c2], [c3]);
  }

  /** A `nil` between two categories is dropped and the others keep their column order. */
  lemma CategoryNamesExample()
    ensures CategoryNames([Some("Boots"), Some("10"), Some("b"), None, Some("a")]) == ["b", "a"]
    ensures CategoryNames([Some("Boots"), Some("10"), Some("a"), Some("a")]) == ["a", "a"]
  {
    CategoryNamesInColumnOrder([Some("Boots"), Some("10"), Some("b"), None, Some("a")]);
    CategoryNamesInColumnOrder([Some("Boots"), Some("10"), Some("a"), Some("a")]);
    PresentOne(Some("a"));
    PresentOne(Some("b"));
    PresentOne(None);
  }
}
