/**
 * Tables in `renderMarkdown`: the character-level splitter that turns a row
 * into cells (a `\|` is a literal pipe, never a split), the filter that drops
 * blank cells at the edges, and the loop over the rows of a table that skips
 * separator rows and gives the first row that yields cells `th` and every
 * later row `td`.
 *
 * `Scan` specifies the splitter on the rest of the row and the state between
 * characters; `SplitCells` is the loop, proved to compute it. `TableRows`
 * specifies the row loop; `BuildTable` is the loop.
 */
module MarkdownTable {
  import opened JsText

  /** The splitter from the given state on the rest of the row: `current` is
      the cell being built, `escaped` whether the last step consumed `\|`,
      `cells` the cells pushed so far. */
  function Scan(rest: string, current: string, escaped: bool, cells: seq<string>): seq<string>
    decreases |rest|
  {
    if rest == [] then (if !IsBlank(current) then cells + [current] else cells)
    else if rest[0] == '\\' && |rest| >= 2 && rest[1] == '|' then
      Scan(rest[2..], current + "|", true, cells)
    else if rest[0] == '|' && !escaped then
      Scan(rest[1..], "", escaped, if !IsBlank(current) || |cells| > 0 then cells + [current] else cells)
    else
      Scan(rest[1..], current + [rest[0]], false, cells)
  }

  /** The splitter over a whole row. */
  function Cells(row: string): seq<string> {
    Scan(row, "", false, [])
  }

  /** The character loop of the splitter. */
  method SplitCells(row: string) returns (cells: seq<string>)
    ensures cells == Cells(row)
  {
    cells := [];
    var current := "";
    var escaped := false;
    var i := 0;
    while i < |row|
      invariant 0 <= i <= |row|
      invariant Scan(row[i..], current, escaped, cells) == Cells(row)
    {
      var c := row[i];
      if c == '\\' && i + 1 < |row| && row[i + 1] == '|' {
        assert row[i..][2..] == row[i + 2..];
        current := current + "|";
        i := i + 1;
        escaped := true;
      } else if c == '|' && !escaped {
        assert row[i..][1..] == row[i + 1..];
        if Trim(current) != "" || |cells| > 0 {
          cells := cells + [current];
        }
        current := "";
      } else {
        assert row[i..][1..] == row[i + 1..];
        current := current + [c];
        escaped := false;
      }
      i := i + 1;
    }
    assert row[i..] == [];
    if Trim(current) != "" {
      cells := cells + [current];
    }
  }

  /** `cells.filter((cell, idx) => cell.trim() || (idx > 0 && idx < cells.length - 1))`
      from index `i` on. */
  function FilterFrom(cells: seq<string>, i: nat): seq<string>
    decreases |cells| - i
  {
    if i >= |cells| then []
    else if !IsBlank(cells[i]) || (0 < i < |cells| - 1) then [cells[i]] + FilterFrom(cells, i + 1)
    else FilterFrom(cells, i + 1)
  }

  function FilterCells(cells: seq<string>): seq<string> {
    FilterFrom(cells, 0)
  }

  /** The index of the first cell the filter keeps at the front. */
  function Lo(cells: seq<string>): nat {
    if |cells| > 0 && IsBlank(cells[0]) then 1 else 0
  }

  /** One past the index of the last cell the filter keeps at the back. */
  function Hi(cells: seq<string>): nat {
    if |cells| > 0 && IsBlank(cells[|cells| - 1]) then |cells| - 1 else |cells|
  }

  lemma {:induction false} FilterFromInterior(cells: seq<string>, i: nat)
    requires 1 <= i <= |cells|
    ensures FilterFrom(cells, i) == if i <= Hi(cells) then cells[i..Hi(cells)] else []
    decreases |cells| - i
  {
    if i < |cells| {
      var h := Hi(cells);
      FilterFromInterior(cells, i + 1);
      if i < |cells| - 1 {
        assert FilterFrom(cells, i) == [cells[i]] + FilterFrom(cells, i + 1);
        assert i < h && cells[i..h] == [cells[i]] + cells[i + 1..h];
      } else if IsBlank(cells[i]) {
        assert h == i && FilterFrom(cells, i) == FilterFrom(cells, i + 1) == [];
      } else {
        assert h == |cells| && FilterFrom(cells, i) == [cells[i]] + [];
        assert cells[i..h] == [cells[i]];
      }
    }
  }

  /** The filter drops a blank first cell and a blank last cell, and nothing else. */
  lemma FilterDropsBlankEdges(cells: seq<string>)
    ensures FilterCells(cells) == if Lo(cells) <= Hi(cells) then cells[Lo(cells)..Hi(cells)] else []
  {
    if |cells| > 0 {
      FilterFromInterior(cells, 1);
      if |cells| > 1 && !IsBlank(cells[0]) {
        assert cells[0..Hi(cells)] == [cells[0]] + cells[1..Hi(cells)];
      }
    }
  }

  /** Running the splitter on never drops the cells already pushed, and the
      first cell it ever pushes is not blank: a leading pipe (or any pipe
      after only blanks) makes no empty first cell. */
  lemma {:induction false} ScanFirstCellNotBlank(rest: string, current: string, escaped: bool, cells: seq<string>)
    ensures var out := Scan(rest, current, escaped, cells);
      |cells| <= |out| && out[..|cells|] == cells && (cells == [] && out != [] ==> !IsBlank(out[0]))
    decreases |rest|
  {
    if rest == [] {
    } else if rest[0] == '\\' && |rest| >= 2 && rest[1] == '|' {
      ScanFirstCellNotBlank(rest[2..], current + "|", true, cells);
    } else if rest[0] == '|' && !escaped {
      var next := if !IsBlank(current) || |cells| > 0 then cells + [current] else cells;
      ScanFirstCellNotBlank(rest[1..], "", escaped, next);
      var out := Scan(rest, current, escaped, cells);
      assert out[..|next|][..|cells|] == out[..|cells|];
    } else {
      ScanFirstCellNotBlank(rest[1..], current + [rest[0]], false, cells);
    }
  }

  /** The first cell of a row is never blank. */
  lemma FirstCellNotBlank(row: string)
    ensures Cells(row) != [] ==> !IsBlank(Cells(row)[0])
  {
    ScanFirstCellNotBlank(row, "", false, []);
  }

  // ----- Writing cells back into a row -----

  /** A cell written into a row: every `|` becomes `\|`. */
  function Escape(c: string): string {
    if c == [] then [] else (if c[0] == '|' then "\\|" else [c[0]]) + Escape(c[1..])
  }

  /** A cell that survives being written into a row: no backslash (which
      could pair with a following pipe) and no pipe at its end (an escaped
      pipe keeps the following separator from splitting). */
  predicate Writable(c: string) {
    (forall i | 0 <= i < |c| :: c[i] != '\\') && (c == [] || c[|c| - 1] != '|')
  }

  /** The cells written after a row's leading pipe, each followed by a pipe. */
  function CellsText(cs: seq<string>): string {
    if cs == [] then "" else Escape(cs[0]) + "|" + CellsText(cs[1..])
  }

  /** A row in the usual `| a | b |` form. */
  function RowText(cs: seq<string>): string {
    "|" + CellsText(cs)
  }

  /** The `escaped` flag after scanning an escaped cell. */
  function EscapedAfter(c: string, escaped: bool): bool {
    if c == [] then escaped else c[|c| - 1] == '|'
  }

  lemma {:induction false} ScanEscaped(c: string, r: string, current: string, escaped: bool, cells: seq<string>)
    requires forall i | 0 <= i < |c| :: c[i] != '\\'
    ensures Scan(Escape(c) + r, current, escaped, cells) == Scan(r, current + c, EscapedAfter(c, escaped), cells)
    decreases |c|
  {
    if c == [] {
      assert Escape(c) + r == r;
      assert current + c == current;
    } else {
      var t := c[1..];
      ScanEscaped(t, r, current + [c[0]], c[0] == '|', cells);
      assert current + [c[0]] + t == current + c;
      assert EscapedAfter(t, c[0] == '|') == EscapedAfter(c, escaped);
      ScanEscapedHead(c, r, current, escaped, cells);
    }
  }

  /** Scanning the escaped form of a cell's first character. */
  lemma ScanEscapedHead(c: string, r: string, current: string, escaped: bool, cells: seq<string>)
    requires c != [] && c[0] != '\\'
    ensures Scan(Escape(c) + r, current, escaped, cells)
         == Scan(Escape(c[1..]) + r, current + [c[0]], c[0] == '|', cells)
  {
    var rest := Escape(c[1..]) + r;
    if c[0] == '|' {
      var u := "\\|" + rest;
      assert Escape(c) + r == u;
      assert u[0] == '\\' && u[1] == '|' && u[2..] == rest;
    } else {
      var u := [c[0]] + rest;
      assert Escape(c) + r == u;
      assert u[0] == c[0] && u[1..] == rest;
    }
  }

  lemma {:induction false} ScanCellsText(cs: seq<string>, cells: seq<string>)
    requires forall k | 0 <= k < |cs| :: Writable(cs[k])
    requires cells != [] || (cs != [] && !IsBlank(cs[0]))
    ensures Scan(CellsText(cs), "", false, cells) == cells + cs
    decreases |cs|
  {
    if cs == [] {
      assert cells + cs == cells;
    } else {
      var c := cs[0];
      var rest := CellsText(cs[1..]);
      assert CellsText(cs) == Escape(c) + ("|" + rest);
      ScanEscaped(c, "|" + rest, "", false, cells);
      assert "" + c == c;
      assert ("|" + rest)[1..] == rest;
      ScanCellsText(cs[1..], cells + [c]);
      assert cells + [c] + cs[1..] == cells + cs;
    }
  }

  /** Writing cells into a row and splitting it gives the cells back, when
      the first is not blank and each is writable; the filter then keeps them
      all when the last is not blank either. A `\|` in the row is a literal
      pipe and never splits a cell. */
  lemma SplitRowText(cs: seq<string>)
    requires cs != [] && !IsBlank(cs[0])
    requires forall k | 0 <= k < |cs| :: Writable(cs[k])
    ensures Cells(RowText(cs)) == cs
    ensures !IsBlank(cs[|cs| - 1]) ==> FilterCells(Cells(RowText(cs))) == cs
  {
    var text := RowText(cs);
    assert text[0] == '|' && text[1..] == CellsText(cs);
    ScanCellsText(cs, []);
    assert [] + cs == cs;
    FilterDropsBlankEdges(cs);
  }

  /** Only an ordinary character clears `escaped`: in `|a\||b|` the pipe right
      after `\|` does not split, so the row is one cell `a||b`. */
  lemma PipeAfterEscapeKept()
    ensures Cells("|a\\||b|") == ["a||b"]
  {
    assert !IsSpace("a||b"[0]);
    calc {
      Cells("|a\\||b|");
      { assert "|a\\||b|"[1..] == "a\\||b|"; }
      Scan("a\\||b|", "", false, []);
      { assert "a\\||b|"[1..] == "\\||b|" && "" + ['a'] == "a"; }
      Scan("\\||b|", "a", false, []);
      { assert "\\||b|"[2..] == "|b|" && "a" + "|" == "a|"; }
      Scan("|b|", "a|", true, []);
      { assert "|b|"[1..] == "b|" && "a|" + ['|'] == "a||"; }
      Scan("b|", "a||", false, []);
      { assert "b|"[1..] == "|" && "a||" + ['b'] == "a||b"; }
      Scan("|", "a||b", false, []);
      { assert "|"[1..] == ""; }
      Scan("", "", false, ["a||b"]);
      ["a||b"];
    }
  }

  // ----- Rows -----

  /** A row of the rendered table: header cells (`th`) or data cells (`td`),
      each trimmed. */
  datatype TableRow = TableRow(header: bool, cells: seq<string>)

  /** A separator row: any row containing `---`. */
  predicate IsSeparator(row: string) {
    Contains(row, "---|") || Contains(row, "---")
  }

  /** The row loop from the given `isFirstRow` flag on. */
  function TableRows(rows: seq<string>, isFirstRow: bool): seq<TableRow>
    decreases |rows|
  {
    if rows == [] then []
    else if IsSeparator(rows[0]) then TableRows(rows[1..], isFirstRow)
    else
      var cells := FilterCells(Cells(rows[0]));
      if cells == [] then TableRows(rows[1..], isFirstRow)
      else [TableRow(isFirstRow, TrimAll(cells))] + TableRows(rows[1..], false)
  }

  /** `rows.forEach(...)` over the lines of a matched table, with the `isFirstRow` flag. */
  method BuildTable(tableMatch: string) returns (out: seq<TableRow>)
    ensures out == TableRows(Split(Trim(tableMatch), "\n"), true)
  {
    out := BuildRows(Split(Trim(tableMatch), "\n"));
  }

  /** The loop of `BuildTable` over the table's lines. */
  method BuildRows(rows: seq<string>) returns (out: seq<TableRow>)
    ensures out == TableRows(rows, true)
  {
    var isFirstRow := true;
    out := [];
    for i := 0 to |rows|
      invariant out + TableRows(rows[i..], isFirstRow) == TableRows(rows, true)
    {
      var row := rows[i];
      if !(Contains(row, "---|") || Contains(row, "---")) {
        var cells := SplitCells(row);
        var filteredCells := FilterCells(cells);
        if |filteredCells| > 0 {
          var tableRow := TableRow(isFirstRow, TrimAll(filteredCells));
          KeptStep(rows, i, isFirstRow, out, tableRow);
          out := out + [tableRow];
          isFirstRow := false;
        } else {
          SkippedStep(rows, i, isFirstRow);
        }
      } else {
        SkippedStep(rows, i, isFirstRow);
      }
    }
  }

  /** A row the loop skips leaves the rows still to emit unchanged. */
  lemma SkippedStep(rows: seq<string>, i: nat, isFirstRow: bool)
    requires i < |rows| && (IsSeparator(rows[i]) || FilterCells(Cells(rows[i])) == [])
    ensures TableRows(rows[i..], isFirstRow) == TableRows(rows[i + 1..], isFirstRow)
  {
    assert rows[i..][0] == rows[i] && rows[i..][1..] == rows[i + 1..];
  }

  /** A row the loop keeps moves from the rows still to emit to the output. */
  lemma KeptStep(rows: seq<string>, i: nat, isFirstRow: bool, out: seq<TableRow>, tableRow: TableRow)
    requires i < |rows| && !IsSeparator(rows[i]) && FilterCells(Cells(rows[i])) != []
    requires tableRow == TableRow(isFirstRow, TrimAll(FilterCells(Cells(rows[i]))))
    ensures out + TableRows(rows[i..], isFirstRow) == (out + [tableRow]) + TableRows(rows[i + 1..], false)
  {
    assert rows[i..][0] == rows[i] && rows[i..][1..] == rows[i + 1..];
  }

  /** The rows the loop keeps: those that are not separators and have a
      cell left after filtering. */
  function Kept(rows: seq<string>): seq<string>
    decreases |rows|
  {
    if rows == [] then []
    else if IsSeparator(rows[0]) || FilterCells(Cells(rows[0])) == [] then Kept(rows[1..])
    else [rows[0]] + Kept(rows[1..])
  }

  /** Every kept row is a row of the table that is not a separator. */
  lemma {:induction false} KeptFromRows(rows: seq<string>)
    ensures |Kept(rows)| <= |rows|
    ensures forall k | 0 <= k < |Kept(rows)| :: Kept(rows)[k] in rows && !IsSeparator(Kept(rows)[k])
    decreases |rows|
  {
    if rows != [] {
      KeptFromRows(rows[1..]);
      var rest := Kept(rows[1..]);
      forall k | 0 <= k < |Kept(rows)|
        ensures Kept(rows)[k] in rows && !IsSeparator(Kept(rows)[k])
      {
        if !(IsSeparator(rows[0]) || FilterCells(Cells(rows[0])) == []) && k == 0 {
        } else {
          var r := Kept(rows)[k];
          assert r in rest;
          assert r in rows[1..];
        }
      }
    }
  }

  lemma {:induction false} TableRowsLength(rows: seq<string>, isFirstRow: bool)
    ensures |TableRows(rows, isFirstRow)| == |Kept(rows)|
    decreases |rows|
  {
    if rows != [] {
      TableRowsLength(rows[1..], isFirstRow);
      TableRowsLength(rows[1..], false);
    }
  }

  lemma {:induction false} TableRowsHeader(rows: seq<string>, isFirstRow: bool)
    ensures forall i | 0 <= i < |TableRows(rows, isFirstRow)| ::
      TableRows(rows, isFirstRow)[i].header <==> (i == 0 && isFirstRow)
    decreases |rows|
  {
    if rows != [] {
      if IsSeparator(rows[0]) || FilterCells(Cells(rows[0])) == [] {
        TableRowsHeader(rows[1..], isFirstRow);
      } else {
        TableRowsHeader(rows[1..], false);
        var rest := TableRows(rows[1..], false);
        var out := TableRows(rows, isFirstRow);
        assert out == [TableRow(isFirstRow, TrimAll(FilterCells(Cells(rows[0]))))] + rest;
        assert forall i | 0 < i < |out| :: out[i] == rest[i - 1];
      }
    }
  }

  lemma {:induction false} TableRowsCells(rows: seq<string>, isFirstRow: bool)
    requires |TableRows(rows, isFirstRow)| == |Kept(rows)|
    ensures forall i | 0 <= i < |Kept(rows)| ::
      TableRows(rows, isFirstRow)[i].cells == TrimAll(FilterCells(Cells(Kept(rows)[i])))
    decreases |rows|
  {
    if rows != [] {
      if IsSeparator(rows[0]) || FilterCells(Cells(rows[0])) == [] {
        TableRowsCells(rows[1..], isFirstRow);
      } else {
        TableRowsLength(rows[1..], false);
        TableRowsCells(rows[1..], false);
        var rest := TableRows(rows[1..], false);
        var out := TableRows(rows, isFirstRow);
        var kept := Kept(rows[1..]);
        assert out == [TableRow(isFirstRow, TrimAll(FilterCells(Cells(rows[0]))))] + rest;
        assert Kept(rows) == [rows[0]] + kept;
        forall i | 0 < i < |Kept(rows)|
          ensures out[i].cells == TrimAll(FilterCells(Cells(Kept(rows)[i])))
        {
          assert out[i] == rest[i - 1] && Kept(rows)[i] == kept[i - 1];
        }
      }
    }
  }

  /** The emitted rows are the kept rows, one for one and in order: the
      first is the header row (when the loop starts with `isFirstRow`), every
      other a data row, each holding its row's filtered cells trimmed. */
  lemma HeaderOnlyFirst(rows: seq<string>, isFirstRow: bool)
    ensures var out := TableRows(rows, isFirstRow);
      && |out| == |Kept(rows)|
      && (forall i | 0 <= i < |out| :: out[i].header <==> (i == 0 && isFirstRow))
      && (forall i | 0 <= i < |out| :: out[i].cells == TrimAll(FilterCells(Cells(Kept(rows)[i]))))
  {
    TableRowsLength(rows, isFirstRow);
    TableRowsHeader(rows, isFirstRow);
    TableRowsCells(rows, isFirstRow);
  }
}
