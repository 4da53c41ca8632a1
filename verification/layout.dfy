/** `Table.save`: column widths are the longest cell of each column over
    all rows, header included, and every cell after the first gets enough
    leading spaces that the cells of a column start at one offset in every
    written line. CSV quoting is not modelled: a line is its cells joined
    with commas. */
module Layout {
  import opened Results
  import opened Text
  import opened Registry

  function Max(a: nat, b: nat): nat
  {
    if a >= b then a else b
  }

  /** `widths.get(i, 0)`. */
  function Get(w: map<nat, nat>, i: nat): nat
  {
    if i in w then w[i] else 0
  }

  /** The longest cell in column `i`, 0 when no row reaches it: the width
      the save loop is meant to find. */
  function ColumnWidth(rows: Table, i: nat): (n: nat)
    ensures forall r :: 0 <= r < |rows| && i < |rows[r]| ==> |rows[r][i]| <= n
  {
    if |rows| == 0 then 0
    else
      var last := rows[|rows| - 1];
      assert forall r :: 0 <= r < |rows| - 1 ==> rows[r] == rows[..|rows| - 1][r];
      Max(ColumnWidth(rows[..|rows| - 1], i), if i < |last| then |last[i]| else 0)
  }

  /** A positive column width is the length of some cell in the column. */
  lemma {:induction false} ColumnWidthAttained(rows: Table, i: nat)
    requires ColumnWidth(rows, i) > 0
    ensures exists r :: 0 <= r < |rows| && i < |rows[r]| && |rows[r][i]| == ColumnWidth(rows, i)
  {
    var prefix := rows[..|rows| - 1];
    var last := rows[|rows| - 1];
    if i < |last| && |last[i]| == ColumnWidth(rows, i) {
      assert |rows[|rows| - 1][i]| == ColumnWidth(rows, i);
    } else {
      ColumnWidthAttained(prefix, i);
      var r :| 0 <= r < |prefix| && i < |prefix[r]| && |prefix[r][i]| == ColumnWidth(prefix, i);
      assert rows[r] == prefix[r];
    }
  }

  /** The inner loop of the width pass over the first `k` cells of `row`:
      a width is stored only when a cell is longer than the stored one (or
      than 0), so only positive widths are ever stored. */
  function WidenCells(w: map<nat, nat>, row: Row, k: nat): (r: map<nat, nat>)
    requires k <= |row|
    requires forall i :: i in w ==> w[i] > 0
    ensures forall i :: i in r ==> r[i] > 0
    ensures forall i: nat :: Get(r, i) == Max(Get(w, i), if i < k then |row[i]| else 0)
    ensures forall i: nat :: i in r <==> Get(r, i) > 0
  {
    if k == 0 then w
    else
      var v := WidenCells(w, row, k - 1);
      if |row[k - 1]| > Get(v, k - 1) then v[k - 1 := |row[k - 1]|] else v
  }

  /** The width pass of `save` over all rows. */
  function Widths(rows: Table): (w: map<nat, nat>)
    ensures forall i :: i in w ==> w[i] > 0
    ensures forall i: nat :: Get(w, i) == ColumnWidth(rows, i)
    ensures forall i: nat :: i in w <==> ColumnWidth(rows, i) > 0
  {
    if |rows| == 0 then map[]
    else WidenCells(Widths(rows[..|rows| - 1]), rows[|rows| - 1], |rows[|rows| - 1]|)
  }

  /** Python's `" " * n`: no characters for a count below one. */
  function Repeat(n: int): (s: string)
    ensures |s| == if n <= 0 then 0 else n
    ensures forall k :: 0 <= k < |s| ==> s[k] == ' '
  {
    if n <= 0 then "" else Spaces(n)
  }

  /** A row as `save` formats it when every width it needs was stored:
      cell `i > 0` is preceded by `1 + widths[i-1] - len(row[i-1])`
      spaces. `None` is the `KeyError` of `widths[i - 1]` for a column that
      is empty in every row. */
  function FormatRowAsWritten(w: map<nat, nat>, row: Row): (r: Option<seq<string>>)
    ensures r.Some? <==> forall i :: 0 <= i < |row| - 1 ==> i in w
    ensures r.Some? ==> |r.value| == |row|
    decreases |row|
  {
    if |row| == 0 then Some([])
    else if |row| == 1 then Some([row[0]])
    else
      match FormatRowAsWritten(w, row[..|row| - 1])
      case None => None
      case Some(prefix) =>
        var i := |row| - 1;
        if i - 1 !in w then None
        else Some(prefix + [Repeat(1 + w[i - 1] - |row[i - 1]|) + row[i]])
  }

  /** `save` as written: `None` when some row needs a width that was never
      stored. */
  function SaveAsWritten(rows: Table): (r: Option<Table>)
    ensures r.Some? ==> |r.value| == |rows|
  {
    FormatAllAsWritten(Widths(rows), rows)
  }

  function FormatAllAsWritten(w: map<nat, nat>, rows: Table): (r: Option<Table>)
    ensures r.Some? ==> |r.value| == |rows|
    ensures r.Some? <==> forall k :: 0 <= k < |rows| ==> FormatRowAsWritten(w, rows[k]).Some?
    ensures r.Some? ==> forall k :: 0 <= k < |rows| ==> r.value[k] == FormatRowAsWritten(w, rows[k]).value
  {
    if |rows| == 0 then Some([])
    else
      match FormatAllAsWritten(w, rows[..|rows| - 1])
      case None =>
        assert forall k :: 0 <= k < |rows| - 1 ==> rows[..|rows| - 1][k] == rows[k];
        None
      case Some(prefix) =>
        match FormatRowAsWritten(w, rows[|rows| - 1])
        case None => None
        case Some(last) =>
          assert forall k :: 0 <= k < |rows| - 1 ==> rows[..|rows| - 1][k] == rows[k];
          Some(prefix + [last])
  }

  /** The leading spaces of cell `i`, reading a missing width as 0. */
  function PadWidth(w: map<nat, nat>, row: Row, i: nat): int
    requires i < |row|
  {
    if i == 0 then 0 else 1 + Get(w, i - 1) - |row[i - 1]|
  }

  /** `cell` is `content` after leading spaces only. */
  predicate PaddedCell(cell: string, content: string)
  {
    && |content| <= |cell| && cell[|cell| - |content|..] == content
    && forall k :: 0 <= k < |cell| - |content| ==> cell[k] == ' '
  }

  /** Every saved cell is its content after leading spaces only. */
  lemma SavePadded(rows: Table, k: nat, i: nat)
    requires k < |rows| && i < |rows[k]|
    ensures PaddedCell(Save(rows)[k][i], rows[k][i])
  {
    var cell := Save(rows)[k][i];
    var n := PadWidth(Widths(rows), rows[k], i);
    assert cell == Repeat(n) + rows[k][i];
    assert cell[|cell| - |rows[k][i]|..] == rows[k][i];
  }

  /** A row formatted with `widths.get(i - 1, 0)`, which never fails: one
      cell per cell, the first written as it is. */
  function FormatRow(w: map<nat, nat>, row: Row): (r: seq<string>)
    ensures |r| == |row|
    ensures |row| > 0 ==> r[0] == row[0]
  {
    seq(|row|, i requires 0 <= i < |row| => Repeat(PadWidth(w, row, i)) + row[i])
  }

  /** `save` with the missing-width case read as width 0: one line per
      row, with as many cells as the row. */
  function Save(rows: Table): (r: Table)
    ensures |r| == |rows|
    ensures forall k :: 0 <= k < |rows| ==> |r[k]| == |rows[k]|
  {
    var w := Widths(rows);
    seq(|rows|, k requires 0 <= k < |rows| => FormatRow(w, rows[k]))
  }

  /** One written line, CSV quoting aside. */
  function Line(cells: seq<string>): string
  {
    Join(cells, ',')
  }

  /** Where cell `i` starts in the joined line. */
  function CellStart(cells: seq<string>, i: nat): nat
    requires i <= |cells|
  {
    if i == 0 then 0 else |cells[0]| + 1 + CellStart(cells[1..], i - 1)
  }

  /** Where the content of column `i` starts in every line saved with
      widths `w`: each earlier column takes its width plus a comma and
      the one space of padding every later cell gets. */
  function ColumnOffset(w: map<nat, nat>, i: nat): nat
  {
    if i == 0 then 0 else ColumnOffset(w, i - 1) + Get(w, i - 1) + 2
  }

  /** Every cell of `row` but the last fits the widths: the padding of
      the cell after it is at least one space. */
  predicate Fits(w: map<nat, nat>, row: Row)
  {
    forall j :: 0 <= j < |row| - 1 ==> |row[j]| <= Get(w, j)
  }

  /** csv's `skipinitialspace`: the spaces after a delimiter are dropped. */
  function SkipInitialSpace(s: string): (r: string)
    ensures |r| <= |s| && r == s[|s| - |r|..]
  {
    if |s| > 0 && s[0] == ' ' then SkipInitialSpace(s[1..]) else s
  }

  /** Every row of the table fits the widths `save` computes for it. */
  lemma RowsFit(rows: Table, k: nat)
    requires k < |rows|
    ensures Fits(Widths(rows), rows[k])
  {
  }

  /** Each cell after the first gets `1 + widths[i-1] - len(row[i-1])`
      leading spaces, at least one, when the row fits the widths. */
  lemma PaddingAtLeastOne(w: map<nat, nat>, row: Row, i: nat)
    requires Fits(w, row) && 0 < i < |row|
    ensures PadWidth(w, row, i) == 1 + Get(w, i - 1) - |row[i - 1]| >= 1
    ensures FormatRow(w, row)[i] == Spaces(PadWidth(w, row, i)) + row[i]
  {
  }

  /** A cell of a joined line sits at `CellStart`. */
  lemma {:induction false} JoinCell(cells: seq<string>, sep: char, i: nat)
    requires i < |cells|
    ensures CellStart(cells, i) + |cells[i]| <= |Join(cells, sep)|
    ensures Join(cells, sep)[CellStart(cells, i)..CellStart(cells, i) + |cells[i]|] == cells[i]
    decreases i
  {
    if |cells| == 1 {
    } else if i == 0 {
      assert Join(cells, sep) == cells[0] + ([sep] + Join(cells[1..], sep));
    } else {
      var rest := Join(cells[1..], sep);
      var o := |cells[0]| + 1;
      JoinCell(cells[1..], sep, i - 1);
      assert Join(cells, sep) == cells[0] + [sep] + rest;
      assert Join(cells, sep)[o..] == rest;
    }
  }

  /** Cell `i + 1` starts one separator after the end of cell `i`. */
  lemma {:induction false} CellStartStep(cells: seq<string>, i: nat)
    requires i < |cells|
    ensures CellStart(cells, i + 1) == CellStart(cells, i) + |cells[i]| + 1
    decreases i
  {
    if i > 0 {
      CellStartStep(cells[1..], i - 1);
    }
  }

  /** In a row formatted with widths it fits, the content of cell `i`
      starts at the column's offset: the padding makes up for every
      shorter cell before it. */
  lemma {:induction false} ContentStart(w: map<nat, nat>, row: Row, i: nat)
    requires Fits(w, row) && i < |row|
    ensures CellStart(FormatRow(w, row), i) + PadWidth(w, row, i) == ColumnOffset(w, i)
  {
    if i > 0 {
      var f := FormatRow(w, row);
      ContentStart(w, row, i - 1);
      CellStartStep(f, i - 1);
      assert |f[i - 1]| == PadWidth(w, row, i - 1) + |row[i - 1]| by {
        if i - 1 > 0 {
          PaddingAtLeastOne(w, row, i - 1);
        }
      }
    }
  }

  /** A formatted cell is its padding followed by the original cell. */
  lemma CellContent(w: map<nat, nat>, row: Row, i: nat)
    requires Fits(w, row) && i < |row|
    ensures PadWidth(w, row, i) >= 0
    ensures |FormatRow(w, row)[i]| == PadWidth(w, row, i) + |row[i]|
    ensures FormatRow(w, row)[i][PadWidth(w, row, i)..] == row[i]
  {
    if i > 0 {
      PaddingAtLeastOne(w, row, i);
    }
  }

  lemma SliceOfSlice(line: string, c: nat, cell: string, p: nat, content: string, o: nat)
    requires c + |cell| <= |line| && line[c..c + |cell|] == cell
    requires |cell| == p + |content| && cell[p..] == content && o == c + p
    ensures o + |content| <= |line| && line[o..o + |content|] == content
  {
    assert line[c + p..c + |cell|] == line[c..c + |cell|][p..];
  }

  /** The content of cell `i` of `row` sits in `line` at the column's
      offset. */
  predicate CellAt(w: map<nat, nat>, row: Row, line: string, i: nat)
    requires i < |row|
  {
    ColumnOffset(w, i) + |row[i]| <= |line| &&
    line[ColumnOffset(w, i)..ColumnOffset(w, i) + |row[i]|] == row[i]
  }

  lemma ContentAt(w: map<nat, nat>, row: Row, i: nat)
    requires Fits(w, row) && i < |row|
    ensures CellAt(w, row, Line(FormatRow(w, row)), i)
  {
    var f := FormatRow(w, row);
    ContentStart(w, row, i);
    JoinCell(f, ',', i);
    CellContent(w, row, i);
    SliceOfSlice(Join(f, ','), CellStart(f, i), f[i], PadWidth(w, row, i), row[i], ColumnOffset(w, i));
  }

  /** Alignment: in every saved line the content of cell `i` starts at
      the same offset, the sum of `widths[j] + 2` over the columns before
      it, where `widths[j]` is the longest cell of column `j`. */
  lemma ColumnsAligned(rows: Table, k: nat, i: nat)
    requires k < |rows| && i < |rows[k]|
    ensures forall j :: Get(Widths(rows), j) == ColumnWidth(rows, j)
    ensures CellAt(Widths(rows), rows[k], Line(Save(rows)[k]), i)
  {
    var w := Widths(rows);
    RowsFit(rows, k);
    SaveRowIs(rows, k, w);
    ContentAt(w, rows[k], i);
  }

  lemma SaveRowIs(rows: Table, k: nat, w: map<nat, nat>)
    requires k < |rows| && w == Widths(rows)
    ensures Save(rows)[k] == FormatRow(w, rows[k])
  {
  }

  lemma {:induction false} SkipSpaces(n: nat, s: string)
    requires s == [] || s[0] != ' '
    ensures SkipInitialSpace(Spaces(n) + s) == s
  {
    if n > 0 {
      assert (Spaces(n) + s)[1..] == Spaces(n - 1) + s;
      SkipSpaces(n - 1, s);
    } else {
      assert Spaces(n) + s == s;
    }
  }

  /** Reading a saved cell with `skipinitialspace` drops exactly the
      padding, so a cell that does not itself start with a space is read
      back unchanged. */
  lemma ReadBack(rows: Table, k: nat, i: nat)
    requires k < |rows| && i < |rows[k]|
    requires rows[k][i] == [] || rows[k][i][0] != ' '
    ensures SkipInitialSpace(Save(rows)[k][i]) == rows[k][i]
  {
    var w := Widths(rows);
    var p := PadWidth(w, rows[k], i);
    RowsFit(rows, k);
    if i > 0 {
      PaddingAtLeastOne(w, rows[k], i);
    }
    SkipSpaces(if p <= 0 then 0 else p, rows[k][i]);
  }

  /** The `widths[i - 1]` lookup fails exactly when some row has a cell
      after a column that is empty in every row. */
  lemma SaveAsWrittenFails(rows: Table)
    ensures SaveAsWritten(rows).None? <==>
      exists k, i :: 0 <= k < |rows| && 0 <= i < |rows[k]| - 1 && ColumnWidth(rows, i) == 0
  {
    var w := Widths(rows);
    if SaveAsWritten(rows).None? {
      var k :| 0 <= k < |rows| && FormatRowAsWritten(w, rows[k]).None?;
      var i :| 0 <= i < |rows[k]| - 1 && i !in w;
      assert ColumnWidth(rows, i) == 0;
    } else {
      forall k, i | 0 <= k < |rows| && 0 <= i < |rows[k]| - 1
        ensures ColumnWidth(rows, i) > 0
      {
        assert FormatRowAsWritten(w, rows[k]).Some?;
        assert i in w;
      }
    }
  }

  /** The smallest table that shows the failure: one row whose first cell
      is empty and which has a second cell. */
  lemma EmptyFirstColumnFails()
    ensures SaveAsWritten([["", "x"]]).None?
    ensures Save([["", "x"]]) == [["", " x"]]
  {
    var rows: Table := [["", "x"]];
    var w := Widths(rows);
    assert ColumnWidth(rows, 0) == 0;
    SaveAsWrittenFails(rows);
    var f := FormatRow(w, rows[0]);
    assert f[0] == Repeat(0) + "" == "";
    assert f[1] == Repeat(1) + "x" == " x";
    assert f == ["", " x"];
    assert Save(rows) == [f];
  }

  /** Where every width it looks up was stored, `save` as written and the
      corrected `Save` write the same cells. */
  lemma SaveAgrees(rows: Table)
    requires SaveAsWritten(rows).Some?
    ensures SaveAsWritten(rows).value == Save(rows)
  {
    var w := Widths(rows);
    forall k | 0 <= k < |rows|
      ensures FormatRowAsWritten(w, rows[k]).value == FormatRow(w, rows[k])
    {
      FormatRowAgrees(w, rows[k]);
    }
  }

  lemma {:induction false} FormatRowAgrees(w: map<nat, nat>, row: Row)
    requires FormatRowAsWritten(w, row).Some?
    ensures FormatRowAsWritten(w, row).value == FormatRow(w, row)
    decreases |row|
  {
    var r := FormatRowAsWritten(w, row).value;
    var f := FormatRow(w, row);
    if |row| == 1 {
      assert f[0] == Repeat(0) + row[0] == row[0];
      assert r == [row[0]];
    } else if |row| >= 2 {
      var prefix := row[..|row| - 1];
      var n := |row| - 1;
      FormatRowAgrees(w, prefix);
      var g := FormatRow(w, prefix);
      assert r == g + [Repeat(1 + w[n - 1] - |row[n - 1]|) + row[n]];
      forall j | 0 <= j < |row|
        ensures r[j] == f[j]
      {
        if j < n {
          FormatRowPrefix(w, row, j);
          assert r[j] == g[j];
        } else {
          FormatRowLast(w, row);
        }
      }
    }
  }

  /** The last cell is padded by the stored width of the cell before it. */
  lemma FormatRowLast(w: map<nat, nat>, row: Row)
    requires |row| >= 2 && |row| - 2 in w
    ensures FormatRow(w, row)[|row| - 1] == Repeat(1 + w[|row| - 2] - |row[|row| - 2]|) + row[|row| - 1]
  {
  }

  /** Dropping the last cell does not change how the others are padded. */
  lemma FormatRowPrefix(w: map<nat, nat>, row: Row, j: nat)
    requires j < |row| - 1
    ensures FormatRow(w, row[..|row| - 1])[j] == FormatRow(w, row)[j]
  {
    assert PadWidth(w, row[..|row| - 1], j) == PadWidth(w, row, j);
  }
}
