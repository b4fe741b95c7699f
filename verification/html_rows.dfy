/**
 The two passes of the HTML table normaliser that work on table rows: dropping
 empty rows, and trimming the trailing blank cells every row of a table shares.
 */
module HtmlRows {
  import opened Strings
  import opened HtmlTree

  // ---------------------------------------------------------------------------
  // remove_empty_rows

  /** A cell with blank text is replaced by a fresh, childless cell of the same
      name and attributes; any other cell is kept. */
  function ClearCell(c: Cell, sp: char -> bool): (r: Cell)
    ensures r.kind == c.kind && r.attrs == c.attrs
    ensures BlankCell(c, sp) <==> |r.children| == 0
    ensures BlankCell(r, sp) <==> BlankCell(c, sp)
    ensures !BlankCell(c, sp) ==> r == c
  {
    if BlankCell(c, sp) then
      assert CellText(Cell(c.kind, c.attrs, [])) == "";
      Cell(c.kind, c.attrs, [])
    else
      assert |c.children| > 0 by {
        if |c.children| == 0 { assert CellText(c) == ""; }
      }
      c
  }

  function ClearCells(cells: seq<Cell>, sp: char -> bool): (r: seq<Cell>)
    ensures |r| == |cells|
  {
    seq(|cells|, j requires 0 <= j < |cells| => ClearCell(cells[j], sp))
  }

  /** The deletion test, taken on the row after its blank cells were cleared:
      the row text is blank, or no cell has contents (true of a row without cells). */
  predicate RowDeleted(cells: seq<Cell>, sp: char -> bool) {
    Blank(RowText(cells), sp) || forall j :: 0 <= j < |cells| ==> |cells[j].children| == 0
  }

  /** A row is deleted exactly when every one of its cells is blank. */
  lemma RowDeletedIffAllBlank(cells: seq<Cell>, sp: char -> bool)
    ensures RowDeleted(ClearCells(cells, sp), sp) <==> forall j :: 0 <= j < |cells| ==> BlankCell(cells[j], sp)
  {
    var cl := ClearCells(cells, sp);
    RowTextBlank(cl, sp);
    assert forall j :: 0 <= j < |cells| ==> cl[j] == ClearCell(cells[j], sp);
  }

  /** Does some cell of the row still have contents? */
  predicate HasContent(row: Row) {
    exists j :: 0 <= j < |row.cells| && |row.cells[j].children| > 0
  }

  /** The cell as it ends up in a kept row: cleared when blank, otherwise with the
      empty rows of nested tables removed. */
  function KeptCell(c: Cell, sp: char -> bool): (r: Cell)
    ensures r.kind == c.kind && r.attrs == c.attrs
    ensures BlankCell(c, sp) <==> |r.children| == 0
    decreases c
  {
    if BlankCell(c, sp) then
      Cell(c.kind, c.attrs, [])
    else
      assert ClearCell(c, sp) == c;
      Cell(c.kind, c.attrs, RemoveEmptyRows(c.children, sp))
  }

  /** The rows of one table that survive, in order, with their cells cleared. */
  function KeepRows(rows: seq<Row>, sp: char -> bool): (r: seq<Row>)
    ensures |r| <= |rows|
    ensures forall i :: 0 <= i < |r| ==> HasContent(r[i])
    decreases rows
  {
    if |rows| == 0 then []
    else if RowDeleted(ClearCells(rows[0].cells, sp), sp) then KeepRows(rows[1..], sp)
    else [KeptRow(rows[0], sp)] + KeepRows(rows[1..], sp)
  }

  function KeptRow(row: Row, sp: char -> bool): (r: Row)
    requires !RowDeleted(ClearCells(row.cells, sp), sp)
    ensures HasContent(r)
    ensures r.attrs == row.attrs && |r.cells| == |row.cells|
    decreases row
  {
    var cells := row.cells;
    var r := Row(row.attrs, seq(|cells|, j requires 0 <= j < |cells| => KeptCell(cells[j], sp)));
    RowDeletedIffAllBlank(cells, sp);
    var j :| 0 <= j < |cells| && !BlankCell(cells[j], sp);
    assert |r.cells[j].children| > 0;
    r
  }

  // ---------------------------------------------------------------------------
  // Tables without tables inside their cells

  /** No table anywhere among these nodes. */
  predicate NoTable(ns: seq<Node>) {
    forall i :: 0 <= i < |ns| ==> NodeNoTable(ns[i])
  }

  predicate NodeNoTable(n: Node)
    decreases n
  {
    match n
    case Text(_) => true
    case Element(_, _, ch) => forall i :: 0 <= i < |ch| ==> NodeNoTable(ch[i])
    case Table(_, _) => false
  }

  /** No cell of these rows holds a table. */
  predicate FlatRows(rows: seq<Row>) {
    forall i, j :: 0 <= i < |rows| && 0 <= j < |rows[i].cells| ==> NoTable(rows[i].cells[j].children)
  }

  /** Without tables inside, the row pass leaves the nodes alone. */
  lemma {:induction false} RemoveEmptyRowsNoTable(ns: seq<Node>, sp: char -> bool)
    requires NoTable(ns)
    ensures RemoveEmptyRows(ns, sp) == ns
    decreases ns
  {
    forall i | 0 <= i < |ns| ensures EmptyRowsNode(ns[i], sp) == ns[i] {
      match ns[i]
      case Text(_) =>
      case Element(nm, a, ch) =>
        assert NoTable(ch);
        RemoveEmptyRowsNoTable(ch, sp);
    }
  }

  /** A cell without a table inside ends up in a kept row exactly as `ClearCell`
      leaves it: a blank cell is emptied, a cell with content keeps it unchanged. */
  lemma KeptCellIsCleared(c: Cell, sp: char -> bool)
    requires NoTable(c.children)
    ensures KeptCell(c, sp) == ClearCell(c, sp)
    ensures !BlankCell(c, sp) ==> KeptCell(c, sp) == c
  {
    RemoveEmptyRowsNoTable(c.children, sp);
  }

  function RemoveEmptyRows(ns: seq<Node>, sp: char -> bool): (r: seq<Node>)
    ensures |r| == |ns|
    decreases ns
  {
    seq(|ns|, i requires 0 <= i < |ns| => EmptyRowsNode(ns[i], sp))
  }

  function EmptyRowsNode(n: Node, sp: char -> bool): Node
    decreases n
  {
    match n
    case Text(_) => n
    case Element(nm, a, ch) => Element(nm, a, RemoveEmptyRows(ch, sp))
    case Table(a, rows) => Table(a, KeepRows(rows, sp))
  }

  /** Rows are kept or dropped one by one; the kept ones stay in order. */
  lemma {:induction false} KeepRowsAppend(a: seq<Row>, b: seq<Row>, sp: char -> bool)
    ensures KeepRows(a + b, sp) == KeepRows(a, sp) + KeepRows(b, sp)
    decreases |a|
  {
    if |a| > 0 {
      assert (a + b)[1..] == a[1..] + b;
      KeepRowsAppend(a[1..], b, sp);
    } else {
      assert a + b == b;
    }
  }

  /** One row disappears exactly when all its cells are blank (also when it has none). */
  lemma KeepOneRow(row: Row, sp: char -> bool)
    ensures KeepRows([row], sp) == [] <==> forall j :: 0 <= j < |row.cells| ==> BlankCell(row.cells[j], sp)
  {
    RowDeletedIffAllBlank(row.cells, sp);
    assert [row][1..] == [];
  }

  /** Removing rows never introduces a tag name. */
  lemma {:induction false} RemoveEmptyRowsKeepsNames(ns: seq<Node>, sp: char -> bool, names: set<string>)
    requires NoneNamed(ns, names)
    ensures NoneNamed(RemoveEmptyRows(ns, sp), names)
    decreases ns
  {
    forall i | 0 <= i < |ns| ensures NodeNoneNamed(EmptyRowsNode(ns[i], sp), names) {
      match ns[i]
      case Text(_) =>
      case Element(nm, a, ch) =>
        RemoveEmptyRowsKeepsNames(ch, sp, names);
      case Table(a, rows) =>
        KeepRowsKeepNames(rows, sp, names);
    }
  }

  lemma {:induction false} KeepRowsKeepNames(rows: seq<Row>, sp: char -> bool, names: set<string>)
    requires forall i :: 0 <= i < |rows| ==> RowNoneNamed(rows[i], names)
    ensures forall i :: 0 <= i < |KeepRows(rows, sp)| ==> RowNoneNamed(KeepRows(rows, sp)[i], names)
    decreases rows
  {
    if |rows| > 0 {
      KeepRowsKeepNames(rows[1..], sp, names);
      var row := rows[0];
      if !RowDeleted(ClearCells(row.cells, sp), sp) {
        var kr := KeptRow(row, sp);
        forall j | 0 <= j < |row.cells| ensures CellNoneNamed(kr.cells[j], names) {
          var c := row.cells[j];
          assert CellNoneNamed(c, names);
          assert kr.cells[j] == KeptCell(c, sp);
          if !BlankCell(c, sp) {
            RemoveEmptyRowsKeepsNames(c.children, sp, names);
          }
        }
      }
    }
  }

  // ---------------------------------------------------------------------------
  // remove_trailing_empty_cells

  /** How many cells at the end of the row are blank. */
  function TrailingBlank(cells: seq<Cell>, sp: char -> bool): (n: nat)
    ensures n <= |cells|
    ensures forall j :: |cells| - n <= j < |cells| ==> BlankCell(cells[j], sp)
    ensures n < |cells| ==> !BlankCell(cells[|cells| - 1 - n], sp)
    decreases |cells|
  {
    if |cells| == 0 then 0
    else if BlankCell(cells[|cells| - 1], sp) then
      var n := 1 + TrailingBlank(cells[..|cells| - 1], sp);
      assert forall j :: 0 <= j < |cells| - 1 ==> cells[..|cells| - 1][j] == cells[j];
      n
    else 0
  }

  /** A row with the fewest trailing blank cells among `rows[from..]`. */
  function FewestTrailing(rows: seq<Row>, sp: char -> bool, from: nat): (i: nat)
    requires from < |rows|
    ensures from <= i < |rows|
    ensures forall j :: from <= j < |rows| ==>
              TrailingBlank(rows[i].cells, sp) <= TrailingBlank(rows[j].cells, sp)
    decreases |rows| - from
  {
    if from == |rows| - 1 then from
    else
      var m := FewestTrailing(rows, sp, from + 1);
      if TrailingBlank(rows[from].cells, sp) <= TrailingBlank(rows[m].cells, sp) then from else m
  }

  /** The number of trailing blank cells all rows share: the minimum over the rows,
      and 0 for a table without rows. This is what the source returns. */
  function CommonTrailing(rows: seq<Row>, sp: char -> bool): (k: nat)
    ensures |rows| == 0 ==> k == 0
    ensures forall i :: 0 <= i < |rows| ==> k <= TrailingBlank(rows[i].cells, sp)
    ensures |rows| > 0 ==> exists i :: 0 <= i < |rows| && k == TrailingBlank(rows[i].cells, sp)
  {
    if |rows| == 0 then 0 else TrailingBlank(rows[FewestTrailing(rows, sp, 0)].cells, sp)
  }

  /** Each row loses its last `CommonTrailing` cells. */
  function TrimRows(rows: seq<Row>, sp: char -> bool): (r: seq<Row>)
    ensures |r| == |rows|
    ensures forall i :: 0 <= i < |rows| ==>
              && r[i].attrs == rows[i].attrs
              && |r[i].cells| == |rows[i].cells| - CommonTrailing(rows, sp)
              && r[i].cells == rows[i].cells[..|r[i].cells|]
    ensures forall i, j :: 0 <= i < |rows| && |r[i].cells| <= j < |rows[i].cells| ==>
              BlankCell(rows[i].cells[j], sp)
  {
    var k := CommonTrailing(rows, sp);
    var r := seq(|rows|, i requires 0 <= i < |rows| => Row(rows[i].attrs, rows[i].cells[..|rows[i].cells| - k]));
    assert forall i, j :: 0 <= i < |rows| && |r[i].cells| <= j < |rows[i].cells| ==>
        BlankCell(rows[i].cells[j], sp) by {
      forall i, j | 0 <= i < |rows| && |r[i].cells| <= j < |rows[i].cells|
        ensures BlankCell(rows[i].cells[j], sp)
      {
        TrailingCell(rows[i].cells, sp, k, j);
      }
    }
    r
  }

  /** A cell among the last `k` is blank when at least `k` cells are trailing blanks. */
  lemma TrailingCell(cells: seq<Cell>, sp: char -> bool, k: nat, j: int)
    requires k <= TrailingBlank(cells, sp) && |cells| - k <= j < |cells|
    ensures BlankCell(cells[j], sp)
  {
  }

  /** After one trim some row ends in a non-blank cell or has no cells left, so a
      second trim finds nothing to remove and changes nothing. */
  lemma TrimTwice(rows: seq<Row>, sp: char -> bool)
    ensures CommonTrailing(TrimRows(rows, sp), sp) == 0
    ensures TrimRows(TrimRows(rows, sp), sp) == TrimRows(rows, sp)
  {
    TrimLeavesNone(rows, sp);
    TrimNothing(TrimRows(rows, sp), sp);
  }

  lemma TrimLeavesNone(rows: seq<Row>, sp: char -> bool)
    ensures CommonTrailing(TrimRows(rows, sp), sp) == 0
  {
    if |rows| > 0 {
      var t := TrimRows(rows, sp);
      var i := FewestTrailing(rows, sp, 0);
      TrimmedRow(rows, sp, i);
      assert CommonTrailing(t, sp) <= TrailingBlank(t[i].cells, sp);
    }
  }

  /** The row with the fewest trailing blank cells has none after the trim. */
  lemma TrimmedRow(rows: seq<Row>, sp: char -> bool, i: nat)
    requires i < |rows| && CommonTrailing(rows, sp) == TrailingBlank(rows[i].cells, sp)
    ensures TrailingBlank(TrimRows(rows, sp)[i].cells, sp) == 0
  {
    var k := CommonTrailing(rows, sp);
    TrimmedEndsInContent(rows[i].cells, sp);
    assert TrimRows(rows, sp)[i].cells == rows[i].cells[..|rows[i].cells| - k];
  }

  /** With no shared trailing blank cells the trim is the identity. */
  lemma TrimNothing(rows: seq<Row>, sp: char -> bool)
    requires CommonTrailing(rows, sp) == 0
    ensures TrimRows(rows, sp) == rows
  {
    var t := TrimRows(rows, sp);
    forall i | 0 <= i < |rows| ensures t[i] == rows[i] {
      assert rows[i].cells[..|rows[i].cells|] == rows[i].cells;
    }
  }

  /** Removing exactly the trailing blank cells leaves none. */
  lemma TrimmedEndsInContent(cells: seq<Cell>, sp: char -> bool)
    ensures TrailingBlank(cells[..|cells| - TrailingBlank(cells, sp)], sp) == 0
  {
    var k := TrailingBlank(cells, sp);
    var p := cells[..|cells| - k];
    if |p| > 0 {
      assert p[|p| - 1] == cells[|cells| - 1 - k];
    }
  }

  /** `for table in soup.find_all("table"): remove_trailing_empty_cells(table)`:
      each table is trimmed, then the tables inside its remaining cells. */
  function TrimAll(ns: seq<Node>, sp: char -> bool): (r: seq<Node>)
    ensures |r| == |ns|
    decreases ns
  {
    seq(|ns|, i requires 0 <= i < |ns| => TrimNode(ns[i], sp))
  }

  function TrimNode(n: Node, sp: char -> bool): (r: Node)
    ensures n.Table? ==> r.Table? && r.attrs == n.attrs && |r.rows| == |n.rows|
    ensures n.Table? ==> forall i :: 0 <= i < |n.rows| ==>
              |r.rows[i].cells| == |TrimRows(n.rows, sp)[i].cells|
    decreases n
  {
    match n
    case Text(_) => n
    case Element(nm, a, ch) => Element(nm, a, TrimAll(ch, sp))
    case Table(a, rows) =>
      var k := CommonTrailing(rows, sp);
      Table(a, seq(|rows|, i requires 0 <= i < |rows| => TrimRow(rows[i], k, sp)))
  }

  /** The row without its last `k` cells, the tables inside the others trimmed. */
  function TrimRow(row: Row, k: nat, sp: char -> bool): (r: Row)
    requires k <= |row.cells|
    ensures r.attrs == row.attrs && |r.cells| == |row.cells| - k
    decreases row
  {
    Row(row.attrs, seq(|row.cells| - k, j requires 0 <= j < |row.cells| - k => TrimCell(row.cells[j], sp)))
  }

  function TrimCell(c: Cell, sp: char -> bool): Cell
    decreases c
  {
    Cell(c.kind, c.attrs, TrimAll(c.children, sp))
  }

  /** Without tables inside, the trim pass leaves the nodes alone. */
  lemma {:induction false} TrimAllNoTable(ns: seq<Node>, sp: char -> bool)
    requires NoTable(ns)
    ensures TrimAll(ns, sp) == ns
    decreases ns
  {
    forall i | 0 <= i < |ns| ensures TrimNode(ns[i], sp) == ns[i] {
      match ns[i]
      case Text(_) =>
      case Element(nm, a, ch) =>
        assert NoTable(ch);
        TrimAllNoTable(ch, sp);
    }
  }

  /** On a table with no table inside its cells, the trim the passes run is the
      reference trim: every row loses exactly the trailing blank cells all rows share,
      and the cells it keeps are unchanged. */
  lemma TrimNodeIsTrimRows(a: Attrs, rows: seq<Row>, sp: char -> bool)
    requires FlatRows(rows)
    ensures TrimNode(Table(a, rows), sp) == Table(a, TrimRows(rows, sp))
  {
    var k := CommonTrailing(rows, sp);
    var r := TrimNode(Table(a, rows), sp);
    var t := TrimRows(rows, sp);
    assert |r.rows| == |t| == |rows|;
    forall i | 0 <= i < |rows| ensures r.rows[i] == t[i] {
      assert r.rows[i] == TrimRow(rows[i], k, sp);
      assert t[i] == Row(rows[i].attrs, rows[i].cells[..|rows[i].cells| - k]);
      TrimRowFlat(rows[i], k, sp);
    }
    assert r.rows == t;
  }

  /** A row with no table inside its cells just loses its last `k` cells. */
  lemma TrimRowFlat(row: Row, k: nat, sp: char -> bool)
    requires k <= |row.cells|
    requires forall j :: 0 <= j < |row.cells| ==> NoTable(row.cells[j].children)
    ensures TrimRow(row, k, sp) == Row(row.attrs, row.cells[..|row.cells| - k])
  {
    var r := TrimRow(row, k, sp);
    forall j | 0 <= j < |r.cells| ensures r.cells[j] == row.cells[j] {
      assert r.cells[j] == TrimCell(row.cells[j], sp);
      TrimAllNoTable(row.cells[j].children, sp);
    }
  }

  /** The trimmed rows are prefixes of the original ones, so they hold no table either. */
  lemma TrimRowsFlat(rows: seq<Row>, sp: char -> bool)
    requires FlatRows(rows)
    ensures FlatRows(TrimRows(rows, sp))
  {
  }

  /** The trim the passes run on a table with no table inside it is idempotent. */
  lemma TrimNodeTwice(a: Attrs, rows: seq<Row>, sp: char -> bool)
    requires FlatRows(rows)
    ensures TrimNode(TrimNode(Table(a, rows), sp), sp) == TrimNode(Table(a, rows), sp)
  {
    TrimNodeIsTrimRows(a, rows, sp);
    TrimRowsFlat(rows, sp);
    TrimNodeIsTrimRows(a, TrimRows(rows, sp), sp);
    TrimTwice(rows, sp);
  }

  /** Trimming never introduces a tag name. */
  lemma {:induction false} TrimAllKeepsNames(ns: seq<Node>, sp: char -> bool, names: set<string>)
    requires NoneNamed(ns, names)
    ensures NoneNamed(TrimAll(ns, sp), names)
    decreases ns
  {
    forall i | 0 <= i < |ns| ensures NodeNoneNamed(TrimNode(ns[i], sp), names) {
      match ns[i]
      case Text(_) =>
      case Element(nm, a, ch) =>
        TrimAllKeepsNames(ch, sp, names);
      case Table(a, rows) =>
        var k := CommonTrailing(rows, sp);
        var r := TrimNode(ns[i], sp);
        forall p | 0 <= p < |rows| ensures RowNoneNamed(r.rows[p], names) {
          assert r.rows[p] == TrimRow(rows[p], k, sp);
          TrimRowKeepsNames(rows[p], k, sp, names);
        }
    }
  }

  lemma {:induction false} TrimRowKeepsNames(row: Row, k: nat, sp: char -> bool, names: set<string>)
    requires k <= |row.cells| && RowNoneNamed(row, names)
    ensures RowNoneNamed(TrimRow(row, k, sp), names)
    decreases row
  {
    var r := TrimRow(row, k, sp);
    forall j | 0 <= j < |r.cells| ensures CellNoneNamed(r.cells[j], names) {
      assert CellNoneNamed(row.cells[j], names);
      assert r.cells[j] == TrimCell(row.cells[j], sp);
      TrimAllKeepsNames(row.cells[j].children, sp, names);
    }
  }
}
