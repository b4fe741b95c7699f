/**
 The parsed HTML document the table normaliser works on. Tables are kept as
 structure (a table holds rows, a row holds `td`/`th` cells, a cell holds
 nodes); every other tag is a generic element.
 */
module HtmlTree {
  import opened Strings

  /** A tag's attributes. */
  type Attrs = map<string, string>

  datatype CellKind = Td | Th

  datatype Node =
    | Text(text: string)
    | Element(name: string, attrs: Attrs, children: seq<Node>)
    | Table(attrs: Attrs, rows: seq<Row>)

  datatype Row = Row(attrs: Attrs, cells: seq<Cell>)

  datatype Cell = Cell(kind: CellKind, attrs: Attrs, children: seq<Node>)

  function CellName(k: CellKind): string {
    match k
    case Td => "td"
    case Th => "th"
  }

  /** Tag names the model keeps as table structure. */
  const StructuralNames: set<string> := {"table", "tr", "td", "th"}

  // ---------------------------------------------------------------------------
  // Text

  /** BeautifulSoup's `.text`: every text node below, concatenated. */
  function TextOf(ns: seq<Node>): string
    decreases ns
  {
    if |ns| == 0 then "" else NodeText(ns[0]) + TextOf(ns[1..])
  }

  function NodeText(n: Node): string
    decreases n
  {
    match n
    case Text(t) => t
    case Element(_, _, ch) => TextOf(ch)
    case Table(_, rows) => RowsText(rows)
  }

  function RowsText(rows: seq<Row>): string
    decreases rows
  {
    if |rows| == 0 then "" else RowText(rows[0].cells) + RowsText(rows[1..])
  }

  /** The text of a row: its cells' texts in order. */
  function RowText(cells: seq<Cell>): string
    decreases cells
  {
    if |cells| == 0 then "" else CellText(cells[0]) + RowText(cells[1..])
  }

  function CellText(c: Cell): string
    decreases c
  {
    TextOf(c.children)
  }

  /** `not cell.text.strip()`. */
  predicate BlankCell(c: Cell, sp: char -> bool) {
    Blank(CellText(c), sp)
  }

  lemma AllAppend(a: string, b: string, p: char -> bool)
    ensures All(a + b, p) <==> All(a, p) && All(b, p)
  {
    if All(a, p) && All(b, p) {
      forall i | 0 <= i < |a + b| ensures p((a + b)[i]) {
        if i < |a| { assert (a + b)[i] == a[i]; } else { assert (a + b)[i] == b[i - |a|]; }
      }
    }
    if All(a + b, p) {
      forall i | 0 <= i < |a| ensures p(a[i]) { assert (a + b)[i] == a[i]; }
      forall i | 0 <= i < |b| ensures p(b[i]) { assert (a + b)[i + |a|] == b[i]; }
    }
  }

  /** A row's text is blank exactly when every one of its cells is. */
  lemma {:induction false} RowTextBlank(cells: seq<Cell>, sp: char -> bool)
    ensures Blank(RowText(cells), sp) <==> forall j :: 0 <= j < |cells| ==> BlankCell(cells[j], sp)
    decreases |cells|
  {
    if |cells| > 0 {
      RowTextBlank(cells[1..], sp);
      AllAppend(CellText(cells[0]), RowText(cells[1..]), sp);
      assert forall j :: 1 <= j < |cells| ==> cells[j] == cells[1..][j - 1];
    }
  }

  /** The text nodes below, in document order. */
  function Texts(ns: seq<Node>): seq<string>
    decreases ns
  {
    if |ns| == 0 then [] else NodeTexts(ns[0]) + Texts(ns[1..])
  }

  function NodeTexts(n: Node): seq<string>
    decreases n
  {
    match n
    case Text(t) => [t]
    case Element(_, _, ch) => Texts(ch)
    case Table(_, rows) => RowsTexts(rows)
  }

  function RowsTexts(rows: seq<Row>): seq<string>
    decreases rows
  {
    if |rows| == 0 then [] else CellsTexts(rows[0].cells) + RowsTexts(rows[1..])
  }

  function CellsTexts(cells: seq<Cell>): seq<string>
    decreases cells
  {
    if |cells| == 0 then [] else Texts(cells[0].children) + CellsTexts(cells[1..])
  }

  /** Each string stripped, the empty ones dropped. */
  function StrippedPieces(xs: seq<string>, sp: char -> bool): (r: seq<string>)
    ensures forall i :: 0 <= i < |r| ==> r[i] != "" && Stripped(r[i], sp)
    ensures |r| <= |xs|
    decreases |xs|
  {
    if |xs| == 0 then []
    else
      var t := Strip(xs[0], sp);
      if t == "" then StrippedPieces(xs[1..], sp) else [t] + StrippedPieces(xs[1..], sp)
  }

  /** `get_text(" ", strip=True)`. */
  function GetText(ns: seq<Node>, sp: char -> bool): string {
    Join(StrippedPieces(Texts(ns), sp), " ")
  }

  /** Joining stripped non-empty pieces gives a stripped text. */
  lemma {:induction false} JoinStrippedPieces(xs: seq<string>, sep: string, sp: char -> bool)
    requires forall i :: 0 <= i < |xs| ==> xs[i] != "" && Stripped(xs[i], sp)
    ensures Stripped(Join(xs, sep), sp)
    ensures |xs| > 0 ==> |Join(xs, sep)| > 0
    decreases |xs|
  {
    if |xs| > 1 {
      JoinStrippedPieces(xs[1..], sep, sp);
      var j := Join(xs, sep);
      assert j == xs[0] + sep + Join(xs[1..], sep);
      assert j[0] == xs[0][0];
      assert j[|j| - 1] == Join(xs[1..], sep)[|Join(xs[1..], sep)| - 1];
    }
  }

  /** The flattened text has no surrounding whitespace. */
  lemma GetTextStripped(ns: seq<Node>, sp: char -> bool)
    ensures Stripped(GetText(ns, sp), sp)
  {
    JoinStrippedPieces(StrippedPieces(Texts(ns), sp), " ", sp);
  }

  // ---------------------------------------------------------------------------
  // Tag names

  /** No tag below has a name in `names`. */
  predicate NoneNamed(ns: seq<Node>, names: set<string>) {
    forall i :: 0 <= i < |ns| ==> NodeNoneNamed(ns[i], names)
  }

  predicate NodeNoneNamed(n: Node, names: set<string>)
    decreases n
  {
    match n
    case Text(_) => true
    case Element(nm, _, ch) => nm !in names && forall i :: 0 <= i < |ch| ==> NodeNoneNamed(ch[i], names)
    case Table(_, rows) => "table" !in names && forall i :: 0 <= i < |rows| ==> RowNoneNamed(rows[i], names)
  }

  predicate RowNoneNamed(r: Row, names: set<string>)
    decreases r
  {
    "tr" !in names && forall j :: 0 <= j < |r.cells| ==> CellNoneNamed(r.cells[j], names)
  }

  predicate CellNoneNamed(c: Cell, names: set<string>)
    decreases c
  {
    CellName(c.kind) !in names && forall k :: 0 <= k < |c.children| ==> NodeNoneNamed(c.children[k], names)
  }

  // ---------------------------------------------------------------------------
  // Shape: the tree with every attribute map emptied

  function Erase(n: Node): Node
    decreases n
  {
    match n
    case Text(_) => n
    case Element(nm, _, ch) => Element(nm, map[], seq(|ch|, i requires 0 <= i < |ch| => Erase(ch[i])))
    case Table(_, rows) => Table(map[], seq(|rows|, i requires 0 <= i < |rows| => EraseRow(rows[i])))
  }

  function EraseRow(r: Row): Row
    decreases r
  {
    Row(map[], seq(|r.cells|, j requires 0 <= j < |r.cells| => EraseCell(r.cells[j])))
  }

  function EraseCell(c: Cell): Cell
    decreases c
  {
    Cell(c.kind, map[], seq(|c.children|, k requires 0 <= k < |c.children| => Erase(c.children[k])))
  }

  function Shape(ns: seq<Node>): seq<Node> {
    seq(|ns|, i requires 0 <= i < |ns| => Erase(ns[i]))
  }

  // ---------------------------------------------------------------------------
  // Attributes

  /** The attributes `remove_style_attributes` keeps. */
  const Whitelist: set<string> := {"colspan", "rowspan"}

  predicate Whitelisted(a: Attrs) {
    forall k :: k in a ==> k in Whitelist
  }

  /** Every tag below carries only whitelisted attributes. */
  predicate AttrsOK(ns: seq<Node>) {
    forall i :: 0 <= i < |ns| ==> NodeAttrsOK(ns[i])
  }

  predicate NodeAttrsOK(n: Node)
    decreases n
  {
    match n
    case Text(_) => true
    case Element(_, a, ch) => Whitelisted(a) && forall i :: 0 <= i < |ch| ==> NodeAttrsOK(ch[i])
    case Table(a, rows) => Whitelisted(a) && forall i :: 0 <= i < |rows| ==> RowAttrsOK(rows[i])
  }

  predicate RowAttrsOK(r: Row)
    decreases r
  {
    Whitelisted(r.attrs) && forall j :: 0 <= j < |r.cells| ==> CellAttrsOK(r.cells[j])
  }

  predicate CellAttrsOK(c: Cell)
    decreases c
  {
    Whitelisted(c.attrs) && forall k :: 0 <= k < |c.children| ==> NodeAttrsOK(c.children[k])
  }
}
