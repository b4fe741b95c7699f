/**
 The tree passes of the HTML table normaliser that do not look at table rows:
 dropping unwanted elements, whitelisting attributes, flattening inline tags
 to text, adding the table attributes, and keeping only the tables.
 */
module HtmlPasses {
  import opened Strings
  import opened HtmlTree

  // ---------------------------------------------------------------------------
  // remove_unnecessary_elements

  /** Tag names removed together with everything inside them. */
  const Unneeded: set<string> :=
    {"style", "script", "comment", "head", "meta", "link", "colgroup", "col", "title"}

  predicate Dropped(n: Node) {
    n.Element? && n.name in Unneeded
  }

  /** Deletes every unneeded element with its subtree, at every depth. */
  function Prune(ns: seq<Node>): (r: seq<Node>)
    ensures NoneNamed(r, Unneeded)
    ensures |r| <= |ns|
    decreases ns
  {
    if |ns| == 0 then []
    else if Dropped(ns[0]) then Prune(ns[1..])
    else [PruneNode(ns[0])] + Prune(ns[1..])
  }

  function PruneNode(n: Node): (r: Node)
    requires !Dropped(n)
    ensures NodeNoneNamed(r, Unneeded)
    decreases n
  {
    match n
    case Text(_) => n
    case Element(nm, a, ch) => Element(nm, a, Prune(ch))
    case Table(a, rows) => Table(a, seq(|rows|, i requires 0 <= i < |rows| => PruneRow(rows[i])))
  }

  function PruneRow(row: Row): (r: Row)
    ensures RowNoneNamed(r, Unneeded)
    decreases row
  {
    Row(row.attrs, seq(|row.cells|, j requires 0 <= j < |row.cells| => PruneCell(row.cells[j])))
  }

  function PruneCell(c: Cell): (r: Cell)
    ensures CellNoneNamed(r, Unneeded)
    decreases c
  {
    Cell(c.kind, c.attrs, Prune(c.children))
  }

  /** Pruning works node by node: kept nodes stay in their order. */
  lemma {:induction false} PruneAppend(a: seq<Node>, b: seq<Node>)
    ensures Prune(a + b) == Prune(a) + Prune(b)
    decreases |a|
  {
    if |a| > 0 {
      assert (a + b)[1..] == a[1..] + b;
      PruneAppend(a[1..], b);
    } else {
      assert a + b == b;
    }
  }

  /** A single node either disappears whole or stays, pruned inside. */
  lemma PruneOne(n: Node)
    ensures Dropped(n) ==> Prune([n]) == []
    ensures !Dropped(n) ==> Prune([n]) == [PruneNode(n)]
  {
    assert [n][1..] == [];
  }

  /** A tree without unneeded elements is left as it is. */
  lemma {:induction false} PruneClean(ns: seq<Node>)
    requires NoneNamed(ns, Unneeded)
    ensures Prune(ns) == ns
    decreases ns
  {
    if |ns| > 0 {
      PruneNodeClean(ns[0]);
      PruneClean(ns[1..]);
      assert ns == [ns[0]] + ns[1..];
    }
  }

  lemma {:induction false} PruneNodeClean(n: Node)
    requires NodeNoneNamed(n, Unneeded)
    ensures !Dropped(n) && PruneNode(n) == n
    decreases n
  {
    match n
    case Text(_) =>
    case Element(nm, a, ch) =>
      PruneClean(ch);
    case Table(a, rows) =>
      forall i | 0 <= i < |rows| ensures PruneRow(rows[i]) == rows[i] {
        PruneRowClean(rows[i]);
      }
      assert seq(|rows|, i requires 0 <= i < |rows| => PruneRow(rows[i])) == rows;
  }

  lemma {:induction false} PruneRowClean(row: Row)
    requires RowNoneNamed(row, Unneeded)
    ensures PruneRow(row) == row
    decreases row
  {
    forall j | 0 <= j < |row.cells| ensures PruneCell(row.cells[j]) == row.cells[j] {
      PruneClean(row.cells[j].children);
    }
    assert seq(|row.cells|, j requires 0 <= j < |row.cells| => PruneCell(row.cells[j])) == row.cells;
  }

  // ---------------------------------------------------------------------------
  // remove_style_attributes

  /** The attribute map with only `colspan` and `rowspan` left. */
  function Keep(a: Attrs): (r: Attrs)
    ensures Whitelisted(r)
    ensures forall k :: k in r ==> k in a && r[k] == a[k]
    ensures forall k :: k in a && k in Whitelist ==> k in r
  {
    map k | k in a && k in Whitelist :: a[k]
  }

  lemma KeepWhitelisted(a: Attrs)
    requires Whitelisted(a)
    ensures Keep(a) == a
  {
    assert Keep(a).Keys == a.Keys;
  }

  /** Every tag's attributes narrowed to the whitelist. */
  function StripAttrs(ns: seq<Node>): (r: seq<Node>)
    ensures |r| == |ns|
    ensures AttrsOK(r)
  {
    seq(|ns|, i requires 0 <= i < |ns| => StripNode(ns[i]))
  }

  function StripNode(n: Node): (r: Node)
    ensures NodeAttrsOK(r)
    decreases n
  {
    match n
    case Text(_) => n
    case Element(nm, a, ch) => Element(nm, Keep(a), seq(|ch|, i requires 0 <= i < |ch| => StripNode(ch[i])))
    case Table(a, rows) => Table(Keep(a), seq(|rows|, i requires 0 <= i < |rows| => StripRow(rows[i])))
  }

  function StripRow(row: Row): (r: Row)
    ensures RowAttrsOK(r)
    decreases row
  {
    Row(Keep(row.attrs), seq(|row.cells|, j requires 0 <= j < |row.cells| => StripCell(row.cells[j])))
  }

  function StripCell(c: Cell): (r: Cell)
    ensures CellAttrsOK(r)
    decreases c
  {
    Cell(c.kind, Keep(c.attrs), seq(|c.children|, k requires 0 <= k < |c.children| => StripNode(c.children[k])))
  }

  /** Whitelisting attributes leaves the tree's shape untouched. */
  lemma StripAttrsShape(ns: seq<Node>)
    ensures Shape(StripAttrs(ns)) == Shape(ns)
  {
    forall i | 0 <= i < |ns| ensures Erase(StripNode(ns[i])) == Erase(ns[i]) {
      StripNodeShape(ns[i]);
    }
  }

  lemma {:induction false} StripNodeShape(n: Node)
    ensures Erase(StripNode(n)) == Erase(n)
    decreases n
  {
    match n
    case Text(_) =>
    case Element(nm, a, ch) =>
      forall i | 0 <= i < |ch| ensures Erase(StripNode(ch[i])) == Erase(ch[i]) {
        StripNodeShape(ch[i]);
      }
    case Table(a, rows) =>
      forall i | 0 <= i < |rows| ensures EraseRow(StripRow(rows[i])) == EraseRow(rows[i]) {
        StripRowShape(rows[i]);
      }
  }

  lemma {:induction false} StripRowShape(row: Row)
    ensures EraseRow(StripRow(row)) == EraseRow(row)
    decreases row
  {
    forall j | 0 <= j < |row.cells| ensures EraseCell(StripCell(row.cells[j])) == EraseCell(row.cells[j]) {
      var c := row.cells[j];
      forall k | 0 <= k < |c.children| ensures Erase(StripNode(c.children[k])) == Erase(c.children[k]) {
        StripNodeShape(c.children[k]);
      }
    }
  }

  /** A tree whose attributes are already whitelisted is left as it is. */
  lemma StripAttrsClean(ns: seq<Node>)
    requires AttrsOK(ns)
    ensures StripAttrs(ns) == ns
  {
    forall i | 0 <= i < |ns| ensures StripNode(ns[i]) == ns[i] {
      StripNodeClean(ns[i]);
    }
  }

  lemma {:induction false} StripNodeClean(n: Node)
    requires NodeAttrsOK(n)
    ensures StripNode(n) == n
    decreases n
  {
    match n
    case Text(_) =>
    case Element(nm, a, ch) =>
      KeepWhitelisted(a);
      forall i | 0 <= i < |ch| ensures StripNode(ch[i]) == ch[i] {
        StripNodeClean(ch[i]);
      }
      assert seq(|ch|, i requires 0 <= i < |ch| => StripNode(ch[i])) == ch;
    case Table(a, rows) =>
      KeepWhitelisted(a);
      forall i | 0 <= i < |rows| ensures StripRow(rows[i]) == rows[i] {
        StripRowClean(rows[i]);
      }
      assert seq(|rows|, i requires 0 <= i < |rows| => StripRow(rows[i])) == rows;
  }

  lemma {:induction false} StripRowClean(row: Row)
    requires RowAttrsOK(row)
    ensures StripRow(row) == row
    decreases row
  {
    KeepWhitelisted(row.attrs);
    forall j | 0 <= j < |row.cells| ensures StripCell(row.cells[j]) == row.cells[j] {
      var c := row.cells[j];
      KeepWhitelisted(c.attrs);
      forall k | 0 <= k < |c.children| ensures StripNode(c.children[k]) == c.children[k] {
        StripNodeClean(c.children[k]);
      }
      assert seq(|c.children|, k requires 0 <= k < |c.children| => StripNode(c.children[k])) == c.children;
    }
    assert seq(|row.cells|, j requires 0 <= j < |row.cells| => StripCell(row.cells[j])) == row.cells;
  }

  /** Whitelisting twice is whitelisting once. */
  lemma StripAttrsIdempotent(ns: seq<Node>)
    ensures StripAttrs(StripAttrs(ns)) == StripAttrs(ns)
  {
    StripAttrsClean(StripAttrs(ns));
  }

  // ---------------------------------------------------------------------------
  // flatten_paragraphs

  /** Replaces every outermost element named `tag` by one text node holding its
      text pieces, stripped and joined by single spaces. */
  function Flatten(ns: seq<Node>, tag: string, sp: char -> bool): (r: seq<Node>)
    requires tag !in StructuralNames
    ensures |r| == |ns|
    ensures NoneNamed(r, {tag})
    ensures forall i :: 0 <= i < |ns| && ns[i].Element? && ns[i].name == tag ==>
              r[i] == Text(GetText(ns[i].children, sp))
  {
    seq(|ns|, i requires 0 <= i < |ns| => FlattenNode(ns[i], tag, sp))
  }

  function FlattenNode(n: Node, tag: string, sp: char -> bool): (r: Node)
    requires tag !in StructuralNames
    ensures NodeNoneNamed(r, {tag})
    decreases n
  {
    match n
    case Text(_) => n
    case Element(nm, a, ch) =>
      if nm == tag then Text(GetText(ch, sp))
      else Element(nm, a, seq(|ch|, i requires 0 <= i < |ch| => FlattenNode(ch[i], tag, sp)))
    case Table(a, rows) => Table(a, seq(|rows|, i requires 0 <= i < |rows| => FlattenRow(rows[i], tag, sp)))
  }

  function FlattenRow(row: Row, tag: string, sp: char -> bool): (r: Row)
    requires tag !in StructuralNames
    ensures RowNoneNamed(r, {tag})
    decreases row
  {
    Row(row.attrs, seq(|row.cells|, j requires 0 <= j < |row.cells| => FlattenCell(row.cells[j], tag, sp)))
  }

  function FlattenCell(c: Cell, tag: string, sp: char -> bool): (r: Cell)
    requires tag !in StructuralNames
    ensures CellNoneNamed(r, {tag})
    decreases c
  {
    Cell(c.kind, c.attrs, seq(|c.children|, k requires 0 <= k < |c.children| => FlattenNode(c.children[k], tag, sp)))
  }

  /** The text replacing a flattened element has no surrounding whitespace. */
  lemma FlattenedTextStripped(ns: seq<Node>, tag: string, sp: char -> bool, i: nat)
    requires tag !in StructuralNames
    requires i < |ns| && ns[i].Element? && ns[i].name == tag
    ensures Flatten(ns, tag, sp)[i].Text?
    ensures Stripped(Flatten(ns, tag, sp)[i].text, sp)
  {
    GetTextStripped(ns[i].children, sp);
  }

  /** Flattening removes names and never introduces any. */
  lemma FlattenKeepsNoneNamed(ns: seq<Node>, tag: string, sp: char -> bool, names: set<string>)
    requires tag !in StructuralNames && NoneNamed(ns, names)
    ensures NoneNamed(Flatten(ns, tag, sp), names)
  {
    forall i | 0 <= i < |ns| ensures NodeNoneNamed(FlattenNode(ns[i], tag, sp), names) {
      FlattenNodeKeeps(ns[i], tag, sp, names);
    }
  }

  lemma {:induction false} FlattenNodeKeeps(n: Node, tag: string, sp: char -> bool, names: set<string>)
    requires tag !in StructuralNames && NodeNoneNamed(n, names)
    ensures NodeNoneNamed(FlattenNode(n, tag, sp), names)
    decreases n
  {
    match n
    case Text(_) =>
    case Element(nm, a, ch) =>
      if nm != tag {
        forall i | 0 <= i < |ch| ensures NodeNoneNamed(FlattenNode(ch[i], tag, sp), names) {
          FlattenNodeKeeps(ch[i], tag, sp, names);
        }
      }
    case Table(a, rows) =>
      forall i | 0 <= i < |rows| ensures RowNoneNamed(FlattenRow(rows[i], tag, sp), names) {
        FlattenRowKeeps(rows[i], tag, sp, names);
      }
  }

  lemma {:induction false} FlattenRowKeeps(row: Row, tag: string, sp: char -> bool, names: set<string>)
    requires tag !in StructuralNames && RowNoneNamed(row, names)
    ensures RowNoneNamed(FlattenRow(row, tag, sp), names)
    decreases row
  {
    forall j | 0 <= j < |row.cells| ensures CellNoneNamed(FlattenCell(row.cells[j], tag, sp), names) {
      var c := row.cells[j];
      forall k | 0 <= k < |c.children| ensures NodeNoneNamed(FlattenNode(c.children[k], tag, sp), names) {
        FlattenNodeKeeps(c.children[k], tag, sp, names);
      }
    }
  }

  /** Without an element of that name, flattening changes nothing. */
  lemma FlattenAbsent(ns: seq<Node>, tag: string, sp: char -> bool)
    requires tag !in StructuralNames && NoneNamed(ns, {tag})
    ensures Flatten(ns, tag, sp) == ns
  {
    forall i | 0 <= i < |ns| ensures FlattenNode(ns[i], tag, sp) == ns[i] {
      FlattenNodeAbsent(ns[i], tag, sp);
    }
  }

  lemma {:induction false} FlattenNodeAbsent(n: Node, tag: string, sp: char -> bool)
    requires tag !in StructuralNames && NodeNoneNamed(n, {tag})
    ensures FlattenNode(n, tag, sp) == n
    decreases n
  {
    match n
    case Text(_) =>
    case Element(nm, a, ch) =>
      forall i | 0 <= i < |ch| ensures FlattenNode(ch[i], tag, sp) == ch[i] {
        FlattenNodeAbsent(ch[i], tag, sp);
      }
      assert seq(|ch|, i requires 0 <= i < |ch| => FlattenNode(ch[i], tag, sp)) == ch;
    case Table(a, rows) =>
      forall i | 0 <= i < |rows| ensures FlattenRow(rows[i], tag, sp) == rows[i] {
        FlattenRowAbsent(rows[i], tag, sp);
      }
      assert seq(|rows|, i requires 0 <= i < |rows| => FlattenRow(rows[i], tag, sp)) == rows;
  }

  lemma {:induction false} FlattenRowAbsent(row: Row, tag: string, sp: char -> bool)
    requires tag !in StructuralNames && RowNoneNamed(row, {tag})
    ensures FlattenRow(row, tag, sp) == row
    decreases row
  {
    forall j | 0 <= j < |row.cells| ensures FlattenCell(row.cells[j], tag, sp) == row.cells[j] {
      var c := row.cells[j];
      forall k | 0 <= k < |c.children| ensures FlattenNode(c.children[k], tag, sp) == c.children[k] {
        FlattenNodeAbsent(c.children[k], tag, sp);
      }
      assert seq(|c.children|, k requires 0 <= k < |c.children| => FlattenNode(c.children[k], tag, sp)) == c.children;
    }
    assert seq(|row.cells|, j requires 0 <= j < |row.cells| => FlattenCell(row.cells[j], tag, sp)) == row.cells;
  }

  // ---------------------------------------------------------------------------
  // Names depend only on shape

  lemma {:induction false} NamesFromShape(n: Node, names: set<string>)
    ensures NodeNoneNamed(Erase(n), names) == NodeNoneNamed(n, names)
    decreases n
  {
    match n
    case Text(_) =>
    case Element(nm, a, ch) =>
      var e := Erase(n).children;
      assert |e| == |ch| && forall i :: 0 <= i < |ch| ==> e[i] == Erase(ch[i]);
      forall i | 0 <= i < |ch| ensures NodeNoneNamed(Erase(ch[i]), names) == NodeNoneNamed(ch[i], names) {
        NamesFromShape(ch[i], names);
      }
    case Table(a, rows) =>
      forall i | 0 <= i < |rows| ensures RowNoneNamed(EraseRow(rows[i]), names) == RowNoneNamed(rows[i], names) {
        var row := rows[i];
        forall j | 0 <= j < |row.cells| ensures CellNoneNamed(EraseCell(row.cells[j]), names) == CellNoneNamed(row.cells[j], names) {
          var c := row.cells[j];
          var e := EraseCell(c);
          assert e.kind == c.kind && |e.children| == |c.children|;
          assert forall k :: 0 <= k < |c.children| ==> e.children[k] == Erase(c.children[k]);
          forall k | 0 <= k < |c.children| ensures NodeNoneNamed(Erase(c.children[k]), names) == NodeNoneNamed(c.children[k], names) {
            NamesFromShape(c.children[k], names);
          }
        }
        assert forall j :: 0 <= j < |row.cells| ==> EraseRow(row).cells[j] == EraseCell(row.cells[j]);
      }
      var e := Erase(n).rows;
      assert |e| == |rows| && forall i :: 0 <= i < |rows| ==> e[i] == EraseRow(rows[i]);
  }

  /** Two trees of the same shape have the same tag names. */
  lemma SameShapeSameNames(a: seq<Node>, b: seq<Node>, names: set<string>)
    requires Shape(a) == Shape(b)
    ensures NoneNamed(a, names) <==> NoneNamed(b, names)
  {
    assert |a| == |Shape(a)| == |b|;
    forall i | 0 <= i < |a| ensures NodeNoneNamed(a[i], names) == NodeNoneNamed(b[i], names) {
      assert Shape(a)[i] == Shape(b)[i];
      NamesFromShape(a[i], names);
      NamesFromShape(b[i], names);
    }
  }

  // ---------------------------------------------------------------------------
  // add_basic_table_styles

  /** The three attributes every table receives, with their values. */
  predicate HasTableStyle(a: Attrs) {
    && "border" in a && a["border"] == "1"
    && "cellspacing" in a && a["cellspacing"] == "0"
    && "cellpadding" in a && a["cellpadding"] == "4"
  }

  function WithTableStyle(a: Attrs): (r: Attrs)
    ensures HasTableStyle(r)
    ensures forall k :: k in a ==> k in r
    ensures forall k :: k in r && k !in {"border", "cellspacing", "cellpadding"} ==> k in a && r[k] == a[k]
  {
    a["border" := "1"]["cellspacing" := "0"]["cellpadding" := "4"]
  }

  /** Every table below carries the three style attributes. */
  predicate Styled(ns: seq<Node>) {
    forall i :: 0 <= i < |ns| ==> NodeStyled(ns[i])
  }

  predicate NodeStyled(n: Node)
    decreases n
  {
    match n
    case Text(_) => true
    case Element(_, _, ch) => forall i :: 0 <= i < |ch| ==> NodeStyled(ch[i])
    case Table(a, rows) => HasTableStyle(a) && forall i :: 0 <= i < |rows| ==> RowStyled(rows[i])
  }

  predicate RowStyled(r: Row)
    decreases r
  {
    forall j, k :: 0 <= j < |r.cells| && 0 <= k < |r.cells[j].children| ==> NodeStyled(r.cells[j].children[k])
  }

  function AddStyles(ns: seq<Node>): (r: seq<Node>)
    ensures |r| == |ns|
    ensures Styled(r)
  {
    seq(|ns|, i requires 0 <= i < |ns| => StyleNode(ns[i]))
  }

  function StyleNode(n: Node): (r: Node)
    ensures NodeStyled(r)
    decreases n
  {
    match n
    case Text(_) => n
    case Element(nm, a, ch) => Element(nm, a, seq(|ch|, i requires 0 <= i < |ch| => StyleNode(ch[i])))
    case Table(a, rows) => Table(WithTableStyle(a), seq(|rows|, i requires 0 <= i < |rows| => StyleRow(rows[i])))
  }

  function StyleRow(row: Row): (r: Row)
    ensures RowStyled(r)
    decreases row
  {
    Row(row.attrs, seq(|row.cells|, j requires 0 <= j < |row.cells| => StyleCell(row.cells[j])))
  }

  function StyleCell(c: Cell): (r: Cell)
    ensures forall k :: 0 <= k < |r.children| ==> NodeStyled(r.children[k])
    decreases c
  {
    Cell(c.kind, c.attrs, seq(|c.children|, k requires 0 <= k < |c.children| => StyleNode(c.children[k])))
  }

  /** Adding the table attributes leaves the shape untouched. */
  lemma AddStylesShape(ns: seq<Node>)
    ensures Shape(AddStyles(ns)) == Shape(ns)
  {
    forall i | 0 <= i < |ns| ensures Erase(StyleNode(ns[i])) == Erase(ns[i]) {
      StyleNodeShape(ns[i]);
    }
  }

  lemma {:induction false} StyleNodeShape(n: Node)
    ensures Erase(StyleNode(n)) == Erase(n)
    decreases n
  {
    match n
    case Text(_) =>
    case Element(nm, a, ch) =>
      forall i | 0 <= i < |ch| ensures Erase(StyleNode(ch[i])) == Erase(ch[i]) {
        StyleNodeShape(ch[i]);
      }
    case Table(a, rows) =>
      forall i | 0 <= i < |rows| ensures EraseRow(StyleRow(rows[i])) == EraseRow(rows[i]) {
        var row := rows[i];
        forall j | 0 <= j < |row.cells| ensures EraseCell(StyleCell(row.cells[j])) == EraseCell(row.cells[j]) {
          var c := row.cells[j];
          forall k | 0 <= k < |c.children| ensures Erase(StyleNode(c.children[k])) == Erase(c.children[k]) {
            StyleNodeShape(c.children[k]);
          }
        }
      }
  }

  // ---------------------------------------------------------------------------
  // only_get_table

  /** The outermost tables, in document order. */
  function TopTables(ns: seq<Node>): (r: seq<Node>)
    ensures forall i :: 0 <= i < |r| ==> r[i].Table?
    decreases ns
  {
    if |ns| == 0 then [] else NodeTables(ns[0]) + TopTables(ns[1..])
  }

  function NodeTables(n: Node): (r: seq<Node>)
    ensures forall i :: 0 <= i < |r| ==> r[i].Table?
    decreases n
  {
    match n
    case Text(_) => []
    case Element(_, _, ch) => TopTables(ch)
    case Table(_, _) => [n]
  }

  /** A document made of tables only is its own table list. */
  lemma {:induction false} TopTablesOfTables(ns: seq<Node>)
    requires forall i :: 0 <= i < |ns| ==> ns[i].Table?
    ensures TopTables(ns) == ns
    decreases ns
  {
    if |ns| > 0 {
      TopTablesOfTables(ns[1..]);
      assert ns == [ns[0]] + ns[1..];
    }
  }

  /** A new document holding every table, with attributes whitelisted again. */
  function OnlyGetTable(ns: seq<Node>): (r: seq<Node>)
    ensures |r| == |TopTables(ns)|
    ensures AttrsOK(r)
    ensures forall i :: 0 <= i < |r| ==> r[i].Table?
    ensures forall i :: 0 <= i < |r| ==>
              "border" !in r[i].attrs && "cellspacing" !in r[i].attrs && "cellpadding" !in r[i].attrs
  {
    var r := StripAttrs(TopTables(ns));
    assert forall i :: 0 <= i < |r| ==> NodeAttrsOK(r[i]);
    r
  }

  /** Taking tables commutes with adding the table attributes. */
  lemma {:induction false} TopTablesStyled(ns: seq<Node>)
    ensures TopTables(AddStyles(ns)) == AddStyles(TopTables(ns))
    decreases ns
  {
    if |ns| > 0 {
      var n := ns[0];
      assert AddStyles(ns) == [StyleNode(n)] + AddStyles(ns[1..]);
      assert AddStyles(ns)[1..] == AddStyles(ns[1..]);
      TopTablesStyled(ns[1..]);
      match n
      case Text(_) =>
      case Element(nm, a, ch) =>
        TopTablesStyled(ch);
        AddStylesAppend(TopTables(ch), TopTables(ns[1..]));
      case Table(_, _) =>
        AddStylesAppend([n], TopTables(ns[1..]));
    }
  }

  lemma AddStylesAppend(a: seq<Node>, b: seq<Node>)
    ensures AddStyles(a + b) == AddStyles(a) + AddStyles(b)
  {
  }

  lemma StripAttrsAppend(a: seq<Node>, b: seq<Node>)
    ensures StripAttrs(a + b) == StripAttrs(a) + StripAttrs(b)
  {
  }

  /** Whitelisting forgets whatever the table attributes added. */
  lemma {:induction false} StripStyledNode(n: Node)
    ensures StripNode(StyleNode(n)) == StripNode(n)
    decreases n
  {
    match n
    case Text(_) =>
    case Element(nm, a, ch) =>
      forall i | 0 <= i < |ch| ensures StripNode(StyleNode(ch[i])) == StripNode(ch[i]) {
        StripStyledNode(ch[i]);
      }
    case Table(a, rows) =>
      assert Keep(WithTableStyle(a)) == Keep(a);
      forall i | 0 <= i < |rows| ensures StripRow(StyleRow(rows[i])) == StripRow(rows[i]) {
        var row := rows[i];
        forall j | 0 <= j < |row.cells| ensures StripCell(StyleCell(row.cells[j])) == StripCell(row.cells[j]) {
          var c := row.cells[j];
          forall k | 0 <= k < |c.children| ensures StripNode(StyleNode(c.children[k])) == StripNode(c.children[k]) {
            StripStyledNode(c.children[k]);
          }
        }
      }
  }

  /** The attributes added for display are gone again once only the tables are kept:
      the table document is the same as without them. */
  lemma OnlyGetTableUndoesStyles(ns: seq<Node>)
    ensures OnlyGetTable(AddStyles(ns)) == OnlyGetTable(ns)
  {
    TopTablesStyled(ns);
    var t := TopTables(ns);
    forall i | 0 <= i < |t| ensures StripNode(StyleNode(t[i])) == StripNode(t[i]) {
      StripStyledNode(t[i]);
    }
  }
}
