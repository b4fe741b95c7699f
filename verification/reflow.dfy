/**
 The reflow path of `PDFProcessor`: on each page the words are read in order,
 every extracted table is rendered and spliced into the word list in front of the
 word that matches its top-left cell, the last element is dropped, the heading
 rules are applied to each element and the page is concatenated; the document
 is `# ` followed by the pages.
 */
module Reflow {
  import opened Types
  import opened Strings
  import opened TableFormat
  import opened Headings

  /** A word of the page: `word.get("text")`, which may be missing. */
  type Token = Option<string>

  /** The test both loops of `find_non_empty_indexes` start with: a present,
      non-blank word equal to the table's top-left cell (a word never equals a
      missing cell). */
  predicate Anchors(t: Token, corner: Cell, sp: char -> bool) {
    t.Some? && !Blank(t.value, sp) && t == corner
  }

  /** `Blank` is the source's `strip() != ""` test, negated. */
  lemma BlankIsStripEmpty(w: string, sp: char -> bool)
    ensures Blank(w, sp) <==> Strip(w, sp) == ""
  {
  }

  /** The first loop, from index `i` on. */
  function FirstAnchor(tokens: seq<Token>, corner: Cell, sp: char -> bool, i: nat): (r: Option<nat>)
    requires i <= |tokens|
    ensures r.Some? ==> i <= r.value < |tokens| && Anchors(tokens[r.value], corner, sp)
    ensures r.Some? ==> forall j :: i <= j < r.value ==> !Anchors(tokens[j], corner, sp)
    ensures r.None? ==> forall j :: i <= j < |tokens| ==> !Anchors(tokens[j], corner, sp)
    decreases |tokens| - i
  {
    if i == |tokens| then None
    else if Anchors(tokens[i], corner, sp) then Some(i)
    else FirstAnchor(tokens, corner, sp, i + 1)
  }

  /** The second loop, over `range(len(tokens) - 1)` from index `i` on: the
      anchor must also be followed by the table's second top cell. Reading that
      cell of a one-cell row raises IndexError, which the handler turns into "no
      anchor". */
  function PairAnchor(tokens: seq<Token>, row: seq<Cell>, sp: char -> bool, i: nat): Option<nat>
    requires |row| > 0
    decreases |tokens| - i
  {
    if i + 1 >= |tokens| then None
    else if Anchors(tokens[i], row[0], sp) then
      if |row| < 2 then None
      else if tokens[i + 1] == row[1] then Some(i)
      else PairAnchor(tokens, row, sp, i + 1)
    else PairAnchor(tokens, row, sp, i + 1)
  }

  /** The second loop tests a stronger condition than the first over fewer
      indexes, so it never finds an anchor the first loop missed. */
  lemma {:induction false} SecondLoopNeverSucceeds(tokens: seq<Token>, row: seq<Cell>, sp: char -> bool, i: nat)
    requires |row| > 0 && i <= |tokens|
    requires FirstAnchor(tokens, row[0], sp, i).None?
    ensures PairAnchor(tokens, row, sp, i).None?
    decreases |tokens| - i
  {
    if i + 1 < |tokens| {
      assert !Anchors(tokens[i], row[0], sp);
      SecondLoopNeverSucceeds(tokens, row, sp, i + 1);
    }
  }

  /** `find_non_empty_indexes(inserted_list, table)`: the index of the first
      non-blank word equal to the table's top-left cell, or None when the table or
      its first row is empty or no word matches. */
  function FindNonEmptyIndexes(tokens: seq<Token>, table: Grid, sp: char -> bool): (r: Option<nat>)
    ensures r.Some? ==> |table| > 0 && |table[0]| > 0 && r.value < |tokens|
    ensures r.Some? ==> Anchors(tokens[r.value], table[0][0], sp)
    ensures r.Some? ==> forall j :: 0 <= j < r.value ==> !Anchors(tokens[j], table[0][0], sp)
    ensures r.None? <==> |table| == 0 || |table[0]| == 0 ||
                         forall j :: 0 <= j < |tokens| ==> !Anchors(tokens[j], table[0][0], sp)
  {
    if |table| == 0 || |table[0]| == 0 then None
    else
      match FirstAnchor(tokens, table[0][0], sp, 0)
      case Some(i) => Some(i)
      case None =>
        SecondLoopNeverSucceeds(tokens, table[0], sp, 0);
        PairAnchor(tokens, table[0], sp, 0)
  }

  /** `text_list[:h] + [block] + text_list[h:]`. */
  function Splice(textList: seq<Token>, h: nat, block: string): (r: seq<Token>)
    requires h <= |textList|
    ensures |r| == |textList| + 1
    ensures r[..h] == textList[..h] && r[h] == Some(block) && r[h + 1..] == textList[h..]
  {
    textList[..h] + [Some(block)] + textList[h..]
  }

  /** One iteration of the loop in `replace_table_in_text`: the anchor is looked
      up in the list the previous iteration built, but the block is spliced into
      the original word list; with no anchor the list is reset to the original. */
  function Step(table: Grid, textList: seq<Token>, inserted: seq<Token>, render: Render, sp: char -> bool): (r: seq<Token>)
    requires |inserted| <= |textList| + 1
    ensures |r| == |textList| || |r| == |textList| + 1
    ensures FindNonEmptyIndexes(inserted, table, sp).None? ==> r == textList
    ensures match FindNonEmptyIndexes(inserted, table, sp)
      case None => true
      case Some(h) =>
        && h <= |textList| && |r| == |textList| + 1
        && r[..h] == textList[..h]
        && r[h] == Some(FormatTable(table, render))
        && r[h + 1..] == textList[h..]
  {
    match FindNonEmptyIndexes(inserted, table, sp)
    case Some(h) => Splice(textList, h, FormatTable(table, render))
    case None => textList
  }

  function Place(tables: seq<Grid>, textList: seq<Token>, inserted: seq<Token>, render: Render, sp: char -> bool): (r: seq<Token>)
    requires |inserted| <= |textList| + 1
    ensures |tables| == 0 ==> r == inserted
    ensures |tables| > 0 ==> |r| == |textList| || |r| == |textList| + 1
    decreases |tables|
  {
    if |tables| == 0 then inserted
    else Place(tables[1..], textList, Step(tables[0], textList, inserted, render, sp), render, sp)
  }

  /** `replace_table_in_text(tables, text_list)`. */
  function ReplaceTableInText(tables: seq<Grid>, textList: seq<Token>, render: Render, sp: char -> bool): (r: seq<Token>)
    ensures |tables| == 0 ==> r == textList
    ensures |r| == |textList| || |r| == |textList| + 1
  {
    Place(tables, textList, textList, render, sp)
  }

  lemma {:induction false} PlaceLast(tables: seq<Grid>, textList: seq<Token>, inserted: seq<Token>, render: Render, sp: char -> bool)
    requires |tables| > 0 && |inserted| <= |textList| + 1
    ensures var before := Place(tables[..|tables| - 1], textList, inserted, render, sp);
      Place(tables, textList, inserted, render, sp) == Step(tables[|tables| - 1], textList, before, render, sp)
    decreases |tables|
  {
    if |tables| > 1 {
      var next := Step(tables[0], textList, inserted, render, sp);
      assert tables[1..][..|tables[1..]| - 1] == tables[..|tables| - 1][1..];
      assert tables[1..][|tables[1..]| - 1] == tables[|tables| - 1];
      PlaceLast(tables[1..], textList, next, render, sp);
    } else {
      assert tables[..0] == [];
    }
  }

  /** Only the last table decides the result: when it has no anchor in the list
      the earlier tables built, the page gets back its original words and every
      earlier table is gone; otherwise exactly its block sits in the original
      words in front of that anchor's index. */
  lemma LastTableDecides(tables: seq<Grid>, textList: seq<Token>, render: Render, sp: char -> bool)
    requires |tables| > 0
    ensures var last := tables[|tables| - 1];
      var before := ReplaceTableInText(tables[..|tables| - 1], textList, render, sp);
      var r := ReplaceTableInText(tables, textList, render, sp);
      match FindNonEmptyIndexes(before, last, sp)
      case None => r == textList
      case Some(h) => h <= |textList| && r == Splice(textList, h, FormatTable(last, render))
  {
    PlaceLast(tables, textList, textList, render, sp);
  }

  /** The block of the last table. */
  function LastBlock(tables: seq<Grid>, render: Render): (b: string)
    requires |tables| > 0
    ensures |b| >= 4 && b[..2] == "\n\n"
  {
    FormatTable(tables[|tables| - 1], render)
  }

  /** `r` is `textList` with `block` spliced in at index `h`. */
  predicate SplicedAt(r: seq<Token>, textList: seq<Token>, h: nat, block: string) {
    h <= |textList| && r == Splice(textList, h, block)
  }

  /** Whatever the tables, the page keeps its words in order with at most one table
      block among them, and that block is the last table's. */
  lemma AtMostOneBlock(tables: seq<Grid>, textList: seq<Token>, render: Render, sp: char -> bool)
    ensures var r := ReplaceTableInText(tables, textList, render, sp);
      r == textList ||
      (|tables| > 0 && exists h :: SplicedAt(r, textList, h, LastBlock(tables, render)))
  {
    if |tables| > 0 {
      LastTableDecides(tables, textList, render, sp);
      var before := ReplaceTableInText(tables[..|tables| - 1], textList, render, sp);
      match FindNonEmptyIndexes(before, tables[|tables| - 1], sp)
      case None =>
      case Some(h) =>
        assert SplicedAt(ReplaceTableInText(tables, textList, render, sp), textList, h, LastBlock(tables, render));
    }
  }

  lemma ExampleFirstStep(a: string, b: string, render: Render, sp: char -> bool)
    requires !Blank(a, sp)
    ensures Step([[Some(a)]], [Some(a), Some(b)], [Some(a), Some(b)], render, sp)
         == [Some(FormatTable([[Some(a)]], render)), Some(a), Some(b)]
  {
    var words := [Some(a), Some(b)];
    assert Anchors(words[0], Some(a), sp);
    assert FindNonEmptyIndexes(words, [[Some(a)]], sp) == Some(0);
    assert words[..0] == [] && words[0..] == words;
  }

  lemma ExampleSecondStep(a: string, b: string, blk: string, render: Render, sp: char -> bool)
    requires !Blank(b, sp) && a != b && blk != b
    ensures Step([[Some(b)]], [Some(a), Some(b)], [Some(blk), Some(a), Some(b)], render, sp)
         == [Some(a), Some(b), Some(FormatTable([[Some(b)]], render))]
  {
    var words := [Some(a), Some(b)];
    var first := [Some(blk), Some(a), Some(b)];
    assert !Anchors(first[0], Some(b), sp) && !Anchors(first[1], Some(b), sp);
    assert Anchors(first[2], Some(b), sp);
    assert FindNonEmptyIndexes(first, [[Some(b)]], sp) == Some(2);
    assert words[..2] == words && words[2..] == [];
  }

  /** Two one-cell tables anchored at consecutive words: the first table's block is
      discarded, and the second is found one place further on in the list that
      holds the first block, so its block lands after its own anchor word. */
  lemma SecondTableLandsAfterItsAnchor(a: string, b: string, render: Render, sp: char -> bool)
    requires !Blank(a, sp) && !Blank(b, sp) && a != b && '\n' !in b
    ensures ReplaceTableInText([[[Some(a)]], [[Some(b)]]], [Some(a), Some(b)], render, sp)
         == [Some(a), Some(b), Some(FormatTable([[Some(b)]], render))]
  {
    var t1: Grid := [[Some(a)]];
    var t2: Grid := [[Some(b)]];
    var words := [Some(a), Some(b)];
    var blk := FormatTable(t1, render);
    ExampleFirstStep(a, b, render, sp);
    assert blk != b by {
      assert blk[0] == '\n';
    }
    ExampleSecondStep(a, b, blk, render, sp);
    var first := [Some(blk), Some(a), Some(b)];
    calc {
      ReplaceTableInText([t1, t2], words, render, sp);
      Place([t1, t2], words, words, render, sp);
      { assert [t1, t2][1..] == [t2]; }
      Place([t2], words, first, render, sp);
      { assert [t2][1..] == []; }
      Place([], words, Step(t2, words, first, render, sp), render, sp);
      [Some(a), Some(b), Some(FormatTable(t2, render))];
    }
  }

  /** A page fails when a word it keeps has no text: the heading rules cannot
      look inside a missing value (a TypeError in the source). */
  datatype PageError = MissingText

  /** `md_formatter` as a function of the text alone. */
  function Formatter(cc: CharClasses): string -> string {
    w => MdFormatter(w, cc)
  }

  /** The heading rules applied to each kept element, concatenated; an element
      without text aborts. */
  function FormatTokens(ts: seq<Token>, fmt: string -> string): (r: Result<string, PageError>)
    ensures r.Ok? <==> forall i :: 0 <= i < |ts| ==> ts[i].Some?
    decreases |ts|
  {
    if |ts| == 0 then Ok("")
    else if ts[0].None? then Err(MissingText)
    else
      match FormatTokens(ts[1..], fmt)
      case Err(e) => Err(e)
      case Ok(rest) =>
        assert forall i :: 1 <= i < |ts| ==> ts[i] == ts[1..][i - 1];
        Ok(fmt(ts[0].value) + rest)
  }

  /** A page that succeeds is the formatted text of each element, joined in order. */
  lemma {:induction false} FormatTokensIsConcat(ts: seq<Token>, fmt: string -> string)
    ensures FormatTokens(ts, fmt).Ok? ==> FormatTokens(ts, fmt).value == Concat(Formatted(ts, fmt))
    decreases |ts|
  {
    if |ts| > 0 && FormatTokens(ts, fmt).Ok? {
      assert ts[0].Some?;
      assert FormatTokens(ts[1..], fmt).Ok?;
      FormatTokensIsConcat(ts[1..], fmt);
      FormattedTail(ts, fmt);
      ConcatCons(Formatted(ts, fmt));
    }
  }

  /** Each element's formatted text, in order (a missing text stands as `""`). */
  function Formatted(ts: seq<Token>, fmt: string -> string): seq<string> {
    seq(|ts|, i requires 0 <= i < |ts| => if ts[i].Some? then fmt(ts[i].value) else "")
  }

  lemma FormattedTail(ts: seq<Token>, fmt: string -> string)
    requires |ts| > 0
    ensures Formatted(ts, fmt)[1..] == Formatted(ts[1..], fmt)
  {
    assert forall i :: 0 <= i < |ts| - 1 ==> ts[1..][i] == ts[i + 1];
  }

  /** Formatting distributes over the concatenation of word lists. */
  lemma {:induction false} FormatTokensAppend(a: seq<Token>, b: seq<Token>, fmt: string -> string)
    requires FormatTokens(a, fmt).Ok? && FormatTokens(b, fmt).Ok?
    ensures FormatTokens(a + b, fmt) == Ok(FormatTokens(a, fmt).value + FormatTokens(b, fmt).value)
    decreases |a|
  {
    if |a| == 0 {
      assert a + b == b;
      assert "" + FormatTokens(b, fmt).value == FormatTokens(b, fmt).value;
    } else {
      assert a[0].Some?;
      assert FormatTokens(a[1..], fmt).Ok? by {
        assert forall i :: 0 <= i < |a[1..]| ==> a[1..][i] == a[i + 1];
      }
      FormatTokensAppend(a[1..], b, fmt);
      assert (a + b)[1..] == a[1..] + b;
      FormatCons(a + b, a[0].value, a[1..] + b, fmt);
      FormatCons(a, a[0].value, a[1..], fmt);
      ConcatAssoc(fmt(a[0].value), FormatTokens(a[1..], fmt).value, FormatTokens(b, fmt).value);
    }
  }

  /** One element of a successful formatting: its text, then the rest. */
  lemma FormatCons(ts: seq<Token>, h: string, y: seq<Token>, fmt: string -> string)
    requires |ts| > 0 && ts[0] == Some(h) && ts[1..] == y && FormatTokens(y, fmt).Ok?
    ensures FormatTokens(ts, fmt) == Ok(fmt(h) + FormatTokens(y, fmt).value)
  {
  }

  /** The body of the page loop in `pdf_doc_to_markdown`. */
  function PageMarkdown(words: seq<Token>, tables: seq<Grid>, render: Render, cc: CharClasses): (r: Result<string, PageError>)
    ensures var placed := ReplaceTableInText(tables, words, render, cc.isSpace);
      r.Ok? <==> forall i :: 0 <= i < |placed| - 1 ==> placed[i].Some?
  {
    var placed := ReplaceTableInText(tables, words, render, cc.isSpace);
    FormatTokens(DropLast(placed), Formatter(cc))
  }

  /** The text of a page, tables or not: every element of the spliced list but the
      last, each through the heading rules, joined in order. */
  lemma PageText(words: seq<Token>, tables: seq<Grid>, render: Render, cc: CharClasses)
    ensures var r := PageMarkdown(words, tables, render, cc);
      var placed := ReplaceTableInText(tables, words, render, cc.isSpace);
      r.Ok? ==> r.value == Concat(Formatted(DropLast(placed), Formatter(cc)))
  {
    var placed := ReplaceTableInText(tables, words, render, cc.isSpace);
    FormatTokensIsConcat(DropLast(placed), Formatter(cc));
  }

  /** `page_list[:-1]`: everything but the last element (nothing of an empty list). */
  function DropLast(ts: seq<Token>): seq<Token> {
    if |ts| > 0 then ts[..|ts| - 1] else ts
  }

  /** Without tables the last word of a page is dropped unread, and the others are
      formatted one by one and joined without separators. */
  lemma PageWithoutTables(words: seq<Token>, last: Token, cc: CharClasses, render: Render)
    requires forall i :: 0 <= i < |words| ==> words[i].Some?
    ensures PageMarkdown(words + [last], [], render, cc) == FormatTokens(words, Formatter(cc))
    ensures PageMarkdown(words + [last], [], render, cc).Ok?
  {
    assert (words + [last])[..|words|] == words;
  }

  /** A page with one table anchored at word `h`: the words before the anchor, then
      the table's block, then the words from the anchor on without the page's last
      element, each formatted, in that order. */
  lemma PageWithOneTable(words: seq<Token>, t: Grid, h: nat, render: Render, cc: CharClasses)
    requires forall i :: 0 <= i < |words| - 1 ==> words[i].Some?
    requires FindNonEmptyIndexes(words, t, cc.isSpace) == Some(h)
    ensures PageMarkdown(words, [t], render, cc)
         == Ok(FormatTokens(words[..h], Formatter(cc)).value
               + MdFormatter(FormatTable(t, render), cc)
               + FormatTokens(words[h..|words| - 1], Formatter(cc)).value)
  {
    var blk := FormatTable(t, render);
    OneTableKept(words, t, h, render, cc.isSpace);
    FormatAround(words[..h], blk, words[h..|words| - 1], Formatter(cc));
  }

  /** With one anchored table the kept elements are the words before the anchor, the
      block, and the words from the anchor on without the last. */
  lemma OneTableKept(words: seq<Token>, t: Grid, h: nat, render: Render, sp: char -> bool)
    requires FindNonEmptyIndexes(words, t, sp) == Some(h)
    ensures h < |words|
    ensures DropLast(ReplaceTableInText([t], words, render, sp))
         == words[..h] + [Some(FormatTable(t, render))] + words[h..|words| - 1]
  {
    LastTableDecides([t], words, render, sp);
    assert [t][..0] == [];
  }

  /** Formatting a block between two word lists. */
  lemma FormatAround(a: seq<Token>, blk: string, b: seq<Token>, fmt: string -> string)
    requires FormatTokens(a, fmt).Ok? && FormatTokens(b, fmt).Ok?
    ensures FormatTokens(a + [Some(blk)] + b, fmt)
         == Ok(FormatTokens(a, fmt).value + fmt(blk) + FormatTokens(b, fmt).value)
  {
    assert FormatTokens([Some(blk)], fmt) == Ok(fmt(blk) + "") by {
      assert [Some(blk)][1..] == [];
    }
    assert fmt(blk) + "" == fmt(blk);
    FormatTokensAppend(a, [Some(blk)], fmt);
    FormatTokensAppend(a + [Some(blk)], b, fmt);
  }

  /** Three plain words on a page with no tables, such as `标题`, `内容`, `结束`:
      the page text is the first two run together. */
  lemma ThreePlainWords(x: string, y: string, z: string, cc: CharClasses, render: Render)
    requires PlainText(x) && PlainText(y)
    ensures PageMarkdown([Some(x), Some(y), Some(z)], [], render, cc) == Ok(x + y)
  {
    PageWithoutTables([Some(x), Some(y)], Some(z), cc, render);
    assert [Some(x), Some(y)] + [Some(z)] == [Some(x), Some(y), Some(z)];
    PlainWord(x, cc);
    PlainWord(y, cc);
    assert [Some(x), Some(y)][1..] == [Some(y)];
    assert [Some(y)][1..] == [];
    calc {
      FormatTokens([Some(x), Some(y)], Formatter(cc));
      Ok(MdFormatter(x, cc) + FormatTokens([Some(y)], Formatter(cc)).value);
      Ok(x + (MdFormatter(y, cc) + FormatTokens([], Formatter(cc)).value));
      { assert y + "" == y; }
      Ok(x + y);
    }
  }

  /** None of the characters the heading rules look for. */
  predicate PlainText(w: string) {
    '章' !in w && '条' !in w && '节' !in w && '（' !in w && '.' !in w && '附' !in w
  }

  /** A word holding none of the guard characters passes the heading rules unchanged. */
  lemma PlainWord(w: string, cc: CharClasses)
    requires PlainText(w)
    ensures MdFormatter(w, cc) == w
  {
    ContainsChar(w, '章');
    ContainsChar(w, '条');
    ContainsChar(w, '节');
    ContainsChar(w, '（');
    ContainsChar(w, '.');
    if Contains(w, "附件") {
      ContainsPrefix(w, "附", "附件");
      ContainsChar(w, '附');
    }
  }

  /** A page of the document: its words in reading order and its tables. */
  datatype Page = Page(words: seq<Token>, tables: seq<Grid>)

  /** `"".join(page_list)`, where the first failing page fails the whole. */
  function CollectPages(results: seq<Result<string, PageError>>): (r: Result<string, PageError>)
    ensures r.Ok? <==> forall i :: 0 <= i < |results| ==> results[i].Ok?
    decreases |results|
  {
    if |results| == 0 then Ok("")
    else
      assert forall i :: 1 <= i < |results| ==> results[i] == results[1..][i - 1];
      match results[0]
      case Err(e) => Err(e)
      case Ok(first) =>
        match CollectPages(results[1..])
        case Err(e) => Err(e)
        case Ok(rest) => Ok(first + rest)
  }

  /** Collected pages are the page texts joined in order. */
  lemma {:induction false} CollectPagesIsConcat(results: seq<Result<string, PageError>>)
    ensures CollectPages(results).Ok? ==> CollectPages(results).value == Concat(Values(results))
    decreases |results|
  {
    if |results| > 0 && CollectPages(results).Ok? {
      assert results[0].Ok?;
      assert CollectPages(results[1..]).Ok?;
      CollectPagesIsConcat(results[1..]);
      ValuesTail(results);
      ConcatCons(Values(results));
    }
  }

  /** The text of each page result, in order (a failed page stands as `""`). */
  function Values(results: seq<Result<string, PageError>>): seq<string> {
    seq(|results|, i requires 0 <= i < |results| => if results[i].Ok? then results[i].value else "")
  }

  lemma ValuesTail(results: seq<Result<string, PageError>>)
    requires |results| > 0
    ensures Values(results)[1..] == Values(results[1..])
  {
    assert forall i :: 0 <= i < |results| - 1 ==> results[1..][i] == results[i + 1];
  }

  /** Pages are emitted in order: collecting `a + b` is collecting `a`, then `b`. */
  lemma {:induction false} CollectAppend(a: seq<Result<string, PageError>>, b: seq<Result<string, PageError>>)
    requires CollectPages(a).Ok? && CollectPages(b).Ok?
    ensures CollectPages(a + b) == Ok(CollectPages(a).value + CollectPages(b).value)
    decreases |a|
  {
    if |a| == 0 {
      assert a + b == b;
      assert "" + CollectPages(b).value == CollectPages(b).value;
    } else {
      assert (a + b)[1..] == a[1..] + b;
      assert (a + b)[0] == a[0];
      assert a[0].Ok?;
      assert CollectPages(a[1..]).Ok?;
      CollectAppend(a[1..], b);
      var h := a[0].value;
      calc {
        CollectPages(a + b);
        Ok(h + CollectPages(a[1..] + b).value);
        Ok(h + (CollectPages(a[1..]).value + CollectPages(b).value));
        { assert h + (CollectPages(a[1..]).value + CollectPages(b).value)
              == (h + CollectPages(a[1..]).value) + CollectPages(b).value; }
        Ok((h + CollectPages(a[1..]).value) + CollectPages(b).value);
      }
    }
  }

  /** The result of each page, in order. */
  function PageResults(pages: seq<Page>, render: Render, cc: CharClasses): (rs: seq<Result<string, PageError>>)
    ensures |rs| == |pages|
    ensures forall i :: 0 <= i < |pages| ==> rs[i] == PageMarkdown(pages[i].words, pages[i].tables, render, cc)
  {
    seq(|pages|, i requires 0 <= i < |pages| => PageMarkdown(pages[i].words, pages[i].tables, render, cc))
  }

  /** `content = "# " + "".join(page_list)`: one top-level heading marker, then the
      pages in order; a page that fails fails the document. */
  function DocumentMarkdown(pages: seq<Page>, render: Render, cc: CharClasses): (r: Result<string, PageError>)
    ensures r.Ok? <==> forall i :: 0 <= i < |pages| ==> PageMarkdown(pages[i].words, pages[i].tables, render, cc).Ok?
    ensures r.Ok? ==> |r.value| >= 2 && r.value[..2] == "# "
  {
    var results := PageResults(pages, render, cc);
    match CollectPages(results)
    case Err(e) => Err(e)
    case Ok(body) => Ok("# " + body)
  }

  /** A document that succeeds is `# ` followed by the text of every page, in order. */
  lemma DocumentText(pages: seq<Page>, render: Render, cc: CharClasses)
    ensures var r := DocumentMarkdown(pages, render, cc);
      r.Ok? ==> r.value == "# " + Concat(Values(PageResults(pages, render, cc)))
  {
    CollectPagesIsConcat(PageResults(pages, render, cc));
  }
}
