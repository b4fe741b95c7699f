/**
 The end of the HTML table normaliser: the fixed chain of tree passes, then
 the compaction level. Serialising and pretty-printing the tree are the
 parser library's and stay abstract; the model keeps the string steps the
 program applies to their output.
 */
module HtmlOutput {
  import opened Types
  import opened Strings
  import opened Runs
  import opened Blocks
  import opened HtmlTree
  import opened HtmlPasses
  import opened HtmlRows

  // ---------------------------------------------------------------------------
  // The compact tag rename: `(</*)t([drh].*?>)` becomes `\1\2`

  predicate IsSlash(c: char) {
    c == '/'
  }

  /** The letters that follow the `t` in the renamed tags. */
  predicate ShortName(c: char) {
    c == 'd' || c == 'r' || c == 'h'
  }

  /** How many slashes follow index `i`: the greedy slash run of the pattern. */
  function Slashes(s: string, i: nat): (n: nat)
    requires i <= |s|
    ensures i + n <= |s|
    decreases |s| - i
  {
    if i < |s| && s[i] == '/' then 1 + Slashes(s, i + 1) else 0
  }

  /** The nearest `>` from index `i` on, unless a newline comes first: the lazy
      `.*?>` of the pattern. */
  function FindGt(s: string, i: nat): (r: Option<nat>)
    ensures r.Some? ==> i <= r.value < |s| && s[r.value] == '>'
    decreases |s| - i
  {
    if i >= |s| then None
    else if s[i] == '>' then Some(i)
    else if s[i] == '\n' then None
    else FindGt(s, i + 1)
  }

  /** Whether the rename matches at the start of `s`, and if so the index of the
      `>` that ends the match: a `<`, the slashes, `t`, one of `d`, `r`, `h`, and
      then the nearest `>` on the same line. */
  function TagAt(s: string): (r: Option<nat>)
    ensures r.Some? ==> |s| > 0 && s[0] == '<'
    ensures r.Some? ==> var k := Slashes(s, 1);
              3 + k <= r.value < |s| && s[1 + k] == 't' && ShortName(s[2 + k]) && s[r.value] == '>'
  {
    if |s| == 0 || s[0] != '<' then None
    else
      var k := Slashes(s, 1);
      if 2 + k < |s| && s[1 + k] == 't' && ShortName(s[2 + k]) then FindGt(s, 3 + k) else None
  }

  /** The matched tag with its `t` removed. */
  function Shortened(s: string, j: nat): (r: string)
    requires TagAt(s) == Some(j)
    ensures |r| == j
  {
    var k := Slashes(s, 1);
    s[..1 + k] + s[2 + k..j + 1]
  }

  lemma ShortenedDropsT(s: string, j: nat)
    requires TagAt(s) == Some(j)
    ensures Without(Shortened(s, j), 't') == Without(s[..j + 1], 't')
  {
    var k := Slashes(s, 1);
    assert s[..j + 1] == s[..1 + k] + "t" + s[2 + k..j + 1];
    WithoutDropsOne(s[..1 + k], s[2 + k..j + 1], 't');
  }

  /** The rename applied left to right to every match: `<td …>` becomes `<d …>`,
      `</tr>` becomes `</r>`, `<th>` becomes `<h>`. */
  function CompactTags(s: string): (r: string)
    ensures |r| <= |s|
    decreases |s|
  {
    if |s| == 0 then ""
    else
      match TagAt(s)
      case Some(j) => Shortened(s, j) + CompactTags(s[j + 1..])
      case None => [s[0]] + CompactTags(s[1..])
  }

  lemma CompactMatch(s: string, j: nat)
    requires TagAt(s) == Some(j)
    ensures CompactTags(s) == Shortened(s, j) + CompactTags(s[j + 1..])
  {
  }

  lemma CompactNoMatch(s: string)
    requires |s| > 0 && TagAt(s).None?
    ensures CompactTags(s) == [s[0]] + CompactTags(s[1..])
  {
  }

  /** The rename only ever deletes a `t`. */
  lemma {:induction false} CompactTagsDropsOnlyT(s: string)
    ensures Without(CompactTags(s), 't') == Without(s, 't')
    decreases |s|
  {
    if |s| > 0 {
      if TagAt(s).Some? {
        var j := TagAt(s).value;
        CompactMatch(s, j);
        CompactTagsDropsOnlyT(s[j + 1..]);
        assert s == s[..j + 1] + s[j + 1..];
        WithoutAppend(s[..j + 1], s[j + 1..], 't');
        WithoutAppend(Shortened(s, j), CompactTags(s[j + 1..]), 't');
        ShortenedDropsT(s, j);
      } else {
        CompactNoMatch(s);
        CompactTagsDropsOnlyT(s[1..]);
        assert s == [s[0]] + s[1..];
        WithoutAppend([s[0]], s[1..], 't');
        WithoutAppend([s[0]], CompactTags(s[1..]), 't');
      }
    }
  }

  /** Text without a `<` is copied through. */
  lemma {:induction false} CompactTagsPlain(a: string, x: string)
    requires '<' !in a
    ensures CompactTags(a + x) == a + CompactTags(x)
    decreases |a|
  {
    if |a| > 0 {
      PlainHead(a, x);
      CompactSkip(a + x, a[0], a[1..] + x);
      CompactTagsPlain(a[1..], x);
      ConcatAssoc([a[0]], a[1..], CompactTags(x));
    } else {
      assert a + x == x;
    }
  }

  lemma PlainHead(a: string, x: string)
    requires '<' !in a && |a| > 0
    ensures (a + x)[0] == a[0] != '<' && (a + x)[1..] == a[1..] + x
    ensures TagAt(a + x).None? && '<' !in a[1..] && [a[0]] + a[1..] == a
  {
  }

  /** One step of the rename where no match starts. */
  lemma CompactSkip(s: string, h: char, y: string)
    requires |s| > 0 && TagAt(s).None? && s[0] == h && s[1..] == y
    ensures CompactTags(s) == [h] + CompactTags(y)
  {
    CompactNoMatch(s);
  }

  /** One step of the rename where a match starts. */
  lemma CompactStep(s: string, j: nat, h: string, y: string)
    requires TagAt(s) == Some(j) && Shortened(s, j) == h && s[j + 1..] == y
    ensures CompactTags(s) == h + CompactTags(y)
  {
    CompactMatch(s, j);
  }

  lemma {:induction false} SlashesAt(s: string, i: nat, e: nat)
    requires i <= e < |s| && s[e] != '/'
    requires forall q :: i <= q < e ==> s[q] == '/'
    ensures Slashes(s, i) == e - i
    decreases e - i
  {
    if i < e {
      SlashesAt(s, i + 1, e);
    }
  }

  lemma {:induction false} FindGtAt(s: string, i: nat, j: nat)
    requires i <= j < |s| && s[j] == '>'
    requires forall q :: i <= q < j ==> s[q] != '>' && s[q] != '\n'
    ensures FindGt(s, i) == Some(j)
    decreases j - i
  {
    if i < j {
      FindGtAt(s, i + 1, j);
    }
  }

  /** The start of a tag: `<`, slashes, a letter and the letter after it. */
  function Opening(slashes: string, t: char, c: char): string {
    "<" + AfterLt(slashes, t, c)
  }

  function AfterLt(slashes: string, t: char, c: char): string {
    slashes + [t, c]
  }

  lemma OpeningAt(slashes: string, t: char, c: char, x: string)
    requires All(slashes, IsSlash) && t != '/'
    ensures var s := Opening(slashes, t, c) + x;
      && |s| == 3 + |slashes| + |x| && s[0] == '<'
      && s[1 + |slashes|] == t && s[2 + |slashes|] == c
      && Slashes(s, 1) == |slashes|
      && s[3 + |slashes|..] == x
  {
    var s := Opening(slashes, t, c) + x;
    forall q | 1 <= q < 1 + |slashes| ensures s[q] == '/' {
      assert s[q] == slashes[q - 1];
      assert IsSlash(slashes[q - 1]);
    }
    SlashesAt(s, 1, 1 + |slashes|);
  }

  /** `<` + slashes + `t` + one of `d`, `r`, `h` + attributes + `>` loses its `t`. */
  lemma RenameTag(slashes: string, c: char, a: string, x: string)
    requires All(slashes, IsSlash) && ShortName(c)
    requires '>' !in a && '\n' !in a
    ensures CompactTags(Opening(slashes, 't', c) + (a + ">" + x))
         == "<" + slashes + [c] + a + ">" + CompactTags(x)
  {
    var s := Opening(slashes, 't', c) + (a + ">" + x);
    var j := 3 + |slashes| + |a|;
    RenamePieces(slashes, c, a, x);
    CompactStep(s, j, "<" + slashes + [c] + a + ">", x);
  }

  lemma RenamePieces(slashes: string, c: char, a: string, x: string)
    requires All(slashes, IsSlash) && ShortName(c)
    requires '>' !in a && '\n' !in a
    ensures var s := Opening(slashes, 't', c) + (a + ">" + x); var j := 3 + |slashes| + |a|;
      && TagAt(s) == Some(j)
      && Shortened(s, j) == "<" + slashes + [c] + a + ">"
      && s[j + 1..] == x
  {
    var s := Opening(slashes, 't', c) + (a + ">" + x);
    var k := |slashes|;
    var j := 3 + k + |a|;
    OpeningAt(slashes, 't', c, a + ">" + x);
    RenameMatches(s, k, a, x);
    assert s[..1 + k] == "<" + slashes;
    assert s[2 + k..j + 1] == [c] + a + ">";
    assert s[j + 1..] == x;
    assert "<" + slashes + ([c] + a + ">") == "<" + slashes + [c] + a + ">";
  }

  lemma RenameMatches(s: string, k: nat, a: string, x: string)
    requires |s| == 3 + k + |a| + 1 + |x| && s[0] == '<' && Slashes(s, 1) == k
    requires s[1 + k] == 't' && ShortName(s[2 + k]) && s[3 + k..] == a + ">" + x
    requires '>' !in a && '\n' !in a
    ensures TagAt(s) == Some(3 + k + |a|)
  {
    var j := 3 + k + |a|;
    forall q | 3 + k <= q < j ensures s[q] != '>' && s[q] != '\n' {
      assert s[q] == a[q - 3 - k];
    }
    assert s[j] == (a + ">" + x)[|a|];
    FindGtAt(s, 3 + k, j);
  }

  /** `<` + slashes + `t` followed by anything but `d`, `r`, `h` is kept: `<table>`
      and `</table>` stay as they are. */
  lemma KeepTag(slashes: string, c: char, x: string)
    requires All(slashes, IsSlash) && !ShortName(c) && c != '<'
    ensures CompactTags(Opening(slashes, 't', c) + x) == Opening(slashes, 't', c) + CompactTags(x)
  {
    var tail := AfterLt(slashes, 't', c);
    KeepTagHead(slashes, c, x);
    NoLtAfter(slashes, c);
    CompactTagsPlain(tail, x);
    ConcatAssoc("<", tail, CompactTags(x));
  }

  lemma NoLtAfter(slashes: string, c: char)
    requires All(slashes, IsSlash) && c != '<'
    ensures '<' !in AfterLt(slashes, 't', c)
  {
    var tail := AfterLt(slashes, 't', c);
    forall m | 0 <= m < |tail| ensures tail[m] != '<' {
      if m < |slashes| {
        assert tail[m] == slashes[m] && IsSlash(slashes[m]);
      }
    }
  }

  lemma KeepTagHead(slashes: string, c: char, x: string)
    requires All(slashes, IsSlash) && !ShortName(c)
    ensures CompactTags(Opening(slashes, 't', c) + x) == "<" + CompactTags(AfterLt(slashes, 't', c) + x)
  {
    var s := Opening(slashes, 't', c) + x;
    OpeningAt(slashes, 't', c, x);
    assert TagAt(s).None?;
    assert s[1..] == AfterLt(slashes, 't', c) + x;
    CompactSkip(s, '<', AfterLt(slashes, 't', c) + x);
  }

  // ---------------------------------------------------------------------------
  // Levels 1 and 2

  /** `<?xml …?>` declarations the pretty-printer writes are removed. */
  function DropXmlDeclarations(s: string): (r: string)
    ensures |r| <= |s|
    ensures !Contains(s, "<?xml") ==> r == s
  {
    RemoveBlocksShrinks(s, "<?xml", "?>", false);
    NoDeclarationKept(s);
    RemoveBlocks(s, "<?xml", "?>", false)
  }

  lemma NoDeclarationKept(s: string)
    ensures !Contains(s, "<?xml") ==> RemoveBlocks(s, "<?xml", "?>", false) == s
  {
    if !Contains(s, "<?xml") {
      RemoveBlocksNoOpen(s, "<?xml", "?>", false);
    }
  }

  /** The comment that tells the reader how the short tag names map back. */
  const Legend := "<!-- 标签映射表={<table>:<t>,<tr>:<r>,<td>:<d>,<th>:<h>} -->"

  /** `medium_compact`: the pretty-printed tables, declarations removed, stripped. */
  function MediumCompact(doc: seq<Node>, pretty: seq<Node> -> string, sp: char -> bool): (r: string)
    ensures Stripped(r, sp)
    ensures !Contains(pretty(doc), "<?xml") ==> r == Strip(pretty(doc), sp)
  {
    Strip(DropXmlDeclarations(pretty(doc)), sp)
  }

  /** `high_compact`: the legend, then the pretty-printed tables with the short
      tag names and the declarations removed. */
  function HighCompact(doc: seq<Node>, pretty: seq<Node> -> string): (r: string)
    ensures StartsWith(r, Legend)
    ensures !Contains(CompactTags(pretty(doc)), "<?xml") ==> r == Legend + CompactTags(pretty(doc))
  {
    var body := CompactTags(pretty(doc));
    Legend + DropXmlDeclarations(body)
  }

  // ---------------------------------------------------------------------------
  // simplify_html_table

  /** The passes before the table attributes are added. */
  function Cleaned(doc: seq<Node>, sp: char -> bool): (r: seq<Node>)
    ensures NoneNamed(r, Unneeded) && NoneNamed(r, {"font"}) && NoneNamed(r, {"b"})
  {
    var pruned := Prune(doc);
    var stripped := StripAttrs(pruned);
    StripAttrsShape(pruned);
    SameShapeSameNames(stripped, pruned, Unneeded);
    var noFont := Flatten(stripped, "font", sp);
    FlattenKeepsNoneNamed(stripped, "font", sp, Unneeded);
    var noBold := Flatten(noFont, "b", sp);
    FlattenKeepsNoneNamed(noFont, "b", sp, Unneeded);
    FlattenKeepsNoneNamed(noFont, "b", sp, {"font"});
    var rowsKept := RemoveEmptyRows(noBold, sp);
    RemoveEmptyRowsKeepsNames(noBold, sp, Unneeded);
    RemoveEmptyRowsKeepsNames(noBold, sp, {"font"});
    RemoveEmptyRowsKeepsNames(noBold, sp, {"b"});
    var trimmed := TrimAll(rowsKept, sp);
    TrimAllKeepsNames(rowsKept, sp, Unneeded);
    TrimAllKeepsNames(rowsKept, sp, {"font"});
    TrimAllKeepsNames(rowsKept, sp, {"b"});
    trimmed
  }

  /** The whole chain of tree passes, in the program's order. */
  function Passes(doc: seq<Node>, sp: char -> bool): (r: seq<Node>)
    ensures Styled(r)
    ensures NoneNamed(r, Unneeded) && NoneNamed(r, {"font"}) && NoneNamed(r, {"b"})
  {
    var c := Cleaned(doc, sp);
    AddStylesShape(c);
    SameShapeSameNames(AddStyles(c), c, Unneeded);
    SameShapeSameNames(AddStyles(c), c, {"font"});
    SameShapeSameNames(AddStyles(c), c, {"b"});
    AddStyles(c)
  }

  /** `simplify_html_table(html, compact_level)` on the parsed document. */
  function Simplify(doc: seq<Node>, level: int, serialize: seq<Node> -> string,
                    pretty: seq<Node> -> string, cc: CharClasses): (r: string)
    ensures level == 0 && cc.isSpace(' ') ==> NoRunOf(r, cc.isSpace, 2)
    ensures level == 1 ==> Stripped(r, cc.isSpace)
    ensures level != 0 && level != 1 ==> StartsWith(r, Legend)
  {
    var tree := Passes(doc, cc.isSpace);
    if level == 0 then
      CollapseSpaces(serialize(tree), cc.isSpace);
      ReplaceRuns(serialize(tree), cc.isSpace, 1, " ")
    else if level == 1 then MediumCompact(OnlyGetTable(tree), pretty, cc.isSpace)
    else HighCompact(OnlyGetTable(tree), pretty)
  }

  /** `re.sub(r"\s+", " ", text)` leaves no two whitespace characters side by side. */
  lemma CollapseSpaces(s: string, isSpace: char -> bool)
    ensures isSpace(' ') ==> NoRunOf(ReplaceRuns(s, isSpace, 1, " "), isSpace, 2)
  {
    if isSpace(' ') {
      var r := ReplaceRuns(s, isSpace, 1, " ");
      ReplaceRunsShape(s, isSpace, 1, " ");
      RunsAllMono(r, isSpace, n => n < 1 || n == |" "|, n => n < 2);
      RunsAllBelow(r, isSpace, 2);
    }
  }

  /** At level 0 the serialiser sees the styled tree, with every table carrying
      border, cellspacing and cellpadding. */
  lemma LevelZeroKeepsStyles(doc: seq<Node>, serialize: seq<Node> -> string,
                             pretty: seq<Node> -> string, cc: CharClasses)
    ensures exists tree :: Styled(tree) && Shape(tree) == Shape(Cleaned(doc, cc.isSpace))
              && Simplify(doc, 0, serialize, pretty, cc) == ReplaceRuns(serialize(tree), cc.isSpace, 1, " ")
  {
    var tree := Passes(doc, cc.isSpace);
    AddStylesShape(Cleaned(doc, cc.isSpace));
    assert Styled(tree) && Shape(tree) == Shape(Cleaned(doc, cc.isSpace));
  }

  /** At any other level the table attributes are stripped again: the output is
      what it would be had they never been added. */
  lemma OtherLevelsDropStyles(doc: seq<Node>, level: int, serialize: seq<Node> -> string,
                              pretty: seq<Node> -> string, cc: CharClasses)
    requires level != 0
    ensures var tables := OnlyGetTable(Cleaned(doc, cc.isSpace));
            Simplify(doc, level, serialize, pretty, cc)
            == if level == 1 then MediumCompact(tables, pretty, cc.isSpace) else HighCompact(tables, pretty)
  {
    OnlyGetTableUndoesStyles(Cleaned(doc, cc.isSpace));
  }
}
