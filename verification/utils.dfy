/**
 The text helpers of `src/utils.py`: key masking, watermark and style removal,
 bullet rewriting, `<think>` removal, newline collapsing and the bracket-list
 parser that turns a model's answer into search-index entries.
 */
module Utils {
  import opened Types
  import opened Strings
  import opened Runs
  import opened Blocks

  /** `mask(key)`: five stars, then the last four characters of a key longer than four. */
  function Mask(key: Option<string>): (r: string)
    ensures |r| == 5 || |r| == 9
    ensures r[..5] == "*****"
    ensures |r| == 9 <==> key.Some? && |key.value| > 4
    ensures |r| == 9 ==> r[5..] == key.value[|key.value| - 4..]
  {
    if key.Some? && key.value != "" && |key.value| > 4 then "*****" + key.value[|key.value| - 4..]
    else "*****"
  }

  /** Two keys that end alike mask alike: nothing but the last four characters shows. */
  lemma MaskShowsOnlyLastFour(k1: string, k2: string)
    requires |k1| > 4 && |k2| > 4 && k1[|k1| - 4..] == k2[|k2| - 4..]
    ensures Mask(Some(k1)) == Mask(Some(k2))
  {
  }

  /** The evaluation banner that Spire.Doc writes into converted documents. */
  const Watermark := "Evaluation Warning: The document was created with Spire.Doc for Python."

  /** `remove_spire(text)`: delete every copy of the banner. */
  function RemoveSpire(text: string): (r: string)
    ensures |r| <= |text|
    ensures !Contains(text, Watermark) ==> r == text
  {
    ReplaceAllShrinks(text, Watermark, "");
    assert !Contains(text, Watermark) ==> ReplaceAll(text, Watermark, "") == text by {
      if !Contains(text, Watermark) { ReplaceAllAbsent(text, Watermark, ""); }
    }
    ReplaceAll(text, Watermark, "")
  }

  /** A banner at the front is deleted and the rest is cleaned in turn. */
  lemma RemoveSpireDeletes(x: string)
    ensures RemoveSpire(Watermark + x) == RemoveSpire(x)
  {
    ReplaceAllHit(Watermark, "", x);
  }

  /** Text before the first banner is kept as it is, and that banner goes. */
  lemma RemoveSpireFirst(p: string, x: string)
    requires forall i :: 0 <= i < |p| ==> !OccursAt(p + Watermark + x, Watermark, i)
    ensures RemoveSpire(p + Watermark + x) == p + RemoveSpire(x)
  {
    ConcatAssoc(p, Watermark, x);
    ReplaceAllSkip(p, Watermark + x, Watermark, "");
    RemoveSpireDeletes(x);
  }

  predicate IsNewline(c: char) {
    c == '\n'
  }

  /** `re.sub(r"\n{3,}", "\n\n", s)`. */
  function CollapseNewlines(s: string): string {
    ReplaceRuns(s, IsNewline, 3, "\n\n")
  }

  /** No three newlines in a row, stated with the index predicate of the run module. */
  lemma NoTripleNewline(s: string)
    requires NoRunOf(s, IsNewline, 3)
    ensures !Contains(s, "\n\n\n")
  {
    ContainsAt(s, "\n\n\n");
    forall i | OccursAt(s, "\n\n\n", i)
      ensures RunAt(s, IsNewline, i, 3)
    {
      assert s[i] == s[i..i + 3][0] && s[i + 1] == s[i..i + 3][1] && s[i + 2] == s[i..i + 3][2];
    }
  }

  /** Collapsing leaves no run of three newlines. */
  lemma CollapsedHasNoTriple(s: string)
    ensures NoRunOf(CollapseNewlines(s), IsNewline, 3)
  {
    ReplaceRunsShape(s, IsNewline, 3, "\n\n");
    RunsAllMono(CollapseNewlines(s), IsNewline, n => n < 3 || n == |"\n\n"|, n => n < 3);
    RunsAllBelow(CollapseNewlines(s), IsNewline, 3);
  }

  /** Stripping cuts from both ends, so it keeps a run-free text run-free. */
  lemma StripKeepsNoRun(s: string, sp: char -> bool, p: char -> bool, k: nat)
    requires NoRunOf(s, p, k)
    ensures NoRunOf(Strip(s, sp), p, k)
  {
    var l := LStrip(s, sp);
    NoRunOfSuffix(s, p, k, |s| - |l|);
    NoRunOfPrefix(l, p, k, |RStrip(l, sp)|);
  }

  /** Stripping only removes characters. */
  lemma StripChars(s: string, sp: char -> bool)
    ensures forall c :: c in Strip(s, sp) ==> c in s
  {
    var l := LStrip(s, sp);
    var r := RStrip(l, sp);
    forall c | c in r ensures c in s {
      var i :| 0 <= i < |r| && r[i] == c;
      assert r[i] == l[i] == s[|s| - |l| + i];
    }
  }

  /** Every character of a run replacement comes from the text or from `rep`. */
  lemma {:induction false} ReplaceRunsChars(s: string, p: char -> bool, minLen: nat, rep: string)
    requires minLen > 0
    ensures forall c :: c in ReplaceRuns(s, p, minLen, rep) ==> c in s || c in rep
    decreases |s|
  {
    if |s| > 0 {
      var n := if !p(s[0]) then 1 else RunLength(s, p);
      ReplaceRunsChars(s[n..], p, minLen, rep);
      assert forall c :: c in s[..n] ==> c in s;
      assert forall c :: c in s[n..] ==> c in s;
    }
  }

  /** `remove_multi_newlines(s)`: at most two newlines in a row, then `strip()`. */
  function RemoveMultiNewlines(s: string, sp: char -> bool): (r: string)
    ensures !Contains(r, "\n\n\n")
    ensures Stripped(r, sp)
    ensures forall c :: c in r ==> c in s
  {
    var t := CollapseNewlines(s);
    CollapsedHasNoTriple(s);
    StripKeepsNoRun(t, sp, IsNewline, 3);
    NoTripleNewline(Strip(t, sp));
    ReplaceRunsChars(s, IsNewline, 3, "\n\n");
    StripChars(t, sp);
    assert forall c :: c in "\n\n" ==> c == '\n';
    assert forall c :: c in t ==> c in s by {
      if '\n' in t && '\n' !in s {
        // A newline in the output comes from a run of at least one input newline.
        ReplaceRunsNoClass(s);
      }
    }
    Strip(t, sp)
  }

  /** Text without newlines has no newline runs to replace. */
  lemma ReplaceRunsNoClass(s: string)
    requires '\n' !in s
    ensures CollapseNewlines(s) == s
  {
    forall i | 0 <= i <= |s| - 3 ensures !RunAt(s, IsNewline, i, 3) {
      assert !IsNewline(s[i]);
    }
    ReplaceRunsIdentity(s, IsNewline, 3, "\n\n");
  }

  /** Text with no triple newline and nothing to strip is returned as it is. */
  lemma RemoveMultiNewlinesKeepsClean(s: string, sp: char -> bool)
    requires NoRunOf(s, IsNewline, 3) && Stripped(s, sp)
    ensures RemoveMultiNewlines(s, sp) == s
  {
    ReplaceRunsIdentity(s, IsNewline, 3, "\n\n");
    StripStripped(s, sp);
  }

  /** A run of three or more newlines between two texts becomes exactly two. */
  lemma CollapseBetween(a: string, nl: string, b: string)
    requires |nl| >= 3 && All(nl, IsNewline)
    requires |a| == 0 || a[|a| - 1] != '\n'
    requires |b| == 0 || b[0] != '\n'
    ensures CollapseNewlines(a + nl + b) == CollapseNewlines(a) + "\n\n" + CollapseNewlines(b)
  {
    ConcatAssoc(a, nl, b);
    ReplaceRunsAppend(a, nl + b, IsNewline, 3, "\n\n");
    ReplaceRunsLongHead(nl, b, IsNewline, 3, "\n\n");
    ConcatAssoc(CollapseNewlines(a), "\n\n", CollapseNewlines(b));
  }

  /** Between two clean texts, a gap of three or more newlines becomes one blank line. */
  lemma RemoveMultiNewlinesGap(a: string, nl: string, b: string, sp: char -> bool)
    requires |nl| >= 3 && All(nl, IsNewline)
    requires |a| > 0 && a[|a| - 1] != '\n' && !sp(a[0]) && NoRunOf(a, IsNewline, 3)
    requires |b| > 0 && b[0] != '\n' && !sp(b[|b| - 1]) && NoRunOf(b, IsNewline, 3)
    ensures RemoveMultiNewlines(a + nl + b, sp) == a + "\n\n" + b
  {
    CollapseBetween(a, nl, b);
    ReplaceRunsIdentity(a, IsNewline, 3, "\n\n");
    ReplaceRunsIdentity(b, IsNewline, 3, "\n\n");
    var t := a + "\n\n" + b;
    assert t[0] == a[0] && t[|t| - 1] == b[|b| - 1];
    StripStripped(t, sp);
  }

  /** Collapsing newlines twice is collapsing them once. */
  lemma RemoveMultiNewlinesIdempotent(s: string, sp: char -> bool)
    ensures RemoveMultiNewlines(RemoveMultiNewlines(s, sp), sp) == RemoveMultiNewlines(s, sp)
  {
    var t := CollapseNewlines(s);
    var r := Strip(t, sp);
    CollapsedHasNoTriple(s);
    StripKeepsNoRun(t, sp, IsNewline, 3);
    ReplaceRunsIdentity(r, IsNewline, 3, "\n\n");
    StripStripped(r, sp);
  }

  /** `remove_style(text)`: delete `**` then `#`, then collapse newlines. */
  function RemoveStyle(text: string, sp: char -> bool): (r: string)
    ensures '#' !in r
    ensures !Contains(r, "\n\n\n")
  {
    var t := ReplaceAll(ReplaceAll(text, "**", ""), "#", "");
    ReplaceCharDeletes(ReplaceAll(text, "**", ""), '#');
    RemoveMultiNewlines(t, sp)
  }

  /** Text with no style marker, no triple newline and nothing to strip is returned as it is. */
  lemma RemoveStyleKeepsClean(s: string, sp: char -> bool)
    requires !Contains(s, "**") && '#' !in s
    requires NoRunOf(s, IsNewline, 3) && Stripped(s, sp)
    ensures RemoveStyle(s, sp) == s
  {
    ReplaceAllAbsent(s, "**", "");
    ContainsChar(s, '#');
    ReplaceAllAbsent(s, "#", "");
    RemoveMultiNewlinesKeepsClean(s, sp);
  }

  /** Deleting `**` before `#` can leave a `**` behind: "*#*" becomes "**". */
  lemma RemoveStyleLeavesStars()
    ensures RemoveStyle("*#*", Ascii.isSpace) == "**"
  {
    StarsSurviveFirstPass();
    HashDeleted();
    StarsUnchanged();
  }

  lemma StarsUnchanged()
    ensures RemoveMultiNewlines("**", Ascii.isSpace) == "**"
  {
    ReplaceRunsNoClass("**");
    assert Stripped("**", Ascii.isSpace);
    StripStripped("**", Ascii.isSpace);
  }

  lemma StarsSurviveFirstPass()
    ensures ReplaceAll("*#*", "**", "") == "*#*"
  {
    var s := "*#*";
    assert s[..2] == ['*', '#'] && s[1..] == "#*";
    assert "#*"[..2] == ['#', '*'] && "#*"[1..] == "*";
  }

  lemma HashDeleted()
    ensures ReplaceAll("*#*", "#", "") == "**"
  {
    var s := "*#*";
    assert s[..1] == ['*'] && s[1..] == "#*";
    assert "#*"[..1] == ['#'] && "#*"[1..] == "*";
    assert "*"[..1] == ['*'] && "*"[1..] == "";
  }

  /** `\d+\.\s` matches at index `i`: digits, a full stop, one whitespace character. */
  predicate BulletAt(s: string, i: int, cc: CharClasses) {
    0 <= i < |s| && cc.isDigit(s[i]) &&
    var n := RunLength(s[i..], cc.isDigit);
    i + n + 1 < |s| && s[i + n] == '.' && cc.isSpace(s[i + n + 1])
  }

  /** `change_bullet_points(text)`: `re.sub(r"(\d+)\.\s", r"\1） ", text)`.
      A full stop is not a digit, so the greedy digit run never backtracks. */
  function ChangeBulletPoints(s: string, cc: CharClasses): (r: string)
    requires cc.Valid()
    ensures |r| == |s|
    decreases |s|
  {
    if |s| == 0 then ""
    else if BulletAt(s, 0, cc) then
      var n := RunLength(s, cc.isDigit);
      assert s[0..] == s;
      s[..n] + "） " + ChangeBulletPoints(s[n + 2..], cc)
    else [s[0]] + ChangeBulletPoints(s[1..], cc)
  }

  lemma BulletAtShift(s: string, i: nat, cc: CharClasses)
    requires |s| > 0
    ensures BulletAt(s[1..], i, cc) <==> BulletAt(s, i + 1, cc)
  {
    if i < |s| - 1 {
      assert s[1..][i..] == s[i + 1..];
    }
  }

  /** Text with no bullet match is returned as it is. */
  lemma {:induction false} ChangeBulletPointsNoMatch(s: string, cc: CharClasses)
    requires cc.Valid()
    requires forall i :: 0 <= i < |s| ==> !BulletAt(s, i, cc)
    ensures ChangeBulletPoints(s, cc) == s
    decreases |s|
  {
    if |s| > 0 {
      forall i | 0 <= i < |s[1..]| ensures !BulletAt(s[1..], i, cc) {
        BulletAtShift(s, i, cc);
      }
      ChangeBulletPointsNoMatch(s[1..], cc);
    }
  }

  /** A bullet at the front is rewritten: the digits stay, and the full stop and the
      whitespace character after it become `） `; scanning resumes after them. */
  lemma ChangeBulletPointsRewrite(d: string, w: char, c: string, cc: CharClasses)
    requires cc.Valid()
    requires |d| > 0 && All(d, cc.isDigit) && cc.isSpace(w)
    ensures ChangeBulletPoints(d + "." + [w] + c, cc) == d + "） " + ChangeBulletPoints(c, cc)
  {
    var s := d + "." + [w] + c;
    assert s == d + ("." + [w] + c);
    RunLengthAll(d, cc.isDigit);
    RunLengthConcat(d, "." + [w] + c, cc.isDigit);
    assert s[0..] == s;
    assert s[|d|] == '.' && s[|d| + 1] == w;
    assert BulletAt(s, 0, cc);
    assert s[..|d|] == d;
    assert s[|d| + 2..] == c;
  }

  /** Text before the leftmost bullet is copied as it is. */
  lemma {:induction false} ChangeBulletPointsSkip(p: string, c: string, cc: CharClasses)
    requires cc.Valid()
    requires forall i :: 0 <= i < |p| ==> !BulletAt(p + c, i, cc)
    ensures ChangeBulletPoints(p + c, cc) == p + ChangeBulletPoints(c, cc)
    decreases |p|
  {
    if |p| == 0 {
      assert p + c == c;
    } else {
      NoBulletShift(p, c, cc);
      ChangeBulletPointsSkip(p[1..], c, cc);
      SkipOne(p, c, cc);
    }
  }

  /** One character of the skip: copied when no bullet starts at it. */
  lemma SkipOne(p: string, c: string, cc: CharClasses)
    requires cc.Valid() && |p| > 0 && !BulletAt(p + c, 0, cc)
    requires ChangeBulletPoints(p[1..] + c, cc) == p[1..] + ChangeBulletPoints(c, cc)
    ensures ChangeBulletPoints(p + c, cc) == p + ChangeBulletPoints(c, cc)
  {
    BulletCopied(p + c, p[0], p[1..] + c, cc);
    ConcatAssoc([p[0]], p[1..], ChangeBulletPoints(c, cc));
    assert [p[0]] + p[1..] == p;
  }

  /** Without a bullet at the front, the first character is copied. */
  lemma BulletCopied(s: string, h: char, y: string, cc: CharClasses)
    requires cc.Valid() && |s| > 0 && !BulletAt(s, 0, cc) && s[0] == h && s[1..] == y
    ensures ChangeBulletPoints(s, cc) == [h] + ChangeBulletPoints(y, cc)
  {
  }

  lemma NoBulletShift(p: string, c: string, cc: CharClasses)
    requires |p| > 0
    requires forall i :: 0 <= i < |p| ==> !BulletAt(p + c, i, cc)
    ensures !BulletAt(p + c, 0, cc)
    ensures forall i :: 0 <= i < |p[1..]| ==> !BulletAt(p[1..] + c, i, cc)
  {
    var s := p + c;
    assert s[1..] == p[1..] + c;
    forall i | 0 <= i < |p[1..]| ensures !BulletAt(p[1..] + c, i, cc) {
      BulletAtShift(s, i, cc);
    }
  }

  /** The leftmost bullet match is the one rewritten: everything before it is copied,
      its digits are kept, `.` and the whitespace after it become `） `, and the rest of
      the text is rewritten in the same way. */
  lemma ChangeBulletPointsFirstMatch(p: string, d: string, w: char, c: string, cc: CharClasses)
    requires cc.Valid()
    requires |d| > 0 && All(d, cc.isDigit) && cc.isSpace(w)
    requires forall i :: 0 <= i < |p| ==> !BulletAt(p + (d + "." + [w] + c), i, cc)
    ensures ChangeBulletPoints(p + d + "." + [w] + c, cc)
         == p + d + "） " + ChangeBulletPoints(c, cc)
  {
    var t := d + "." + [w] + c;
    ChangeBulletPointsSkip(p, t, cc);
    ChangeBulletPointsRewrite(d, w, c, cc);
    ConcatAssoc(p, d + ".", [w] + c);
    ConcatAssoc(d, ".", [w] + c);
    ConcatAssoc(p, d, "." + ([w] + c));
    ConcatAssoc(p + d, ".", [w] + c);
    ConcatAssoc(p + d + ".", [w], c);
    ConcatAssoc(d + ".", [w], c);
    ConcatAssoc(p, d + "." + [w], c);
    var u := ChangeBulletPoints(c, cc);
    ConcatAssoc(p, d + "） ", u);
    ConcatAssoc(p, d, "） ");
  }

  /** `remove_think(s)`: delete every shortest `<think>…</think>` block, across lines. */
  function RemoveThink(s: string): (r: string)
    ensures |r| <= |s|
    ensures !Contains(s, "<think>") ==> r == s
  {
    RemoveBlocksShrinks(s, "<think>", "</think>", true);
    assert !Contains(s, "<think>") ==> RemoveBlocks(s, "<think>", "</think>", true) == s by {
      if !Contains(s, "<think>") { RemoveBlocksNoOpen(s, "<think>", "</think>", true); }
    }
    RemoveBlocks(s, "<think>", "</think>", true)
  }

  /** A block spanning a line break is removed. */
  lemma RemoveThinkAcrossLines()
    ensures RemoveThink("a<think>x\ny</think>b") == "ab"
  {
    var s := "a" + "<think>" + "x\ny" + "</think>" + "b";
    assert s == "a<think>x\ny</think>b";
    forall i | 0 <= i < 1 ensures !OccursAt(s, "<think>", i) {
      assert s[i] == 'a';
    }
    forall j | 8 <= j < 11 ensures !OccursAt(s, "</think>", j) {
      assert s[j] != '<';
    }
    RemoveFirstBlock("a", "<think>", "x\ny", "</think>", "b", true);
    RemoveBlocksNoOpen("b", "<think>", "</think>", true);
  }

  /** The match is the shortest one: it stops at the first closing tag. */
  lemma RemoveThinkShortest()
    ensures RemoveThink("<think>1</think>2</think>") == "2</think>"
  {
    var c := "2</think>";
    FirstThinkBlock();
    NoThinkInTail();
    RemoveBlocksNoOpen(c, "<think>", "</think>", true);
  }

  lemma FirstThinkBlock()
    ensures RemoveBlocks("<think>1</think>2</think>", "<think>", "</think>", true)
         == RemoveBlocks("2</think>", "<think>", "</think>", true)
  {
    var s := "<think>" + "1" + "</think>" + "2</think>";
    assert s == "<think>1</think>2</think>";
    forall j | 7 <= j < 8 ensures !OccursAt(s, "</think>", j) {
      assert s[j] == '1';
    }
    RemoveLeadingBlock("<think>", "1", "</think>", "2</think>", true);
  }

  lemma NoThinkInTail()
    ensures !Contains("2</think>", "<think>")
  {
    var c := "2</think>";
    assert c[1..][1..][1..] == "think>";
    ShortNotContains("think>", "<think>");
    assert !StartsWith(c[1..][1..], "<think>") by { assert c[1..][1..][0] == '/'; }
    assert !StartsWith(c[1..], "<think>") by { assert c[1..][1] == '/'; }
    assert !StartsWith(c, "<think>") by { assert c[0] == '2'; }
  }

  lemma {:induction false} ShortNotContains(s: string, sub: string)
    requires |s| < |sub|
    ensures !Contains(s, sub)
    decreases |s|
  {
    if |s| > 0 {
      ShortNotContains(s[1..], sub);
    }
  }

  /** `clean_content(content)`: think blocks out, then newlines collapsed. */
  function CleanContent(content: string, sp: char -> bool): (r: string)
    ensures !Contains(r, "\n\n\n")
    ensures Stripped(r, sp)
    ensures |r| <= |content|
  {
    var t := RemoveThink(content);
    var r := RemoveMultiNewlines(t, sp);
    CleanContentShrinks(t, sp);
    r
  }

  /** Text with no `<think>`, no triple newline and nothing to strip is returned as it is. */
  lemma CleanContentKeepsClean(s: string, sp: char -> bool)
    requires !Contains(s, "<think>")
    requires NoRunOf(s, IsNewline, 3) && Stripped(s, sp)
    ensures CleanContent(s, sp) == s
  {
    RemoveBlocksNoOpen(s, "<think>", "</think>", true);
    RemoveMultiNewlinesKeepsClean(s, sp);
  }

  lemma CleanContentShrinks(t: string, sp: char -> bool)
    ensures |RemoveMultiNewlines(t, sp)| <= |t|
  {
    ReplaceRunsShrinks(t);
  }

  /** Collapsing runs of newlines to two never lengthens the text. */
  lemma {:induction false} ReplaceRunsShrinks(s: string)
    ensures |CollapseNewlines(s)| <= |s|
    decreases |s|
  {
    if |s| > 0 {
      var n := if !IsNewline(s[0]) then 1 else RunLength(s, IsNewline);
      ReplaceRunsShrinks(s[n..]);
    }
  }

  /** One search index entry: `{"type": "custom", "text": item}`. */
  datatype IndexEntry = IndexEntry(kind: string, text: string)

  /** A `[` at `p` and a `]` at `q` with no newline between them. */
  predicate SameLinePair(s: string, p: int, q: int) {
    0 <= p < q < |s| && s[p] == '[' && s[q] == ']' && NoNewline(s, p + 1, q)
  }

  lemma OccursAtChar(s: string, c: char, j: int)
    ensures OccursAt(s, [c], j) <==> 0 <= j < |s| && s[j] == c
  {
    if 0 <= j < |s| {
      assert s[j..j + 1][0] == s[j];
      if s[j] == c { assert s[j..j + 1] == [c]; }
    }
  }

  /** `re.search(r"\[(.*?)\]", s)`: the leftmost `[` whose lazy match reaches a `]`
      on the same line, with the first such `]`. */
  function SearchBracket(s: string, from: nat): (r: Option<(nat, nat)>)
    ensures r.None? ==> forall p, q :: from <= p ==> !SameLinePair(s, p, q)
    ensures r.Some? ==> from <= r.value.0 && SameLinePair(s, r.value.0, r.value.1)
    ensures r.Some? ==> forall k :: r.value.0 < k < r.value.1 ==> s[k] != ']'
    ensures r.Some? ==> forall p, q :: from <= p < r.value.0 ==> !SameLinePair(s, p, q)
    decreases |s| - from
  {
    if from >= |s| then None
    else if s[from] == '[' then
      match FindClose(s, "]", from + 1, false)
      case Some(j) =>
        OccursAtChar(s, ']', j);
        assert forall k :: from < k < j ==> s[k] != ']' by {
          forall k | from < k < j ensures s[k] != ']' { OccursAtChar(s, ']', k); }
        }
        Some((from, j))
      case None =>
        assert forall q :: !SameLinePair(s, from, q) by {
          forall q | from < q < |s| && s[q] == ']' && NoNewline(s, from + 1, q)
            ensures false
          {
            OccursAtChar(s, ']', q);
          }
        }
        SearchBracket(s, from + 1)
    else SearchBracket(s, from + 1)
  }

  /** `get_index_from_response(ans)`: the comma pieces of the first same-line
      bracketed segment, stripped, each tagged "custom". */
  function GetIndexFromResponse(ans: string, sp: char -> bool): (r: seq<IndexEntry>)
    ensures SearchBracket(ans, 0).None? <==> r == []
    ensures (forall p, q :: !SameLinePair(ans, p, q)) ==> r == []
    ensures match SearchBracket(ans, 0)
      case None => true
      case Some(pq) => |r| == Count(ans[pq.0 + 1..pq.1], ',') + 1
    ensures match SearchBracket(ans, 0)
      case None => true
      case Some(pq) =>
        var items := Split(ans[pq.0 + 1..pq.1], ',');
        |r| == |items| && forall k :: 0 <= k < |r| ==> r[k] == IndexEntry("custom", Strip(items[k], sp))
    ensures forall k :: 0 <= k < |r| ==> r[k].kind == "custom" && Stripped(r[k].text, sp)
  {
    match SearchBracket(ans, 0)
    case None => []
    case Some(pq) =>
      var items := Split(ans[pq.0 + 1..pq.1], ',');
      SplitPieces(ans[pq.0 + 1..pq.1], ',');
      seq(|items|, k requires 0 <= k < |items| => IndexEntry("custom", Strip(items[k], sp)))
  }

  /** An empty list still yields one entry, with empty text. */
  lemma EmptyBracketsGiveOneEntry(sp: char -> bool)
    ensures GetIndexFromResponse("[]", sp) == [IndexEntry("custom", "")]
  {
    assert SameLinePair("[]", 0, 1);
    var r := GetIndexFromResponse("[]", sp);
    assert "[]"[1..1] == "";
    assert Split("", ',') == [""];
    assert Strip("", sp) == "";
    assert r[0] == IndexEntry("custom", "");
  }
}
