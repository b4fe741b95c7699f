/**
 `PDFProcessor.md_formatter`: six regex substitutions that turn the Chinese
 numbering markers of regulations into Markdown headings, each applied only when
 a guard substring is present, in the order the code runs them:
 第X章, 第X条, 第X节, （X）, N., 附件：.
 */
module Headings {
  import opened Strings
  import opened Runs

  /** The Chinese numeral characters `[一二三四五六七八九十百]`. */
  predicate IsNumeral(c: char) {
    c in "一二三四五六七八九十百"
  }

  /** `(O[一二三四五六七八九十百]+C)` matches at the front of `s`. The numerals are
      never `C`, so the greedy run is the whole match. */
  predicate MarkerAt(s: string, open: char, close: char) {
    |s| > 0 && s[0] == open &&
    var n := RunLength(s[1..], IsNumeral);
    n >= 1 && 1 + n < |s| && s[1 + n] == close
  }

  function MarkerLength(s: string, open: char, close: char): (m: nat)
    requires MarkerAt(s, open, close)
    ensures 3 <= m <= |s|
  {
    2 + RunLength(s[1..], IsNumeral)
  }

  /** `re.sub(r"(O[…]+C)", before + r"\1" + after, s)`. */
  function SubMarker(s: string, open: char, close: char, before: string, after: string): string
    decreases |s|
  {
    if |s| == 0 then ""
    else if MarkerAt(s, open, close) then
      var m := MarkerLength(s, open, close);
      before + s[..m] + after + SubMarker(s[m..], open, close, before, after)
    else [s[0]] + SubMarker(s[1..], open, close, before, after)
  }

  /** `(\d+)\.` matches at the front of `s`; a full stop is not a digit, so the greedy
      digit run never gives anything back. */
  predicate NumberDotAt(s: string, cc: CharClasses) {
    |s| > 0 && cc.isDigit(s[0]) &&
    var n := RunLength(s, cc.isDigit);
    n < |s| && s[n] == '.'
  }

  /** `re.sub(r"(\d+)\.", r"\n\n（\1）", s)`. */
  function SubNumberDot(s: string, cc: CharClasses): string
    decreases |s|
  {
    if |s| == 0 then ""
    else if NumberDotAt(s, cc) then
      var n := RunLength(s, cc.isDigit);
      "\n\n（" + s[..n] + "）" + SubNumberDot(s[n + 1..], cc)
    else [s[0]] + SubNumberDot(s[1..], cc)
  }

  const Chapter := "\n\n## "
  const Article := "\n\n#### "
  const Section := "\n\n### "
  const Attachment := "附件："
  const AttachmentHeading := "\n\n## 附件：\n"

  /** `md_formatter(str_in)`, rule by rule with its guard. Once the numeral rule has
      run, no digit is directly followed by a full stop, and the attachment rule does
      not bring one back. */
  function MdFormatter(s: string, cc: CharClasses): (r: string)
    ensures cc.Valid() ==> NoDigitDot(r, cc)
  {
    var s1 := if Contains(s, "章") then SubMarker(s, '第', '章', Chapter, " ") else s;
    var s2 := if Contains(s1, "条") then SubMarker(s1, '第', '条', Article, "\n") else s1;
    var s3 := if Contains(s2, "节") then SubMarker(s2, '第', '节', Section, " ") else s2;
    var s4 := if Contains(s3, "（") then SubMarker(s3, '（', '）', "\n\n", "") else s3;
    var s5 := if Contains(s4, ".") then SubNumberDot(s4, cc) else s4;
    assert cc.Valid() ==> NoDigitDot(s5, cc) by {
      if cc.Valid() {
        NumberDotGuard(s4, cc);
        SubNumberDotClears(s4, cc);
      }
    }
    var r := if Contains(s5, "附件") then ReplaceAll(s5, Attachment, AttachmentHeading) else s5;
    assert cc.Valid() ==> NoDigitDot(r, cc) by {
      if cc.Valid() { AttachmentKeepsNoDigitDot(s5, cc); }
    }
    r
  }

  /** The same six substitutions with no guards. */
  function Unguarded(s: string, cc: CharClasses): string {
    var s1 := SubMarker(s, '第', '章', Chapter, " ");
    var s2 := SubMarker(s1, '第', '条', Article, "\n");
    var s3 := SubMarker(s2, '第', '节', Section, " ");
    var s4 := SubMarker(s3, '（', '）', "\n\n", "");
    var s5 := SubNumberDot(s4, cc);
    ReplaceAll(s5, Attachment, AttachmentHeading)
  }

  /** No marker match starts anywhere in `s`. */
  predicate NoMarker(s: string, open: char, close: char) {
    forall i :: 0 <= i < |s| ==> !MarkerAt(s[i..], open, close)
  }

  predicate NoNumberDot(s: string, cc: CharClasses) {
    forall i :: 0 <= i < |s| ==> !NumberDotAt(s[i..], cc)
  }

  /** A marker substitution with no match returns the text as it is. */
  lemma {:induction false} SubMarkerNoMatch(s: string, open: char, close: char, before: string, after: string)
    requires NoMarker(s, open, close)
    ensures SubMarker(s, open, close, before, after) == s
    decreases |s|
  {
    if |s| > 0 {
      assert s[0..] == s;
      forall i | 0 <= i < |s[1..]| ensures !MarkerAt(s[1..][i..], open, close) {
        assert s[1..][i..] == s[i + 1..];
      }
      SubMarkerNoMatch(s[1..], open, close, before, after);
    }
  }

  lemma {:induction false} SubNumberDotNoMatch(s: string, cc: CharClasses)
    requires NoNumberDot(s, cc)
    ensures SubNumberDot(s, cc) == s
    decreases |s|
  {
    if |s| > 0 {
      assert s[0..] == s;
      forall i | 0 <= i < |s[1..]| ensures !NumberDotAt(s[1..][i..], cc) {
        assert s[1..][i..] == s[i + 1..];
      }
      SubNumberDotNoMatch(s[1..], cc);
    }
  }

  /** A marker needs both its delimiters, so text lacking either has no match. */
  lemma MarkerNeedsDelimiters(s: string, open: char, close: char)
    requires open !in s || close !in s
    ensures NoMarker(s, open, close)
  {
    forall i | 0 <= i < |s| ensures !MarkerAt(s[i..], open, close) {
      var t := s[i..];
      if |t| > 0 && t[0] == open {
        var n := RunLength(t[1..], IsNumeral);
        if n >= 1 && 1 + n < |t| {
          assert t[1 + n] == s[i + 1 + n];
        }
      }
    }
  }

  lemma NumberDotNeedsStop(s: string, cc: CharClasses)
    requires '.' !in s
    ensures NoNumberDot(s, cc)
  {
    forall i | 0 <= i < |s| ensures !NumberDotAt(s[i..], cc) {
      var t := s[i..];
      if |t| > 0 {
        var n := RunLength(t, cc.isDigit);
        if n < |t| { assert t[n] == s[i + n]; }
      }
    }
  }

  /** A marker guard is one of the marker's delimiters, so testing it first changes nothing. */
  lemma MarkerGuard(s: string, open: char, close: char, guard: char, before: string, after: string)
    requires guard == open || guard == close
    ensures (if Contains(s, [guard]) then SubMarker(s, open, close, before, after) else s)
         == SubMarker(s, open, close, before, after)
  {
    if !Contains(s, [guard]) {
      ContainsChar(s, guard);
      MarkerNeedsDelimiters(s, open, close);
      SubMarkerNoMatch(s, open, close, before, after);
    }
  }

  lemma NumberDotGuard(s: string, cc: CharClasses)
    ensures (if Contains(s, ".") then SubNumberDot(s, cc) else s) == SubNumberDot(s, cc)
  {
    if !Contains(s, ".") {
      ContainsChar(s, '.');
      NumberDotNeedsStop(s, cc);
      SubNumberDotNoMatch(s, cc);
    }
  }

  lemma AttachmentGuard(s: string)
    ensures (if Contains(s, "附件") then ReplaceAll(s, Attachment, AttachmentHeading) else s)
         == ReplaceAll(s, Attachment, AttachmentHeading)
  {
    if !Contains(s, "附件") {
      assert !Contains(s, Attachment) by {
        if Contains(s, Attachment) { ContainsPrefix(s, "附件", Attachment); }
      }
      ReplaceAllAbsent(s, Attachment, AttachmentHeading);
    }
  }

  /** Each guard is a substring of its pattern, so the guards change nothing: the
      formatter is the unguarded chain of substitutions. */
  lemma GuardsAreRedundant(s: string, cc: CharClasses)
    ensures MdFormatter(s, cc) == Unguarded(s, cc)
  {
    var s1 := SubMarker(s, '第', '章', Chapter, " ");
    MarkerGuard(s, '第', '章', '章', Chapter, " ");
    var s2 := SubMarker(s1, '第', '条', Article, "\n");
    MarkerGuard(s1, '第', '条', '条', Article, "\n");
    var s3 := SubMarker(s2, '第', '节', Section, " ");
    MarkerGuard(s2, '第', '节', '节', Section, " ");
    var s4 := SubMarker(s3, '（', '）', "\n\n", "");
    MarkerGuard(s3, '（', '）', '（', "\n\n", "");
    NumberDotGuard(s4, cc);
    AttachmentGuard(SubNumberDot(s4, cc));
  }

  /** A text that holds a string holds every prefix of it. */
  lemma {:induction false} ContainsPrefix(s: string, short: string, long: string)
    requires StartsWith(long, short) && Contains(s, long)
    ensures Contains(s, short)
    decreases |s|
  {
    if !StartsWith(s, long) {
      ContainsPrefix(s[1..], short, long);
    } else {
      assert s[..|short|] == long[..|short|];
    }
  }

  /** A text in which none of the six patterns matches is returned unchanged. */
  lemma NoPatternNoChange(s: string, cc: CharClasses)
    requires NoMarker(s, '第', '章') && NoMarker(s, '第', '条') && NoMarker(s, '第', '节')
    requires NoMarker(s, '（', '）') && NoNumberDot(s, cc) && !Contains(s, Attachment)
    ensures MdFormatter(s, cc) == s
  {
    GuardsAreRedundant(s, cc);
    SubMarkerNoMatch(s, '第', '章', Chapter, " ");
    SubMarkerNoMatch(s, '第', '条', Article, "\n");
    SubMarkerNoMatch(s, '第', '节', Section, " ");
    SubMarkerNoMatch(s, '（', '）', "\n\n", "");
    SubNumberDotNoMatch(s, cc);
    ReplaceAllAbsent(s, Attachment, AttachmentHeading);
  }

  /** No digit is directly followed by a full stop. */
  predicate NoDigitDot(s: string, cc: CharClasses) {
    forall i :: 0 <= i < |s| - 1 ==> !(cc.isDigit(s[i]) && s[i + 1] == '.')
  }

  lemma NoDigitDotConcat(a: string, b: string, cc: CharClasses)
    requires NoDigitDot(a, cc) && NoDigitDot(b, cc)
    requires |a| == 0 || |b| == 0 || !cc.isDigit(a[|a| - 1]) || b[0] != '.'
    ensures NoDigitDot(a + b, cc)
  {
    var s := a + b;
    forall i | 0 <= i < |s| - 1 ensures !(cc.isDigit(s[i]) && s[i + 1] == '.') {
      if i + 1 < |a| {
        assert s[i] == a[i] && s[i + 1] == a[i + 1];
      } else if i >= |a| {
        assert s[i] == b[i - |a|] && s[i + 1] == b[i + 1 - |a|];
      } else {
        assert s[i] == a[|a| - 1] && s[i + 1] == b[0];
      }
    }
  }

  /** The first character of a number-dot substitution. */
  lemma SubNumberDotHead(s: string, cc: CharClasses)
    requires |s| > 0
    ensures |SubNumberDot(s, cc)| > 0
    ensures SubNumberDot(s, cc)[0] == if NumberDotAt(s, cc) then '\n' else s[0]
  {
  }

  /** After `(\d+)\.` is rewritten, no digit is followed by a full stop. */
  lemma {:induction false} SubNumberDotClears(s: string, cc: CharClasses)
    requires cc.Valid()
    ensures NoDigitDot(SubNumberDot(s, cc), cc)
    decreases |s|
  {
    if |s| > 0 {
      if NumberDotAt(s, cc) {
        var n := RunLength(s, cc.isDigit);
        var piece := "\n\n（" + s[..n] + "）";
        SubNumberDotClears(s[n + 1..], cc);
        assert NoDigitDot(piece, cc) by {
          forall i | 0 <= i < |piece| - 1 ensures !(cc.isDigit(piece[i]) && piece[i + 1] == '.') {
            if 3 <= i + 1 < |piece| - 1 {
              assert piece[i + 1] == s[..n][i - 2];
              assert cc.isDigit(s[..n][i - 2]);
            }
          }
        }
        NoDigitDotConcat(piece, SubNumberDot(s[n + 1..], cc), cc);
      } else {
        SubNumberDotClears(s[1..], cc);
        if cc.isDigit(s[0]) && |s| > 1 {
          SubNumberDotHead(s[1..], cc);
          if !NumberDotAt(s[1..], cc) {
            assert s[1] != '.';
          }
        }
        NoDigitDotConcat([s[0]], SubNumberDot(s[1..], cc), cc);
      }
    }
  }

  /** The attachment rewrite puts no full stop after a digit. */
  lemma {:induction false} AttachmentKeepsNoDigitDot(s: string, cc: CharClasses)
    requires cc.Valid() && NoDigitDot(s, cc)
    ensures NoDigitDot(ReplaceAll(s, Attachment, AttachmentHeading), cc)
    decreases |s|
  {
    if |s| < |Attachment| {
    } else {
      var n := if s[..|Attachment|] == Attachment then |Attachment| else 1;
      var piece := if n == 1 then [s[0]] else AttachmentHeading;
      var rest := ReplaceAll(s[n..], Attachment, AttachmentHeading);
      assert NoDigitDot(s[n..], cc) by {
        forall i | 0 <= i < |s[n..]| - 1 ensures !(cc.isDigit(s[n..][i]) && s[n..][i + 1] == '.') {
          assert s[n..][i] == s[i + n] && s[n..][i + 1] == s[i + n + 1];
        }
      }
      AttachmentKeepsNoDigitDot(s[n..], cc);
      assert NoDigitDot(piece, cc) by {
        assert '.' !in AttachmentHeading;
      }
      if n == 1 && |rest| > 0 && cc.isDigit(s[0]) {
        ReplaceAllHead(s[1..], Attachment, AttachmentHeading);
        assert s[1] != '.';
      }
      NoDigitDotConcat(piece, rest, cc);
    }
  }

  /** The first character of a replacement is the pattern's replacement or the text's. */
  lemma ReplaceAllHead(s: string, pat: string, rep: string)
    requires |pat| > 0 && |rep| > 0 && |s| > 0
    ensures |ReplaceAll(s, pat, rep)| > 0
    ensures ReplaceAll(s, pat, rep)[0] == rep[0] || ReplaceAll(s, pat, rep)[0] == s[0]
  {
  }

  /** Text before the first opening delimiter passes through a marker rewrite untouched. */
  lemma {:induction false} SubMarkerSkip(a: string, b: string, open: char, close: char, before: string, after: string)
    requires open !in a
    ensures SubMarker(a + b, open, close, before, after) == a + SubMarker(b, open, close, before, after)
    decreases |a|
  {
    if |a| > 0 {
      assert (a + b)[1..] == a[1..] + b;
      SubMarkerSkip(a[1..], b, open, close, before, after);
    } else {
      assert a + b == b;
    }
  }

  /** A marker at the front is rewritten and scanning resumes after it. */
  lemma SubMarkerFront(m: string, b: string, open: char, close: char, before: string, after: string)
    requires MarkerAt(m + b, open, close) && MarkerLength(m + b, open, close) == |m|
    ensures SubMarker(m + b, open, close, before, after) == before + m + after + SubMarker(b, open, close, before, after)
  {
    assert (m + b)[..|m|] == m && (m + b)[|m|..] == b;
  }

  /** A rewrite whose delimiter is absent leaves the text as it is. */
  lemma SubMarkerAbsent(s: string, open: char, close: char, before: string, after: string)
    requires open !in s || close !in s
    ensures SubMarker(s, open, close, before, after) == s
  {
    MarkerNeedsDelimiters(s, open, close);
    SubMarkerNoMatch(s, open, close, before, after);
  }

  /** `[open] + x + [close]` with `x` numerals is a marker of exactly that length,
      and is no marker for any other closing character. */
  lemma MarkerOf(x: string, b: string, open: char, close: char, other: char)
    requires |x| > 0 && All(x, IsNumeral) && !IsNumeral(close) && other != close
    ensures MarkerAt([open] + x + [close] + b, open, close)
    ensures MarkerLength([open] + x + [close] + b, open, close) == |x| + 2
    ensures !MarkerAt([open] + x + [close] + b, open, other)
  {
    var s := [open] + x + [close] + b;
    assert s[1..] == x + ([close] + b);
    RunLengthAll(x, IsNumeral);
    RunLengthConcat(x, [close] + b, IsNumeral);
    assert s[1 + |x|] == close;
  }

  /** The two-marker line the example below is about. */
  predicate PlainTitles(x: string, a: string, y: string, b: string) {
    |x| > 0 && All(x, IsNumeral) && |y| > 0 && All(y, IsNumeral) && '第' !in a && '第' !in b
  }

  lemma NumeralsHaveNoOrdinal(y: string, close: char)
    requires All(y, IsNumeral) && close != '第'
    ensures '第' !in y + [close]
  {
    forall i | 0 <= i < |y| ensures y[i] != '第' {
      assert IsNumeral(y[i]);
    }
  }

  /** A marker for another closing character is copied through. */
  lemma SkipOtherMarker(y: string, close: char, b: string, other: char, before: string, after: string)
    requires |y| > 0 && All(y, IsNumeral) && !IsNumeral(close) && close != other && close != '第'
    ensures SubMarker("第" + y + [close] + b, '第', other, before, after)
         == "第" + y + [close] + SubMarker(b, '第', other, before, after)
  {
    var m := "第" + y + [close];
    MarkerOf(y, b, '第', close, other);
    assert (m + b)[1..] == (y + [close]) + b;
    NumeralsHaveNoOrdinal(y, close);
    SubMarkerSkip(y + [close], b, '第', other, before, after);
  }

  /** A marker for this closing character is rewritten. */
  lemma RewriteMarker(y: string, close: char, b: string, before: string, after: string)
    requires |y| > 0 && All(y, IsNumeral) && !IsNumeral(close) && close != '第'
    ensures SubMarker("第" + y + [close] + b, '第', close, before, after)
         == before + "第" + y + [close] + after + SubMarker(b, '第', close, before, after)
  {
    MarkerOf(y, b, '第', close, '第');
    SubMarkerFront("第" + y + [close], b, '第', close, before, after);
  }

  /** The example line before formatting, after the chapter rule and at the end. */
  function ExampleLine(x: string, a: string, y: string, b: string): string {
    ("第" + x + ['章']) + (a + (("第" + y + ['节']) + b))
  }

  function ExampleAfterChapter(x: string, a: string, y: string, b: string): string {
    Chapter + (("第" + x + ['章']) + ((" " + a) + (("第" + y + ['节']) + b)))
  }

  function ExampleResult(x: string, a: string, y: string, b: string): string {
    Chapter + (("第" + x + ['章']) + ((" " + a) + (Section + ("第" + y + ['节']) + (" " + b))))
  }

  lemma ExampleChapterRule(x: string, a: string, y: string, b: string)
    requires PlainTitles(x, a, y, b)
    ensures SubMarker(ExampleLine(x, a, y, b), '第', '章', Chapter, " ") == ExampleAfterChapter(x, a, y, b)
  {
    var se := "第" + y + ['节'];
    OtherTail(a, y, b, '章', Chapter, " ");
    RewriteMarker(x, '章', a + (se + b), Chapter, " ");
    Regroup("第" + x + ['章'], a, se + b);
  }

  /** The title text and a section heading hold no marker for another closing character. */
  lemma OtherTail(a: string, y: string, b: string, other: char, before: string, after: string)
    requires |y| > 0 && All(y, IsNumeral) && '第' !in a && '第' !in b
    requires other != '节' && other != '第'
    ensures var se := "第" + y + ['节'];
      SubMarker(a + (se + b), '第', other, before, after) == a + (se + b)
  {
    var se := "第" + y + ['节'];
    SubMarkerSkip(a, se + b, '第', other, before, after);
    SkipOtherMarker(y, '节', b, other, before, after);
    SubMarkerAbsent(b, '第', other, before, after);
  }

  lemma Regroup(ch: string, a: string, t: string)
    ensures Chapter + ch + " " + (a + t) == Chapter + (ch + ((" " + a) + t))
  {
  }

  /** After the chapter rule, neither marker is an article marker. */
  lemma ExampleArticleRule(x: string, a: string, y: string, b: string)
    requires PlainTitles(x, a, y, b)
    ensures SubMarker(ExampleAfterChapter(x, a, y, b), '第', '条', Article, "\n") == ExampleAfterChapter(x, a, y, b)
  {
    var ch := "第" + x + ['章'];
    var se := "第" + y + ['节'];
    assert '第' !in " " + a;
    SubMarkerSkip(Chapter, ch + ((" " + a) + (se + b)), '第', '条', Article, "\n");
    SkipOtherMarker(x, '章', (" " + a) + (se + b), '条', Article, "\n");
    OtherTail(" " + a, y, b, '条', Article, "\n");
  }

  lemma ExampleSectionRule(x: string, a: string, y: string, b: string)
    requires PlainTitles(x, a, y, b)
    ensures SubMarker(ExampleAfterChapter(x, a, y, b), '第', '节', Section, " ") == ExampleResult(x, a, y, b)
  {
    var ch := "第" + x + ['章'];
    var se := "第" + y + ['节'];
    calc {
      SubMarker(ExampleAfterChapter(x, a, y, b), '第', '节', Section, " ");
      SubMarker(Chapter + (ch + ((" " + a) + (se + b))), '第', '节', Section, " ");
      { SubMarkerSkip(Chapter, ch + ((" " + a) + (se + b)), '第', '节', Section, " "); }
      Chapter + SubMarker(ch + ((" " + a) + (se + b)), '第', '节', Section, " ");
      { SkipOtherMarker(x, '章', (" " + a) + (se + b), '节', Section, " "); }
      Chapter + (ch + SubMarker((" " + a) + (se + b), '第', '节', Section, " "));
      { SectionTail(a, y, b); }
      ExampleResult(x, a, y, b);
    }
  }

  /** The section rule on the title text and the section heading after it. */
  lemma SectionTail(a: string, y: string, b: string)
    requires |y| > 0 && All(y, IsNumeral) && '第' !in a && '第' !in b
    ensures var se := "第" + y + ['节'];
      SubMarker((" " + a) + (se + b), '第', '节', Section, " ") == (" " + a) + (Section + se + (" " + b))
  {
    var se := "第" + y + ['节'];
    assert '第' !in " " + a;
    SubMarkerSkip(" " + a, se + b, '第', '节', Section, " ");
    SectionHeading(y, b);
  }

  lemma SectionHeading(y: string, b: string)
    requires |y| > 0 && All(y, IsNumeral) && '第' !in b
    ensures var se := "第" + y + ['节'];
      SubMarker(se + b, '第', '节', Section, " ") == Section + se + (" " + b)
  {
    var se := "第" + y + ['节'];
    RewriteMarker(y, '节', b, Section, " ");
    SubMarkerAbsent(b, '第', '节', Section, " ");
    ConcatAssoc(Section + se, " ", b);
  }

  /** A chapter heading followed by a section heading, as in a regulation's
      opening line `第一章 总则 第一节 概述`: each marker starts a new heading line,
      the chapter rule runs first and the section rule second, and the title text
      stays where it was. */
  lemma ChapterThenSection(x: string, a: string, y: string, b: string, cc: CharClasses)
    requires PlainTitles(x, a, y, b)
    requires '（' !in a + b && '.' !in a + b && '附' !in a + b
    ensures MdFormatter(ExampleLine(x, a, y, b), cc) == ExampleResult(x, a, y, b)
  {
    var s1 := ExampleAfterChapter(x, a, y, b);
    var s3 := ExampleResult(x, a, y, b);
    assert '（' !in s3 && '.' !in s3 && '附' !in s3 by {
      NumeralsFree(x);
      NumeralsFree(y);
    }
    calc {
      MdFormatter(ExampleLine(x, a, y, b), cc);
      { GuardsAreRedundant(ExampleLine(x, a, y, b), cc); }
      Unguarded(ExampleLine(x, a, y, b), cc);
      { ExampleChapterRule(x, a, y, b); ExampleArticleRule(x, a, y, b); ExampleSectionRule(x, a, y, b); }
      ReplaceAll(SubNumberDot(SubMarker(s3, '（', '）', "\n\n", ""), cc), Attachment, AttachmentHeading);
      { LaterRulesFindNothing(s3, cc); }
      s3;
    }
  }

  lemma NumeralsFree(x: string)
    requires All(x, IsNumeral)
    ensures '（' !in x && '.' !in x && '附' !in x
  {
    forall i | 0 <= i < |x| ensures x[i] != '（' && x[i] != '.' && x[i] != '附' {
      assert IsNumeral(x[i]);
    }
  }

  lemma LaterRulesFindNothing(s: string, cc: CharClasses)
    requires '（' !in s && '.' !in s && '附' !in s
    ensures ReplaceAll(SubNumberDot(SubMarker(s, '（', '）', "\n\n", ""), cc), Attachment, AttachmentHeading) == s
  {
    SubMarkerAbsent(s, '（', '）', "\n\n", "");
    NumberDotNeedsStop(s, cc);
    SubNumberDotNoMatch(s, cc);
    assert !Contains(s, Attachment) by {
      if Contains(s, Attachment) {
        ContainsPrefix(s, "附", Attachment);
        ContainsChar(s, '附');
      }
    }
    ReplaceAllAbsent(s, Attachment, AttachmentHeading);
  }
}
