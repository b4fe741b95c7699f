/**
 Strings as the Python code sees them: `in`, `str.replace`, `str.split`,
 `str.join` and `str.strip`, over `seq<char>`.
 Python's Unicode character classes (`\s`, `\d`, `str.isspace`) stay abstract:
 every operation that depends on them takes a `CharClasses` value.
 */
module Strings {

  /** The whitespace and decimal-digit classes of Python's `re` and `str`. */
  datatype CharClasses = CharClasses(isSpace: char -> bool, isDigit: char -> bool) {

    /** What the model needs of the two classes: ASCII blanks are spaces, ASCII digits
        are digits, and the punctuation that the rewriting rules match or insert is
        neither. Python's Unicode classes satisfy this. */
    predicate Valid() {
      && isSpace(' ') && isSpace('\n') && isSpace('\t') && isSpace('\r')
      && isDigit('0') && isDigit('1') && isDigit('2') && isDigit('3') && isDigit('4')
      && isDigit('5') && isDigit('6') && isDigit('7') && isDigit('8') && isDigit('9')
      && !isDigit('.') && !isDigit('\n') && !isDigit(' ') && !isDigit('#')
      && !isDigit('（') && !isDigit('）') && !isDigit('：')
    }
  }

  /** The ASCII classes, one instance of the abstract ones. */
  const Ascii := CharClasses(
    c => c == ' ' || c == '\n' || c == '\t' || c == '\r' || c == '\U{000B}' || c == '\U{000C}',
    c => '0' <= c <= '9')

  lemma AsciiIsValid()
    ensures Ascii.Valid()
  {
  }

  predicate StartsWith(s: string, prefix: string) {
    |prefix| <= |s| && s[..|prefix|] == prefix
  }

  /** Python's `sub in s`. */
  predicate Contains(s: string, sub: string)
    decreases |s|
  {
    StartsWith(s, sub) || (|s| > 0 && Contains(s[1..], sub))
  }

  /** `sub` occurs in `s` starting at index `i`. */
  predicate OccursAt(s: string, sub: string, i: int) {
    0 <= i <= |s| - |sub| && s[i..i + |sub|] == sub
  }

  /** `sub` occurs in `s` exactly when it occurs at some index. */
  lemma {:induction false} ContainsAt(s: string, sub: string)
    ensures Contains(s, sub) <==> exists i :: OccursAt(s, sub, i)
    decreases |s|
  {
    if StartsWith(s, sub) {
      assert OccursAt(s, sub, 0);
    } else if |s| == 0 {
    } else {
      ContainsAt(s[1..], sub);
      if exists i :: OccursAt(s, sub, i) {
        var i :| OccursAt(s, sub, i);
        assert i != 0;
        assert s[1..][i - 1..i - 1 + |sub|] == s[i..i + |sub|];
        assert OccursAt(s[1..], sub, i - 1);
      }
      if Contains(s[1..], sub) {
        var i :| OccursAt(s[1..], sub, i);
        assert s[i + 1..i + 1 + |sub|] == s[1..][i..i + |sub|];
        assert OccursAt(s, sub, i + 1);
      }
    }
  }

  /** A character occurs in `s` exactly when the one-character string does. */
  lemma ContainsChar(s: string, c: char)
    ensures Contains(s, [c]) <==> c in s
  {
    ContainsAt(s, [c]);
    if c in s {
      var i :| 0 <= i < |s| && s[i] == c;
      assert s[i..i + 1] == [c];
      assert OccursAt(s, [c], i);
    }
    if Contains(s, [c]) {
      var i :| OccursAt(s, [c], i);
      assert s[i] == s[i..i + 1][0];
    }
  }

  /** Every character of `s` is in the class. */
  predicate All(s: string, p: char -> bool) {
    forall i :: 0 <= i < |s| ==> p(s[i])
  }

  /** Python's `s.replace(pat, rep)`: leftmost, non-overlapping occurrences. */
  function ReplaceAll(s: string, pat: string, rep: string): (r: string)
    requires |pat| > 0
    decreases |s|
  {
    if |s| < |pat| then s
    else if s[..|pat|] == pat then rep + ReplaceAll(s[|pat|..], pat, rep)
    else [s[0]] + ReplaceAll(s[1..], pat, rep)
  }

  /** A replacement that never lengthens never lengthens the text. */
  lemma {:induction false} ReplaceAllShrinks(s: string, pat: string, rep: string)
    requires |pat| > 0 && |rep| <= |pat|
    ensures |ReplaceAll(s, pat, rep)| <= |s|
    decreases |s|
  {
    if |s| < |pat| {
    } else if s[..|pat|] == pat {
      ReplaceAllShrinks(s[|pat|..], pat, rep);
    } else {
      ReplaceAllShrinks(s[1..], pat, rep);
    }
  }

  /** Text without the pattern is returned as it is. */
  lemma {:induction false} ReplaceAllAbsent(s: string, pat: string, rep: string)
    requires |pat| > 0 && !Contains(s, pat)
    ensures ReplaceAll(s, pat, rep) == s
    decreases |s|
  {
    if |s| < |pat| {
    } else {
      assert !StartsWith(s, pat);
      ReplaceAllAbsent(s[1..], pat, rep);
    }
  }

  /** Dropping the first character moves every occurrence one place to the left. */
  lemma OccursAtShift(s: string, x: string, i: int)
    requires |s| > 0 && i >= 0
    ensures OccursAt(s[1..], x, i) <==> OccursAt(s, x, i + 1)
  {
    if 0 <= i <= |s| - 1 - |x| {
      var u, v := s[1..][i..i + |x|], s[i + 1..i + 1 + |x|];
      forall k | 0 <= k < |x| ensures u[k] == v[k] {
        assert s[1..][i + k] == s[i + 1 + k];
      }
      assert u == v;
    }
  }

  /** An occurrence at the front is replaced, and the scan resumes after it. */
  lemma ReplaceAllHit(pat: string, rep: string, c: string)
    requires |pat| > 0
    ensures ReplaceAll(pat + c, pat, rep) == rep + ReplaceAll(c, pat, rep)
  {
    var s := pat + c;
    assert s[..|pat|] == pat && s[|pat|..] == c;
  }

  /** A prefix in which no occurrence starts is copied unchanged. */
  lemma {:induction false} ReplaceAllSkip(p: string, c: string, pat: string, rep: string)
    requires |pat| > 0
    requires forall i :: 0 <= i < |p| ==> !OccursAt(p + c, pat, i)
    ensures ReplaceAll(p + c, pat, rep) == p + ReplaceAll(c, pat, rep)
    decreases |p|
  {
    if |p| > 0 {
      var s := p + c;
      assert s[1..] == p[1..] + c;
      forall i | 0 <= i < |p| - 1 ensures !OccursAt(p[1..] + c, pat, i) {
        OccursAtShift(s, pat, i);
      }
      ReplaceAllSkip(p[1..], c, pat, rep);
      if |s| < |pat| {
        assert ReplaceAll(c, pat, rep) == c;
      } else {
        assert !OccursAt(s, pat, 0);
        assert s[0..|pat|] == s[..|pat|];
        assert ReplaceAll(s, pat, rep) == [s[0]] + ReplaceAll(s[1..], pat, rep);
        assert s[0] == p[0];
        ConcatAssoc([p[0]], p[1..], ReplaceAll(c, pat, rep));
        assert [p[0]] + p[1..] == p;
      }
    } else {
      assert p + c == c;
    }
  }

  /** Deleting a one-character pattern leaves no occurrence of that character. */
  lemma {:induction false} ReplaceCharDeletes(s: string, c: char)
    ensures c !in ReplaceAll(s, [c], "")
    ensures forall d :: d in ReplaceAll(s, [c], "") ==> d in s
    decreases |s|
  {
    if |s| < 1 {
    } else {
      ReplaceCharDeletes(s[1..], c);
    }
  }

  /** Every character of the result comes from the text or from the replacement. */
  lemma {:induction false} ReplaceAllChars(s: string, pat: string, rep: string)
    requires |pat| > 0
    ensures forall d :: d in ReplaceAll(s, pat, rep) ==> d in s || d in rep
    decreases |s|
  {
    if |s| < |pat| {
    } else if s[..|pat|] == pat {
      ReplaceAllChars(s[|pat|..], pat, rep);
    } else {
      ReplaceAllChars(s[1..], pat, rep);
    }
  }

  /** Number of occurrences of `c`. */
  function Count(s: string, c: char): nat {
    multiset(s)[c]
  }

  /** Python's `s.split(sep)` for a one-character separator: always at least one piece. */
  function Split(s: string, sep: char): (parts: seq<string>)
    ensures |parts| > 0
    decreases |s|
  {
    if |s| == 0 then [""]
    else
      var rest := Split(s[1..], sep);
      if s[0] == sep then [""] + rest
      else [[s[0]] + rest[0]] + rest[1..]
  }

  /** The pieces are one more than the separators, and none holds a separator. */
  lemma {:induction false} SplitPieces(s: string, sep: char)
    ensures |Split(s, sep)| == Count(s, sep) + 1
    ensures forall k :: 0 <= k < |Split(s, sep)| ==> sep !in Split(s, sep)[k]
    decreases |s|
  {
    if |s| > 0 {
      SplitPieces(s[1..], sep);
      assert s == [s[0]] + s[1..];
      assert multiset(s) == multiset{s[0]} + multiset(s[1..]);
      var rest := Split(s[1..], sep);
      if s[0] != sep {
        var parts := Split(s, sep);
        assert parts[0] == [s[0]] + rest[0];
        forall k | 0 <= k < |parts|
          ensures sep !in parts[k]
        {
          if k > 0 { assert parts[k] == rest[k]; }
        }
      }
    }
  }

  /** Python's `sep.join(parts)`. */
  function Join(parts: seq<string>, sep: string): string
    decreases |parts|
  {
    if |parts| == 0 then ""
    else if |parts| == 1 then parts[0]
    else parts[0] + sep + Join(parts[1..], sep)
  }

  /** Joining the pieces of a split with the separator gives the text back. */
  lemma {:induction false} JoinSplit(s: string, sep: char)
    ensures Join(Split(s, sep), [sep]) == s
    decreases |s|
  {
    if |s| > 0 {
      JoinSplit(s[1..], sep);
      var rest := Split(s[1..], sep);
      if s[0] == sep {
        assert Join([""] + rest, [sep]) == "" + [sep] + Join(rest, [sep]);
      } else {
        JoinHead(rest, [s[0]], [sep]);
      }
    }
  }

  /** Prepending to the first piece prepends to the join. */
  lemma JoinHead(parts: seq<string>, pre: string, sep: string)
    requires |parts| > 0
    ensures Join([pre + parts[0]] + parts[1..], sep) == pre + Join(parts, sep)
  {
    var q := [pre + parts[0]] + parts[1..];
    assert q[1..] == parts[1..];
  }

  /** The text with every `c` deleted, keeping the order of the rest. */
  function Without(s: string, c: char): (r: string)
    ensures c !in r
    decreases |s|
  {
    if |s| == 0 then "" else (if s[0] == c then "" else [s[0]]) + Without(s[1..], c)
  }

  /** Deleting `c` shortens the text by its number of occurrences. */
  lemma {:induction false} WithoutLength(s: string, c: char)
    ensures |Without(s, c)| + Count(s, c) == |s|
    decreases |s|
  {
    if |s| > 0 {
      WithoutLength(s[1..], c);
      assert s == [s[0]] + s[1..];
      assert multiset(s) == multiset{s[0]} + multiset(s[1..]);
    }
  }

  lemma ConcatAssoc(a: string, b: string, c: string)
    ensures a + (b + c) == (a + b) + c
  {
  }

  /** Deleting a character works piece by piece. */
  lemma {:induction false} WithoutAppend(a: string, b: string, c: char)
    ensures Without(a + b, c) == Without(a, c) + Without(b, c)
    decreases |a|
  {
    if |a| == 0 {
      assert a + b == b;
    } else {
      assert (a + b)[1..] == a[1..] + b;
      WithoutAppend(a[1..], b, c);
    }
  }

  lemma WithoutDropsLast(p: string, c: char)
    ensures Without(p + [c], c) == Without(p, c)
  {
    WithoutAppend(p, [c], c);
    assert Without([c], c) == "" by { assert [c][1..] == []; }
    assert Without(p, c) + "" == Without(p, c);
  }

  /** Deleting `c` from a text with one more `c` in it gives the same. */
  lemma WithoutDropsOne(p: string, q: string, c: char)
    ensures Without(p + [c] + q, c) == Without(p + q, c)
  {
    WithoutAppend(p + [c], q, c);
    WithoutDropsLast(p, c);
    WithoutAppend(p, q, c);
  }

  /** `"".join(s.split(c))` deletes every `c`. */
  lemma {:induction false} JoinSplitDeletes(s: string, c: char)
    ensures Join(Split(s, c), "") == Without(s, c)
    decreases |s|
  {
    if |s| > 0 {
      JoinSplitDeletes(s[1..], c);
      var rest := Split(s[1..], c);
      if s[0] == c {
        assert Join([""] + rest, "") == "" + "" + Join(rest, "");
      } else {
        JoinHead(rest, [s[0]], "");
      }
    }
  }

  /** Python's `s.lstrip()`. */
  function LStrip(s: string, sp: char -> bool): (r: string)
    ensures |r| <= |s| && r == s[|s| - |r|..]
    ensures |r| > 0 ==> !sp(r[0])
    ensures r == "" <==> All(s, sp)
    decreases |s|
  {
    if |s| > 0 && sp(s[0]) then
      assert All(s, sp) <==> All(s[1..], sp) by {
        if All(s[1..], sp) {
          forall i | 0 <= i < |s| ensures sp(s[i]) { if i > 0 { assert s[i] == s[1..][i - 1]; } }
        }
      }
      LStrip(s[1..], sp)
    else s
  }

  /** Python's `s.rstrip()`. */
  function RStrip(s: string, sp: char -> bool): (r: string)
    ensures |r| <= |s| && r == s[..|r|]
    ensures |r| > 0 ==> !sp(r[|r| - 1])
    ensures r == "" <==> All(s, sp)
    decreases |s|
  {
    if |s| > 0 && sp(s[|s| - 1]) then
      var t := s[..|s| - 1];
      assert All(s, sp) <==> All(t, sp) by {
        if All(t, sp) {
          forall i | 0 <= i < |s| ensures sp(s[i]) { if i < |t| { assert s[i] == t[i]; } }
        }
      }
      RStrip(t, sp)
    else s
  }

  /** No leading and no trailing character of the class. */
  predicate Stripped(s: string, sp: char -> bool) {
    |s| == 0 || (!sp(s[0]) && !sp(s[|s| - 1]))
  }

  /** Python's `s.strip()`. */
  function Strip(s: string, sp: char -> bool): (r: string)
    ensures Stripped(r, sp)
    ensures |r| <= |s|
    ensures r == "" <==> All(s, sp)
  {
    var l := LStrip(s, sp);
    var r := RStrip(l, sp);
    assert |r| > 0 ==> r[0] == l[0];
    r
  }

  /** A stripped text is its own strip. */
  lemma StripStripped(s: string, sp: char -> bool)
    requires Stripped(s, sp)
    ensures Strip(s, sp) == s
  {
  }

  /** Python's `not s.strip()`: the text is empty or all whitespace. */
  predicate Blank(s: string, sp: char -> bool) {
    All(s, sp)
  }

  /** `Join` with the empty separator: Python's `"".join(parts)`. */
  function Concat(parts: seq<string>): string {
    Join(parts, "")
  }

  /** The first part comes first. */
  lemma ConcatCons(parts: seq<string>)
    requires |parts| > 0
    ensures Concat(parts) == parts[0] + Concat(parts[1..])
  {
    if |parts| == 1 {
      assert parts[1..] == [];
      assert parts[0] + "" == parts[0];
    }
  }

  /** Concatenation distributes over appending one more part. */
  lemma {:induction false} ConcatSnoc(parts: seq<string>, last: string)
    ensures Concat(parts + [last]) == Concat(parts) + last
    decreases |parts|
  {
    if |parts| == 0 {
      assert parts + [last] == [last];
    } else if |parts| == 1 {
      assert (parts + [last])[1..] == [last];
      assert Join(parts + [last], "") == parts[0] + "" + Join([last], "");
    } else {
      assert (parts + [last])[1..] == parts[1..] + [last];
      ConcatSnoc(parts[1..], last);
    }
  }
}
