/**
 Regexes of the shape `OPEN.*?CLOSE`: an opening literal, the shortest stretch
 of text, and a closing literal. Without `re.DOTALL` the stretch may not cross a
 newline. `re.sub` removes every such block left to right; `re.search` finds the
 leftmost one.
 */
module Blocks {
  import opened Types
  import opened Strings

  /** No newline among `s[lo..hi]`. */
  predicate NoNewline(s: string, lo: int, hi: int)
    requires 0 <= lo <= hi <= |s|
  {
    forall k :: lo <= k < hi ==> s[k] != '\n'
  }

  /** Where the lazy `.*?CLOSE` that starts at `from` ends: the index of the first
      `close` at or after `from`, unless (without DOTALL) a newline comes first. */
  function FindClose(s: string, close: string, from: nat, dotAll: bool): (r: Option<nat>)
    ensures r.Some? ==> from <= r.value <= |s| - |close| && OccursAt(s, close, r.value)
    ensures r.Some? ==> forall j :: from <= j < r.value ==> !OccursAt(s, close, j)
    ensures r.Some? && !dotAll ==> NoNewline(s, from, r.value)
    ensures r.None? ==> forall j :: from <= j <= |s| && (dotAll || NoNewline(s, from, j)) ==> !OccursAt(s, close, j)
    decreases |s| - from
  {
    if from > |s| then None
    else if OccursAt(s, close, from) then Some(from)
    else if from == |s| then None
    else if !dotAll && s[from] == '\n' then None
    else FindClose(s, close, from + 1, dotAll)
  }

  /** The first `close` after `from` is where the lazy match ends. */
  lemma {:induction false} FindCloseAt(s: string, close: string, from: nat, k: nat, dotAll: bool)
    requires from <= k && OccursAt(s, close, k)
    requires forall j :: from <= j < k ==> !OccursAt(s, close, j)
    requires dotAll || NoNewline(s, from, k)
    ensures FindClose(s, close, from, dotAll) == Some(k)
    decreases k - from
  {
    if from < k {
      assert !OccursAt(s, close, from);
      FindCloseAt(s, close, from + 1, k, dotAll);
    }
  }

  /** `re.sub(OPEN.*?CLOSE, "", s)`. */
  function RemoveBlocks(s: string, open: string, close: string, dotAll: bool): string
    requires |open| > 0
    decreases |s|
  {
    if |s| == 0 then ""
    else
      match BlockEnd(s, open, close, dotAll)
      case Some(e) => RemoveBlocks(s[e..], open, close, dotAll)
      case None => [s[0]] + RemoveBlocks(s[1..], open, close, dotAll)
  }

  /** Where a block that starts at the front of `s` ends, just after its closing
      literal; None when no block starts there. */
  function BlockEnd(s: string, open: string, close: string, dotAll: bool): (e: Option<nat>)
    requires |open| > 0
    ensures e.Some? ==> |open| <= e.value <= |s|
  {
    if StartsWith(s, open) then
      match FindClose(s, close, |open|, dotAll)
      case Some(j) => Some(j + |close|)
      case None => None
    else None
  }

  /** Removing blocks never lengthens the text. */
  lemma {:induction false} RemoveBlocksShrinks(s: string, open: string, close: string, dotAll: bool)
    requires |open| > 0
    ensures |RemoveBlocks(s, open, close, dotAll)| <= |s|
    decreases |s|
  {
    if |s| > 0 {
      if StartsWith(s, open) && FindClose(s, close, |open|, dotAll).Some? {
        var e := BlockEnd(s, open, close, dotAll).value;
        RemoveBlocksCut(s, open, close, dotAll, e);
        RemoveBlocksShrinks(s[e..], open, close, dotAll);
      } else {
        RemoveBlocksSkip(s, open, close, dotAll);
        RemoveBlocksShrinks(s[1..], open, close, dotAll);
      }
    }
  }

  /** Text without the opening literal is returned as it is. */
  lemma {:induction false} RemoveBlocksNoOpen(s: string, open: string, close: string, dotAll: bool)
    requires |open| > 0 && !Contains(s, open)
    ensures RemoveBlocks(s, open, close, dotAll) == s
    decreases |s|
  {
    if |s| > 0 {
      RemoveBlocksNoOpen(s[1..], open, close, dotAll);
    }
  }

  /** Text without the closing literal is returned as it is: an unclosed block stays. */
  lemma {:induction false} RemoveBlocksNoClose(s: string, open: string, close: string, dotAll: bool)
    requires |open| > 0 && !Contains(s, close)
    ensures RemoveBlocks(s, open, close, dotAll) == s
    decreases |s|
  {
    if |s| > 0 {
      ContainsAt(s, close);
      assert FindClose(s, close, |open|, dotAll).None?;
      RemoveBlocksNoOpenClose(s, close);
      RemoveBlocksNoClose(s[1..], open, close, dotAll);
    }
  }

  lemma RemoveBlocksNoOpenClose(s: string, close: string)
    requires |s| > 0 && !Contains(s, close)
    ensures !Contains(s[1..], close)
  {
  }

  /** A block at the very front is cut out up to the first closing literal. */
  lemma RemoveLeadingBlock(open: string, b: string, close: string, c: string, dotAll: bool)
    requires |open| > 0
    requires var t := open + b + close + c;
      forall j :: |open| <= j < |open| + |b| ==> !OccursAt(t, close, j)
    requires dotAll || '\n' !in b
    ensures RemoveBlocks(open + b + close + c, open, close, dotAll) == RemoveBlocks(c, open, close, dotAll)
  {
    var t := open + b + close + c;
    assert t[..|open|] == open;
    var k := |open| + |b|;
    assert t[k..k + |close|] == close;
    if !dotAll {
      forall m | |open| <= m < k ensures t[m] != '\n' { assert t[m] == b[m - |open|]; }
    }
    FindCloseAt(t, close, |open|, k, dotAll);
    assert t[k + |close|..] == c;
  }

  /** The leftmost block, from its opening literal to the first closing literal after
      it, is cut out; the text before it is kept and the rest is scanned again. */
  lemma {:induction false} RemoveFirstBlock(a: string, open: string, b: string, close: string, c: string, dotAll: bool)
    requires |open| > 0
    requires var s := a + open + b + close + c;
      forall i :: 0 <= i < |a| ==> !OccursAt(s, open, i)
    requires var s := a + open + b + close + c;
      forall j :: |a| + |open| <= j < |a| + |open| + |b| ==> !OccursAt(s, close, j)
    requires dotAll || '\n' !in b
    ensures RemoveBlocks(a + open + b + close + c, open, close, dotAll)
         == a + RemoveBlocks(c, open, close, dotAll)
    decreases |a|
  {
    var s := a + open + b + close + c;
    if |a| == 0 {
      assert s == open + b + close + c;
      RemoveLeadingBlock(open, b, close, c, dotAll);
    } else {
      FirstBlockShift(a, open, b, close, c, dotAll);
      RemoveBlocksSkip(s, open, close, dotAll);
      RemoveFirstBlock(a[1..], open, b, close, c, dotAll);
      ConcatAssoc([a[0]], a[1..], RemoveBlocks(c, open, close, dotAll));
    }
  }

  /** One step of the scan where no block starts. */
  lemma RemoveBlocksSkip(s: string, open: string, close: string, dotAll: bool)
    requires |open| > 0 && |s| > 0
    requires !(StartsWith(s, open) && FindClose(s, close, |open|, dotAll).Some?)
    ensures RemoveBlocks(s, open, close, dotAll) == [s[0]] + RemoveBlocks(s[1..], open, close, dotAll)
  {
  }

  /** One step of the scan where a block starts at the front and ends before `e`. */
  lemma RemoveBlocksCut(s: string, open: string, close: string, dotAll: bool, e: nat)
    requires |open| > 0 && |s| > 0 && e <= |s|
    requires BlockEnd(s, open, close, dotAll) == Some(e)
    ensures RemoveBlocks(s, open, close, dotAll) == RemoveBlocks(s[e..], open, close, dotAll)
  {
  }

  /** The premises of `RemoveFirstBlock` carry over to the text after its first character. */
  lemma FirstBlockShift(a: string, open: string, b: string, close: string, c: string, dotAll: bool)
    requires |open| > 0 && |a| > 0
    requires var s := a + open + b + close + c;
      forall i :: 0 <= i < |a| ==> !OccursAt(s, open, i)
    requires var s := a + open + b + close + c;
      forall j :: |a| + |open| <= j < |a| + |open| + |b| ==> !OccursAt(s, close, j)
    ensures var s := a + open + b + close + c;
      && s[0] == a[0] && !StartsWith(s, open)
      && s[1..] == a[1..] + open + b + close + c
      && [a[0]] + a[1..] == a
    ensures var s' := a[1..] + open + b + close + c;
      forall i :: 0 <= i < |a[1..]| ==> !OccursAt(s', open, i)
    ensures var s' := a[1..] + open + b + close + c;
      forall j :: |a[1..]| + |open| <= j < |a[1..]| + |open| + |b| ==> !OccursAt(s', close, j)
  {
    var s := a + open + b + close + c;
    var s' := a[1..] + open + b + close + c;
    assert s[1..] == s';
    assert !OccursAt(s, open, 0);
    forall i | 0 <= i < |a[1..]| ensures !OccursAt(s', open, i) {
      OccursAtShift(s, open, i);
    }
    forall j | |a[1..]| + |open| <= j < |a[1..]| + |open| + |b| ensures !OccursAt(s', close, j) {
      OccursAtShift(s, close, j);
    }
  }
}
