/**
 The pure parts of `src/llm_client.py`: its own copy of the index-list parser,
 and the rule that decides when a table conversation ends and how the replies
 are joined. The chat service is a parameter: the sequence of replies it would
 give, in order.
 */
module LlmClient {
  import opened Types
  import opened Strings
  import opened Blocks
  import opened Utils

  /** One step of `str.split(",")` read off the definition. */
  lemma SplitStep(t: string, sep: char)
    requires |t| > 0
    ensures t[0] == sep ==> Split(t, sep) == [""] + Split(t[1..], sep)
    ensures t[0] != sep ==> Split(t, sep)[0] == [t[0]] + Split(t[1..], sep)[0]
    ensures t[0] != sep ==> Split(t, sep)[1..] == Split(t[1..], sep)[1..]
  {
  }

  /** Python's `[item.strip() for item in pieces]`, tagged "custom". */
  function Entries(pieces: seq<string>, sp: char -> bool): seq<IndexEntry> {
    seq(|pieces|, k requires 0 <= k < |pieces| => IndexEntry("custom", Strip(pieces[k], sp)))
  }

  /** The leftmost `[` whose lazy `.*?` reaches a `]` before a newline, found by
      scanning: the span that `re.search(r"\[(.*?)\]", ans)` matches. */
  method FindBracketPair(ans: string) returns (found: bool, p: nat, q: nat)
    ensures found <==> SearchBracket(ans, 0).Some?
    ensures found ==> SearchBracket(ans, 0) == Some((p, q))
  {
    p := 0;
    q := 0;
    found := false;
    while p < |ans| && !found
      invariant 0 <= p <= |ans|
      invariant !found ==> SearchBracket(ans, p) == SearchBracket(ans, 0)
      invariant found ==> SearchBracket(ans, 0) == Some((p, q))
      decreases |ans| - p, if found then 0 else 1
    {
      if ans[p] == '[' {
        var j := ScanToClose(ans, p + 1);
        if j < |ans| && ans[j] == ']' {
          found := true;
          q := j;
        } else {
          p := p + 1;
        }
      } else {
        p := p + 1;
      }
    }
  }

  /** Walks from `from` to the first `]` or newline: the lazy `.*?\]` of the pattern. */
  method ScanToClose(ans: string, from: nat) returns (j: nat)
    requires from <= |ans|
    ensures from <= j <= |ans|
    ensures FindClose(ans, "]", from, false) == if j < |ans| && ans[j] == ']' then Some(j) else None
  {
    j := from;
    while j < |ans| && ans[j] != ']' && ans[j] != '\n'
      invariant from <= j <= |ans|
      invariant FindClose(ans, "]", j, false) == FindClose(ans, "]", from, false)
    {
      OccursAtChar(ans, ']', j);
      j := j + 1;
    }
    OccursAtChar(ans, ']', j);
  }

  /** `content.split(",")`, one character at a time. */
  method SplitCommas(content: string) returns (pieces: seq<string>)
    ensures pieces == Split(content, ',')
  {
    pieces := [];
    var cur := "";
    var k := 0;
    PendingStart(content);
    while k < |content|
      invariant 0 <= k <= |content|
      invariant Pending(pieces, cur, content[k..]) == Split(content, ',')
    {
      PendingStep(pieces, cur, content[k..]);
      assert content[k..][1..] == content[k + 1..];
      if content[k] == ',' {
        pieces := pieces + [cur];
        cur := "";
      } else {
        cur := cur + [content[k]];
      }
      k := k + 1;
    }
    PendingEnd(pieces, cur);
    assert content[k..] == "";
    pieces := pieces + [cur];
  }

  /** The pieces a split loop would finish with: those already closed, the open piece
      completed by the rest's first piece, then the rest's other pieces. */
  ghost function Pending(pieces: seq<string>, cur: string, t: string): seq<string> {
    var st := Split(t, ',');
    pieces + [cur + st[0]] + st[1..]
  }

  lemma PendingStart(content: string)
    ensures Pending([], "", content[0..]) == Split(content, ',')
  {
    assert content[0..] == content;
    var st := Split(content, ',');
    assert "" + st[0] == st[0];
    assert [st[0]] + st[1..] == st;
  }

  /** One character of the loop: a comma closes the open piece, any other character
      extends it. */
  lemma PendingStep(pieces: seq<string>, cur: string, t: string)
    requires |t| > 0
    ensures t[0] == ',' ==> Pending(pieces, cur, t) == Pending(pieces + [cur], "", t[1..])
    ensures t[0] != ',' ==> Pending(pieces, cur, t) == Pending(pieces, cur + [t[0]], t[1..])
  {
    var st := Split(t, ',');
    var st1 := Split(t[1..], ',');
    SplitStep(t, ',');
    assert st1 == [st1[0]] + st1[1..];
    if t[0] == ',' {
      assert st[0] == "" && st[1..] == st1;
      assert cur + "" == cur;
      assert "" + st1[0] == st1[0];
      assert pieces + [cur] + st1 == pieces + [cur] + [st1[0]] + st1[1..];
    } else {
      assert cur + st[0] == (cur + [t[0]]) + st1[0];
    }
  }

  lemma PendingEnd(pieces: seq<string>, cur: string)
    ensures Pending(pieces, cur, "") == pieces + [cur]
  {
    assert Split("", ',') == [""];
    assert cur + "" == cur;
  }

  /** `_parse_index_response(ans)`: the same regex search and comma split as
      `get_index_from_response`. The try body only runs a regex, `str.split` and
      `str.strip` on a string, so its except branch is never taken and the method
      has no error result. */
  method ParseIndexResponse(ans: string, sp: char -> bool) returns (r: seq<IndexEntry>)
    ensures r == GetIndexFromResponse(ans, sp)
    ensures (forall p, q :: !SameLinePair(ans, p, q)) ==> r == []
    ensures forall k :: 0 <= k < |r| ==> r[k].kind == "custom" && Stripped(r[k].text, sp)
  {
    var found, p, q := FindBracketPair(ans);
    if !found {
      return [];
    }
    var pieces := SplitCommas(ans[p + 1..q]);
    r := Entries(pieces, sp);
  }

  /** The result of one table conversation: the prompts sent, in order, and the
      replies joined with newlines. */
  datatype Exchange = Exchange(prompts: seq<string>, answer: string)

  /** The marker a reply carries when the model has finished the table. */
  const Eof := "<EOF>"

  /** `process_table_with_llm(md_content, chat_id)` over the replies the service
      gives, in order. The first prompt is the start prompt followed by the table,
      every later one the continue prompt; the conversation ends with the first reply
      that holds the end marker. When no given reply holds it, the source would keep
      asking for ever; the model returns `None`. */
  method ProcessTableWithLlm(start: string, cont: string, md: string, replies: seq<string>)
    returns (r: Option<Exchange>)
    ensures r.None? <==> forall i :: 0 <= i < |replies| ==> !Contains(replies[i], Eof)
    ensures r.Some? ==>
      var n := |r.value.prompts|;
      && 1 <= n <= |replies|
      && Contains(replies[n - 1], Eof)
      && (forall i :: 0 <= i < n - 1 ==> !Contains(replies[i], Eof))
      && r.value.prompts[0] == start + md
      && (forall i :: 1 <= i < n ==> r.value.prompts[i] == cont)
      && r.value.answer == Join(replies[..n], "\n")
  {
    if |replies| == 0 {
      return None;
    }
    var prompts := [start + md];
    var answer := replies[0];
    var answers := [answer];
    while !Contains(answer, Eof)
      invariant 1 <= |answers| <= |replies|
      invariant answers == replies[..|answers|]
      invariant |prompts| == |answers|
      invariant prompts[0] == start + md
      invariant forall i :: 1 <= i < |prompts| ==> prompts[i] == cont
      invariant answer == answers[|answers| - 1]
      invariant forall i :: 0 <= i < |answers| - 1 ==> !Contains(replies[i], Eof)
      decreases |replies| - |answers|
    {
      if |answers| == |replies| {
        return None;
      }
      prompts := prompts + [cont];
      answer := replies[|answers|];
      answers := answers + [answer];
    }
    r := Some(Exchange(prompts, Join(answers, "\n")));
  }
}
