/**
 `PDFProcessor.format_table`: a table extracted from a PDF page becomes a block
 of Markdown. The grid goes through a pandas frame (ragged rows padded, missing
 cells emptied, line breaks inside cells deleted), is rendered as a Markdown
 table, then runs of spaces and of hyphens are normalised and the block is framed
 by blank lines.
 */
module TableFormat {
  import opened Types
  import opened Strings
  import opened Runs

  /** A cell as the PDF table extractor yields it: text or nothing. */
  type Cell = Option<string>
  type Grid = seq<seq<Cell>>

  /** `DataFrame.to_markdown(index=False)`: the layout of a Markdown table is the
      tabulate library's, so it is a parameter. */
  type Render = seq<seq<string>> -> string

  /** The number of columns pandas gives the frame: the widest row. */
  function Width(grid: Grid): (w: nat)
    ensures forall r :: 0 <= r < |grid| ==> |grid[r]| <= w
    ensures |grid| == 0 ==> w == 0
    ensures |grid| > 0 ==> exists r :: 0 <= r < |grid| && |grid[r]| == w
    decreases |grid|
  {
    if |grid| == 0 then 0
    else
      var rest := Width(grid[1..]);
      assert forall r :: 1 <= r < |grid| ==> grid[r] == grid[1..][r - 1];
      if |grid[0]| >= rest then |grid[0]| else rest
  }

  /** `fillna("")` then `"".join(cell.split("\n"))`. */
  function CleanCell(c: Cell): (r: string)
    ensures '\n' !in r
    ensures c.None? ==> r == ""
    ensures c.Some? ==> r == Without(c.value, '\n')
  {
    match c
    case None => ""
    case Some(t) =>
      JoinSplitDeletes(t, '\n');
      Join(Split(t, '\n'), "")
  }

  /** The frame pandas builds: every row as wide as the widest, short rows padded
      with empty cells, each cell cleaned. */
  function CleanGrid(grid: Grid): (g: seq<seq<string>>)
    ensures |g| == |grid|
    ensures forall r :: 0 <= r < |g| ==> |grid[r]| <= |g[r]| == Width(grid)
    ensures forall r, c :: 0 <= r < |g| && 0 <= c < |grid[r]| ==> g[r][c] == CleanCell(grid[r][c])
    ensures forall r, c :: 0 <= r < |g| && |grid[r]| <= c < Width(grid) ==> g[r][c] == ""
    ensures forall r, c :: 0 <= r < |g| && 0 <= c < |g[r]| ==> '\n' !in g[r][c]
  {
    seq(|grid|, r requires 0 <= r < |grid| =>
      seq(Width(grid), c requires 0 <= c < Width(grid) =>
        if c < |grid[r]| then CleanCell(grid[r][c]) else ""))
  }

  predicate IsSpaceChar(c: char) { c == ' ' }
  predicate IsHyphen(c: char) { c == '-' }

  /** The accepted hyphen run lengths after normalisation. */
  predicate HyphenRunOk(n: nat) { n < 3 || n == 5 }

  /** `re.sub(" {2,}", " ")` then `re.sub("-{3,}", "-----")`. */
  function Normalise(md: string): (r: string)
    ensures NoRunOf(r, IsSpaceChar, 2)
    ensures RunsAll(r, IsHyphen, HyphenRunOk)
  {
    var spaced := ReplaceRuns(md, IsSpaceChar, 2, " ");
    var r := ReplaceRuns(spaced, IsHyphen, 3, "-----");
    SingleSpaces(md);
    ReplaceRunsKeepsPairs(spaced, IsHyphen, 3, "-----", IsSpaceChar);
    ReplaceRunsShape(spaced, IsHyphen, 3, "-----");
    RunsAllMono(r, IsHyphen, n => n < 3 || n == |"-----"|, HyphenRunOk);
    r
  }

  /** After the space rule no two spaces are adjacent. */
  lemma SingleSpaces(md: string)
    ensures NoRunOf(ReplaceRuns(md, IsSpaceChar, 2, " "), IsSpaceChar, 2)
  {
    var spaced := ReplaceRuns(md, IsSpaceChar, 2, " ");
    ReplaceRunsShape(md, IsSpaceChar, 2, " ");
    RunsAllMono(spaced, IsSpaceChar, n => n < 2 || n == |" "|, n => n < 2);
    RunsAllBelow(spaced, IsSpaceChar, 2);
  }

  /** Normalising twice is normalising once. */
  lemma NormaliseIdempotent(md: string)
    ensures Normalise(Normalise(md)) == Normalise(md)
  {
    var n := Normalise(md);
    ReplaceRunsIdentity(n, IsSpaceChar, 2, " ");
    RunsAllMono(n, IsHyphen, HyphenRunOk, k => k < 3 || k == |"-----"|);
    ReplaceRunsFixed(n, IsHyphen, 3, "-----");
  }

  /** Text with single spaces and no hyphen run of three or more is left alone. */
  lemma NormaliseKeepsClean(md: string)
    requires NoRunOf(md, IsSpaceChar, 2) && NoRunOf(md, IsHyphen, 3)
    ensures Normalise(md) == md
  {
    ReplaceRunsIdentity(md, IsSpaceChar, 2, " ");
    ReplaceRunsIdentity(md, IsHyphen, 3, "-----");
  }

  /** `intent + ("\n" + intent).join(md.split("\n"))`. */
  function Indent(md: string, intent: string): string {
    intent + Join(Split(md, '\n'), "\n" + intent)
  }

  /** The indentation the code uses is empty, and empty indentation changes nothing. */
  lemma IndentNothing(md: string)
    ensures Indent(md, "") == md
  {
    JoinSplit(md, '\n');
    assert "\n" + "" == ['\n'];
  }

  /** `format_table(table)`: the normalised Markdown table between blank lines. */
  function FormatTable(grid: Grid, render: Render): (r: string)
    ensures |r| >= 4 && r[..2] == "\n\n" && r[|r| - 2..] == "\n\n"
    ensures r[2..|r| - 2] == Normalise(render(CleanGrid(grid)))
    ensures NoRunOf(r[2..|r| - 2], IsSpaceChar, 2)
    ensures RunsAll(r[2..|r| - 2], IsHyphen, HyphenRunOk)
  {
    var intent := "";
    var md := Normalise(render(CleanGrid(grid)));
    IndentNothing(md);
    var r := "\n" + intent + "\n" + Indent(md, intent) + "\n" + intent + "\n";
    assert r == "\n\n" + md + "\n\n";
    assert r[2..|r| - 2] == md;
    r
  }
}
