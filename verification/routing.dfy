/**
 The routing decision of `PDFProcessor.batch_process_pdfs`: from a PDF's file
 name alone it decides whether the file is copied, converted by table extraction,
 reflowed as a document, or skipped, and which file name the output gets.
 */
module Routing {
  import opened Types
  import opened Strings

  /** The three kinds of processing. */
  datatype Kind = CopyAsIs | TableExtraction | DocumentReflow

  /** What happens to one file, with the name of the file written. */
  datatype Action =
    | Process(kind: Kind, target: string)
    | Skip

  /** `name.rfind(c)`. */
  function RFind(s: string, c: char): (r: Option<nat>)
    ensures r.Some? ==> r.value < |s| && s[r.value] == c && c !in s[r.value + 1..]
    ensures r.None? ==> c !in s
    decreases |s|
  {
    if |s| == 0 then None
    else if s[|s| - 1] == c then Some(|s| - 1)
    else
      var r := RFind(s[..|s| - 1], c);
      assert s == s[..|s| - 1] + [s[|s| - 1]];
      if r.Some? then
        assert s[r.value + 1..] == s[..|s| - 1][r.value + 1..] + [s[|s| - 1]];
        r
      else r
  }

  /** pathlib's `suffix`: from the last dot on, unless that dot is the first or
      the last character of the name. */
  function Suffix(name: string): (r: string)
    ensures r == "" || (r[0] == '.' && 1 < |r| < |name| && name[|name| - |r|..] == r && '.' !in r[1..])
  {
    match RFind(name, '.')
    case Some(i) =>
      if 0 < i < |name| - 1 then
        assert name[i..][1..] == name[i + 1..];
        name[i..]
      else ""
    case None => ""
  }

  /** pathlib's `with_suffix(suffix)`. */
  function WithSuffix(name: string, suffix: string): (r: string)
    ensures Suffix(name) == "" ==> r == name + suffix
    ensures Suffix(name) != "" ==> r == name[..|name| - |Suffix(name)|] + suffix
  {
    var current := Suffix(name);
    if current == "" then name + suffix else name[..|name| - |current|] + suffix
  }

  /** A PDF name with something before `.pdf` has its extension swapped; a name
      that is only `.pdf` counts as having no suffix and gets `.md` appended. */
  lemma MarkdownName(stem: string)
    ensures |stem| > 0 ==> WithSuffix(stem + ".pdf", ".md") == stem + ".md"
    ensures WithSuffix(".pdf", ".md") == ".pdf.md"
  {
    var name := stem + ".pdf";
    assert name[|name| - 4] == '.' && name[|name| - 3..] == "pdf";
    assert RFind(name, '.') == Some(|name| - 4);
    assert name[..|name| - 4] == stem;
    assert RFind(".pdf", '.') == Some(0);
  }

  predicate MarksTables(name: string) {
    Contains(name, "表") || Contains(name, "单") || Contains(name, "签报")
  }

  predicate MarksDocument(name: string) {
    Contains(name, "标准") || Contains(name, "细则") || Contains(name, "办法")
  }

  /** The `if`/`elif` chain of the batch loop. */
  function Route(name: string): (a: Action)
    ensures Contains(name, "通知") ==> a == Process(CopyAsIs, name)
    ensures !Contains(name, "通知") && MarksTables(name) ==>
              a == Process(TableExtraction, WithSuffix(name, ".md"))
    ensures !Contains(name, "通知") && !MarksTables(name) && MarksDocument(name) ==>
              a == Process(DocumentReflow, WithSuffix(name, ".md"))
    ensures a.Process? && a.kind != CopyAsIs ==> a.target == WithSuffix(name, ".md")
    ensures a == Skip <==> !Contains(name, "通知") && !MarksTables(name) && !MarksDocument(name)
  {
    if Contains(name, "通知") then Process(CopyAsIs, name)
    else if MarksTables(name) then Process(TableExtraction, WithSuffix(name, ".md"))
    else if MarksDocument(name) then Process(DocumentReflow, WithSuffix(name, ".md"))
    else Skip
  }

  /** The routing table as data: markers in priority order. */
  const Rules: seq<(string, Kind)> := [
    ("通知", CopyAsIs),
    ("表", TableExtraction), ("单", TableExtraction), ("签报", TableExtraction),
    ("标准", DocumentReflow), ("细则", DocumentReflow), ("办法", DocumentReflow)
  ]

  /** The kind of the first rule whose marker the name contains. */
  function FirstMatch(rules: seq<(string, Kind)>, name: string): (r: Option<Kind>)
    ensures r.None? <==> forall i :: 0 <= i < |rules| ==> !Contains(name, rules[i].0)
    ensures r.Some? ==> exists i :: 0 <= i < |rules| && Contains(name, rules[i].0) && rules[i].1 == r.value &&
                          forall j :: 0 <= j < i ==> !Contains(name, rules[j].0)
    decreases |rules|
  {
    if |rules| == 0 then None
    else if Contains(name, rules[0].0) then Some(rules[0].1)
    else
      var r := FirstMatch(rules[1..], name);
      assert forall i :: 1 <= i < |rules| ==> rules[i] == rules[1..][i - 1];
      if r.Some? then
        var i :| 0 <= i < |rules[1..]| && Contains(name, rules[1..][i].0) && rules[1..][i].1 == r.value &&
                 forall j :: 0 <= j < i ==> !Contains(name, rules[1..][j].0);
        assert rules[i + 1] == rules[1..][i];
        r
      else r
  }

  /** Routing is a first-match lookup in the rule table: the chain of conditions
      and the priority-ordered table agree on every name. */
  lemma RouteIsFirstMatch(name: string)
    ensures Route(name).Skip? <==> FirstMatch(Rules, name).None?
    ensures Route(name).Process? ==> FirstMatch(Rules, name) == Some(Route(name).kind)
  {
    var r := Rules;
    assert r[1..][1..][1..][1..][1..][1..][1..] == [];
  }
}
