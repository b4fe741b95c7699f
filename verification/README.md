# knowledge-base-tuning: the pure core, modelled in Dafny

The repository turns regulation PDFs and HTML tables into Markdown and HTML text for
a knowledge base. Most of it is I/O, but three groups of pure logic sit inside it, and
this project models them and proves properties of them:

- **PDF page reflow** (`src/pdf_processor.py`).
  - Each table on a page is anchored at a word (`find_non_empty_indexes`).
  - Its Markdown block is spliced into the page's words (`replace_table_in_text`), after
    the grid has gone through `format_table`.
  - The last element of the page is dropped. The Chinese numbering markers are rewritten
    as Markdown headings (`md_formatter`), and the pages are concatenated under `# `.
  - The batch loop routes each file by its name (`batch_process_pdfs`).
- **HTML table normalisation** (`src/html_processor.py`).
  - A fixed chain of tree passes runs first. It removes listed elements, keeps only the
    `colspan`/`rowspan` attributes, flattens `font` and `b`, deletes empty rows, trims
    trailing blank cells common to all rows, and adds the table attributes.
  - A compaction level then chooses the output: whitespace-collapsed markup, pretty-printed
    tables, or pretty-printed tables with the short tag names and a legend.
- **Text helpers** (`src/utils.py`, `src/llm_client.py`, `src/config.py`). These cover key
  masking, watermark and style removal, bullet rewriting, `<think>` removal, newline
  collapsing, the bracket-list parser (present twice), and the stop-and-join rule of a
  table conversation with the chat model.

The model uses immutable datatypes and pure functions. Words are `Option<string>`
(`word.get("text")` may be missing) and PDF tables are `seq<seq<Option<string>>>`. The
HTML document is a tree of `Text`, `Element` and `Table` nodes, with tables made of
rows and rows made of `td`/`th` cells. Python's Unicode `\s`, `\d` and `str.strip()` are
parameters (`CharClasses`, `sp: char -> bool`). Every regex substitution is a
left-to-right scanner that takes the leftmost match and resumes after it. The
third-party calls are function parameters:
- pandas `to_markdown` is `render`;
- BeautifulSoup's `str(soup)` is `serialize`;
- the `prettify` layout is `pretty`.

In `replace_table_in_text` the code looks each table's anchor up in the list the previous
iteration built, but splices the block into the original word list
(`src/pdf_processor.py:113-117`). `Reflow.LastTableDecides` and
`Reflow.SecondTableLandsAfterItsAnchor` pin down what that does.

Files: `types.dfy` (Option, Result), `strings.dfy`, `runs.dfy` and `blocks.dfy` hold the
shared string machinery. Then there is one file per concern: `config.dfy`, `utils.dfy`,
`llm_client.dfy`, `headings.dfy`, `table_format.dfy`, `reflow.dfy`, `routing.dfy`,
`html_tree.dfy`, `html_passes.dfy`, `html_rows.dfy` and `html_output.dfy`.

## Model

| member | source | states |
|---|---|---|
| Config.MaskValue | src/config.py:16-18 | `None`, empty or at most four characters gives `****`; a longer value gives exactly 8 characters: its first two, `****`, its last two |
| Config.MaskHidesMiddle | src/config.py:18 | two long values that agree on their first two and last two characters mask identically, so nothing else of the value shows |
| Config.FromDict | src/config.py:20-22 | `id`/`key` are present exactly when the dictionary has those keys, and then hold the dictionary's values; missing keys give `None` |
| Config.EmptySectionHasNoCredentials | src/config.py:20-22 | example of `FromDict`: an empty section yields a pair of `None`s |
| Utils.Mask | src/utils.py:12-14 | the result is `*****` alone (length 5) or `*****` plus the key's last four characters (length 9), the latter exactly when the key is longer than four |
| Utils.MaskShowsOnlyLastFour | src/utils.py:14 | keys longer than four that end in the same four characters mask identically |
| Utils.RemoveSpire | src/utils.py:23-27 | never lengthens; text without the watermark sentence is returned unchanged |
| Utils.RemoveSpireDeletes | src/utils.py:23-27 | a watermark sentence at the front of the text is deleted, and the text after it is cleaned the same way |
| Utils.RemoveSpireFirst | src/utils.py:23-27 | the text before the first watermark sentence is kept character for character, that sentence is deleted, and the cleaning resumes after it |
| Strings.ReplaceAllHit | src/utils.py:25 | `str.replace` puts the replacement in place of an occurrence at the front and resumes after it |
| Strings.ReplaceAllSkip | src/utils.py:25 | `str.replace` copies a prefix in which no occurrence starts unchanged |
| Utils.RemoveMultiNewlines | src/utils.py:49-53 | no three consecutive newlines, no leading or trailing whitespace, and every output character occurs in the input |
| Utils.RemoveMultiNewlinesIdempotent | src/utils.py:49-53 | applying it twice equals applying it once |
| Utils.RemoveMultiNewlinesKeepsClean | src/utils.py:49-53 | text with no three consecutive newlines and no leading or trailing whitespace is returned unchanged |
| Utils.CollapseBetween | src/utils.py:51-52 | a run of three or more newlines between two texts, neither touching it with a newline, becomes exactly `\n\n`, and the two sides are collapsed on their own |
| Utils.RemoveMultiNewlinesGap | src/utils.py:49-53 | two clean texts joined by three or more newlines come back joined by exactly one blank line, with their own characters unchanged |
| Runs.ReplaceRunsAppend | src/utils.py:51-52 | when the first text does not end in a class character, no run crosses the seam and the two sides are replaced independently |
| Runs.ReplaceRunsLongHead | src/utils.py:51-52 | a leading run of at least the minimum length becomes the replacement, and the scan resumes after the run |
| Utils.RemoveStyle | src/utils.py:30-33 | the output has no `#` and no triple newline |
| Utils.RemoveStyleKeepsClean | src/utils.py:30-33 | text with no `**`, no `#`, no triple newline and no surrounding whitespace is returned unchanged |
| Utils.RemoveStyleLeavesStars | src/utils.py:32 | example: `*#*` becomes `**`: deleting `**` before `#` can leave `**` behind |
| Utils.ChangeBulletPoints | src/utils.py:36-40 | the rewrite keeps the length of the text, since each match trades `.` and one whitespace character for `）` and a space |
| Utils.ChangeBulletPointsRewrite | src/utils.py:38-40 | a bullet at the front, digits then `.` then one whitespace character, becomes the same digits then `） `, and the rewrite continues after it |
| Utils.ChangeBulletPointsSkip | src/utils.py:38-40 | text before the leftmost match, where no match starts, is copied unchanged |
| Utils.ChangeBulletPointsFirstMatch | src/utils.py:36-40 | for every text with a match: the part before the leftmost match is kept, the match `N.`+whitespace becomes `N） `, and the rest is rewritten the same way |
| Utils.ChangeBulletPointsNoMatch | src/utils.py:36-40 | text with no `\d+\.\s` match at any index is returned unchanged |
| Utils.RemoveThink | src/utils.py:43-46 | never lengthens; text without `<think>` is returned unchanged |
| Utils.RemoveThinkAcrossLines | src/utils.py:45 | with DOTALL a block spanning a newline is removed: `a<think>x\ny</think>b` becomes `ab` |
| Utils.RemoveThinkShortest | src/utils.py:45 | the match is lazy and ends at the first `</think>`: `<think>1</think>2</think>` becomes `2</think>` |
| Blocks.RemoveFirstBlock | src/utils.py:43-46 | text before the leftmost opening tag is kept, the block up to the first closing tag after it is cut, and scanning resumes after it |
| Blocks.RemoveBlocksNoClose | src/utils.py:43-46 | text without a closing tag is returned unchanged, so an unclosed block stays |
| Utils.CleanContent | src/utils.py:56-58 | `<think>` removal then newline collapsing: no triple newline, stripped, never longer than the input |
| Utils.CleanContentKeepsClean | src/utils.py:56-58 | text with no `<think>`, no triple newline and no surrounding whitespace is returned unchanged |
| Utils.SearchBracket | src/utils.py:79 | finds the leftmost `[` with a `]` after it on the same line, together with the first such `]`; `None` exactly when no such pair exists |
| Utils.GetIndexFromResponse | src/utils.py:76-87 | `[]` exactly when no same-line bracket pair exists; otherwise commas + 1 entries, entry k being `custom` with the stripped k-th comma piece of the first segment |
| Utils.EmptyBracketsGiveOneEntry | src/utils.py:84-87 | example: `[]` yields a single entry with empty text |
| LlmClient.FindBracketPair | src/llm_client.py:193-195 | the scanning loop finds a pair exactly when `re.search` would, and finds the same pair |
| LlmClient.SplitCommas | src/llm_client.py:198 | the character loop computes `str.split(",")` |
| LlmClient.ParseIndexResponse | src/llm_client.py:189-204 | the same list as `get_index_from_response` for every answer, so the except branch is never taken; `[]` without a same-line pair; every entry tagged `custom` with stripped text |
| LlmClient.ProcessTableWithLlm | src/llm_client.py:158-172 | the first prompt is the start prompt plus the table and later prompts are the continue prompt; the exchange stops at the first reply holding `<EOF>` and returns the replies up to it joined by newlines; `None` exactly when no given reply holds `<EOF>` |
| Headings.GuardsAreRedundant | src/pdf_processor.py:20-58 | each guard substring lies inside its pattern, so the guarded formatter equals the six substitutions applied unconditionally in the code's order |
| Headings.NoPatternNoChange | src/pdf_processor.py:20-58 | text in which none of the six patterns matches is returned unchanged |
| Headings.MdFormatter | src/pdf_processor.py:20-58 | with Python's digit and space classes, the formatter's output never has a digit immediately followed by `.`: the numeral rule rewrites every `N.` and the attachment rule adds none |
| Headings.SubNumberDotClears | src/pdf_processor.py:46-51 | after `(\d+)\.` is rewritten no digit is followed by `.` |
| Headings.ExampleChapterRule | src/pdf_processor.py:22-27 | on `第X章 A 第Y节 B` the chapter rule inserts `\n\n## ` before the chapter marker and a space after it, and leaves the section marker alone |
| Headings.ExampleArticleRule | src/pdf_processor.py:28-33 | the article rule finds no `第…条` marker in that line and changes nothing |
| Headings.ExampleSectionRule | src/pdf_processor.py:34-39 | the section rule then inserts `\n\n### ` before the section marker and a space after it |
| Headings.ChapterThenSection | src/pdf_processor.py:20-58 | the whole formatter on such a line gives the chapter heading then the section heading, and the title text stays in place |
| TableFormat.CleanCell | src/pdf_processor.py:63-64 | a missing cell becomes empty; otherwise the cell text with every newline deleted |
| TableFormat.CleanGrid | src/pdf_processor.py:62-64 | the frame has as many rows as the grid and every row is as wide as the widest; each given cell is cleaned and each padding cell is empty; no cell holds a newline |
| TableFormat.Normalise | src/pdf_processor.py:67-68 | no two adjacent spaces, and every maximal hyphen run has length 1, 2 or 5 |
| TableFormat.NormaliseIdempotent | src/pdf_processor.py:67-68 | normalising twice equals normalising once |
| TableFormat.NormaliseKeepsClean | src/pdf_processor.py:67-68 | text with single spaces and no hyphen run of three or more is left alone |
| TableFormat.IndentNothing | src/pdf_processor.py:70-71 | the empty indentation the code uses changes nothing |
| TableFormat.FormatTable | src/pdf_processor.py:60-72 | the result is `\n\n`, then the normalised rendering of the cleaned grid, then `\n\n` |
| Reflow.FindNonEmptyIndexes | src/pdf_processor.py:74-103 | `None` exactly when the table or its first row is empty or no word anchors; otherwise the least index whose word is present, non-blank and equal to the top-left cell |
| Reflow.SecondLoopNeverSucceeds | src/pdf_processor.py:90-99 | where the first loop finds no anchor, the two-cell loop finds none either |
| Reflow.Splice | src/pdf_processor.py:115 | the spliced list keeps the prefix before `h`, holds the block at `h`, and then holds the rest of the original list |
| Reflow.Step | src/pdf_processor.py:112-117 | one iteration: with no anchor in the list the previous iteration built, the original words come back; with anchor h, the original words get the table's block at h, before and after it unchanged |
| Reflow.Place | src/pdf_processor.py:111-119 | the loop over no tables returns the list it was given; over at least one it returns a list of the original length or one more |
| Reflow.ReplaceTableInText | src/pdf_processor.py:105-119 | with no tables the words come back unchanged; otherwise the result has the original length or one more |
| Reflow.LastTableDecides | src/pdf_processor.py:111-117 | only the last table decides the result: without an anchor in the list the earlier tables built, the result is the original word list; with one at `h`, it is the original list with the last table's block spliced in at `h` |
| Reflow.AtMostOneBlock | src/pdf_processor.py:111-119 | the result is the original words, or the original words with exactly the last table's block spliced in at one index |
| Reflow.SecondTableLandsAfterItsAnchor | src/pdf_processor.py:113-115 | two one-cell tables anchored at consecutive words: the first block is lost, and the second lands after its own anchor word because it was found in the list that held the first block |
| Reflow.FormatTokens | src/pdf_processor.py:134-135 | succeeds exactly when every kept word has text; a missing text is an error, as `md_formatter(None)` fails in the source |
| Reflow.FormatTokensAppend | src/pdf_processor.py:134-135 | formatting distributes over concatenation of word lists |
| Reflow.FormatTokensIsConcat | src/pdf_processor.py:134-135 | a successful result is the formatted text of each element, joined in order without separators |
| Reflow.PageMarkdown | src/pdf_processor.py:128-135 | succeeds exactly when every element but the last of the spliced list has text, since the last one is dropped unread |
| Reflow.PageText | src/pdf_processor.py:130-135 | with or without tables, a successful page is every element of the spliced list but the last, each formatted, joined in order |
| Reflow.PageWithOneTable | src/pdf_processor.py:113-135 | with one table anchored at word h: the formatted words before h, then the formatted table block, then the formatted words from h on without the last |
| Reflow.PageWithoutTables | src/pdf_processor.py:130-135 | without tables the last word is dropped unread and the others are formatted and concatenated |
| Reflow.ThreePlainWords | src/pdf_processor.py:128-135 | example: three plain words on a page without tables give the first two run together |
| Reflow.CollectAppend | src/pdf_processor.py:135-137 | pages are concatenated in order |
| Reflow.DocumentMarkdown | src/pdf_processor.py:121-137 | succeeds exactly when every page does, and then starts with `# ` |
| Reflow.DocumentText | src/pdf_processor.py:135-137 | a successful document is `# ` followed by the text of every page, in page order |
| Routing.Route | src/pdf_processor.py:160-186 | a name containing `通知` is copied as is, even if other markers are present; otherwise table markers go to table extraction and document markers go to reflow, both writing the `.md` name; anything else is skipped |
| Routing.RouteIsFirstMatch | src/pdf_processor.py:169-186 | the if/elif chain equals a first-match lookup in the priority-ordered marker table |
| Routing.MarkdownName | src/pdf_processor.py:167 | `stem.pdf` gets the output name `stem.md`, while a bare `.pdf` has no suffix and becomes `.pdf.md` |
| HtmlPasses.Prune | src/html_processor.py:98-112 | no element named style, script, comment, head, meta, link, colgroup, col or title remains, and the list never grows |
| HtmlPasses.PruneAppend | src/html_processor.py:111-112 | pruning works element by element, so the surviving siblings keep their order |
| HtmlPasses.PruneClean | src/html_processor.py:98-112 | a tree without those elements is left unchanged |
| HtmlPasses.Keep | src/html_processor.py:116-121 | only `colspan`/`rowspan` remain, with their values unchanged, and both are kept when present |
| HtmlPasses.StripAttrs | src/html_processor.py:114-121 | every element, table, row and cell is left with only whitelisted attributes, and the node count is unchanged |
| HtmlPasses.StripAttrsShape | src/html_processor.py:114-121 | the tree shape, including names, text and children, is untouched |
| HtmlPasses.StripAttrsIdempotent | src/html_processor.py:114-121 | applying it twice equals applying it once |
| HtmlPasses.Flatten | src/html_processor.py:68-72 | no element with the given name remains, and each one is replaced in place by the text node of its stripped text pieces joined with single spaces |
| HtmlPasses.FlattenedTextStripped | src/html_processor.py:71 | the replacement text has no leading or trailing whitespace |
| HtmlPasses.FlattenKeepsNoneNamed | src/html_processor.py:68-72 | flattening introduces no element name |
| HtmlPasses.FlattenAbsent | src/html_processor.py:68-72 | a tree without the named element is left unchanged |
| HtmlRows.ClearCell | src/html_processor.py:78-82 | a blank cell becomes a childless cell of the same kind and attributes; a non-blank cell is untouched |
| HtmlRows.RowDeletedIffAllBlank | src/html_processor.py:85-89 | after the cells are cleared, a row is deleted exactly when all its cells are blank, including a row with no cells |
| HtmlRows.KeepOneRow | src/html_processor.py:74-89 | a single row disappears exactly when all its cells are blank |
| HtmlRows.KeepRows | src/html_processor.py:74-89 | every surviving row has a cell with contents, and rows are only ever removed |
| HtmlRows.KeepRowsAppend | src/html_processor.py:76-89 | rows are handled one at a time and survivors keep their order |
| HtmlRows.TrailingBlank | src/html_processor.py:40-51 | counts the blank cells at the end of a row: all counted cells are blank and the cell before them is not |
| HtmlRows.CommonTrailing | src/html_processor.py:53-56 | 0 for a table without rows; otherwise at most every row's trailing count and equal to some row's, i.e. the minimum |
| HtmlRows.TrimRows | src/html_processor.py:58-64 | every row loses exactly its last k cells, all of them blank, and keeps its first cells and its attributes unchanged |
| HtmlRows.TrimTwice | src/html_processor.py:53-66 | after one trim a second finds 0 cells to remove and changes nothing |
| HtmlRows.TrimNode | src/html_processor.py:165-166 | each table keeps its attributes and rows, and every row has the length `TrimRows` gives it |
| HtmlRows.TrimNodeIsTrimRows | src/html_processor.py:53-66 | on a table with no table inside its cells, the trim the passes run equals `TrimRows`: shared trailing blank cells go, kept cells are unchanged |
| HtmlRows.TrimNodeTwice | src/html_processor.py:53-66 | on such a table the trim the passes run is idempotent |
| HtmlRows.KeptCellIsCleared | src/html_processor.py:78-82 | in a kept row, a cell with no table inside is exactly what `ClearCell` gives: emptied when blank, otherwise unchanged |
| HtmlPasses.AddStyles | src/html_processor.py:91-96 | every table, at any depth, carries border=1, cellspacing=0 and cellpadding=4 |
| HtmlPasses.WithTableStyle | src/html_processor.py:94-96 | sets the three table attributes and keeps every other attribute |
| HtmlPasses.OnlyGetTable | src/html_processor.py:27-34 | only tables remain, all attributes outside the whitelist are gone, and so are the three table attributes |
| HtmlPasses.OnlyGetTableUndoesStyles | src/html_processor.py:27-34 | re-stripping the attributes undoes the table attributes: the result is the same whether or not they were added |
| HtmlOutput.TagAt | src/html_processor.py:136 | the rename matches at `<`, slashes, `t`, one of `d`/`r`/`h`, then the nearest `>` on the same line |
| HtmlOutput.CompactTags | src/html_processor.py:136 | the rename never lengthens the text |
| HtmlOutput.CompactTagsDropsOnlyT | src/html_processor.py:136 | the rename only ever deletes `t` characters |
| HtmlOutput.RenameTag | src/html_processor.py:136 | `<td …>`, `</tr>`, `<th>` and so on lose their `t` and scanning resumes after the `>` |
| HtmlOutput.KeepTag | src/html_processor.py:136 | `<t` or `</t` followed by anything but `d`/`r`/`h` is kept, so `<table>` and `</table>` stay |
| HtmlOutput.CompactTagsPlain | src/html_processor.py:136 | text without `<` is copied through |
| HtmlOutput.DropXmlDeclarations | src/html_processor.py:142 | never lengthens, and text without `<?xml` is unchanged |
| HtmlOutput.MediumCompact | src/html_processor.py:139-143 | the output is stripped, and it is the stripped pretty print when there is no declaration |
| HtmlOutput.HighCompact | src/html_processor.py:145-152 | the output starts with the tag-map legend, followed by the renamed pretty print when there is no declaration |
| HtmlOutput.Cleaned | src/html_processor.py:159-166 | after the passes no listed element, no `font` and no `b` remains |
| HtmlOutput.Passes | src/html_processor.py:159-168 | as `Cleaned`, and every table carries the three table attributes |
| HtmlOutput.Simplify | src/html_processor.py:154-177 | level 0 output has no two adjacent whitespace characters; level 1 output is stripped; any other level starts with the legend |
| HtmlOutput.LevelZeroKeepsStyles | src/html_processor.py:168-171 | level 0 serialises a tree with the cleaned tree's shape in which every table carries the table attributes |
| HtmlOutput.OtherLevelsDropStyles | src/html_processor.py:172-175 | any non-zero level gives the same output as if the table attributes had never been added |

## Left out

- PDF reading with pdfplumber and camelot (`src/pdf_processor.py:123-127`, `142-158`) is foreign code. The page's word texts and table grids are inputs. `pdf_table_to_markdown`, which runs camelot, is not modelled; the routing decision that calls it is.
- pandas `DataFrame.to_markdown` is the parameter `render`. Only the cell cleaning before it and the normalisation and framing after it are modelled.
- BeautifulSoup/lxml parsing, `str(soup)` and `soup.prettify()` are the parameters `serialize` and `pretty`. The six layout substitutions of `prettify` (`src/html_processor.py:128-133`) are left out. They only move whitespace around the table tags, and the model takes the laid-out text as the result of `pretty`. The compact tag rename at line 136 is modelled.
- Nested tables are only partly modelled. The source's `find_all` sees nested tables' rows and cells from the outer table, and `only_get_table` moves every table, nested ones included, to the top. In the model each table sees only its own rows. `OnlyGetTable` keeps the outermost tables, with their nested tables still inside them.
- `thead`/`tbody` wrappers and whitespace text between rows are not represented. A table's children are its rows.
- HTML comment nodes are not represented. The listed name `comment` matches elements named `comment`, as in the source.
- HtmlPasses.Flatten: requires that the flattened name is not `table`, `tr`, `td` or `th`. The tree types give those names a fixed structure. The source only flattens `font` and `b`.
- HtmlRows.TrimNodeIsTrimRows: the link between the trim the passes run and `TrimRows`, and its idempotence (`TrimNodeTwice`) and `KeptCellIsCleared`, are stated for tables with no table inside their cells. A nested table is trimmed too, so its cells differ from `TrimRows`'s, which keeps kept cells unchanged.
- Python's Unicode `\s`, `\d` and `str.strip()` are parameters. `CharClasses.Valid()` names only the characters the rules insert or match.
- `get_first_table`, `html_to_markdown` and `batch_process_html` are file and parser driven and are not modelled.
- Network calls in `src/llm_client.py` (chat, delete, list, update, add_index) are not modelled. The chat service is the sequence of replies it would give.
- LlmClient.ProcessTableWithLlm: returns `None` when no given reply holds `<EOF>`. The source would keep asking forever.
- LlmClient.ParseIndexResponse: the `except` branch and its `print` are not modelled. The try body cannot raise on a string, which the equality with `get_index_from_response` shows.
- `src/document_merger.py`, `src/file_converter.py` (a LibreOffice subprocess), `src/main.py`, `run.py`, YAML/JSON loading, `read_md`, `load_json_to_dict`, `shutil`, directory creation, `glob` and every `print` are not modelled. They are I/O.
- `IdKeyPair.__str__`, `Prompts` and `Config` are not modelled. They only format or load values.
