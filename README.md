# md2html restructuring core, modelled in Dafny

This project models the part of `app.py` that turns a Markdown digest into
structured HTML:

- the Markdown normaliser `cleanup_markdown`;
- the heading predicates behind the restructuring: `heading_text`,
  `is_heading`, `is_section_heading`, `section_num` and `is_topic_title`;
- the two in-place passes over the parsed document:
  - `tables_to_gridtables` turns every `<table>` into a two-column grid of
    `div`s;
  - `wrap_sections_and_tag_topics` marks topic titles and moves each
    numbered section into a `colorbox` container;
- the page title read from the result.

Modules, one per file:

| module | file | what it holds |
|---|---|---|
| `Wrappers` | `wrappers.dfy` | the `Option` type |
| `Strings` | `strings.dfy` | Python's `\s` as a character class, `str.strip()`, `re.sub(r"\s+", " ", ·)`, `str.upper()`, `splitlines` and `"\n".join` |
| `Filtering`, `Interleaving` | `filter.dfy`, `interleave.dfy` | generic list facts that the normaliser's proofs use |
| `Markdown` | `markdown.dfy` | the three normaliser rules; each regular expression is written out as a scan and proved equal to a declarative reading of the pattern |
| `Dom` | `dom.dfy` | the parsed document as a tree of `Node` values, and `get_text(" ", strip=True)` |
| `Headings` | `headings.dfy` | the heading predicates |
| `GridTables` | `gridtables.dfy` | the table pass |
| `Wrapping` | `wrapping.dfy` | the structural part of the section wrapping, generic in which nodes open a box and which siblings end one |
| `Sections` | `sections.dfy` | topic tagging, and the wrapping instantiated with the section rules |
| `Document` | `document.dfy` | the `Soup` class whose methods run the passes in place, `soup.find`, and the title |

The two passes are loops in the source, and they are loops here:

- `GridChildren`, `TagChildren` and `WrapChildren` are methods. Each walks a
  sibling list and recurses into children.
- `BuildGrid` builds one grid. `WrapFrom` moves one run of siblings into a box.
- `SeparateTablesFromHeadings` is the loop of rule 3.
- `Document.Soup` holds the document's top-level node list. Its methods
  reassign that list.

Every method is proved against a function that states what it computes.
The properties are proved about those functions.

How the document order of the wrap pass is modelled:

- The source collects all headings in document order, then wraps them in
  place.
- Wrapping at a heading changes only that heading's own sibling list, at and
  after the heading.
- Everything it moves ends up inside a box, where later headings are skipped.
- So the walk equals a left-to-right pass over each sibling list that walks
  a node's children before its next sibling. That pass is `WrapList`.

Behaviour of the source that the model makes explicit:

- The default grid header is `Fact / Detail`, with spaces (app.py:345).
- No box is ever created inside an existing colorbox: `already_in_box`
  skips every heading under one (app.py:378-379). Boxes can still nest when
  the document already holds a colorbox before the pass: a run
  (app.py:387-398) that reaches such a colorbox as a sibling after its
  opening heading moves it into the new box. `Wrapping.WrapNeverNests`
  therefore requires a document without colorboxes.
- The line `\#` survives rule 1 and becomes the empty heading `#`
  (app.py:292-293), because rule 2 runs after rule 1.
  `Markdown.EscapedHashBecomesEmptyHeading` exhibits it.
- The title comes from the first `h1` even when its text is blank
  (app.py:417-418). The title is then empty and the fallback is not used.

## Model

| member | source | states |
|---|---|---|
| Markdown.RemoveEmptyHeadings | app.py:292 | rule 1, the substitution written as a left-to-right scan; `RemoveEmptyHeadingsByLines` proves it equal to the line-level reference and `EmptyHeadingsRemoved` that no empty heading line is left |
| Markdown.EmptyHeadingMatch | app.py:292 | a match of `^\s*#{1,6}\s*$\n?` at a line start ends at the end of the text or just after a line feed |
| Markdown.RemoveEmptyHeadingsByLines | app.py:292 | the character-level substitution of rule 1 equals the line-level reference `StripEmptyHeadingLines`: each empty heading line goes, together with the blank lines that `\s*` swallows around it |
| Markdown.EmptyHeadingsRemoved | app.py:292 | after rule 1, the lines of the text are the reference's lines; no line is an empty heading; every content line is kept, in order |
| Markdown.ContentLinesKept | app.py:292 | the line-level reference of rule 1 removes only blank lines and empty heading lines |
| Markdown.EmptyHeadingLineMatchesPattern | app.py:292 | the scan accepts a line iff the line is whitespace, then 1 to 6 `#`, then whitespace |
| Markdown.Unescape | app.py:293 | rule 2, never longer than its input; `UnescapeEscape` proves it undoes escaping and `UnescapeWithoutBackslash` that it keeps text without backslashes |
| Markdown.UnescapeEscape | app.py:293 | rule 2 undoes escaping: unescaping a text with every escapable character backslash-escaped gives the text back |
| Markdown.UnescapeWithoutBackslash | app.py:293 | rule 2 leaves a text without backslashes unchanged |
| Markdown.EscapedHashBecomesEmptyHeading | app.py:292-293 | rules 1 and 2 in the source's order: `\#` survives rule 1 and becomes the empty heading line `#` |
| Markdown.IsTableRow | app.py:300 | the table-row test on a stripped line; `TableRowMatchesPattern` proves it equal to the pattern |
| Markdown.TableRowMatchesPattern | app.py:300 | the table-row test accepts a line iff it is whitespace, then `\|`, anything without a line feed, then `\|` and whitespace |
| Markdown.IsHeadingLine | app.py:303 | the heading-line test as a scan; `HeadingLineMatchesPattern` proves it equal to the pattern |
| Markdown.HeadingLineMatchesPattern | app.py:303 | the heading-line test accepts a line iff it matches `^\s*#{1,6}\s+\S` |
| Markdown.Separated | app.py:297-304 | the lines rule 3 produces; `SeparatedInsertsOnlySeparators` and `SeparatedIdempotent` state what it inserts and where |
| Markdown.SeparateTablesFromHeadings | app.py:296-304 | the loop of rule 3 yields `Separated(lines)` |
| Markdown.SeparatedInsertsOnlySeparators | app.py:297-304 | rule 3 inserts only empty lines; removing them gives the input lines back; each inserted line sits after a table row and before a non-blank heading line, neither of them inserted |
| Markdown.SeparatedIdempotent | app.py:297-304 | after rule 3 no table row is followed by a non-blank heading line, so a second run inserts nothing |
| Markdown.CleanupMarkdown | app.py:291-305 | the normaliser applies rules 1, 2 and 3 in that order; no line of its result is a table row directly followed by a non-blank heading line |
| Strings.SplitLines | app.py:296 | `splitlines` gives lines without line feeds that join back to the text, minus one final line feed |
| Dom.GetText | app.py:308 | `get_text(" ", strip=True)` has no leading or trailing whitespace, and is empty iff every text node under the node is whitespace |
| Headings.CollapseStripped | app.py:307-308 | collapsing whitespace runs in stripped text and stripping again gives single-spaced text, empty iff the input was |
| Headings.HeadingText | app.py:307-308 | heading text is single-spaced (trimmed, each whitespace a lone `' '`), and empty iff all the heading's text is whitespace |
| Headings.IsHeading | app.py:310-311 | an `h1` to `h6` element; a text node is never a heading |
| Headings.SectionMatch | app.py:289 | a match of `SECTION_RE` captures a digit from 1 to 6 |
| Headings.SectionMatchIsPattern | app.py:289 | the scan finds digit `d` iff the text is whitespace, then `d`, `.` and a whitespace character |
| Headings.IsSectionHeading | app.py:313-314 | `SECTION_RE` matches the heading text; `SectionNum` is defined exactly when it holds and `SectionHeadingText` gives the text's shape |
| Headings.SectionNum | app.py:313-318 | `section_num` is a number iff `is_section_heading` holds, and the number is from 1 to 6 |
| Headings.SectionHeadingText | app.py:313-314 | a section heading's text starts with its digit, `.` and one space |
| Headings.IsTopicTitle | app.py:320-321 | the topic-title test; `TopicTitleIff` restates it over the text and shows it excludes section headings |
| Headings.TopicTitleIff | app.py:320-321 | a topic title is an `h2` that is not a section heading and has visible text; no heading is both a topic title and a section heading |
| GridTables.Grid | app.py:342-364 | the grid one table becomes; `GridShowsTable`, `HeadRowShows` and `BodyRowsShowRows` state its shape |
| GridTables.BuildGrid | app.py:342-364 | the loop body over one table builds exactly `Grid(headers, rows)` |
| GridTables.HeadRowShows | app.py:345-350 | the header row shows exactly the header strings, one cell each |
| GridTables.NonEmptyRows | app.py:352-354 | the rows kept are non-empty |
| GridTables.BodyRowsShowRows | app.py:352-364 | one grid row per non-empty table row, in order, each a `gt-row` with exactly two cells that show the row's first two cells, a missing second cell read as empty |
| GridTables.GridShowsTable | app.py:342-364 | a grid is a `gridtable`; it has 1 + (non-empty rows) children; its header shows the first one or two headers, or exactly "Category" and "Fact / Detail" when there are none; every body row shows its first two cells |
| GridTables.GridChildren | app.py:329-366 | the loop over the document yields `GridList(nodes)`: each table replaced in place by its grid |
| GridTables.GridList | app.py:329-366 | the whole table pass, one node per node; `GridListRemovesTables`, `GridListKeepsTableFree` and `GridListIdempotent` state its contract |
| GridTables.GridListRemovesTables | app.py:329-366 | after the pass no table is left anywhere |
| GridTables.GridListKeepsTableFree | app.py:329 | a document without tables is unchanged |
| GridTables.GridListIdempotent | app.py:329-366 | a second run of the pass changes nothing |
| Wrapping.RunExtent | app.py:387-398 | a run ends after its first sibling; no sibling inside the run after the first ends it; it stops at the first sibling that ends it, or at the end of the list |
| Wrapping.WrapFrom | app.py:381-398 | inside a box nothing changes; otherwise the heading and the siblings of its run are replaced by one box that holds them in order, and everything before and after is kept |
| Wrapping.WrapList | app.py:381-406 | the wrap pass over one sibling list; `WrapKeepsContent`, `WrapKeepsTexts`, `WrapNeverNests`, `WrapSettles` and `WrapIdempotent` state its contract |
| Wrapping.WrapChildren | app.py:400-406 | the walk over the headings yields `WrapList(nodes)` |
| Wrapping.WrapInsideBox | app.py:378-379 | under a colorbox every heading is skipped and nothing changes |
| Wrapping.WrapKeepsContent | app.py:381-398 | with the boxes dissolved, the output is the input: nothing lost, duplicated or reordered |
| Wrapping.WrapKeepsTexts | app.py:381-398 | the text of the document is unchanged |
| Wrapping.WrapNeverNests | app.py:378-383 | in a document without colorboxes, no created box contains another |
| Wrapping.WrapSettles | app.py:400-406 | after the pass every node that could open a box is inside one |
| Wrapping.WrapIdempotent | app.py:400-406 | a second run of the wrapping creates no box and moves nothing |
| Sections.TagNode | app.py:370-372 | tagging keeps the node kind, the name and all the text |
| Sections.TagNodeClasses | app.py:370-372 | tagging adds exactly the class `topic-title`, and only to topic titles; no class is removed |
| Sections.TagList | app.py:370-372 | tagging keeps the number of siblings and the text |
| Sections.TagChildren | app.py:370-372 | the tagging loop yields `TagList(nodes)` |
| Sections.TagListTagsAll | app.py:370-372 | after tagging every topic title in the document carries `topic-title` |
| Sections.TopicTitleByNameAndText | app.py:307-321 | the heading predicates and the section number depend only on the element's name and text |
| Sections.BoxClass | app.py:375 | `num_to_class`; `OpensBoxIff` states which numbers have a class and which class each opens |
| Sections.OpensBox | app.py:400-406 | the class of the box a heading opens outside any box; `OpensBoxIff` and `OpensBoxByNameAndText` state its contract |
| Sections.EndsRun | app.py:391-395 | a sibling that ends a run; `OpensBoxIff` shows every heading that opens a box also ends an earlier run |
| Sections.OpensBoxIff | app.py:375-406 | a node opens a box iff it is a heading whose section number is 1, 2, 4, 5 or 6; the box gets that number's class; such a heading, and a section 3 heading, would end an earlier run |
| Sections.TagKeepsRoles | app.py:370-406 | tagging changes neither which nodes open a box nor which end a run |
| Sections.TagWrapCommute | app.py:370-406 | tagging then wrapping builds the same document as wrapping then tagging, so the order of the two steps of the pass does not matter |
| Sections.OpensBoxByNameAndText | app.py:375-406 | the opening rule depends only on name and text, and a box opens none |
| Sections.PassKeepsTexts | app.py:368-406 | the whole pass keeps the document's text in order |
| Sections.WrapSectionsIdempotent | app.py:368-406 | running the wrapping again on the pass's output creates no box |
| Sections.PassNeverNests | app.py:368-406 | a document without colorboxes comes out with boxes that never nest |
| Sections.PassTagsAll | app.py:368-406 | after the whole pass every topic title is tagged |
| Document.Soup.TablesToGridtables | app.py:323-366 | the method replaces the document's contents by `GridList` of them; afterwards no table is left; a document without tables is unchanged |
| Document.Soup.WrapSectionsAndTagTopics | app.py:368-406 | the method replaces the contents by the tagged and wrapped contents; text is kept; every topic title is tagged; a second wrapping would change nothing |
| Document.FirstNamed | app.py:417 | the first position in a list holding an element of that name, or none when there is none |
| Document.Find | app.py:417 | `soup.find(name)`: what it returns carries that name; `FindIsFirst` proves it is the first such element in document order |
| Document.FindIsFirst | app.py:417 | `soup.find(name)` returns the first element of that name in document order, or nothing |
| Document.Title | app.py:417-418 | `doc_title`; `TitleFromFirstH1`, `BlankH1GivesEmptyTitle` and `WrapKeepsTitle` state its contract |
| Document.TitleFromFirstH1 | app.py:417-418 | the title is the upper-cased text of the first `h1` in document order, else the upper-cased fallback |
| Document.BlankH1GivesEmptyTitle | app.py:418 | a first `h1` with only whitespace gives the empty title, not the fallback |
| Document.WrapKeepsTitle | app.py:415-418 | the title read after `wrap_sections_and_tag_topics` equals the title of the document before it |
| Strings.Upper | app.py:418 | upper-casing keeps the length and upper-cases each character |

## Left out

- The Markdown-to-HTML conversion (`mdlib.markdown`, app.py:410) is left out. So is the `<p>######</p>` scrub after it (app.py:411). The model starts from the parsed tree.
- The HTML document shell, the stylesheet, the PDF rendering and the user interface are left out. They are I/O and presentation.
- HTML parsing is left out. The document is given as a tree of `Node` values.
- A table is given as the data the pass reads from it: the `th` elements of its `thead`, and the stripped inner HTML of every cell of every `tbody` row.
- Re-parsed cell HTML is kept as an opaque `Markup` string. The model does not see what is inside it:
  - headings inside it are not walked by the wrap pass, and their text is not in `get_text`;
  - a table nested in a cell, which the source re-parses into a new `<table>` inside the grid, is not seen by `GridTables.GridListRemovesTables`.
- Nodes are values, not objects with parent pointers. Tag identity and the aliasing of `find_all` results are not modelled. The document order of the walks is modelled as structural recursion; the argument is given above.
- Whitespace is the ASCII part of Python's `\s`: space, `\t` to `\r`, and `\x1c` to `\x1f`. Unicode whitespace is left out.
- `splitlines` is modelled on `\n` only.
- Strings.Upper: upper-cases ASCII letters only. Python's `str.upper()` also maps other Unicode letters.
- Sections.WrapSectionsIdempotent: covers the wrapping half only. Running the whole of `wrap_sections_and_tag_topics` a second time appends `topic-title` to each topic title's classes again.
- Wrapping.WrapNeverNests: assumes a document without colorboxes. A colorbox already present that follows an opening heading in the same sibling list is moved into the new box, and then sits nested inside it.
- Document.WrapKeepsTitle: covers the wrap pass only. An `h1` that contains a table would get the grid's header text in its `get_text`, so the table pass can change such a title.
- Comments, CDATA and other special strings in `get_text` are left out. Every text node counts.
