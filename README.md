# downplay layout engine in Dafny

downplay is a screenplay editor. Its layout engine turns a screenplay into
fixed-format monospace text. A screenplay is an ordered list of paragraphs, each
tagged with one of five styles: Action, Dialogue, Name, Parenthetical and
Transition. This project models that engine and proves its layout rules.

The engine has three parts.

- **`format_paragraph`** is the word wrapper, in module `WordWrap` (`wrap.dfy`).
  - It packs the words of a paragraph greedily onto lines of a given width, each
    line indented by a given number of spaces.
  - A word that does not fit is cut after the rightmost hyphen whose prefix still
    fits. The search repeats on the rest of the word while that rest is too wide.
  - A word that does not fit after the pending words, and that the search
    does not cut, starts the next line, and later words may join it. When
    such a word is wider than `width`, that line is too wide. The search
    measures each cut against the words already pending on the line, so a
    word can stay whole even when a cut would fit an empty line.
- **`format`** is the continuous formatter, in module `Continuous` (`format.dfy`).
  - It wraps every paragraph under its style's indent and width. These are
    defined in module `Screenplay` (`styles.dfy`):

    | style | indent | width |
    |---|---|---|
    | Action | 0 | 60 |
    | Dialogue | 10 | 30 |
    | Name | 20 | 20 |
    | Parenthetical | 15 | 25 |
    | Transition | 45 | 15 |

  - An empty paragraph becomes one blank line.
  - One blank line ends the text.
- **`paginate`** is the paginator, in module `Pagination` (`paginate.dfy`).
  - It lays the same lines out on 60-line pages. A page that holds text starts
    with a 4-line header, and the page body ends at row 56.
  - Name and Parenthetical lines are held in a clump until the next other
    paragraph. When there are at most 10 of them, and they and the reserved
    lines would not fit on the page, the page is broken before them. Before a
    Dialogue the reserve is all of its lines, and at least 2. A clump of more
    than 10 lines is written as it comes.
  - A Dialogue too long for the page is split, with a "(MORE)" line at the
    split. At the top of a page the tests behind these rules do not count the
    header rows, which gives the departures listed under "Behaviour as
    written" below.

Module `Strings` (`strings.dfy`) models the Python built-ins the engine is written
with:

- `str.split()` with Python's separator set;
- `str.rfind`;
- `" ".join`;
- `" " * n`;
- `%d`.

## How the model is built

Each loop of the engine is a method proved equal to a pure specification function:

- `FormatParagraph` is proved equal to `Wrapped`, and its inner hyphen search `MakeRoomLoop` equal to `MakeRoom`;
- `Format` is proved equal to `Formatted`;
- `Paginate` is proved equal to `Paginated`.

The state that `paginate`'s inner functions share is the class
`Pagination.Paginator`. Its fields are `text`, `lineNumber`, `pageNumber`,
`eatSpace` and `clump`.

- Each method of the class updates those fields in place.
- Each method is proved to leave exactly the state that a transition function on
  the value type `PageState` describes:

  | method | transition function |
  |---|---|
  | `PageBreak` | `Break` |
  | `AddLine` | `Put` |
  | `AddLines` | `PutAll` |
  | `AddClump` | `Flush` |
  | the Dialogue loop | `PutDialogue` |

The layout properties are lemmas about those functions.

Module `PageContent` (`content.dfy`) relates `paginate` to `format`. It counts
as text every line that is not blank, not the "(MORE)" marker and not a page
number line (55 spaces and more). Over a whole document, the two outputs carry
the same text lines in the same order (`PaginatedContent`). Each transition
function adds exactly the text of the lines it is given, and a page break adds
none.

### Behaviour as written

- **The fit test is exact.** `c + len(line) + len(word) > width` (downplay.py:30)
  is easily read as reserving one column more than the spaces need. It does not:
  with `k` words pending, the new word adds `k` gaps, which is exactly
  `len(line)`. The model keeps the test as written. `WrappedShape` proves that
  every line of more than one word fits in `width`, and `WrappedGreedy` that,
  in a text with no hyphen, a line ends only where its next word would not
  fit after it with one space.
- **Where the page number sits.** The page number is written as 55 spaces, then the
  number, then a period (downplay.py:96). The number therefore starts at column 55
  rather than ending there. `PutAtPageTop` states it so.
- **A Dialogue split from the top of a page.** At the top of a page the 4 header
  rows are not counted, and the Dialogue loop takes `55 - line_number` lines
  (downplay.py:138). When the loop starts on row 0, the header pushes the page
  break inside that chunk:
  - 52 lines fill the body;
  - the next 3 open the next page;
  - "(MORE)" lands on row 7 of that page.

  This is modelled as written and stated by `MorePassFromTop`. From any other row
  the marker falls on the last body row, as `MorePassAtFoot` states.
- **A Dialogue of 53 to 56 lines at the top of a page.** Such a Dialogue passes
  the loop test (downplay.py:137) and is not split. `add_lines` then breaks the
  page after 52 lines, with no "(MORE)" line, and the remaining lines open the
  next page. This is stated by `DialogueFromTop`. It applies on row 0 when no
  Name or Parenthetical lines are held before the Dialogue: at the start of the
  document or after a page break. A held clump of at most 10 lines is flushed
  first and never ends the page (`ShortClumpLeavesRoom`), so the Dialogue then
  starts below it and is split as usual. A held clump of more than 10 lines is
  written as it comes and may end exactly on row 56 (`LongClumpAtFoot`); the
  page then breaks and the Dialogue starts on row 0 of the next page, where
  this case applies again. It also applies to
  the rest of a Dialogue after a split at the foot of a page, since
  `MorePassAtFoot` ends on row 0.
- **A clump that does not fit at the top of a page.** When held Name and
  Parenthetical lines are flushed on row 0 and their count plus the reserve
  exceeds 56, the test at downplay.py:116 still breaks the page. The page it
  leaves holds 60 blank lines and no header. This is stated by
  `FlushBlankPage`. An example is a Name followed by a Dialogue of 56 lines or
  more at the start of the document.
- **A hyphen cut is measured against the pending words.** The search tests
  `c + len(line) + i + 1 <= width` (downplay.py:37), counting the words
  already pending. When no cut fits after them, the pending line is emitted and
  the word is placed whole (downplay.py:48-52), even when a cut would fit on the
  now empty line. `PendingBlocksCut` shows the case: at width 10, after
  "abcdef", "ghijklm-nopqrs" goes whole onto the next line, although
  "ghijklm-" is only 8 columns wide.
- **A document that ends exactly at a page break.** Such a document still gets the
  final `page_break` (downplay.py:153), and with it an all-blank page. This is
  stated by `TrailingBlankPage`.

## Model

| member | source | states |
|---|---|---|
| Strings.Split | downplay.py:29 | `text.split()`: the maximal runs of non-separator characters, left to right; its properties are the lemmas below |
| Strings.Join | downplay.py:39 | `" ".join(line)`: the words with one space between neighbours; `SplitJoin` and `JoinWords` state what it gives |
| Strings.Spaces | downplay.py:39 | `" " * indent`: exactly `indent` characters, all spaces |
| Strings.SplitWords | downplay.py:29 | every piece `text.split()` yields is non-empty and holds no separator character |
| Strings.SplitKeepsText | downplay.py:29 | the pieces of `text.split()`, concatenated, are exactly the text's non-separator characters, in order |
| Strings.SplitEmpty | downplay.py:29 | `text.split()` is empty exactly when the text holds only separators |
| Strings.SplitAtSpace | downplay.py:29 | a separator between two texts separates their words: the split of the whole is the split of the left then of the right |
| Strings.SplitJoin | downplay.py:39 | splitting words joined by single spaces gives the same words back |
| Strings.RFind | downplay.py:34 | `word.rfind('-', 0, b)` is -1 or an index below `b` holding '-', and no '-' lies between it and `b` |
| Strings.Decimal | downplay.py:96 | `%d` of a page number is a non-empty string of decimal digits, with no leading zero for a positive number |
| Strings.DecimalRoundTrip | downplay.py:96 | the digits written for a page number read back as that number |
| WordWrap.Hyphenate | downplay.py:32-47 | the `while True` search as a function of the state, the word and the bound `b`: the state after it and what is left of the word; `HyphenateNoFit` and `HyphenateRightmost` state where it cuts, `HyphenateLeftover` what it leaves, `HyphenateSound` what it keeps |
| WordWrap.MakeRoom | downplay.py:30-51 | the whole branch for a word that does not fit: the search, then the pending words emitted when `c != 0`; `MakeRoomSound` states its properties |
| WordWrap.Place | downplay.py:30-53 | one pass of the loop over the words; `PlaceSound` and `PlaceWhole` state what it keeps |
| WordWrap.PlaceAll | downplay.py:29-53 | the loop over all the words of the text; `PlaceAllSound` and `PlaceAllWhole` state what it keeps |
| WordWrap.Wrapped | downplay.py:25-56 | what `format_paragraph` returns: the lines after the loop, the pending words emitted last when there are any; the lemmas `WrappedShape`, `WrappedKeepsWords`, `WrappedWords`, `WrappedGreedy` and `WrappedEmpty` state its properties |
| WordWrap.FormatParagraph | downplay.py:25-56 | the wrapping loop, hyphen search included, returns exactly the lines `Wrapped` describes for the text, indent and width |
| WordWrap.MakeRoomLoop | downplay.py:30-52 | for a word that does not fit, the `while True` hyphen search and the emission of the pending words leave exactly the state and the word remainder `MakeRoom` describes |
| WordWrap.CutSound | downplay.py:37-43 | cutting a word after a hyphen whose prefix fits gives a finished line that keeps the wrapped lines well shaped and loses no character |
| WordWrap.HyphenateSound | downplay.py:32-47 | the hyphen search keeps every finished line well shaped, leaves a word to carry on with, and loses, adds or reorders no character |
| WordWrap.HyphenateNoFit | downplay.py:32-47 | when no hyphen below `b` passes the fit test after the pending words, the search leaves the word and the state unchanged |
| WordWrap.HyphenateRightmost | downplay.py:32-47 | the search cuts at the rightmost hyphen below `b` whose prefix fits after the pending words: those words and the prefix become a line, and the rest is searched again while it is wider than `width` |
| WordWrap.HyphenateCutOrSame | downplay.py:32-47 | the search either adds at least one line or changes neither the word nor the state |
| WordWrap.HyphenateFitCuts | downplay.py:32-47 | a hyphen below `b` whose prefix fits after the pending words makes the search add a line |
| WordWrap.HyphenateLeftover | downplay.py:32-47 | after a cut, a rest wider than `width` has no hyphen among its first `width` characters, so no empty line could cut it |
| WordWrap.MakeRoomSound | downplay.py:30-51 | after a word overflows, the pending line has been flushed, what is left of the word is a word, and no character is lost |
| WordWrap.PlaceSound | downplay.py:30-53 | placing one word keeps every line well shaped and the pending words within width unless there is only one of them, and appends the word's characters to what was placed |
| WordWrap.PlaceAllSound | downplay.py:29-53 | placing all the words keeps every line well shaped and places their characters in order |
| WordWrap.FlushedSound | downplay.py:48-51 | flushing a pending line gives a well-shaped line holding exactly its words |
| WordWrap.JoinWords | downplay.py:39 | `" ".join` of words is single-spaced, one column per gap, and holds exactly the words |
| WordWrap.RenderShape | downplay.py:39 | `indent` spaces then the joined words is a well-shaped line holding exactly its words |
| WordWrap.WrappedSound | downplay.py:25-56 | all lines are well shaped, and together, without separators, they hold the words of the text in order |
| WordWrap.WrappedShape | downplay.py:25-56 | every line is `indent` spaces then non-empty words joined by single spaces, and a line wider than `width` is a single piece with no space |
| WordWrap.WrappedKeepsWords | downplay.py:25-56 | removing spaces and concatenating the lines gives the text's words concatenated in order, which are its non-separator characters |
| WordWrap.WrappedEmpty | downplay.py:54-56 | the wrapper returns no line exactly when the text has no word |
| WordWrap.WrappedWords | downplay.py:25-56 | for a text with no hyphen in any word, the words of the lines, line after line, are exactly the words of the text, whole and in order: none is cut, glued to another or moved |
| WordWrap.PlaceGreedy | downplay.py:30-53 | placing a word with no hyphen emits the pending words only when the word overflows them, so the first pending word never fits after the last finished line |
| WordWrap.PlaceAllGreedy | downplay.py:29-53 | over the whole loop the finished lines stay greedy and the first pending word does not fit after the last of them |
| WordWrap.WrappedGreedy | downplay.py:25-56 | for a text with no hyphen, the first word of every line but the first would not have fit after the line before it: that line's content, one space and the word exceed `width` |
| WordWrapExamples.PendingBlocksCut | downplay.py:37-52 | at width 10, after the pending word "abcdef", "ghijklm-nopqrs" is not cut at its hyphen although "ghijklm-" fits 10 columns: "abcdef" is emitted and the word is pending whole |
| WordWrapExamples.HelloWorldExample | downplay.py:29-53 | "Hello world" at indent 0 and width 60 is the single line "Hello world" |
| WordWrapExamples.HyphenExample | downplay.py:32-45 | "super-duper-long" at indent 0 and width 10 is cut into "super-" and "duper-long" |
| Screenplay.Indent | downplay.py:64-74 | the indent each style is wrapped with: 0, 10, 20, 15 and 45 columns |
| Screenplay.Width | downplay.py:64-74 | the width each style is wrapped to: 60, 30, 20, 25 and 15 columns |
| Screenplay.StyleColumns | downplay.py:64-74 | for every style, indent plus width is at most the 60 columns of the page |
| Continuous.ParagraphLinesInPage | downplay.py:61-74 | every line a paragraph contributes is at most 60 characters long, unless it is a single piece with no space after the indent |
| Continuous.ParagraphLines | downplay.py:61-74 | the lines one paragraph contributes: one blank line for an empty text, else the text wrapped under its style |
| Continuous.Body | downplay.py:60-76 | the paragraphs' lines one after the other |
| Continuous.Formatted | downplay.py:58-78 | what `format` returns: the body, then one blank line |
| Continuous.Format | downplay.py:58-78 | the formatting loop returns each paragraph's lines in document order, then one blank line |
| Continuous.BodyAppend | downplay.py:60-76 | the lines of a document are the lines of its parts, in order |
| Continuous.BlankParagraph | downplay.py:61-74 | a paragraph contributes no line exactly when its text is non-empty and all separators |
| Continuous.ParagraphLinesShape | downplay.py:61-74 | every line is blank or well shaped for its paragraph's style indent and width |
| Continuous.FormattedKeepsText | downplay.py:58-78 | the formatted text, without separators, is the document's text without separators, in order |
| Continuous.FormattedKeepsWords | downplay.py:58-78 | when no word holds a hyphen, the words of the formatted lines are the document's words, paragraph after paragraph, whole and in order |
| Pagination.PageNumberLine | downplay.py:96 | `"%*s%d." % (55, "", n)`: 55 spaces, the number in decimal, then a period |
| Pagination.HeaderRow | downplay.py:95-98 | header row 2 of a page after the first holds the page number line; every other header row is blank |
| Pagination.Header | downplay.py:94-99 | the header rows from row `row` on are the `4 - row` rows still missing before the body |
| Pagination.Break | downplay.py:81-88 | `page_break` keeps the text written so far and pads it with blank lines to exactly 60 lines per page, then starts the next page at line 0, ready to swallow one blank line, with the clump untouched |
| Pagination.Put | downplay.py:89-105 | `add_line` keeps the line number below 56, and keeps the text at 60 lines per finished page plus the line number |
| Pagination.PutAll | downplay.py:106-108 | `add_lines` keeps the same page-length invariant and leaves the clump alone |
| Pagination.Flush | downplay.py:109-119 | `add_clump` empties the clump and keeps the page-length invariant |
| Pagination.MorePassProgress | downplay.py:137-141 | each pass of the Dialogue loop takes fewer lines than remain, or starts a new page when no line fits, so the loop ends |
| Pagination.MorePass | downplay.py:138-141 | one pass of the Dialogue loop: `55 - line_number` lines, then the "(MORE)" line; `MorePassAtFoot` and `MorePassFromTop` state where they land |
| Pagination.PutDialogue | downplay.py:137-142 | the Dialogue split keeps the page-length invariant and leaves the clump alone |
| Pagination.Step | downplay.py:125-151 | each paragraph keeps the page-length invariant |
| Pagination.StepAll | downplay.py:125-151 | the paragraph loop over a whole document keeps the page-length invariant |
| Pagination.Finished | downplay.py:125-152 | the state after the paragraph loop and the last `add_clump` keeps the page-length invariant |
| Pagination.Paginated | downplay.py:120-154 | `paginate` returns 60 lines for each page, so always whole pages |
| Pagination.Paginator.constructor | downplay.py:120-124 | the state starts empty, at line 0 of page 1, with no blank line to swallow |
| Pagination.Paginator.PageBreak | downplay.py:81-88 | the padding loop leaves the state `Break` describes |
| Pagination.Paginator.AddLine | downplay.py:89-105 | the header loop and the line leave the state `Put` describes |
| Pagination.Paginator.AddLines | downplay.py:106-108 | the loop over the lines leaves the state `PutAll` describes |
| Pagination.Paginator.AddClump | downplay.py:109-119 | the clump is written as `Flush` describes, breaking the page first when needed |
| Pagination.Paginator.AddDialogue | downplay.py:137-142 | the Dialogue split loop and the final `add_lines` leave the state `PutDialogue` describes |
| Pagination.Paginate | downplay.py:80-154 | the paginating loop returns exactly `Paginated` of the document |
| Pagination.PutAllSplit | downplay.py:106-108 | writing two lists of lines is writing their concatenation |
| Pagination.PutAllInPage | downplay.py:94-105 | lines that fit in the body follow the missing header rows with no page break, and the line number advances by their count |
| Pagination.PutAllToFoot | downplay.py:100-103 | lines that fill the body to row 56 end the page: 4 blank footer rows, and the next page starts ready to swallow a blank |
| Pagination.PutAtPageTop | downplay.py:94-99 | a line at the top of a page comes after rows "", "", the page number line and ""; the page number line is 55 spaces, the number and "." from page 2 on, and blank on page 1 |
| Pagination.BlankAfterBreak | downplay.py:88-93 | the first blank line after a page break is swallowed and clears the flag; the next blank line is written |
| Pagination.FlushBreaksFirst | downplay.py:116-119 | a clump of at most 10 lines that does not fit with the reserve moves whole to the top of the next page, after the page break |
| Pagination.FlushInPlace | downplay.py:116-119 | a clump of at most 10 lines that fits with the reserve is written on the current page with no break first, after any missing header rows, and the footer follows it when it fills the body to row 56 |
| Pagination.FlushBlankPage | downplay.py:116-119 | as written, a clump flushed at row 0 whose count plus the reserve exceeds 56 leaves a page of 60 blank lines with no header, and opens the next page |
| Pagination.LongClumpIgnoresReserve | downplay.py:112-115 | a clump of more than 10 lines is written with no check, whatever the reserve |
| Pagination.ShortClumpLeavesRoom | downplay.py:109-119 | with a reserve of at least 2, as before a Dialogue, a clump of at most 10 lines ends between rows 4 + its length and 54 of a page, so it never ends the page |
| Pagination.LongClumpAtFoot | downplay.py:112-115 | a clump of more than 10 lines that reaches row 56 is followed by the 4 footer rows, and the next page starts on row 0 ready to swallow a blank |
| Pagination.HeldRun | downplay.py:143-146 | a run of Name and Parenthetical paragraphs leaves the text, line number, page number and swallow flag as they were, and appends to the clump the lines `format` gives those paragraphs, in order |
| Pagination.PutAllExtends | downplay.py:106-108 | writing lines only appends to the text |
| Pagination.PutDialogueExtends | downplay.py:137-142 | the Dialogue split only appends to the text |
| Pagination.WrappedNoBlank | downplay.py:131-149 | wrapped lines of any style are never blank, so `add_line` never swallows one |
| Pagination.NameStaysWithDialogue | downplay.py:134-146 | a character name that does not fit on the page together with all the lines of its speech (counted as at least 2) opens the next page, right after the page break |
| Pagination.MorePassAtFoot | downplay.py:137-141 | from the page body, a split Dialogue writes `paragraph[:55-line_number]`, then "(MORE)" on the last body row, and the page ends |
| Pagination.MorePassFromTop | downplay.py:137-141 | from row 0, as written, the chunk straddles the page break, and "(MORE)" lands on row 7 of the next page |
| Pagination.DialogueFromTop | downplay.py:137-142 | from row 0, as written, a Dialogue of 53 to 56 lines is not split: 52 lines fill the body, the footer follows with no "(MORE)", and the rest opens the next page after its header |
| Pagination.PaginatedEmpty | downplay.py:152-154 | an empty document is exactly 60 blank lines |
| Pagination.TrailingBlankPage | downplay.py:152-153 | content ending exactly at a page break is followed by a whole blank page |
| Pagination.PutFramed | downplay.py:89-105 | `add_line` writes only blank lines or the page's own number on header and footer rows |
| Pagination.FlushFramed | downplay.py:109-119 | `add_clump` keeps every page framed |
| Pagination.PutDialogueFramed | downplay.py:137-142 | the Dialogue split keeps every page framed |
| Pagination.StepAllFramed | downplay.py:125-151 | the paragraph loop keeps every page framed |
| Pagination.PaginatedFramed | downplay.py:80-154 | on every output page, rows 0, 1, 3 and 56-59 are blank, and row 2 is blank or that page's own number line |
| PageContent.ContentHeader | downplay.py:94-99 | the header rows, blank or the page number line, carry no text |
| PageContent.BreakContent | downplay.py:81-87 | `page_break` adds no text, only blank lines |
| PageContent.PutContent | downplay.py:89-105 | `add_line` adds the line's text and nothing else: a swallowed blank line, the header rows and the footer after row 56 add none |
| PageContent.PutAllContent | downplay.py:106-108 | `add_lines` adds the text of its lines, in order, and nothing else |
| PageContent.FlushContent | downplay.py:109-119 | `add_clump` adds the text of the held lines, in order, with or without a page break first |
| PageContent.MorePassContent | downplay.py:137-141 | one pass of the Dialogue loop adds the text of `paragraph[:55-line_number]`; its "(MORE)" line adds none |
| PageContent.PutDialogueContent | downplay.py:137-142 | the whole Dialogue split adds the text of every line of the speech, in order, and nothing else |
| PageContent.StepContent | downplay.py:125-151 | each paragraph adds to the text on the pages and in the clump, together, exactly the text of the lines `format` gives it |
| PageContent.StepAllContent | downplay.py:125-151 | the paragraph loop adds to the pages and the clump, together, exactly the text of `format`'s lines for those paragraphs, in order |
| PageContent.PaginatedContent | downplay.py:80-154 | the paginated document carries exactly the text lines of the continuous one, in the same order: nothing is lost, repeated or reordered, and pagination adds only blank lines, page number lines and "(MORE)" markers |
| MarkerLines.NameLineIsMarker | downplay.py:25-56 | a Name text of a 19-character word without a hyphen, then "(MORE)", wraps to that word, then a line equal to the marker, which is not counted as text |

## Left out

- **The editor, file handling and PDF export are not part of this model.** This
  covers:
  - the editing widget and search dialog;
  - file dialogs and loading and saving;
  - `export_as_text` and `export_as_pdf`;
  - `estimate_pages`;
  - the menus and the command line.

  They are user interface, file I/O or floating point, around the engine.
- **XML parsing is not modelled.** The document is a sequence of `Paragraph`
  values, each a closed `Style` and a text. A missing text (`None`) is the empty
  string, which the source treats the same way. An unknown style cannot occur, so
  the `assert False` branches have no counterpart.
- **The final `"\n".join` is not modelled.** `format`, `paginate` and
  `format_paragraph` return their list of lines rather than one string joined
  with newlines.
- **Separators and lengths are simplified.**
  - `str.split()` separates on a fixed list of the characters Python's
    `str.isspace` accepts.
  - Line lengths count Dafny characters, as Python's `len` counts code points.
- **Integers are unbounded,** as Python's are.
- WrappedWords: the word-by-word statement covers texts with no hyphen in any
  word. A hyphen cut turns one word into two pieces, the first ending in '-'.
  For such texts, `WrappedKeepsWords` still states that every character is kept
  in order.
- FormattedKeepsWords: the same restriction to words without hyphens, for the
  same reason.
- WrappedGreedy: the lower bound on line breaks covers texts with no hyphen in
  any word. After a hyphen cut the next line starts with the rest of a word,
  and a cut is measured against the pending words (see `PendingBlocksCut`),
  so no such bound is stated for texts with hyphens.
- FlushInPlace: stated for a reserve of 0 or more. `paginate` only ever passes
  0 or `max(2, len(paragraph))`.
- PaginatedContent: a text line that looks exactly like a marker is not
  counted on either side. Such a line is a Name line whose only word is
  "(MORE)". It can end any Name paragraph, for example one whose last word
  "(MORE)" wraps onto a line of its own (`NameLineIsMarker`). Lines that start
  with 55 spaces cannot come from `format`, whose indents are at most 45.
