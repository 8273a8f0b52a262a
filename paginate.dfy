/** `paginate` (downplay.py:80-154): the document laid out on 60-line
    pages with a 4-line header, Name and Parenthetical lines held back
    so that they stay with the Dialogue after them, and long Dialogue
    split across pages with a "(MORE)" marker.

    `PageState` holds the variables `paginate`'s inner functions share;
    `Break`, `Put`, `PutAll` and `Flush` are what `page_break`, `add_line`,
    `add_lines` and `add_clump` do to them, and `Paginated` is what
    `paginate` returns. The class `Paginator` and the method `Paginate` run
    the source's loops on that state and are proved to agree with them. */
module Pagination {
  import opened Strings
  import opened WordWrap
  import opened Screenplay
  import Continuous

  /** `"%*s%d." % (55, "", n)`: 55 spaces, then the number and a period. */
  function PageNumberLine(n: nat): string {
    Spaces(55) + Decimal(n) + "."
  }

  /** `"%*s(MORE)" % (20, "")` */
  function More(): (m: string)
    ensures m != ""
  {
    Spaces(20) + "(MORE)"
  }

  /** `n` blank lines (none when `n` is not positive). */
  function Blank(n: int): (r: seq<string>)
    ensures |r| == if n <= 0 then 0 else n
    ensures forall k :: 0 <= k < |r| ==> r[k] == ""
  {
    if n <= 0 then [] else Blank(n - 1) + [""]
  }

  /** The line `add_line` writes at header row `row` of page `page`. */
  function HeaderRow(row: int, page: int): string {
    if row == 2 && page > 1 then PageNumberLine(page) else ""
  }

  /** The header rows from `row` down to the last one, row 3. */
  function Header(row: int, page: int): (h: seq<string>)
    ensures |h| == if row >= 4 then 0 else 4 - row
    decreases 4 - row
  {
    if row >= 4 then [] else [HeaderRow(row, page)] + Header(row + 1, page)
  }

  /** Writing header row `row` leaves the rows after it to write. */
  lemma {:induction false} HeaderStep(text: seq<string>, row: int, page: int)
    requires row < 4
    ensures text + [HeaderRow(row, page)] + Header(row + 1, page) == text + Header(row, page)
  {
    assert Header(row, page) == [HeaderRow(row, page)] + Header(row + 1, page);
  }

  function Max(a: int, b: int): int {
    if a < b then b else a
  }

  /** The variables of one run of `paginate`. */
  datatype PageState = PageState(
    text: seq<string>,
    lineNumber: int,
    pageNumber: int,
    eatSpace: bool,
    clump: seq<string>)

  const Initial := PageState([], 0, 1, false, [])

  /** The text holds the finished pages and `lineNumber` lines of the
      current one, page `pageNumber`. */
  predicate Paged(s: PageState) {
    s.pageNumber >= 1 && 0 <= s.lineNumber <= 60
    && |s.text| == 60 * (s.pageNumber - 1) + s.lineNumber
  }

  /** Between operations the current page still has room in its body. */
  predicate Valid(s: PageState) {
    Paged(s) && s.lineNumber < 56
  }

  /** `page_break`: pad the page to 60 lines and start the next one, ready
      to swallow one blank line. */
  function Break(s: PageState): (r: PageState)
    ensures Paged(s) ==> Valid(r) && r.lineNumber == 0 && |r.text| == 60 * s.pageNumber
    ensures s.text <= r.text && forall k :: |s.text| <= k < |r.text| ==> r.text[k] == ""
    ensures r.eatSpace && r.clump == s.clump
  {
    s.(text := s.text + Blank(60 - s.lineNumber), lineNumber := 0,
       pageNumber := s.pageNumber + 1, eatSpace := true)
  }

  /** `add_line`: swallow a blank line right after a page break; otherwise
      write whatever header rows are missing, then the line, and break the
      page when its body is full. */
  function Put(s: PageState, line: string): (r: PageState)
    requires Valid(s)
    ensures Valid(r) && r.clump == s.clump
  {
    if s.eatSpace && line == "" then s.(eatSpace := false)
    else
      var t := s.(text := s.text + Header(s.lineNumber, s.pageNumber) + [line],
                  lineNumber := Max(s.lineNumber, 4) + 1);
      if t.lineNumber >= 56 then Break(t) else t.(eatSpace := false)
  }

  /** `add_lines` */
  function PutAll(s: PageState, lines: seq<string>): (r: PageState)
    requires Valid(s)
    ensures Valid(r) && r.clump == s.clump
    decreases |lines|
  {
    if lines == [] then s else PutAll(Put(s, lines[0]), lines[1..])
  }

  /** `add_clump(reserve)`: write the held lines and empty the clump; when
      there are at most 10 of them and they and `reserve` more lines would
      not fit in the page body, break the page first. */
  function Flush(s: PageState, reserve: int): (r: PageState)
    requires Valid(s)
    ensures Valid(r) && r.clump == []
  {
    if |s.clump| == 0 then s
    else if |s.clump| > 10 then PutAll(s, s.clump).(clump := [])
    else
      var t := if s.lineNumber + |s.clump| + reserve > 56 then Break(s) else s;
      PutAll(t, s.clump).(clump := [])
  }

  /** One pass of the Dialogue `while` loop: as many lines as the
      computation `55 - line_number` allows, then the "(MORE)" marker. */
  function MorePass(s: PageState, paragraph: seq<string>): PageState
    requires Valid(s) && s.lineNumber + |paragraph| > 56
  {
    PutAll(PutAll(s, paragraph[..55 - s.lineNumber]), [More()])
  }

  /** Each pass of the Dialogue loop either shortens what is left of the
      dialogue or, when no line fits, puts the marker on the last body row
      and so starts a new page. */
  lemma {:induction false} MorePassProgress(s: PageState, paragraph: seq<string>)
    requires Valid(s) && s.lineNumber + |paragraph| > 56
    ensures 55 - s.lineNumber < |paragraph|
    ensures 55 - s.lineNumber == 0 ==> MorePass(s, paragraph).lineNumber == 0
  {
    if s.lineNumber == 55 {
      assert paragraph[..0] == [];
      var m := More();
      assert PutAll(s, [m]) == PutAll(Put(s, m), []);
    }
  }

  /** The Dialogue `while` loop and the `add_lines(paragraph)` after it. */
  function PutDialogue(s: PageState, paragraph: seq<string>): (r: PageState)
    requires Valid(s)
    ensures Valid(r) && r.clump == s.clump
    decreases |paragraph|, s.lineNumber
  {
    if s.lineNumber + |paragraph| > 56 then
      MorePassProgress(s, paragraph);
      PutDialogue(MorePass(s, paragraph), paragraph[55 - s.lineNumber..])
    else PutAll(s, paragraph)
  }

  lemma {:induction false} PutDialogueUnfold(s: PageState, paragraph: seq<string>)
    requires Valid(s) && s.lineNumber + |paragraph| > 56
    ensures 55 - s.lineNumber < |paragraph|
    ensures PutDialogue(s, paragraph) == PutDialogue(MorePass(s, paragraph), paragraph[55 - s.lineNumber..])
  {
    MorePassProgress(s, paragraph);
  }

  /** One pass of `paginate`'s `for` loop: the dispatch on the paragraph. */
  function Step(s: PageState, p: Paragraph): (r: PageState)
    requires Valid(s)
    ensures Valid(r)
  {
    if p.text == "" then Put(Flush(s, 0), "")
    else
      var lines := Wrapped(p.text, Indent(p.style), Width(p.style));
      match p.style
      case Action => PutAll(Flush(s, 0), lines)
      case Dialogue => PutDialogue(Flush(s, Max(2, |lines|)), lines)
      case Name => s.(clump := s.clump + lines)
      case Parenthetical => s.(clump := s.clump + lines)
      case Transition => PutAll(Flush(s, 0), lines)
  }

  function StepAll(s: PageState, doc: seq<Paragraph>): (r: PageState)
    requires Valid(s)
    ensures Valid(r)
    decreases |doc|
  {
    if doc == [] then s else StepAll(Step(s, doc[0]), doc[1..])
  }

  /** The state `paginate` ends with, before its last `page_break`. */
  function Finished(doc: seq<Paragraph>): (r: PageState)
    ensures Valid(r)
  {
    Flush(StepAll(Initial, doc), 0)
  }

  /** What `paginate` returns, as a list of lines: always whole pages. */
  function Paginated(doc: seq<Paragraph>): (r: seq<string>)
    ensures |r| == 60 * Finished(doc).pageNumber
  {
    Break(Finished(doc)).text
  }

  /** The state of `paginate` as an object, and its inner functions as
      methods that update it. */
  class Paginator {
    var text: seq<string>
    var lineNumber: int
    var pageNumber: int
    var eatSpace: bool
    var clump: seq<string>

    function State(): PageState
      reads this
    {
      PageState(text, lineNumber, pageNumber, eatSpace, clump)
    }

    constructor ()
      ensures State() == Initial
    {
      text := [];
      lineNumber := 0;
      pageNumber := 1;
      eatSpace := false;
      clump := [];
    }

    method PageBreak()
      modifies this
      ensures State() == Break(old(State()))
    {
      while lineNumber < 60
        invariant old(lineNumber) <= lineNumber
        invariant lineNumber <= 60 || lineNumber == old(lineNumber)
        invariant text == old(text) + Blank(lineNumber - old(lineNumber))
        invariant pageNumber == old(pageNumber) && clump == old(clump)
      {
        text := text + [""];
        lineNumber := lineNumber + 1;
      }
      lineNumber := 0;
      pageNumber := pageNumber + 1;
      eatSpace := true;
    }

    method AddLine(line: string)
      requires Valid(State())
      modifies this
      ensures State() == Put(old(State()), line)
    {
      if eatSpace && line == "" {
        eatSpace := false;
        return;
      }
      ghost var s := State();
      ghost var header := Header(lineNumber, pageNumber);
      while lineNumber < 4
        invariant s.lineNumber <= lineNumber && (lineNumber <= 4 || lineNumber == s.lineNumber)
        invariant text + Header(lineNumber, pageNumber) == s.text + header
        invariant pageNumber == s.pageNumber && eatSpace == s.eatSpace && clump == s.clump
      {
        HeaderStep(text, lineNumber, pageNumber);
        if lineNumber == 2 && pageNumber > 1 {
          text := text + [PageNumberLine(pageNumber)];
        } else {
          text := text + [""];
        }
        lineNumber := lineNumber + 1;
      }
      assert text == s.text + header && lineNumber == Max(s.lineNumber, 4);
      text := text + [line];
      lineNumber := lineNumber + 1;
      ghost var t := State();
      assert t == s.(text := s.text + header + [line], lineNumber := Max(s.lineNumber, 4) + 1);
      if lineNumber >= 56 {
        PageBreak();
      } else {
        eatSpace := false;
      }
    }

    method AddLines(lines: seq<string>)
      requires Valid(State())
      modifies this
      ensures State() == PutAll(old(State()), lines)
    {
      for k := 0 to |lines|
        invariant Valid(State())
        invariant PutAll(State(), lines[k..]) == PutAll(old(State()), lines)
      {
        assert lines[k..][1..] == lines[k + 1..];
        AddLine(lines[k]);
      }
    }

    method AddClump(reserve: int)
      requires Valid(State())
      modifies this
      ensures State() == Flush(old(State()), reserve)
    {
      if |clump| == 0 {
        return;
      }
      if |clump| > 10 {
        AddLines(clump);
        clump := [];
        return;
      }
      if lineNumber + |clump| + reserve > 56 {
        PageBreak();
      }
      AddLines(clump);
      clump := [];
    }

    /** The Dialogue branch of `paginate` after `add_clump`: while the
        lines left do not fit, write what the page takes and a "(MORE)"
        line; then write the rest. */
    method AddDialogue(wrapped: seq<string>)
      requires Valid(State())
      modifies this
      ensures State() == PutDialogue(old(State()), wrapped)
    {
      var paragraph := wrapped;
      while lineNumber + |paragraph| > 56
        invariant Valid(State())
        invariant PutDialogue(State(), paragraph) == PutDialogue(old(State()), wrapped)
        decreases |paragraph|, lineNumber
      {
        ghost var s0 := State();
        MorePassProgress(s0, paragraph);
        PutDialogueUnfold(s0, paragraph);
        var nBalance := 55 - lineNumber;
        AddLines(paragraph[..nBalance]);
        AddLines([More()]);
        assert State() == MorePass(s0, paragraph);
        paragraph := paragraph[nBalance..];
      }
      AddLines(paragraph);
    }
  }

  lemma {:induction false} StepAllUnfold(s: PageState, doc: seq<Paragraph>, k: nat)
    requires Valid(s) && k < |doc|
    ensures StepAll(s, doc[k..]) == StepAll(Step(s, doc[k]), doc[k + 1..])
  {
    assert doc[k..][0] == doc[k] && doc[k..][1..] == doc[k + 1..];
  }

  /** `paginate` as written. */
  method Paginate(doc: seq<Paragraph>) returns (r: seq<string>)
    ensures r == Paginated(doc)
  {
    var p := new Paginator();
    for k := 0 to |doc|
      invariant Valid(p.State())
      invariant StepAll(p.State(), doc[k..]) == StepAll(Initial, doc)
    {
      ghost var before := p.State();
      var par := doc[k];
      StepAllUnfold(before, doc, k);
      if par.text == "" {
        p.AddClump(0);
        p.AddLine("");
        continue;
      }
      match par.style {
        case Action =>
          p.AddClump(0);
          var lines := FormatParagraph(par.text, 0, 60);
          p.AddLines(lines);
        case Dialogue =>
          var paragraph := FormatParagraph(par.text, 10, 30);
          p.AddClump(Max(2, |paragraph|));
          p.AddDialogue(paragraph);
        case Name =>
          var lines := FormatParagraph(par.text, 20, 20);
          p.clump := p.clump + lines;
        case Parenthetical =>
          var lines := FormatParagraph(par.text, 15, 25);
          p.clump := p.clump + lines;
        case Transition =>
          p.AddClump(0);
          var lines := FormatParagraph(par.text, 45, 15);
          p.AddLines(lines);
      }
      assert p.State() == Step(before, par);
    }
    p.AddClump(0);
    p.PageBreak();
    r := p.text;
  }

  // ---------------------------------------------------------------------
  // Lines written inside one page.

  predicate NoBlank(lines: seq<string>) {
    forall k :: 0 <= k < |lines| ==> lines[k] != ""
  }

  lemma {:induction false} PutAllSplit(s: PageState, a: seq<string>, b: seq<string>)
    requires Valid(s)
    ensures PutAll(s, a + b) == PutAll(PutAll(s, a), b)
    decreases |a|
  {
    if a == [] {
      assert a + b == b;
    } else {
      assert (a + b)[0] == a[0] && (a + b)[1..] == a[1..] + b;
      PutAllSplit(Put(s, a[0]), a[1..], b);
    }
  }

  /** Lines that fit in the page body are written one after another below
      whatever header rows are still missing, with no page break. */
  lemma {:induction false} PutAllInPage(s: PageState, lines: seq<string>)
    requires Valid(s) && lines != [] && NoBlank(lines)
    requires Max(s.lineNumber, 4) + |lines| < 56
    ensures PutAll(s, lines)
            == s.(text := s.text + Header(s.lineNumber, s.pageNumber) + lines,
                  lineNumber := Max(s.lineNumber, 4) + |lines|, eatSpace := false)
    decreases |lines|
  {
    var t := Put(s, lines[0]);
    assert t == s.(text := s.text + Header(s.lineNumber, s.pageNumber) + [lines[0]],
                   lineNumber := Max(s.lineNumber, 4) + 1, eatSpace := false);
    if |lines| == 1 {
      assert PutAll(s, lines) == PutAll(t, []);
    } else {
      PutAllInPage(t, lines[1..]);
      assert Header(t.lineNumber, t.pageNumber) == [];
      assert lines == [lines[0]] + lines[1..];
    }
  }

  /** Lines that exactly fill the page body end it: the footer rows are
      padded and the next page starts. */
  lemma {:induction false} PutAllToFoot(s: PageState, lines: seq<string>)
    requires Valid(s) && lines != [] && NoBlank(lines)
    requires Max(s.lineNumber, 4) + |lines| == 56
    ensures PutAll(s, lines)
            == PageState(s.text + Header(s.lineNumber, s.pageNumber) + lines + Blank(4),
                         0, s.pageNumber + 1, true, s.clump)
  {
    var n := |lines| - 1;
    assert lines == lines[..n] + [lines[n]];
    PutAllSplit(s, lines[..n], [lines[n]]);
    var t := PutAll(s, lines[..n]);
    if n == 0 {
      assert t == s && Header(s.lineNumber, s.pageNumber) == [];
    } else {
      PutAllInPage(s, lines[..n]);
      assert Header(t.lineNumber, t.pageNumber) == [];
    }
    assert PutAll(t, [lines[n]]) == Put(t, lines[n]);
  }

  // ---------------------------------------------------------------------
  // Headers and the swallowed blank line.

  /** The first line of a page comes after four header rows; the third
      holds the page number from page 2 on and is blank on page 1. */
  lemma {:induction false} PutAtPageTop(s: PageState, line: string)
    requires Valid(s) && s.lineNumber == 0 && !(s.eatSpace && line == "")
    ensures Put(s, line).text == s.text + ["", "", HeaderRow(2, s.pageNumber), "", line]
    ensures Put(s, line).lineNumber == 5 && !Put(s, line).eatSpace
    ensures HeaderRow(2, s.pageNumber) == if s.pageNumber > 1 then Spaces(55) + Decimal(s.pageNumber) + "." else ""
  {
    assert Header(0, s.pageNumber) == ["", "", HeaderRow(2, s.pageNumber), ""];
  }

  /** Right after a page break a blank line is swallowed, once. */
  lemma {:induction false} BlankAfterBreak(s: PageState)
    requires Valid(s)
    ensures Break(s).eatSpace
    ensures Put(Break(s), "") == Break(s).(eatSpace := false)
    ensures Put(Put(Break(s), ""), "").text == Break(s).text + Header(0, s.pageNumber + 1) + [""]
  {
  }

  // ---------------------------------------------------------------------
  // The clump.

  /** A clump of at most 10 lines that does not fit together with the
      reserved lines moves whole to the top of the next page. */
  lemma {:induction false} FlushBreaksFirst(s: PageState, reserve: int)
    requires Valid(s) && 0 < |s.clump| <= 10 && NoBlank(s.clump)
    requires s.lineNumber + |s.clump| + reserve > 56
    ensures Flush(s, reserve)
            == PageState(Break(s).text + Header(0, s.pageNumber + 1) + s.clump,
                         4 + |s.clump|, s.pageNumber + 1, false, [])
  {
    PutAllInPage(Break(s), s.clump);
  }

  /** A clump that fits together with the reserved lines is written on the
      current page with no break first; when it fills the body to its last
      row, the footer follows it. */
  lemma {:induction false} FlushInPlace(s: PageState, reserve: int)
    requires Valid(s) && 0 < |s.clump| <= 10 && NoBlank(s.clump) && 0 <= reserve
    requires s.lineNumber + |s.clump| + reserve <= 56
    ensures s.text + Header(s.lineNumber, s.pageNumber) + s.clump <= Flush(s, reserve).text
    ensures Flush(s, reserve).text
            == s.text + Header(s.lineNumber, s.pageNumber) + s.clump
               + (if Max(s.lineNumber, 4) + |s.clump| == 56 then Blank(4) else [])
  {
    var x := s.text + Header(s.lineNumber, s.pageNumber) + s.clump;
    if Max(s.lineNumber, 4) + |s.clump| < 56 {
      PutAllInPage(s, s.clump);
      assert x + [] == x;
    } else {
      PutAllToFoot(s, s.clump);
    }
  }

  /** At the top of a page the test of `add_clump` does not count the
      header rows: a clump that cannot fit with its reserve breaks the page
      anyway, and the page it leaves is wholly blank, without a header. */
  lemma {:induction false} FlushBlankPage(s: PageState, reserve: int)
    requires Valid(s) && s.lineNumber == 0 && 0 < |s.clump| <= 10 && NoBlank(s.clump)
    requires |s.clump| + reserve > 56
    ensures Flush(s, reserve).text == s.text + Blank(60) + Header(0, s.pageNumber + 1) + s.clump
  {
    FlushBreaksFirst(s, reserve);
  }

  /** Before a Dialogue the reserve is at least 2, so a clump of at most
      10 lines never ends the page: the Dialogue starts below it, on the
      same page. */
  lemma {:induction false} ShortClumpLeavesRoom(s: PageState, reserve: int)
    requires Valid(s) && 0 < |s.clump| <= 10 && NoBlank(s.clump) && 2 <= reserve
    ensures 4 + |s.clump| <= Flush(s, reserve).lineNumber <= 54
    ensures !Flush(s, reserve).eatSpace
  {
    if s.lineNumber + |s.clump| + reserve > 56 {
      FlushBreaksFirst(s, reserve);
    } else {
      PutAllInPage(s, s.clump);
    }
  }

  /** A clump of more than 10 lines that reaches the last body row ends the
      page, so what follows it starts on row 0 of the next page. */
  lemma {:induction false} LongClumpAtFoot(s: PageState, reserve: int)
    requires Valid(s) && |s.clump| > 10 && NoBlank(s.clump)
    requires Max(s.lineNumber, 4) + |s.clump| == 56
    ensures Flush(s, reserve)
            == PageState(s.text + Header(s.lineNumber, s.pageNumber) + s.clump + Blank(4),
                         0, s.pageNumber + 1, true, [])
  {
    PutAllToFoot(s, s.clump);
  }

  /** A clump of more than 10 lines is written without looking at the
      room left. */
  lemma {:induction false} LongClumpIgnoresReserve(s: PageState, r1: int, r2: int)
    requires Valid(s) && |s.clump| > 10
    ensures Flush(s, r1) == Flush(s, r2) == PutAll(s, s.clump).(clump := [])
  {
  }

  lemma {:induction false} PrefixTransitive(a: seq<string>, b: seq<string>, c: seq<string>)
    requires a <= b && b <= c
    ensures a <= c
  {
    assert forall i :: 0 <= i < |a| ==> a[i] == b[i] == c[i];
  }

  /** Writing lines only adds to the text written so far. */
  lemma {:induction false} PutAllExtends(s: PageState, lines: seq<string>)
    requires Valid(s)
    ensures s.text <= PutAll(s, lines).text
    decreases |lines|
  {
    if lines != [] {
      var t := Put(s, lines[0]);
      assert s.text <= t.text;
      PutAllExtends(t, lines[1..]);
      PrefixTransitive(s.text, t.text, PutAll(s, lines).text);
    }
  }

  lemma {:induction false} MorePassExtends(s: PageState, paragraph: seq<string>)
    requires Valid(s) && s.lineNumber + |paragraph| > 56
    ensures s.text <= MorePass(s, paragraph).text
  {
    var part := paragraph[..55 - s.lineNumber];
    var t := PutAll(s, part);
    assert MorePass(s, paragraph) == PutAll(t, [More()]);
    PutAllExtends(s, part);
    PutAllExtends(t, [More()]);
    PrefixTransitive(s.text, t.text, PutAll(t, [More()]).text);
  }

  /** Dialogue only adds lines after the text written so far. */
  lemma {:induction false} PutDialogueExtends(s: PageState, paragraph: seq<string>)
    requires Valid(s)
    ensures s.text <= PutDialogue(s, paragraph).text
    decreases |paragraph|, s.lineNumber
  {
    if s.lineNumber + |paragraph| > 56 {
      PutDialogueUnfold(s, paragraph);
      var u := MorePass(s, paragraph);
      MorePassExtends(s, paragraph);
      PutDialogueExtends(u, paragraph[55 - s.lineNumber..]);
      PrefixTransitive(s.text, u.text, PutDialogue(s, paragraph).text);
    } else {
      PutAllExtends(s, paragraph);
    }
  }

  predicate Held(p: Paragraph) {
    p.text != "" && (p.style == Name || p.style == Parenthetical)
  }

  /** A run of Name and Parenthetical paragraphs writes nothing and moves
      nothing on the page: their lines wait in the clump, after those
      already held, in the order the paragraphs come and as `format` would
      lay them out. */
  lemma {:induction false} HeldRun(s: PageState, ps: seq<Paragraph>)
    requires Valid(s) && forall k :: 0 <= k < |ps| ==> Held(ps[k])
    ensures StepAll(s, ps) == s.(clump := s.clump + Continuous.Body(ps))
    decreases |ps|
  {
    if ps != [] {
      var s1 := s.(clump := s.clump + Continuous.ParagraphLines(ps[0]));
      HeldStep(s, ps[0]);
      StepAllUnfold(s, ps, 0);
      assert ps[0..] == ps;
      assert forall k :: 0 <= k < |ps| - 1 ==> ps[1..][k] == ps[k + 1];
      HeldRun(s1, ps[1..]);
      HeldBody(s.clump, ps);
    }
  }

  /** Name and Parenthetical lines are only held: the text does not change. */
  lemma {:induction false} HeldStep(s: PageState, p: Paragraph)
    requires Valid(s) && Held(p)
    ensures Step(s, p) == s.(clump := s.clump + Continuous.ParagraphLines(p))
  {
  }

  lemma {:induction false} HeldBody(clump: seq<string>, ps: seq<Paragraph>)
    requires ps != []
    ensures clump + Continuous.ParagraphLines(ps[0]) + Continuous.Body(ps[1..])
            == clump + Continuous.Body(ps)
  {
    assert Continuous.Body(ps) == Continuous.ParagraphLines(ps[0]) + Continuous.Body(ps[1..]);
  }

  /** Wrapped lines are never blank, so `add_line` never swallows one. */
  lemma {:induction false} WrappedNoBlank(text: string, style: Style)
    ensures NoBlank(Wrapped(text, Indent(style), Width(style)))
  {
    WrappedShape(text, Indent(style), Width(style));
    var ls := Wrapped(text, Indent(style), Width(style));
    forall k | 0 <= k < |ls|
      ensures ls[k] != ""
    {
      assert ls[k] in ls;
    }
  }

  /** A character's name that does not fit on the page together with all
      the lines of the speech after it (counted as at least 2) goes to the
      next page: the page is broken before the name, which opens the next
      page. */
  lemma {:induction false} NameStaysWithDialogue(s: PageState, name: string, speech: string)
    requires Valid(s) && s.clump == [] && speech != ""
    requires 0 < |Wrapped(name, 20, 20)| <= 10
    requires s.lineNumber + |Wrapped(name, 20, 20)| + Max(2, |Wrapped(speech, 10, 30)|) > 56
    ensures Break(s).text + Header(0, s.pageNumber + 1) + Wrapped(name, 20, 20)
            <= StepAll(s, [Paragraph(Name, name), Paragraph(Dialogue, speech)]).text
  {
    var s1 := s.(clump := Wrapped(name, 20, 20));
    NameHeld(s, name);
    NameBreaksFirst(s, name, Max(2, |Wrapped(speech, 10, 30)|));
    DialogueStep(s1, speech);
    StepAllPair(s, Paragraph(Name, name), Paragraph(Dialogue, speech));
  }

  lemma {:induction false} NameHeld(s: PageState, name: string)
    requires Valid(s) && s.clump == [] && Wrapped(name, 20, 20) != []
    ensures Step(s, Paragraph(Name, name)) == s.(clump := Wrapped(name, 20, 20))
  {
    HeldStep(s, Paragraph(Name, name));
    assert s.clump + Wrapped(name, 20, 20) == Wrapped(name, 20, 20);
  }

  lemma {:induction false} NameBreaksFirst(s: PageState, name: string, reserve: int)
    requires Valid(s) && 0 < |Wrapped(name, 20, 20)| <= 10
    requires s.lineNumber + |Wrapped(name, 20, 20)| + reserve > 56
    ensures Flush(s.(clump := Wrapped(name, 20, 20)), reserve).text
            == Break(s).text + Header(0, s.pageNumber + 1) + Wrapped(name, 20, 20)
  {
    var s1 := s.(clump := Wrapped(name, 20, 20));
    WrappedNoBlank(name, Name);
    FlushBreaksFirst(s1, reserve);
    assert Break(s1).text == Break(s).text;
  }

  lemma {:induction false} DialogueStep(s: PageState, speech: string)
    requires Valid(s) && speech != ""
    ensures Flush(s, Max(2, |Wrapped(speech, 10, 30)|)).text <= Step(s, Paragraph(Dialogue, speech)).text
  {
    var lines := Wrapped(speech, 10, 30);
    PutDialogueExtends(Flush(s, Max(2, |lines|)), lines);
  }

  lemma {:induction false} StepAllPair(s: PageState, p: Paragraph, q: Paragraph)
    requires Valid(s)
    ensures StepAll(s, [p, q]) == Step(Step(s, p), q)
  {
    assert [p, q][1..] == [q];
    assert StepAll(Step(s, p), [q]) == StepAll(Step(Step(s, p), q), []);
  }

  // ---------------------------------------------------------------------
  // Dialogue split across pages.

  /** From the body of a page, a split Dialogue fills the page to its last
      body row, puts "(MORE)" there, and the rest goes to the next page. */
  lemma {:induction false} MorePassAtFoot(s: PageState, paragraph: seq<string>)
    requires Valid(s) && 4 <= s.lineNumber && s.lineNumber + |paragraph| > 56
    requires NoBlank(paragraph)
    ensures MorePass(s, paragraph)
            == PageState(s.text + paragraph[..55 - s.lineNumber] + [More()] + Blank(4),
                         0, s.pageNumber + 1, true, s.clump)
  {
    var part := paragraph[..55 - s.lineNumber];
    var chunk := part + [More()];
    assert NoBlank(chunk) by {
      assert More() != "";
      forall k | 0 <= k < |chunk|
        ensures chunk[k] != ""
      {
        if k < |part| {
          assert chunk[k] == paragraph[k];
        }
      }
    }
    PutAllSplit(s, part, [More()]);
    assert Header(s.lineNumber, s.pageNumber) == [];
    PutAllToFoot(s, chunk);
    assert s.text + [] + chunk + Blank(4) == s.text + part + [More()] + Blank(4);
  }

  /** As written, a Dialogue split from the top of a page (no header yet)
      counts 55 lines without the 4 header rows: the page fills after 52
      lines, the last 3 of the chunk open the next page and "(MORE)" ends
      up on row 7 of that page rather than at the foot of the first. */
  lemma {:induction false} MorePassFromTop(s: PageState, paragraph: seq<string>)
    requires Valid(s) && s.lineNumber == 0 && |paragraph| > 56 && NoBlank(paragraph)
    ensures MorePass(s, paragraph).text
            == s.text + Header(0, s.pageNumber) + paragraph[..52] + Blank(4)
               + Header(0, s.pageNumber + 1) + paragraph[52..55] + [More()]
    ensures MorePass(s, paragraph).lineNumber == 8
  {
    var a, b := paragraph[..52], paragraph[52..55];
    MorePassPieces(s, paragraph);
    assert NoBlank(a) by {
      assert forall k :: 0 <= k < |a| ==> a[k] == paragraph[k];
    }
    PutAllToFoot(s, a);
    ChunkAtTop(PutAll(s, a), paragraph, 52);
  }

  lemma {:induction false} MorePassPieces(s: PageState, paragraph: seq<string>)
    requires Valid(s) && s.lineNumber == 0 && |paragraph| > 56
    ensures MorePass(s, paragraph)
            == PutAll(PutAll(PutAll(s, paragraph[..52]), paragraph[52..55]), [More()])
  {
    assert paragraph[..55] == paragraph[..52] + paragraph[52..55];
    PutAllSplit(s, paragraph[..52], paragraph[52..55]);
  }

  /** Three lines of a Dialogue and "(MORE)" at the top of a page. */
  lemma {:induction false} ChunkAtTop(t: PageState, paragraph: seq<string>, i: nat)
    requires Valid(t) && t.lineNumber == 0 && i + 3 <= |paragraph| && NoBlank(paragraph)
    ensures PutAll(PutAll(t, paragraph[i..i + 3]), [More()])
            == t.(text := t.text + Header(0, t.pageNumber) + paragraph[i..i + 3] + [More()],
                  lineNumber := 8, eatSpace := false)
  {
    var c := paragraph[i..i + 3] + [More()];
    assert NoBlank(c) by {
      assert More() != "";
      assert forall k :: 0 <= k < 3 ==> c[k] == paragraph[i + k];
    }
    PutAllSplit(t, paragraph[i..i + 3], [More()]);
    PutAllInPage(t, c);
  }

  /** As written, the loop test at the top of a page does not count the
      header rows either: a Dialogue of 53 to 56 lines is not split at all,
      `add_lines` breaks the page after 52 of them with no "(MORE)", and
      the rest opens the next page. */
  lemma {:induction false} DialogueFromTop(s: PageState, paragraph: seq<string>)
    requires Valid(s) && s.lineNumber == 0 && 53 <= |paragraph| <= 56 && NoBlank(paragraph)
    ensures PutDialogue(s, paragraph).text
            == s.text + Header(0, s.pageNumber) + paragraph[..52] + Blank(4)
               + Header(0, s.pageNumber + 1) + paragraph[52..]
  {
    var a, b := paragraph[..52], paragraph[52..];
    assert paragraph == a + b;
    assert PutDialogue(s, paragraph) == PutAll(s, paragraph);
    PutAllSplit(s, a, b);
    PutAllToFoot(s, a);
    PutAllInPage(PutAll(s, a), b);
  }

  // ---------------------------------------------------------------------
  // Whole documents.

  /** An empty document is one blank page. */
  lemma {:induction false} PaginatedEmpty()
    ensures Paginated([]) == Blank(60)
  {
    assert StepAll(Initial, []) == Initial;
    assert Finished([]) == Initial;
    assert Break(Initial).text == [] + Blank(60);
  }

  /** A document whose content ends exactly at a page break still gets the
      final `page_break`, which adds a page of 60 blank lines. */
  lemma {:induction false} TrailingBlankPage(doc: seq<Paragraph>)
    requires Finished(doc).lineNumber == 0
    ensures Paginated(doc) == Finished(doc).text + Blank(60)
  {
    var f := Finished(doc);
    assert Paginated(doc) == Break(f).text;
    assert Break(f).text == f.text + Blank(60 - 0);
  }

  // ---------------------------------------------------------------------
  // Every page has its frame.

  /** Row `row` of page `page` outside the body (rows 0-3 and 56-59) holds
      nothing but what the header puts there: a blank line or, on row 2,
      the number of that page. */
  predicate RowFits(line: string, row: int, page: int) {
    (row < 4 || 56 <= row) ==> line == "" || line == HeaderRow(row, page)
  }

  /** Every page of `text` is framed: the `k`-th line is row `k % 60` of
      page `k / 60 + 1`. */
  predicate Framed(text: seq<string>) {
    forall k :: 0 <= k < |text| ==> RowFits(text[k], k % 60, k / 60 + 1)
  }

  lemma {:induction false} FramedAppend(text: seq<string>, extra: seq<string>, page: int, row: int)
    requires Framed(text) && page >= 1 && 0 <= row && row + |extra| <= 60
    requires |text| == 60 * (page - 1) + row
    requires forall j :: 0 <= j < |extra| ==> RowFits(extra[j], row + j, page)
    ensures Framed(text + extra)
  {
    var t := text + extra;
    forall k | 0 <= k < |t|
      ensures RowFits(t[k], k % 60, k / 60 + 1)
    {
      if k >= |text| {
        var j := k - |text|;
        assert k == 60 * (page - 1) + (row + j);
        assert k % 60 == row + j && k / 60 == page - 1;
        assert t[k] == extra[j];
      } else {
        assert t[k] == text[k];
      }
    }
  }

  lemma {:induction false} HeaderFits(row: int, page: int)
    ensures forall j :: 0 <= j < |Header(row, page)| ==> RowFits(Header(row, page)[j], row + j, page)
    decreases 4 - row
  {
    if row < 4 {
      HeaderFits(row + 1, page);
      var h := Header(row, page);
      assert h == [HeaderRow(row, page)] + Header(row + 1, page);
      forall j | 0 <= j < |h|
        ensures RowFits(h[j], row + j, page)
      {
        if j > 0 {
          assert h[j] == Header(row + 1, page)[j - 1];
        }
      }
    }
  }

  lemma {:induction false} BreakFramed(s: PageState)
    requires Paged(s) && Framed(s.text)
    ensures Framed(Break(s).text)
  {
    FramedAppend(s.text, Blank(60 - s.lineNumber), s.pageNumber, s.lineNumber);
  }

  lemma {:induction false} PutFramed(s: PageState, line: string)
    requires Valid(s) && Framed(s.text)
    ensures Framed(Put(s, line).text)
  {
    if !(s.eatSpace && line == "") {
      var h := Header(s.lineNumber, s.pageNumber);
      HeaderFits(s.lineNumber, s.pageNumber);
      var extra := h + [line];
      forall j | 0 <= j < |extra|
        ensures RowFits(extra[j], s.lineNumber + j, s.pageNumber)
      {
        if j < |h| {
          assert extra[j] == h[j];
        }
      }
      FramedAppend(s.text, extra, s.pageNumber, s.lineNumber);
      assert s.text + h + [line] == s.text + extra;
      var t := s.(text := s.text + extra, lineNumber := Max(s.lineNumber, 4) + 1);
      if t.lineNumber >= 56 {
        BreakFramed(t);
      }
    }
  }

  lemma {:induction false} PutAllFramed(s: PageState, lines: seq<string>)
    requires Valid(s) && Framed(s.text)
    ensures Framed(PutAll(s, lines).text)
    decreases |lines|
  {
    if lines != [] {
      PutFramed(s, lines[0]);
      PutAllFramed(Put(s, lines[0]), lines[1..]);
    }
  }

  lemma {:induction false} FlushFramed(s: PageState, reserve: int)
    requires Valid(s) && Framed(s.text)
    ensures Framed(Flush(s, reserve).text)
  {
    if 0 < |s.clump| <= 10 && s.lineNumber + |s.clump| + reserve > 56 {
      BreakFramed(s);
      PutAllFramed(Break(s), s.clump);
    } else {
      PutAllFramed(s, s.clump);
    }
  }

  lemma {:induction false} MorePassFramed(s: PageState, paragraph: seq<string>)
    requires Valid(s) && Framed(s.text) && s.lineNumber + |paragraph| > 56
    ensures Framed(MorePass(s, paragraph).text)
  {
    var part := paragraph[..55 - s.lineNumber];
    var t := PutAll(s, part);
    PutAllFramed(s, part);
    PutAllFramed(t, [More()]);
    assert MorePass(s, paragraph) == PutAll(t, [More()]);
  }

  lemma {:induction false} PutDialogueFramed(s: PageState, paragraph: seq<string>)
    requires Valid(s) && Framed(s.text)
    ensures Framed(PutDialogue(s, paragraph).text)
    decreases |paragraph|, s.lineNumber
  {
    if s.lineNumber + |paragraph| > 56 {
      PutDialogueUnfold(s, paragraph);
      MorePassFramed(s, paragraph);
      PutDialogueFramed(MorePass(s, paragraph), paragraph[55 - s.lineNumber..]);
    } else {
      PutAllFramed(s, paragraph);
    }
  }

  lemma {:induction false} StepFramed(s: PageState, p: Paragraph)
    requires Valid(s) && Framed(s.text)
    ensures Framed(Step(s, p).text)
  {
    var lines := Wrapped(p.text, Indent(p.style), Width(p.style));
    FlushFramed(s, 0);
    FlushFramed(s, Max(2, |lines|));
    if p.text == "" {
      PutFramed(Flush(s, 0), "");
    } else if p.style == Dialogue {
      PutDialogueFramed(Flush(s, Max(2, |lines|)), lines);
    } else {
      PutAllFramed(Flush(s, 0), lines);
    }
  }

  lemma {:induction false} StepAllFramed(s: PageState, doc: seq<Paragraph>)
    requires Valid(s) && Framed(s.text)
    ensures Framed(StepAll(s, doc).text)
    decreases |doc|
  {
    if doc != [] {
      StepFramed(s, doc[0]);
      StepAllFramed(Step(s, doc[0]), doc[1..]);
    }
  }

  /** On every page `paginate` produces, rows 0, 1 and 3 and the four
      footer rows are blank, and row 2 is blank or carries the number of
      that very page (never on page 1). */
  lemma {:induction false} PaginatedFramed(doc: seq<Paragraph>)
    ensures Framed(Paginated(doc))
  {
    StepAllFramed(Initial, doc);
    FlushFramed(StepAll(Initial, doc), 0);
    BreakFramed(Finished(doc));
  }
}
