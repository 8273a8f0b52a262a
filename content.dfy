/** What `paginate` does to the lines `format` produces: over a whole
    document it writes every one of them, in order, and adds nothing but
    blank lines, page-number lines and "(MORE)" markers. */
module PageContent {
  import opened Strings
  import opened Screenplay
  import opened Pagination
  import Continuous

  /** A line that carries text: not blank, not the "(MORE)" marker and not
      a page-number line (55 spaces, then more). */
  predicate Kept(l: string) {
    l != "" && l != More() && !(|l| > 55 && l[..55] == Spaces(55))
  }

  /** The lines that carry text, in their order. */
  function Content(ls: seq<string>): seq<string> {
    if ls == [] then [] else (if Kept(ls[0]) then [ls[0]] else []) + Content(ls[1..])
  }

  lemma {:induction false} ContentAppend(a: seq<string>, b: seq<string>)
    ensures Content(a + b) == Content(a) + Content(b)
  {
    if a == [] {
      assert a + b == b;
    } else {
      var head := if Kept(a[0]) then [a[0]] else [];
      assert (a + b)[0] == a[0] && (a + b)[1..] == a[1..] + b;
      ContentAppend(a[1..], b);
      assert Content(a + b) == head + Content(a[1..] + b);
      assert Content(a) == head + Content(a[1..]);
    }
  }

  lemma {:induction false} ContentSingle(l: string)
    ensures Content([l]) == if Kept(l) then [l] else []
  {
    assert [l][1..] == [];
  }

  lemma {:induction false} ContentBlank(n: int)
    ensures Content(Blank(n)) == []
    decreases n
  {
    if n > 0 {
      ContentAppend(Blank(n - 1), [""]);
      ContentSingle("");
      ContentBlank(n - 1);
    }
  }

  lemma {:induction false} NumberLineDropped(page: int)
    ensures !Kept(HeaderRow(2, page))
  {
    if page > 1 {
      var l := PageNumberLine(page);
      assert l[..55] == Spaces(55);
    }
  }

  /** The header rows carry no text. */
  lemma {:induction false} ContentHeader(row: int, page: int)
    ensures Content(Header(row, page)) == []
    decreases 4 - row
  {
    if row < 4 {
      ContentHeader(row + 1, page);
      ContentAppend([HeaderRow(row, page)], Header(row + 1, page));
      ContentSingle(HeaderRow(row, page));
      if row == 2 {
        NumberLineDropped(page);
      }
    }
  }

  /** `page_break` adds no text. */
  lemma {:induction false} BreakContent(s: PageState)
    ensures Content(Break(s).text) == Content(s.text)
  {
    ContentAppend(s.text, Blank(60 - s.lineNumber));
    ContentBlank(60 - s.lineNumber);
  }

  /** `add_line` adds the line's text and nothing else. */
  lemma {:induction false} PutContent(s: PageState, l: string)
    requires Valid(s)
    ensures Content(Put(s, l).text) == Content(s.text) + Content([l])
  {
    ContentSingle(l);
    if !(s.eatSpace && l == "") {
      var h := Header(s.lineNumber, s.pageNumber);
      var t := s.(text := s.text + h + [l], lineNumber := Max(s.lineNumber, 4) + 1);
      ContentAppend(s.text + h, [l]);
      ContentAppend(s.text, h);
      ContentHeader(s.lineNumber, s.pageNumber);
      BreakContent(t);
    }
  }

  /** `add_lines` adds the lines' text, in order, and nothing else. */
  lemma {:induction false} PutAllContent(s: PageState, ls: seq<string>)
    requires Valid(s)
    ensures Content(PutAll(s, ls).text) == Content(s.text) + Content(ls)
    decreases |ls|
  {
    if ls != [] {
      var t := Put(s, ls[0]);
      PutContent(s, ls[0]);
      PutAllContent(t, ls[1..]);
      PutAllStep(s, ls);
      ContentChain(Content(s.text), Content(t.text), Content(PutAll(t, ls[1..]).text), [ls[0]], ls[1..]);
      HeadTail(ls);
    }
  }

  lemma {:induction false} HeadTail(ls: seq<string>)
    requires ls != []
    ensures [ls[0]] + ls[1..] == ls
  {
  }

  lemma {:induction false} PutAllStep(s: PageState, ls: seq<string>)
    requires Valid(s) && ls != []
    ensures PutAll(s, ls) == PutAll(Put(s, ls[0]), ls[1..])
  {
  }

  /** `add_clump` adds the held lines' text and nothing else. */
  lemma {:induction false} FlushContent(s: PageState, reserve: int)
    requires Valid(s)
    ensures Content(Flush(s, reserve).text) == Content(s.text) + Content(s.clump)
  {
    if |s.clump| == 0 {
      assert s.clump == [];
    } else if |s.clump| > 10 {
      PutAllContent(s, s.clump);
    } else if s.lineNumber + |s.clump| + reserve > 56 {
      BreakContent(s);
      PutAllContent(Break(s), s.clump);
    } else {
      PutAllContent(s, s.clump);
    }
  }

  /** One pass of the Dialogue loop adds the text of the lines it takes. */
  lemma {:induction false} MorePassContent(s: PageState, paragraph: seq<string>)
    requires Valid(s) && s.lineNumber + |paragraph| > 56
    ensures Content(MorePass(s, paragraph).text)
            == Content(s.text) + Content(paragraph[..55 - s.lineNumber])
  {
    var part := paragraph[..55 - s.lineNumber];
    var t := PutAll(s, part);
    PutAllContent(s, part);
    PutAllContent(t, [More()]);
    ContentSingle(More());
    assert MorePass(s, paragraph) == PutAll(t, [More()]);
    assert Content(t.text) + Content([More()]) == Content(t.text);
  }

  /** Text added in two steps is the text of both parts, in order. */
  lemma {:induction false} ContentChain(w0: seq<string>, w1: seq<string>, w2: seq<string>,
                                        a: seq<string>, b: seq<string>)
    requires w1 == w0 + Content(a) && w2 == w1 + Content(b)
    ensures w2 == w0 + Content(a + b)
  {
    ContentAppend(a, b);
  }

  /** The whole Dialogue split adds the text of all the lines, in order. */
  lemma {:induction false} PutDialogueContent(s: PageState, paragraph: seq<string>)
    requires Valid(s)
    ensures Content(PutDialogue(s, paragraph).text) == Content(s.text) + Content(paragraph)
    decreases |paragraph|, s.lineNumber
  {
    if s.lineNumber + |paragraph| > 56 {
      var k := 55 - s.lineNumber;
      MorePassProgress(s, paragraph);
      PutDialogueUnfold(s, paragraph);
      var u := MorePass(s, paragraph);
      var rest := paragraph[k..];
      MorePassContent(s, paragraph);
      PutDialogueContent(u, rest);
      assert paragraph == paragraph[..k] + rest;
      ContentChain(Content(s.text), Content(u.text), Content(PutDialogue(u, rest).text),
                   paragraph[..k], rest);
    } else {
      PutAllContent(s, paragraph);
    }
  }

  /** The text on the pages and in the clump, together. */
  function Written(s: PageState): seq<string> {
    Content(s.text) + Content(s.clump)
  }

  lemma {:induction false} StepBlankContent(s: PageState, p: Paragraph)
    requires Valid(s) && p.text == ""
    ensures Written(Step(s, p)) == Written(s) + Content(Continuous.ParagraphLines(p))
  {
    var f := Flush(s, 0);
    FlushContent(s, 0);
    PutContent(f, "");
    ContentSingle("");
    assert Step(s, p) == Put(f, "");
    assert Put(f, "").clump == [];
  }

  lemma {:induction false} StepWriteContent(s: PageState, p: Paragraph)
    requires Valid(s) && p.text != "" && (p.style == Action || p.style == Transition)
    ensures Written(Step(s, p)) == Written(s) + Content(Continuous.ParagraphLines(p))
  {
    var lines := Continuous.ParagraphLines(p);
    var f := Flush(s, 0);
    FlushContent(s, 0);
    PutAllContent(f, lines);
    assert Step(s, p) == PutAll(f, lines);
    assert PutAll(f, lines).clump == [];
  }

  lemma {:induction false} StepDialogueContent(s: PageState, p: Paragraph)
    requires Valid(s) && p.text != "" && p.style == Dialogue
    ensures Written(Step(s, p)) == Written(s) + Content(Continuous.ParagraphLines(p))
  {
    var lines := Continuous.ParagraphLines(p);
    var f := Flush(s, Max(2, |lines|));
    FlushContent(s, Max(2, |lines|));
    PutDialogueContent(f, lines);
    assert Step(s, p) == PutDialogue(f, lines);
    assert PutDialogue(f, lines).clump == [];
  }

  lemma {:induction false} StepHeldContent(s: PageState, p: Paragraph)
    requires Valid(s) && Held(p)
    ensures Written(Step(s, p)) == Written(s) + Content(Continuous.ParagraphLines(p))
  {
    var lines := Continuous.ParagraphLines(p);
    HeldStep(s, p);
    ContentAppend(s.clump, lines);
    var t := s.(clump := s.clump + lines);
    assert Written(t) == Content(s.text) + (Content(s.clump) + Content(lines));
  }

  /** Each paragraph adds the text of its formatted lines to what is on
      the pages or held, and nothing else. */
  lemma {:induction false} StepContent(s: PageState, p: Paragraph)
    requires Valid(s)
    ensures Written(Step(s, p)) == Written(s) + Content(Continuous.ParagraphLines(p))
  {
    if p.text == "" {
      StepBlankContent(s, p);
    } else if p.style == Dialogue {
      StepDialogueContent(s, p);
    } else if p.style == Name || p.style == Parenthetical {
      StepHeldContent(s, p);
    } else {
      StepWriteContent(s, p);
    }
  }

  lemma {:induction false} StepAllContent(s: PageState, doc: seq<Paragraph>)
    requires Valid(s)
    ensures Written(StepAll(s, doc)) == Written(s) + Content(Continuous.Body(doc))
    decreases |doc|
  {
    if doc == [] {
      assert Continuous.Body(doc) == [];
    } else {
      var t := Step(s, doc[0]);
      var rest := doc[1..];
      var a := Continuous.ParagraphLines(doc[0]);
      StepContent(s, doc[0]);
      StepAllContent(t, rest);
      assert StepAll(s, doc) == StepAll(t, rest);
      assert Continuous.Body(doc) == a + Continuous.Body(rest);
      ContentChain(Written(s), Written(t), Written(StepAll(t, rest)), a, Continuous.Body(rest));
    }
  }

  /** Over a whole document, the paginated text carries exactly the lines
      of the continuous text, in order: nothing is lost, repeated or moved,
      and what pagination adds is only blank lines, page-number lines and
      "(MORE)" markers. */
  lemma {:induction false} PaginatedContent(doc: seq<Paragraph>)
    ensures Content(Paginated(doc)) == Content(Continuous.Formatted(doc))
  {
    var body := Continuous.Body(doc);
    var e := StepAll(Initial, doc);
    StepAllContent(Initial, doc);
    assert Written(Initial) == [];
    FlushContent(e, 0);
    BreakContent(Flush(e, 0));
    ContentAppend(body, [""]);
    ContentSingle("");
  }
}

/** Where a text line equal to the "(MORE)" marker comes from. */
module MarkerLines {
  import opened Strings
  import opened Screenplay
  import opened Pagination
  import opened PageContent
  import WordWrap

  /** A Name line that is exactly the marker does not need a Name paragraph
      of the one word "(MORE)": the last word of a longer Name wraps onto a
      line of its own. Such a line is not counted on either side. */
  lemma {:induction false} NameLineIsMarker(a: string)
    requires IsWord(a) && |a| == 19 && '-' !in a
    ensures WordWrap.Wrapped(a + " (MORE)", Indent(Name), Width(Name)) == [Spaces(20) + a, More()]
    ensures !Kept(More())
  {
    MarkerSplit(a);
    MarkerPlaced(a);
    assert WordWrap.Render(20, ["(MORE)"]) == More();
  }

  lemma {:induction false} MarkerSplit(a: string)
    requires IsWord(a)
    ensures Split(a + " (MORE)") == [a, "(MORE)"]
  {
    var m := "(MORE)";
    assert IsWord(m);
    assert Join([a, m]) == Join([a]) + " " + m;
    assert a + " (MORE)" == Join([a, m]);
    SplitJoin([a, m]);
  }

  /** "(MORE)" does not fit after a word of 19 on a Name line, so the word
      is emitted alone and "(MORE)" starts the next line. */
  lemma {:induction false} MarkerPlaced(a: string)
    requires IsWord(a) && |a| == 19 && '-' !in a
    ensures WordWrap.PlaceAll(WordWrap.Start, [a, "(MORE)"], 20, 20)
            == WordWrap.Wrapping([Spaces(20) + a], ["(MORE)"], 6)
  {
    var m := "(MORE)";
    var ws := [a, m];
    var w1 := WordWrap.Place(WordWrap.Start, a, 20, 20);
    assert w1 == WordWrap.Wrapping([], [a], 19);
    WordWrap.HyphenateWhole(w1, m, |m|, 20, 20);
    var w2 := WordWrap.Place(w1, m, 20, 20);
    assert WordWrap.Render(20, [a]) == Spaces(20) + a;
    assert w2 == WordWrap.Wrapping([Spaces(20) + a], [m], 6);
    assert ws[1..] == [m] && ws[1..][1..] == [];
    assert WordWrap.PlaceAll(WordWrap.Start, ws, 20, 20) == WordWrap.PlaceAll(w1, [m], 20, 20);
    assert WordWrap.PlaceAll(w1, [m], 20, 20) == WordWrap.PlaceAll(w2, [], 20, 20);
  }
}
