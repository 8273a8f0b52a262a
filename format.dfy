/** `format` (downplay.py:58-78): the document as running text, each
    paragraph wrapped under its style, without pages. */
module Continuous {
  import opened Strings
  import opened WordWrap
  import opened Screenplay

  /** The lines one paragraph contributes: a blank separator stays one
      blank line, any other text is wrapped under its style. */
  function ParagraphLines(p: Paragraph): seq<string> {
    if p.text == "" then [""] else Wrapped(p.text, Indent(p.style), Width(p.style))
  }

  /** The paragraphs' lines one after the other. */
  function Body(doc: seq<Paragraph>): seq<string> {
    if doc == [] then [] else ParagraphLines(doc[0]) + Body(doc[1..])
  }

  /** What `format` joins with newlines: the body and one blank line. */
  function Formatted(doc: seq<Paragraph>): seq<string> {
    Body(doc) + [""]
  }

  /** `format` as written: a loop that appends each paragraph's lines. */
  method Format(doc: seq<Paragraph>) returns (text: seq<string>)
    ensures text == Formatted(doc)
  {
    text := [];
    for k := 0 to |doc|
      invariant text == Body(doc[..k])
    {
      var p := doc[k];
      BodyStep(doc, k);
      if p.text == "" {
        text := text + [""];
        continue;
      }
      var lines: seq<string>;
      match p.style {
        case Action =>
          lines := FormatParagraph(p.text, 0, 60);
        case Dialogue =>
          lines := FormatParagraph(p.text, 10, 30);
        case Name =>
          lines := FormatParagraph(p.text, 20, 20);
        case Parenthetical =>
          lines := FormatParagraph(p.text, 15, 25);
        case Transition =>
          lines := FormatParagraph(p.text, 45, 15);
      }
      assert lines == ParagraphLines(p);
      text := text + lines;
    }
    assert doc[..|doc|] == doc;
    text := text + [""];
  }

  lemma {:induction false} BodyStep(doc: seq<Paragraph>, k: nat)
    requires k < |doc|
    ensures Body(doc[..k + 1]) == Body(doc[..k]) + ParagraphLines(doc[k])
  {
    BodyAppend(doc[..k], [doc[k]]);
    assert doc[..k + 1] == doc[..k] + [doc[k]];
    assert Body([doc[k]]) == ParagraphLines(doc[k]) + Body([]);
  }

  /** The body of a document is the bodies of its parts, in order. */
  lemma {:induction false} BodyAppend(a: seq<Paragraph>, b: seq<Paragraph>)
    ensures Body(a + b) == Body(a) + Body(b)
  {
    if a == [] {
      assert a + b == b;
    } else {
      assert (a + b)[1..] == a[1..] + b;
      BodyAppend(a[1..], b);
    }
  }

  /** A paragraph contributes no line exactly when its text is not empty
      but holds only separators. */
  lemma {:induction false} BlankParagraph(p: Paragraph)
    ensures ParagraphLines(p) == [] <==> p.text != "" && Unspaced(p.text) == ""
  {
    if p.text != "" {
      WrappedEmpty(p.text, Indent(p.style), Width(p.style));
    }
  }

  /** Every line is blank or has the shape its paragraph's style asks for. */
  lemma {:induction false} ParagraphLinesShape(p: Paragraph)
    ensures forall l :: l in ParagraphLines(p) ==> l == "" || WellShaped(l, Indent(p.style), Width(p.style))
  {
    if p.text != "" {
      WrappedShape(p.text, Indent(p.style), Width(p.style));
    }
  }

  /** Every line stays within the 60 columns of the page, unless it is a
      single piece, with no space after the indent, too wide for its style. */
  lemma {:induction false} ParagraphLinesInPage(p: Paragraph)
    ensures forall l :: l in ParagraphLines(p) ==>
      |l| <= 60 || forall j :: Indent(p.style) <= j < |l| ==> l[j] != ' '
  {
    ParagraphLinesShape(p);
    StyleColumns(p.style);
  }

  /** The text of a document without its separators. */
  function DocumentText(doc: seq<Paragraph>): string {
    if doc == [] then "" else Unspaced(doc[0].text) + DocumentText(doc[1..])
  }

  /** Nothing of the document's text is lost, added or reordered. */
  lemma {:induction false} FormattedKeepsText(doc: seq<Paragraph>)
    ensures Unspaced(Concat(Formatted(doc))) == DocumentText(doc)
  {
    BodyKeepsText(doc);
    ConcatAppend(Body(doc), [""]);
    assert Concat([""]) == "" + Concat([]);
    UnspacedAppend(Concat(Body(doc)), "");
  }

  lemma {:induction false} BodyKeepsText(doc: seq<Paragraph>)
    ensures Unspaced(Concat(Body(doc))) == DocumentText(doc)
  {
    if doc != [] {
      var p := doc[0];
      BodyKeepsText(doc[1..]);
      ConcatAppend(ParagraphLines(p), Body(doc[1..]));
      UnspacedAppend(Concat(ParagraphLines(p)), Concat(Body(doc[1..])));
      if p.text == "" {
        assert Concat([""]) == "" + Concat([]);
      } else {
        WrappedKeepsWords(p.text, Indent(p.style), Width(p.style));
      }
    }
  }

  /** The words of a document, paragraph after paragraph. */
  function DocumentWords(doc: seq<Paragraph>): seq<string> {
    if doc == [] then [] else Split(doc[0].text) + DocumentWords(doc[1..])
  }

  /** When no word holds a hyphen, the formatted lines hold the document's
      words whole and in order: only the separators between them change. */
  lemma {:induction false} FormattedKeepsWords(doc: seq<Paragraph>)
    requires forall j :: 0 <= j < |doc| ==> Unhyphenated(doc[j].text)
    ensures LineWords(Formatted(doc)) == DocumentWords(doc)
  {
    BodyKeepsWords(doc);
    LineWordsAppend(Body(doc), [""]);
    assert LineWords([""]) == LineWords([]) + Split("");
  }

  lemma {:induction false} BodyKeepsWords(doc: seq<Paragraph>)
    requires forall j :: 0 <= j < |doc| ==> Unhyphenated(doc[j].text)
    ensures LineWords(Body(doc)) == DocumentWords(doc)
  {
    if doc != [] {
      var p := doc[0];
      assert forall j :: 0 <= j < |doc| - 1 ==> doc[1..][j] == doc[j + 1];
      BodyKeepsWords(doc[1..]);
      LineWordsAppend(ParagraphLines(p), Body(doc[1..]));
      if p.text == "" {
        assert LineWords([""]) == LineWords([]) + Split("");
      } else {
        assert Unhyphenated(p.text);
        WrappedWords(p.text, Indent(p.style), Width(p.style));
      }
    }
  }
}
