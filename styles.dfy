/** The document the layout engine reads: paragraphs tagged with one of a
    closed set of styles, and the wrap settings of each style. */
module Screenplay {

  datatype Style = Action | Dialogue | Name | Parenthetical | Transition

  /** A paragraph whose text is `""` is an explicit blank separator. */
  datatype Paragraph = Paragraph(style: Style, text: string)

  /** The column at which a style's lines start. */
  function Indent(s: Style): nat {
    match s
    case Action => 0
    case Dialogue => 10
    case Name => 20
    case Parenthetical => 15
    case Transition => 45
  }

  /** The number of columns a style's words may fill. */
  function Width(s: Style): nat {
    match s
    case Action => 60
    case Dialogue => 30
    case Name => 20
    case Parenthetical => 25
    case Transition => 15
  }

  /** A line that keeps to its style's width ends within the 60 columns of
      the page. */
  lemma {:induction false} StyleColumns(s: Style)
    ensures Indent(s) + Width(s) <= 60
  {
  }
}
