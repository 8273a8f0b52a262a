/** `format_paragraph` (downplay.py:25-56): greedy word wrap with a
    hyphenation fallback. The pure functions below follow the loop step by
    step; the method `FormatParagraph` runs the loop itself and is proved
    to compute `Wrapped`; the lemmas state what the wrapper guarantees. */
module WordWrap {
  import opened Strings

  /** The loop variables of `format_paragraph`: the finished `lines`, the
      pending words `line` and `c`, the total length of the pending words. */
  datatype Wrapping = Wrapping(lines: seq<string>, line: seq<string>, c: int)

  const Start := Wrapping([], [], 0)

  /** One output line: `" "*indent + " ".join(line)`. */
  function Render(indent: nat, line: seq<string>): string {
    Spaces(indent) + Join(line)
  }

  /** Emit the pending words as a line and start an empty one. */
  function Flushed(w: Wrapping, indent: nat): Wrapping {
    Wrapping(w.lines + [Render(indent, w.line)], [], 0)
  }

  /** The `while True` hyphen search on a word that does not fit: the state
      after it and what is left of the word. `b` bounds the search. */
  function Hyphenate(w: Wrapping, word: string, b: nat, indent: nat, width: nat): (string, Wrapping)
    requires b <= |word|
    decreases |word|, b
  {
    var i := RFind(word, '-', b);
    if i == -1 then (word, w)
    else if w.c + |w.line| + i + 1 <= width then
      var w' := Flushed(w.(line := w.line + [word[..i + 1]]), indent);
      var rest := word[i + 1..];
      if |rest| <= width then (rest, w') else Hyphenate(w', rest, |rest|, indent, width)
    else Hyphenate(w, word, i, indent, width)
  }

  /** The whole `if` block for a word that does not fit: hyphenate, then
      emit the pending words if there are any (`c != 0`). */
  function MakeRoom(w: Wrapping, word: string, indent: nat, width: nat): (string, Wrapping) {
    var (rest, h) := Hyphenate(w, word, |word|, indent, width);
    (rest, if h.c != 0 then Flushed(h, indent) else h)
  }

  /** One pass of the `for word in text.split()` loop. */
  function Place(w: Wrapping, word: string, indent: nat, width: nat): Wrapping {
    var (rest, v) := if w.c + |w.line| + |word| > width then MakeRoom(w, word, indent, width) else (word, w);
    Wrapping(v.lines, v.line + [rest], v.c + |rest|)
  }

  function PlaceAll(w: Wrapping, words: seq<string>, indent: nat, width: nat): Wrapping
    decreases |words|
  {
    if words == [] then w else PlaceAll(Place(w, words[0], indent, width), words[1..], indent, width)
  }

  /** What `format_paragraph(text, indent, width)` returns. */
  function Wrapped(text: string, indent: nat, width: nat): seq<string> {
    var w := PlaceAll(Start, Split(text), indent, width);
    if |w.line| != 0 then Flushed(w, indent).lines else w.lines
  }

  /** `format_paragraph` as written: a `for` loop over the words; the
      hyphen search for a word that does not fit is `MakeRoomLoop`. */
  method FormatParagraph(text: string, indent: nat, width: nat) returns (lines: seq<string>)
    ensures lines == Wrapped(text, indent, width)
  {
    lines := [];
    var line: seq<string> := [];
    var c := 0;
    var words := Split(text);
    for k := 0 to |words|
      invariant PlaceAll(Wrapping(lines, line, c), words[k..], indent, width)
                == PlaceAll(Start, words, indent, width)
    {
      var word := words[k];
      ghost var before := Wrapping(lines, line, c);
      if c + |line| + |word| > width {
        lines, line, c, word := MakeRoomLoop(lines, line, c, word, indent, width);
      }
      line := line + [word];
      c := c + |word|;
      assert Wrapping(lines, line, c) == Place(before, words[k], indent, width);
      assert words[k..][1..] == words[k + 1..];
    }
    if |line| != 0 {
      lines := lines + [Spaces(indent) + Join(line)];
    }
  }

  /** The body of the `if` for a word that does not fit (downplay.py:30-52):
      the `while True` hyphen search, then emitting the pending words. */
  method MakeRoomLoop(lines0: seq<string>, line0: seq<string>, c0: int, word0: string, indent: nat, width: nat)
    returns (lines: seq<string>, line: seq<string>, c: int, word: string)
    ensures (word, Wrapping(lines, line, c)) == MakeRoom(Wrapping(lines0, line0, c0), word0, indent, width)
  {
    lines, line, c, word := lines0, line0, c0, word0;
    var b: nat := |word|;
    while true
      invariant b <= |word|
      invariant Hyphenate(Wrapping(lines, line, c), word, b, indent, width)
                == Hyphenate(Wrapping(lines0, line0, c0), word0, |word0|, indent, width)
      decreases |word|, b
    {
      var i := RFind(word, '-', b);
      if i == -1 {
        break;
      }
      if c + |line| + i + 1 <= width {
        line := line + [word[..i + 1]];
        lines := lines + [Spaces(indent) + Join(line)];
        line := [];
        c := 0;
        word := word[i + 1..];
        b := |word|;
        if b <= width {
          break;
        }
      } else {
        b := i;
      }
    }
    if c != 0 {
      lines := lines + [Spaces(indent) + Join(line)];
      line := [];
      c := 0;
    }
  }

  // ---------------------------------------------------------------------
  // What a wrapped line looks like.

  /** Words joined by single spaces: no leading, trailing or doubled space
      and no separator other than the space. */
  predicate SingleSpaced(s: string) {
    s != "" && s[0] != ' ' && s[|s| - 1] != ' '
    && (forall i :: 0 <= i < |s| ==> s[i] == ' ' || !IsSpace(s[i]))
    && (forall i :: 0 <= i < |s| - 1 ==> s[i] != ' ' || s[i + 1] != ' ')
  }

  /** `indent` spaces, then single-spaced words; if the words are wider
      than `width`, there is only one of them. */
  predicate WellShaped(l: string, indent: nat, width: nat) {
    |l| >= indent && l[..indent] == Spaces(indent) && SingleSpaced(l[indent..])
    && (|l| - indent > width ==> forall j :: indent <= j < |l| ==> l[j] != ' ')
  }

  predicate AllWords(ws: seq<string>) {
    forall k :: 0 <= k < |ws| ==> IsWord(ws[k])
  }

  lemma {:induction false} SingleSpacedWord(w: string)
    requires IsWord(w)
    ensures SingleSpaced(w)
  {
  }

  lemma {:induction false} SingleSpacedAppend(a: string, w: string)
    requires SingleSpaced(a) && IsWord(w)
    ensures SingleSpaced(a + " " + w)
  {
    var s := a + " " + w;
    forall i | 0 <= i < |s| - 1
      ensures s[i] != ' ' || s[i + 1] != ' '
    {
      if i < |a| - 1 {
        assert s[i] == a[i] && s[i + 1] == a[i + 1];
      } else if i == |a| {
        assert s[i + 1] == w[0];
      } else if i > |a| {
        assert s[i] == w[i - |a| - 1];
      }
    }
    forall i | 0 <= i < |s|
      ensures s[i] == ' ' || !IsSpace(s[i])
    {
      if i < |a| {
        assert s[i] == a[i];
      } else if i > |a| {
        assert s[i] == w[i - |a| - 1];
      }
    }
  }

  /** `" ".join` of words: single-spaced, one column per gap, and nothing
      but the words once the spaces are removed. */
  lemma {:induction false} JoinWords(ws: seq<string>)
    requires ws != [] && AllWords(ws)
    ensures SingleSpaced(Join(ws))
    ensures |Join(ws)| == |Concat(ws)| + |ws| - 1
    ensures Unspaced(Join(ws)) == Concat(ws)
    ensures |ws| == 1 ==> Join(ws) == ws[0]
  {
    var n := |ws| - 1;
    var init, last := ws[..n], ws[n];
    if n == 0 {
      assert ws == [last];
      SingleSpacedWord(last);
      UnspacedWord(last);
      ConcatSingle(last);
    } else {
      assert AllWords(init) by {
        assert forall k :: 0 <= k < |init| ==> init[k] == ws[k];
      }
      JoinWords(init);
      assert ws == init + [last];
      JoinStep(init, last);
    }
  }

  /** One more word joined after a single space. */
  lemma {:induction false} JoinStep(init: seq<string>, last: string)
    requires init != [] && IsWord(last) && SingleSpaced(Join(init))
    requires |Join(init)| == |Concat(init)| + |init| - 1 && Unspaced(Join(init)) == Concat(init)
    ensures var ws := init + [last];
      SingleSpaced(Join(ws)) && |Join(ws)| == |Concat(ws)| + |ws| - 1 && Unspaced(Join(ws)) == Concat(ws)
  {
    var j := Join(init);
    JoinLast(init, last);
    ConcatAppend(init, [last]);
    ConcatSingle(last);
    SingleSpacedAppend(j, last);
    UnspacedSpaceWord(j, last);
  }

  lemma {:induction false} JoinLast(init: seq<string>, last: string)
    requires init != []
    ensures Join(init + [last]) == Join(init) + " " + last
  {
    var ws := init + [last];
    assert ws[..|ws| - 1] == init && ws[|ws| - 1] == last;
  }

  lemma {:induction false} UnspacedSpaceWord(j: string, w: string)
    requires IsWord(w)
    ensures Unspaced(j + " " + w) == Unspaced(j) + w
  {
    UnspacedAppend(j + " ", w);
    UnspacedAppend(j, " ");
    UnspacedSpace();
    UnspacedWord(w);
    assert Unspaced(j) + "" == Unspaced(j);
  }

  lemma {:induction false} UnspacedSpace()
    ensures Unspaced(" ") == ""
  {
    assert " "[1..] == "";
  }

  /** A rendered line has the shape of a wrapped line and holds exactly
      its words. */
  lemma {:induction false} RenderShape(indent: nat, width: nat, line: seq<string>)
    requires line != [] && AllWords(line)
    requires |line| == 1 || |Concat(line)| + |line| - 1 <= width
    ensures WellShaped(Render(indent, line), indent, width)
    ensures Unspaced(Render(indent, line)) == Concat(line)
  {
    var l := Render(indent, line);
    JoinWords(line);
    assert l[..indent] == Spaces(indent) && l[indent..] == Join(line);
    UnspacedAppend(Spaces(indent), Join(line));
    UnspacedSpaces(indent);
    if |l| - indent > width {
      forall j | indent <= j < |l|
        ensures l[j] != ' '
      {
        assert l[j] == line[0][j - indent];
      }
    }
  }

  // ---------------------------------------------------------------------
  // The loop invariant of `format_paragraph`.

  /** The pending words are words, `c` is their total length, and they fit
      in `width` unless there is only one of them. */
  ghost predicate Pending(w: Wrapping, width: nat) {
    AllWords(w.line) && w.c == |Concat(w.line)|
    && (|w.line| <= 1 || w.c + |w.line| - 1 <= width)
  }

  ghost predicate Sound(w: Wrapping, indent: nat, width: nat) {
    (forall k :: 0 <= k < |w.lines| ==> WellShaped(w.lines[k], indent, width))
    && Pending(w, width)
  }

  /** The text placed so far: the finished lines without separators, then
      the pending words. */
  function Placed(w: Wrapping): string {
    Unspaced(Concat(w.lines)) + Concat(w.line)
  }

  lemma {:induction false} ConcatSingle(s: string)
    ensures Concat([s]) == s
  {
    assert Concat([s]) == s + Concat([]);
  }

  lemma {:induction false} ConcatWordsEmpty(ws: seq<string>)
    requires AllWords(ws)
    ensures Concat(ws) == "" <==> ws == []
  {
    if ws != [] {
      assert Concat(ws) == ws[0] + Concat(ws[1..]);
    }
  }

  lemma {:induction false} FlushedSound(w: Wrapping, indent: nat, width: nat)
    requires Sound(w, indent, width) && w.line != []
    ensures Sound(Flushed(w, indent), indent, width)
    ensures Placed(Flushed(w, indent)) == Placed(w)
  {
    var l := Render(indent, w.line);
    RenderShape(indent, width, w.line);
    ConcatAppend(w.lines, [l]);
    ConcatSingle(l);
    UnspacedAppend(Concat(w.lines), l);
  }

  /** Appending a word that fits keeps the pending line sound. */
  lemma {:induction false} PendingAppend(w: Wrapping, word: string, width: nat)
    requires Pending(w, width) && IsWord(word)
    requires w.line == [] || w.c + |w.line| + |word| <= width
    ensures Pending(Wrapping(w.lines, w.line + [word], w.c + |word|), width)
    ensures Concat(w.line + [word]) == Concat(w.line) + word
  {
    var line := w.line + [word];
    ConcatAppend(w.line, [word]);
    ConcatSingle(word);
    assert forall k :: 0 <= k < |line| ==> IsWord(line[k]) by {
      assert forall k :: 0 <= k < |w.line| ==> line[k] == w.line[k];
    }
  }

  /** Cutting `word` after its hyphen at `i` and emitting the prefix with
      the pending words keeps the invariant and loses no character. */
  lemma {:induction false} CutSound(w: Wrapping, word: string, i: nat, indent: nat, width: nat)
    requires i < |word| && IsWord(word) && Sound(w, indent, width)
    requires w.c + |w.line| + i + 1 <= width
    ensures var w' := Flushed(w.(line := w.line + [word[..i + 1]]), indent);
      Sound(w', indent, width) && Placed(w') + word[i + 1..] == Placed(w) + word
  {
    var prefix := word[..i + 1];
    assert IsWord(prefix) by {
      assert forall j :: 0 <= j < |prefix| ==> prefix[j] == word[j];
    }
    var v := Wrapping(w.lines, w.line + [prefix], w.c + |prefix|);
    PendingAppend(w, prefix, width);
    assert Sound(v, indent, width);
    FlushedSound(v, indent, width);
    assert Placed(v) == Placed(w) + prefix;
    assert word == prefix + word[i + 1..];
    assert Flushed(v, indent) == Flushed(w.(line := w.line + [prefix]), indent);
  }

  /** The hyphen search keeps the invariant, hands back a word, and loses
      no character: what it emitted plus what is left is what it was given. */
  lemma {:induction false} HyphenateSound(w: Wrapping, word: string, b: nat, indent: nat, width: nat)
    requires b <= |word| && IsWord(word) && Sound(w, indent, width)
    requires w.c + |w.line| + |word| > width
    ensures Sound(Hyphenate(w, word, b, indent, width).1, indent, width)
    ensures IsWord(Hyphenate(w, word, b, indent, width).0)
    ensures Placed(Hyphenate(w, word, b, indent, width).1) + Hyphenate(w, word, b, indent, width).0
            == Placed(w) + word
    decreases |word|, b
  {
    var i := RFind(word, '-', b);
    if i == -1 {
    } else if w.c + |w.line| + i + 1 <= width {
      CutSound(w, word, i, indent, width);
      var w' := Flushed(w.(line := w.line + [word[..i + 1]]), indent);
      var rest := word[i + 1..];
      if |rest| > width {
        HyphenateSound(w', rest, |rest|, indent, width);
      }
    } else {
      HyphenateSound(w, word, i, indent, width);
    }
  }

  /** The test at downplay.py:37: the prefix up to and including the
      hyphen at `i` fits after the pending words. */
  predicate CutFits(w: Wrapping, i: int, width: nat) {
    w.c + |w.line| + i + 1 <= width
  }

  /** When no hyphen below `b` fits after the pending words, the search
      leaves the word and the state as they were. */
  lemma {:induction false} HyphenateNoFit(w: Wrapping, word: string, b: nat, indent: nat, width: nat)
    requires b <= |word|
    requires forall j :: 0 <= j < b && word[j] == '-' ==> !CutFits(w, j, width)
    ensures Hyphenate(w, word, b, indent, width) == (word, w)
    decreases b
  {
    var i := RFind(word, '-', b);
    if i != -1 {
      HyphenateNoFit(w, word, i, indent, width);
    }
  }

  /** The search cuts at the rightmost hyphen below `b` whose prefix fits
      after the pending words: the pending words and the prefix become a
      line, and the search goes on over the rest while it is wider than
      `width`. */
  lemma {:induction false} HyphenateRightmost(w: Wrapping, word: string, b: nat, i: nat, indent: nat, width: nat)
    requires b <= |word| && i < b && word[i] == '-' && CutFits(w, i, width)
    requires forall j :: i < j < b && word[j] == '-' ==> !CutFits(w, j, width)
    ensures var w' := Flushed(w.(line := w.line + [word[..i + 1]]), indent);
      var rest := word[i + 1..];
      Hyphenate(w, word, b, indent, width)
      == if |rest| <= width then (rest, w') else Hyphenate(w', rest, |rest|, indent, width)
    decreases b
  {
    var k := RFind(word, '-', b);
    if k != i {
      HyphenateRightmost(w, word, k, i, indent, width);
    }
  }

  /** The search either cuts, and so adds a line, or changes nothing. */
  lemma {:induction false} HyphenateCutOrSame(w: Wrapping, word: string, b: nat, indent: nat, width: nat)
    requires b <= |word|
    ensures Hyphenate(w, word, b, indent, width) == (word, w)
            || |Hyphenate(w, word, b, indent, width).1.lines| > |w.lines|
    decreases |word|, b
  {
    var i := RFind(word, '-', b);
    if i != -1 {
      if CutFits(w, i, width) {
        var w' := Flushed(w.(line := w.line + [word[..i + 1]]), indent);
        var rest := word[i + 1..];
        if |rest| > width {
          HyphenateCutOrSame(w', rest, |rest|, indent, width);
        }
      } else {
        HyphenateCutOrSame(w, word, i, indent, width);
      }
    }
  }

  /** A hyphen below `b` that fits makes the search cut. */
  lemma {:induction false} HyphenateFitCuts(w: Wrapping, word: string, b: nat, j: nat, indent: nat, width: nat)
    requires b <= |word| && j < b && word[j] == '-' && CutFits(w, j, width)
    ensures |Hyphenate(w, word, b, indent, width).1.lines| > |w.lines|
    decreases b
  {
    var i := RFind(word, '-', b);
    if CutFits(w, i, width) {
      var w' := Flushed(w.(line := w.line + [word[..i + 1]]), indent);
      var rest := word[i + 1..];
      if |rest| > width {
        HyphenateCutOrSame(w', rest, |rest|, indent, width);
      }
    } else {
      HyphenateFitCuts(w, word, i, j, indent, width);
    }
  }

  /** Once the search has cut, what it leaves wider than `width` has no
      hyphen an empty line could cut at: that fragment is one the search
      could not break. */
  lemma {:induction false} HyphenateLeftover(w: Wrapping, word: string, b: nat, indent: nat, width: nat)
    requires b <= |word|
    ensures var (rest, v) := Hyphenate(w, word, b, indent, width);
      v != w && |rest| > width ==> forall j :: 0 <= j < width && j < |rest| ==> rest[j] != '-'
    decreases |word|, b
  {
    var i := RFind(word, '-', b);
    if i == -1 {
    } else if CutFits(w, i, width) {
      var w' := Flushed(w.(line := w.line + [word[..i + 1]]), indent);
      var rest := word[i + 1..];
      if |rest| > width {
        HyphenateLeftover(w', rest, |rest|, indent, width);
        HyphenateCutOrSame(w', rest, |rest|, indent, width);
        if Hyphenate(w', rest, |rest|, indent, width) == (rest, w') {
          forall j | 0 <= j < width && j < |rest|
            ensures rest[j] != '-'
          {
            if rest[j] == '-' {
              HyphenateFitCuts(w', rest, |rest|, j, indent, width);
            }
          }
        }
      }
    } else {
      HyphenateLeftover(w, word, i, indent, width);
    }
  }

  /** After `MakeRoom` nothing is pending. */
  lemma {:induction false} MakeRoomSound(w: Wrapping, word: string, indent: nat, width: nat)
    requires IsWord(word) && Sound(w, indent, width)
    requires w.c + |w.line| + |word| > width
    ensures var (rest, v) := MakeRoom(w, word, indent, width);
      Sound(v, indent, width) && v.line == [] && v.c == 0 && IsWord(rest)
      && Placed(v) + rest == Placed(w) + word
  {
    HyphenateSound(w, word, |word|, indent, width);
    var (rest, h) := Hyphenate(w, word, |word|, indent, width);
    ConcatWordsEmpty(h.line);
    if h.c != 0 {
      FlushedSound(h, indent, width);
    }
  }

  lemma {:induction false} PlaceSound(w: Wrapping, word: string, indent: nat, width: nat)
    requires IsWord(word) && Sound(w, indent, width)
    ensures Sound(Place(w, word, indent, width), indent, width)
    ensures Placed(Place(w, word, indent, width)) == Placed(w) + word
  {
    if w.c + |w.line| + |word| > width {
      MakeRoomSound(w, word, indent, width);
      var (rest, v) := MakeRoom(w, word, indent, width);
      AppendSound(v, rest, indent, width);
      assert Place(w, word, indent, width) == Wrapping(v.lines, v.line + [rest], v.c + |rest|);
    } else {
      AppendSound(w, word, indent, width);
      assert Place(w, word, indent, width) == Wrapping(w.lines, w.line + [word], w.c + |word|);
    }
  }

  /** Adding a word to a line it fits on, or to an empty line. */
  lemma {:induction false} AppendSound(w: Wrapping, word: string, indent: nat, width: nat)
    requires IsWord(word) && Sound(w, indent, width)
    requires w.line == [] || w.c + |w.line| + |word| <= width
    ensures var v := Wrapping(w.lines, w.line + [word], w.c + |word|);
      Sound(v, indent, width) && Placed(v) == Placed(w) + word
  {
    PendingAppend(w, word, width);
  }

  lemma {:induction false} PlaceAllSound(w: Wrapping, words: seq<string>, indent: nat, width: nat)
    requires AllWords(words) && Sound(w, indent, width)
    ensures Sound(PlaceAll(w, words, indent, width), indent, width)
    ensures Placed(PlaceAll(w, words, indent, width)) == Placed(w) + Concat(words)
    decreases |words|
  {
    if words != [] {
      var v := Place(w, words[0], indent, width);
      assert IsWord(words[0]);
      assert AllWords(words[1..]) by {
        assert forall k :: 0 <= k < |words| - 1 ==> words[1..][k] == words[k + 1];
      }
      PlaceSound(w, words[0], indent, width);
      PlaceAllSound(v, words[1..], indent, width);
      assert PlaceAll(w, words, indent, width) == PlaceAll(v, words[1..], indent, width);
      assert Concat(words) == words[0] + Concat(words[1..]);
      assert Placed(w) + Concat(words) == (Placed(w) + words[0]) + Concat(words[1..]);
    }
  }

  lemma {:induction false} WrappedSound(text: string, indent: nat, width: nat)
    ensures var ls := Wrapped(text, indent, width);
      (forall k :: 0 <= k < |ls| ==> WellShaped(ls[k], indent, width))
      && Unspaced(Concat(ls)) == Concat(Split(text))
  {
    var words := Split(text);
    var w := PlaceAll(Start, words, indent, width);
    SplitWords(text);
    StartSound(indent, width);
    PlaceAllSound(Start, words, indent, width);
    var f := if |w.line| != 0 then Flushed(w, indent) else w;
    if |w.line| != 0 {
      FlushedSound(w, indent, width);
    }
    assert Wrapped(text, indent, width) == f.lines;
    FinishedSound(f, indent, width);
  }

  lemma {:induction false} StartSound(indent: nat, width: nat)
    ensures Sound(Start, indent, width) && Placed(Start) == ""
  {
    assert Concat([]) == "" && Unspaced("") == "";
  }

  /** Once nothing is pending, the lines hold everything placed. */
  lemma {:induction false} FinishedSound(f: Wrapping, indent: nat, width: nat)
    requires Sound(f, indent, width) && f.line == []
    ensures forall k :: 0 <= k < |f.lines| ==> WellShaped(f.lines[k], indent, width)
    ensures Unspaced(Concat(f.lines)) == Placed(f)
  {
    assert Concat(f.line) == "";
  }

  // ---------------------------------------------------------------------
  // The properties of `format_paragraph`.

  /** Every line is `indent` spaces then words separated by single spaces,
      and a line wider than `width` is a single word or fragment. */
  lemma {:induction false} WrappedShape(text: string, indent: nat, width: nat)
    ensures forall l :: l in Wrapped(text, indent, width) ==> WellShaped(l, indent, width)
  {
    WrappedSound(text, indent, width);
  }

  /** No character is lost, added or moved: without separators the lines
      read as the words of the text, in order. */
  lemma {:induction false} WrappedKeepsWords(text: string, indent: nat, width: nat)
    ensures Unspaced(Concat(Wrapped(text, indent, width))) == Concat(Split(text))
    ensures Unspaced(Concat(Wrapped(text, indent, width))) == Unspaced(text)
  {
    WrappedSound(text, indent, width);
    SplitKeepsText(text);
  }

  /** A text without words wraps to no lines, and only such a text does. */
  lemma {:induction false} WrappedEmpty(text: string, indent: nat, width: nat)
    ensures Wrapped(text, indent, width) == [] <==> Unspaced(text) == ""
  {
    WrappedKeepsWords(text, indent, width);
    SplitEmpty(text);
    if Split(text) == [] {
      assert Wrapped(text, indent, width) == [];
    }
  }

  // ---------------------------------------------------------------------
  // Word boundaries.

  /** The words of each line, one line after the other. */
  function LineWords(lines: seq<string>): seq<string> {
    if lines == [] then [] else LineWords(lines[..|lines| - 1]) + Split(lines[|lines| - 1])
  }

  lemma {:induction false} LineWordsAppend(a: seq<string>, b: seq<string>)
    ensures LineWords(a + b) == LineWords(a) + LineWords(b)
    decreases |b|
  {
    if b == [] {
      assert a + b == a;
    } else {
      var n := |b| - 1;
      var ab := a + b;
      assert ab[..|ab| - 1] == a + b[..n] && ab[|ab| - 1] == b[n];
      LineWordsAppend(a, b[..n]);
      assert LineWords(ab) == LineWords(a + b[..n]) + Split(b[n]);
      assert LineWords(b) == LineWords(b[..n]) + Split(b[n]);
    }
  }

  /** No word of `text` holds a hyphen, so the hyphen search never cuts. */
  predicate Unhyphenated(text: string) {
    forall k :: 0 <= k < |Split(text)| ==> '-' !in Split(text)[k]
  }

  /** Leading spaces add no word. */
  lemma {:induction false} SplitSpaces(n: nat, x: string)
    ensures Split(Spaces(n) + x) == Split(x)
  {
    if n == 0 {
      assert Spaces(0) + x == x;
    } else {
      assert (Spaces(n) + x)[0] == ' ';
      assert (Spaces(n) + x)[1..] == Spaces(n - 1) + x;
      SplitSpaces(n - 1, x);
    }
  }

  /** A rendered line splits back into its words. */
  lemma {:induction false} RenderWords(indent: nat, line: seq<string>)
    requires AllWords(line)
    ensures Split(Render(indent, line)) == line
  {
    SplitSpaces(indent, Join(line));
    SplitJoin(line);
  }

  lemma {:induction false} LineWordsFlushed(w: Wrapping, indent: nat)
    requires AllWords(w.line)
    ensures LineWords(Flushed(w, indent).lines) == LineWords(w.lines) + w.line
  {
    var ls := Flushed(w, indent).lines;
    assert ls[..|ls| - 1] == w.lines && ls[|ls| - 1] == Render(indent, w.line);
    RenderWords(indent, w.line);
  }

  /** With no hyphen to cut at, the search hands the word back untouched. */
  lemma {:induction false} HyphenateWhole(w: Wrapping, word: string, b: nat, indent: nat, width: nat)
    requires b <= |word| && '-' !in word
    ensures Hyphenate(w, word, b, indent, width) == (word, w)
  {
    var i := RFind(word, '-', b);
    assert i == -1;
  }

  lemma {:induction false} AllWordsAppend(line: seq<string>, word: string)
    requires AllWords(line) && IsWord(word)
    ensures AllWords(line + [word])
  {
    assert forall k :: 0 <= k < |line| ==> (line + [word])[k] == line[k];
  }

  /** Placing a word with no hyphen: the words of the lines and the
      pending words are those so far, then this word, whole. */
  lemma {:induction false} PlaceWhole(w: Wrapping, word: string, indent: nat, width: nat)
    requires AllWords(w.line) && IsWord(word) && '-' !in word
    ensures var v := Place(w, word, indent, width);
      AllWords(v.line) && LineWords(v.lines) + v.line == LineWords(w.lines) + w.line + [word]
  {
    var v := Place(w, word, indent, width);
    if w.c + |w.line| + |word| > width {
      HyphenateWhole(w, word, |word|, indent, width);
      if w.c != 0 {
        LineWordsFlushed(w, indent);
        assert v == Wrapping(Flushed(w, indent).lines, [word], |word|);
        assert AllWords([word]);
      } else {
        assert v == Wrapping(w.lines, w.line + [word], w.c + |word|);
        AllWordsAppend(w.line, word);
      }
    } else {
      assert v == Wrapping(w.lines, w.line + [word], w.c + |word|);
      AllWordsAppend(w.line, word);
    }
  }

  lemma {:induction false} WholeWordsTail(words: seq<string>)
    requires words != [] && AllWords(words)
    requires forall k :: 0 <= k < |words| ==> '-' !in words[k]
    ensures AllWords(words[1..])
    ensures forall k :: 0 <= k < |words| - 1 ==> '-' !in words[1..][k]
  {
    assert forall k :: 0 <= k < |words| - 1 ==> words[1..][k] == words[k + 1];
  }

  lemma {:induction false} AppendHeadTail(before: seq<string>, words: seq<string>)
    requires words != []
    ensures (before + [words[0]]) + words[1..] == before + words
  {
    assert words == [words[0]] + words[1..];
  }

  lemma {:induction false} PlaceAllWhole(w: Wrapping, words: seq<string>, indent: nat, width: nat)
    requires AllWords(w.line) && AllWords(words)
    requires forall k :: 0 <= k < |words| ==> '-' !in words[k]
    ensures var v := PlaceAll(w, words, indent, width);
      AllWords(v.line) && LineWords(v.lines) + v.line == LineWords(w.lines) + w.line + words
    decreases |words|
  {
    if words != [] {
      var v1 := Place(w, words[0], indent, width);
      PlaceWhole(w, words[0], indent, width);
      WholeWordsTail(words);
      PlaceAllWhole(v1, words[1..], indent, width);
      AppendHeadTail(LineWords(w.lines) + w.line, words);
    }
  }

  /** For a text without hyphens the lines hold the text's words whole, in
      order, and no others: no word is cut, glued to another or moved. */
  lemma {:induction false} WrappedWords(text: string, indent: nat, width: nat)
    requires Unhyphenated(text)
    ensures LineWords(Wrapped(text, indent, width)) == Split(text)
  {
    var words := Split(text);
    SplitWords(text);
    PlaceAllWhole(Start, words, indent, width);
    assert LineWords(Start.lines) + Start.line + words == words;
    var w := PlaceAll(Start, words, indent, width);
    if |w.line| != 0 {
      LineWordsFlushed(w, indent);
      assert Wrapped(text, indent, width) == Flushed(w, indent).lines;
    } else {
      assert w.line == [] && LineWords(w.lines) + w.line == LineWords(w.lines);
    }
  }

  // ---------------------------------------------------------------------
  // The lower half of the fit test: a line ends only when the next word
  // does not fit after it.

  /** The first word of each line but the first would not have fit after
      the line before it: with that line's content, one space and the word,
      the test at downplay.py:30 overflows. */
  ghost predicate Greedy(ls: seq<string>, indent: nat, width: nat) {
    forall k :: 0 < k < |ls| ==>
      |Split(ls[k])| > 0 && |ls[k - 1]| - indent + 1 + |Split(ls[k])[0]| > width
  }

  /** The loop invariant behind `Greedy`: the finished lines are greedy, a
      finished line exists only once a word is pending, and the first
      pending word did not fit after the last finished line. */
  ghost predicate GreedySoFar(w: Wrapping, indent: nat, width: nat) {
    AllWords(w.line) && w.c == |Concat(w.line)|
    && Greedy(w.lines, indent, width)
    && (w.line == [] ==> w.lines == [])
    && (w.lines != [] ==> |w.lines[|w.lines| - 1]| - indent + 1 + |w.line[0]| > width)
  }

  /** Appending a line to greedy lines keeps them greedy when its first
      word did not fit after the last of them. */
  lemma {:induction false} GreedyAppend(ls: seq<string>, l: string, indent: nat, width: nat)
    requires Greedy(ls, indent, width) && |Split(l)| > 0
    requires ls != [] ==> |ls[|ls| - 1]| - indent + 1 + |Split(l)[0]| > width
    ensures Greedy(ls + [l], indent, width)
  {
    var ls' := ls + [l];
    forall k | 0 < k < |ls'|
      ensures |Split(ls'[k])| > 0 && |ls'[k - 1]| - indent + 1 + |Split(ls'[k])[0]| > width
    {
      if k < |ls| {
        assert ls'[k - 1] == ls[k - 1] && ls'[k] == ls[k];
      } else {
        assert ls'[k - 1] == ls[|ls| - 1] && ls'[k] == l;
      }
    }
  }

  /** The pending words rendered as a line: its width is the test's
      `c + len(line)` less the one column the test adds, and it splits back
      into those words. */
  lemma {:induction false} RenderedWidth(w: Wrapping, indent: nat)
    requires AllWords(w.line) && w.c == |Concat(w.line)| && w.line != []
    ensures |Render(indent, w.line)| == indent + w.c + |w.line| - 1
    ensures Split(Render(indent, w.line)) == w.line
  {
    JoinWords(w.line);
    RenderWords(indent, w.line);
  }

  /** A word that overflows the pending words: they become a line, and the
      word, left whole, starts the next one. */
  lemma {:induction false} OverflowGreedy(w: Wrapping, word: string, indent: nat, width: nat)
    requires GreedySoFar(w, indent, width) && IsWord(word) && '-' !in word
    requires w.c + |w.line| + |word| > width
    ensures GreedySoFar(Place(w, word, indent, width), indent, width)
  {
    HyphenateWhole(w, word, |word|, indent, width);
    ConcatWordsEmpty(w.line);
    ConcatSingle(word);
    assert AllWords([word]);
    var v := Place(w, word, indent, width);
    if w.c != 0 {
      var l := Render(indent, w.line);
      RenderedWidth(w, indent);
      GreedyAppend(w.lines, l, indent, width);
      assert v == Wrapping(w.lines + [l], [word], |word|);
    } else {
      assert v == Wrapping([], [word], |word|);
    }
  }

  /** A word that fits joins the pending words; the first of them, and so
      the last line's overflow, stay as they were. */
  lemma {:induction false} FitGreedy(w: Wrapping, word: string, indent: nat, width: nat)
    requires GreedySoFar(w, indent, width) && IsWord(word)
    requires w.c + |w.line| + |word| <= width
    ensures GreedySoFar(Place(w, word, indent, width), indent, width)
  {
    assert Place(w, word, indent, width) == Wrapping(w.lines, w.line + [word], w.c + |word|);
    AllWordsAppend(w.line, word);
    ConcatAppend(w.line, [word]);
    ConcatSingle(word);
    if w.line != [] {
      assert (w.line + [word])[0] == w.line[0];
    }
  }

  lemma {:induction false} PlaceGreedy(w: Wrapping, word: string, indent: nat, width: nat)
    requires GreedySoFar(w, indent, width) && IsWord(word) && '-' !in word
    ensures GreedySoFar(Place(w, word, indent, width), indent, width)
  {
    if w.c + |w.line| + |word| > width {
      OverflowGreedy(w, word, indent, width);
    } else {
      FitGreedy(w, word, indent, width);
    }
  }

  lemma {:induction false} PlaceAllGreedy(w: Wrapping, words: seq<string>, indent: nat, width: nat)
    requires GreedySoFar(w, indent, width) && AllWords(words)
    requires forall k :: 0 <= k < |words| ==> '-' !in words[k]
    ensures GreedySoFar(PlaceAll(w, words, indent, width), indent, width)
    decreases |words|
  {
    if words != [] {
      PlaceGreedy(w, words[0], indent, width);
      assert forall k :: 0 <= k < |words| - 1 ==> words[1..][k] == words[k + 1];
      PlaceAllGreedy(Place(w, words[0], indent, width), words[1..], indent, width);
    }
  }

  /** For a text without hyphens every line break is forced: the first
      word of each line would not have fit after the line before it. With
      `WrappedShape`, which bounds every line of several words by `width`,
      this pins the breaks to those of the fit test as written. */
  lemma {:induction false} WrappedGreedy(text: string, indent: nat, width: nat)
    requires Unhyphenated(text)
    ensures Greedy(Wrapped(text, indent, width), indent, width)
  {
    var words := Split(text);
    SplitWords(text);
    assert Concat([]) == "";
    PlaceAllGreedy(Start, words, indent, width);
    var w := PlaceAll(Start, words, indent, width);
    if |w.line| != 0 {
      var l := Render(indent, w.line);
      RenderedWidth(w, indent);
      GreedyAppend(w.lines, l, indent, width);
      assert Wrapped(text, indent, width) == w.lines + [l];
    }
  }
}

/** Two paragraphs worked through `format_paragraph`. */
module WordWrapExamples {
  import opened Strings
  import opened WordWrap

  lemma {:induction false} HelloWorldSplit()
    ensures Split("Hello world") == ["Hello", "world"]
  {
    var ws := ["Hello", "world"];
    assert IsWord(ws[0]) && IsWord(ws[1]);
    assert Join(ws) == Join(["Hello"]) + " " + "world";
    assert Join(ws) == "Hello world";
    SplitJoin(ws);
  }

  lemma {:induction false} HelloWorldPlace()
    ensures PlaceAll(Start, ["Hello", "world"], 0, 60) == Wrapping([], ["Hello", "world"], 10)
  {
    var ws := ["Hello", "world"];
    var w1 := Wrapping([], ["Hello"], 5);
    var w2 := Wrapping([], ["Hello", "world"], 10);
    assert Place(Start, "Hello", 0, 60) == w1;
    assert Place(w1, "world", 0, 60) == w2;
    assert ws[1..] == ["world"] && ws[1..][1..] == [];
    assert PlaceAll(w1, ["world"], 0, 60) == PlaceAll(w2, [], 0, 60);
  }

  lemma {:induction false} HelloWorldWrapped(t: string)
    requires Split(t) == ["Hello", "world"]
    ensures Wrapped(t, 0, 60) == ["Hello world"]
  {
    HelloWorldPlace();
    assert Render(0, ["Hello", "world"]) == "Hello world" by {
      assert Spaces(0) == "";
      assert Join(["Hello", "world"]) == Join(["Hello"]) + " " + "world";
    }
  }

  /** Short words that fit stay on one line. */
  lemma {:induction false} HelloWorldExample()
    ensures Wrapped("Hello world", 0, 60) == ["Hello world"]
  {
    HelloWorldSplit();
    HelloWorldWrapped("Hello world");
  }

  lemma {:induction false} HyphenExampleHyphenate()
    ensures Hyphenate(Start, "super-duper-long", 16, 0, 10) == ("duper-long", Wrapping(["super-"], [], 0))
  {
    var t := "super-duper-long";
    assert t[15] != '-' && t[14] != '-' && t[13] != '-' && t[12] != '-' && t[11] == '-';
    assert RFind(t, '-', 16) == RFind(t, '-', 12) == 11;
    assert t[10] != '-' && t[9] != '-' && t[8] != '-' && t[7] != '-' && t[6] != '-' && t[5] == '-';
    assert RFind(t, '-', 11) == RFind(t, '-', 6) == 5;
    var w1 := Flushed(Start.(line := [t[..6]]), 0);
    assert t[..6] == "super-" && t[6..] == "duper-long";
    assert Spaces(0) == "";
    assert Join(["super-"]) == "super-";
    assert Render(0, ["super-"]) == "super-";
    assert w1 == Wrapping(["super-"], [], 0);
    assert Hyphenate(Start, t, 11, 0, 10) == ("duper-long", w1);
  }

  lemma {:induction false} HyphenExamplePlace()
    ensures PlaceAll(Start, ["super-duper-long"], 0, 10) == Wrapping(["super-"], ["duper-long"], 10)
  {
    HyphenExampleHyphenate();
    var w2 := Wrapping(["super-"], ["duper-long"], 10);
    assert Place(Start, "super-duper-long", 0, 10) == w2 by {
      assert MakeRoom(Start, "super-duper-long", 0, 10) == ("duper-long", Wrapping(["super-"], [], 0));
    }
    assert PlaceAll(Start, ["super-duper-long"], 0, 10) == PlaceAll(w2, [], 0, 10);
  }

  lemma {:induction false} HyphenExampleSplit()
    ensures Split("super-duper-long") == ["super-duper-long"]
  {
    var t := "super-duper-long";
    assert IsWord(t);
    assert Join([t]) == t;
    SplitJoin([t]);
  }

  lemma {:induction false} HyphenWrapped(t: string)
    requires Split(t) == ["super-duper-long"]
    ensures Wrapped(t, 0, 10) == ["super-", "duper-long"]
  {
    HyphenExamplePlace();
    assert Render(0, ["duper-long"]) == "duper-long" by {
      assert Spaces(0) == "";
      assert Join(["duper-long"]) == "duper-long";
    }
  }

  /** A word too wide for the line is cut after the last hyphen that lets
      the first part fit; the rest, which fits, goes on the next line. */
  lemma {:induction false} HyphenExample()
    ensures Wrapped("super-duper-long", 0, 10) == ["super-", "duper-long"]
  {
    HyphenExampleSplit();
    HyphenWrapped("super-duper-long");
  }

  lemma {:induction false} PendingCutHyphenate()
    ensures Hyphenate(Wrapping([], ["abcdef"], 6), "ghijklm-nopqrs", 14, 0, 10)
            == ("ghijklm-nopqrs", Wrapping([], ["abcdef"], 6))
  {
    var t := "ghijklm-nopqrs";
    var w := Wrapping([], ["abcdef"], 6);
    assert t[13] != '-' && t[12] != '-' && t[11] != '-' && t[10] != '-' && t[9] != '-' && t[8] != '-' && t[7] == '-';
    assert RFind(t, '-', 14) == RFind(t, '-', 8) == 7;
    assert t[6] != '-' && t[5] != '-' && t[4] != '-' && t[3] != '-' && t[2] != '-' && t[1] != '-' && t[0] != '-';
    assert RFind(t, '-', 7) == RFind(t, '-', 0) == -1;
    assert Hyphenate(w, t, 14, 0, 10) == Hyphenate(w, t, 7, 0, 10);
  }

  lemma {:induction false} PendingCutFlushed()
    ensures Flushed(Wrapping([], ["abcdef"], 6), 0) == Wrapping(["abcdef"], [], 0)
  {
    assert Spaces(0) == "";
    assert Join(["abcdef"]) == "abcdef";
    assert Render(0, ["abcdef"]) == "abcdef";
  }

  lemma {:induction false} PendingCutMakeRoom()
    ensures MakeRoom(Wrapping([], ["abcdef"], 6), "ghijklm-nopqrs", 0, 10)
            == ("ghijklm-nopqrs", Wrapping(["abcdef"], [], 0))
  {
    PendingCutHyphenate();
    PendingCutFlushed();
  }

  /** As written, the hyphen search measures a cut against the words
      already pending: "ghijklm-" would fit an empty 10-column line, but not
      after "abcdef", so that line is emitted and the word goes on the next
      line whole, wider than the column. */
  lemma {:induction false} PendingBlocksCut()
    ensures |"ghijklm-"| <= 10
    ensures Place(Wrapping([], ["abcdef"], 6), "ghijklm-nopqrs", 0, 10)
            == Wrapping(["abcdef"], ["ghijklm-nopqrs"], 14)
  {
    var w, t := Wrapping([], ["abcdef"], 6), "ghijklm-nopqrs";
    assert w.c + |w.line| + |t| > 10;
    PendingCutMakeRoom();
  }
}
