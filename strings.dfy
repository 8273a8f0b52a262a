/** The Python string built-ins the layout engine is written with:
    `str.split()` without arguments, `str.rfind`, `" ".join`, `" " * n`
    and `%d` formatting of a page number. */
module Strings {

  /** `str.isspace` for one character: the separators of `str.split()`. */
  predicate IsSpace(ch: char) {
    ch == ' ' || ('\t' <= ch <= '\r') || ('\U{1c}' <= ch <= '\U{1f}')
    || ch == '\U{85}' || ch == '\U{a0}' || ch == '\U{1680}'
    || ('\U{2000}' <= ch <= '\U{200a}') || ch == '\U{2028}' || ch == '\U{2029}'
    || ch == '\U{202f}' || ch == '\U{205f}' || ch == '\U{3000}'
  }

  predicate NoSpace(s: string) {
    forall i :: 0 <= i < |s| ==> !IsSpace(s[i])
  }

  /** What `str.split()` yields: a non-empty run of non-separators. */
  predicate IsWord(s: string) {
    s != "" && NoSpace(s)
  }

  /** `" " * n` */
  function Spaces(n: nat): (s: string)
    ensures |s| == n
    ensures forall i :: 0 <= i < n ==> s[i] == ' '
  {
    seq(n, _ => ' ')
  }

  /** The characters of `s` that are not separators, in their order. */
  function Unspaced(s: string): string {
    if s == "" then "" else (if IsSpace(s[0]) then "" else [s[0]]) + Unspaced(s[1..])
  }

  lemma {:induction false} UnspacedAppend(a: string, b: string)
    ensures Unspaced(a + b) == Unspaced(a) + Unspaced(b)
  {
    if a == "" {
      assert a + b == b;
    } else {
      assert (a + b)[1..] == a[1..] + b;
      UnspacedAppend(a[1..], b);
    }
  }

  lemma {:induction false} UnspacedWord(w: string)
    requires NoSpace(w)
    ensures Unspaced(w) == w
  {
    if w != "" {
      UnspacedWord(w[1..]);
    }
  }

  lemma {:induction false} UnspacedSpaces(n: nat)
    ensures Unspaced(Spaces(n)) == ""
  {
    if n > 0 {
      assert Spaces(n)[1..] == Spaces(n - 1);
      UnspacedSpaces(n - 1);
    }
  }

  /** `"".join(ws)` */
  function Concat(ws: seq<string>): string {
    if ws == [] then "" else ws[0] + Concat(ws[1..])
  }

  lemma {:induction false} ConcatAppend(a: seq<string>, b: seq<string>)
    ensures Concat(a + b) == Concat(a) + Concat(b)
  {
    if a == [] {
      assert a + b == b;
    } else {
      assert (a + b)[1..] == a[1..] + b;
      ConcatAppend(a[1..], b);
    }
  }

  /** Length of the run of non-separators that `s` starts with. */
  function WordLength(s: string): (n: nat)
    ensures n <= |s|
    ensures NoSpace(s[..n])
    ensures n < |s| ==> IsSpace(s[n])
  {
    if s == "" || IsSpace(s[0]) then 0
    else
      var m := WordLength(s[1..]);
      assert s[..m + 1] == [s[0]] + s[1..][..m];
      m + 1
  }

  /** `s.split()`: the maximal runs of non-separators, left to right. */
  function Split(s: string): seq<string>
    decreases |s|
  {
    if s == "" then []
    else if IsSpace(s[0]) then Split(s[1..])
    else
      var n := WordLength(s);
      [s[..n]] + Split(s[n..])
  }

  /** Every piece `str.split()` yields is a word. */
  lemma {:induction false} SplitWords(s: string)
    ensures forall k :: 0 <= k < |Split(s)| ==> IsWord(Split(s)[k])
    decreases |s|
  {
    if s == "" {
    } else if IsSpace(s[0]) {
      SplitWords(s[1..]);
    } else {
      var n := WordLength(s);
      SplitWords(s[n..]);
      var ws := Split(s);
      assert ws == [s[..n]] + Split(s[n..]);
      forall k | 0 <= k < |ws|
        ensures IsWord(ws[k])
      {
        if k > 0 {
          assert ws[k] == Split(s[n..])[k - 1];
        }
      }
    }
  }

  /** The words of `s` are exactly its non-separator characters. */
  lemma {:induction false} SplitKeepsText(s: string)
    ensures Concat(Split(s)) == Unspaced(s)
    decreases |s|
  {
    if s == "" {
    } else if IsSpace(s[0]) {
      SplitKeepsText(s[1..]);
    } else {
      var n := WordLength(s);
      SplitKeepsText(s[n..]);
      assert s == s[..n] + s[n..];
      UnspacedAppend(s[..n], s[n..]);
      UnspacedWord(s[..n]);
      assert Concat(Split(s)) == s[..n] + Concat(Split(s[n..]));
    }
  }

  /** A text has no words exactly when it is all separators. */
  lemma {:induction false} SplitEmpty(s: string)
    ensures Split(s) == [] <==> Unspaced(s) == ""
  {
    SplitKeepsText(s);
    if Split(s) != [] {
      var ws := Split(s);
      SplitWords(s);
      assert IsWord(ws[0]);
      assert Concat(ws) == ws[0] + Concat(ws[1..]);
    }
  }

  /** `" ".join(ws)` */
  function Join(ws: seq<string>): string {
    if |ws| == 0 then ""
    else if |ws| == 1 then ws[0]
    else Join(ws[..|ws| - 1]) + " " + ws[|ws| - 1]
  }

  lemma {:induction false} WordLengthOfWord(w: string)
    requires NoSpace(w)
    ensures WordLength(w) == |w|
  {
  }

  lemma {:induction false} WordLengthBeforeSpace(a: string, c: string)
    requires WordLength(a) < |a| || (c != "" && IsSpace(c[0]))
    ensures WordLength(a + c) == WordLength(a)
  {
    if a == "" {
    } else if IsSpace(a[0]) {
      assert (a + c)[0] == a[0];
    } else {
      assert (a + c)[1..] == a[1..] + c;
      WordLengthBeforeSpace(a[1..], c);
    }
  }

  /** A separator between two texts separates their words. */
  lemma {:induction false} SplitAtSpace(a: string, c: string)
    requires c != "" && IsSpace(c[0])
    ensures Split(a + c) == Split(a) + Split(c)
    decreases |a|
  {
    if a == "" {
      assert a + c == c;
    } else if IsSpace(a[0]) {
      assert (a + c)[0] == a[0] && (a + c)[1..] == a[1..] + c;
      SplitAtSpace(a[1..], c);
    } else {
      var m := WordLength(a);
      SplitAtSpace(a[m..], c);
      SplitWordBeforeSpace(a, c);
    }
  }

  /** The step of `SplitAtSpace` for a text that starts with a word. */
  lemma {:induction false} SplitWordBeforeSpace(a: string, c: string)
    requires c != "" && IsSpace(c[0]) && a != "" && !IsSpace(a[0])
    requires Split(a[WordLength(a)..] + c) == Split(a[WordLength(a)..]) + Split(c)
    ensures Split(a + c) == Split(a) + Split(c)
  {
    var m := WordLength(a);
    WordLengthBeforeSpace(a, c);
    SplitFirstWord(a);
    SplitFirstWord(a + c);
    AppendSlices(a, c, m);
    AppendAssociative([a[..m]], Split(a[m..]), Split(c));
  }

  lemma {:induction false} SplitFirstWord(s: string)
    requires s != "" && !IsSpace(s[0])
    ensures Split(s) == [s[..WordLength(s)]] + Split(s[WordLength(s)..])
  {
  }

  lemma {:induction false} AppendSlices(a: string, c: string, m: nat)
    requires 0 < m <= |a|
    ensures (a + c)[0] == a[0]
    ensures (a + c)[..m] == a[..m] && (a + c)[m..] == a[m..] + c
  {
  }

  lemma {:induction false} AppendAssociative(x: seq<string>, y: seq<string>, z: seq<string>)
    ensures x + (y + z) == (x + y) + z
  {
  }

  /** Splitting words joined by single spaces gives the words back. */
  lemma {:induction false} SplitJoin(ws: seq<string>)
    requires forall k :: 0 <= k < |ws| ==> IsWord(ws[k])
    ensures Split(Join(ws)) == ws
  {
    if |ws| == 0 {
    } else {
      var w := ws[|ws| - 1];
      WordLengthOfWord(w);
      assert !IsSpace(w[0]) && w[..|w|] == w && w[|w|..] == "";
      assert Split(w) == [w];
      if |ws| > 1 {
        SplitJoin(ws[..|ws| - 1]);
        SplitAtSpace(Join(ws[..|ws| - 1]), " " + w);
        assert Join(ws) == Join(ws[..|ws| - 1]) + (" " + w);
        assert (" " + w)[1..] == w;
        assert ws == ws[..|ws| - 1] + [w];
      }
    }
  }

  /** `s.rfind(ch, 0, b)`: the last index below `b` holding `ch`, or -1. */
  function RFind(s: string, ch: char, b: nat): (i: int)
    requires b <= |s|
    ensures -1 <= i < b
    ensures 0 <= i ==> s[i] == ch
    ensures forall j :: i < j < b ==> s[j] != ch
  {
    if b == 0 then -1
    else if s[b - 1] == ch then b - 1
    else RFind(s, ch, b - 1)
  }

  function DigitChar(d: nat): char
    requires d < 10
  {
    "0123456789"[d]
  }

  /** `"%d" % n` for a non-negative `n`. */
  function Decimal(n: nat): (s: string)
    ensures s != ""
    ensures forall i :: 0 <= i < |s| ==> '0' <= s[i] <= '9'
    ensures n > 0 ==> s[0] != '0'
  {
    if n < 10 then [DigitChar(n)] else Decimal(n / 10) + [DigitChar(n % 10)]
  }

  /** The value of a string of decimal digits. */
  function DecimalValue(s: string): nat
    requires forall i :: 0 <= i < |s| ==> '0' <= s[i] <= '9'
  {
    if s == "" then 0
    else 10 * DecimalValue(s[..|s| - 1]) + (s[|s| - 1] as int - '0' as int)
  }

  /** The page number printed is the page number. */
  lemma {:induction false} DecimalRoundTrip(n: nat)
    ensures DecimalValue(Decimal(n)) == n
  {
    if n >= 10 {
      DecimalRoundTrip(n / 10);
      var s := Decimal(n);
      assert s[..|s| - 1] == Decimal(n / 10);
    }
  }
}
