/**
 * The label fitter of the visualizer: `shortenToWithinRadius` shortens the
 * text of a node label so that it fits inside a circle of a given radius.
 * It hard-breaks every word that is too wide for a line, then cuts the
 * whole label with an ellipsis when it exceeds the line budget.
 *
 * The markers `-<br>` and `&hellip;` are HTML for the renderer; here they
 * are opaque strings. The radius is an exact real: rounding of the
 * double-precision divisions is not modelled.
 */
module TextManipulation {
  import opened JsString

  /** Ratio between the radius and the length of one line. */
  const MaxWidthDivider: real := 3.1
  /** Ratio between the radius and the number of lines. */
  const LineDivider: real := 10.0
  /** How many characters to go back from the line width before the hard break. */
  const LineBreakBackTrack: real := 2.0
  /** A cut label this short or shorter is dropped altogether. */
  const MinimumLength: nat := 4

  const BreakMarker: string := "-<br>"
  const Ellipsis: string := "&hellip;"

  /** The characters per line for a circle of this radius. */
  function MaxWidth(radius: real): (w: real)
    ensures w * MaxWidthDivider == radius
  {
    radius / MaxWidthDivider
  }

  /** The number of lines for a circle of this radius. */
  function Lines(radius: real): (n: real)
    ensures n * LineDivider == radius
  {
    radius / LineDivider
  }

  /** The characters a label may have before it is cut: the characters per
      line times the lines. */
  function Budget(radius: real): real {
    MaxWidth(radius) * Lines(radius)
  }

  /** The budget is never negative, even for a negative radius (the product
      of two negative numbers), and it is zero only for radius zero. */
  lemma BudgetNonNegative(radius: real)
    ensures 0.0 <= Budget(radius)
    ensures Budget(radius) == 0.0 <==> radius == 0.0
  {
    var w, n := MaxWidth(radius), Lines(radius);
    if radius < 0.0 {
      assert w < 0.0 && n < 0.0;
      assert w * n > 0.0;
    } else if radius > 0.0 {
      assert w > 0.0 && n > 0.0;
      assert w * n > 0.0;
    }
  }

  /** `addBreakPoint(s, maxWidth)`: a prefix of `s`, the marker, and a
      suffix of `s`. */
  function AddBreakPoint(s: string, maxWidth: real): (r: string)
    ensures |BreakMarker| <= |r| <= |s| + |BreakMarker|
    ensures var b := |Substr(s, 0.0, maxWidth - LineBreakBackTrack)|;
      var a := |r| - b - |BreakMarker|;
      && 0 <= a <= |s|
      && r == s[..b] + BreakMarker + s[|s| - a..]
    ensures NoWhitespace(s) ==> NoWhitespace(r)
  {
    var before := Substr(s, 0.0, maxWidth - LineBreakBackTrack);
    var after := Substr(s, maxWidth - LineBreakBackTrack + 1.0, |s| as real);
    SubstrFromStart(s, maxWidth - LineBreakBackTrack);
    assert Trunc(|s| as real) == |s|;
    SubstrToEnd(s, maxWidth - LineBreakBackTrack + 1.0, |s| as real);
    MarkerKeepsNoWhitespace(before, after);
    before + BreakMarker + after
  }

  lemma MarkerKeepsNoWhitespace(before: string, after: string)
    ensures NoWhitespace(before) && NoWhitespace(after) ==> NoWhitespace(before + BreakMarker + after)
  {
    if NoWhitespace(before) && NoWhitespace(after) {
      assert NoWhitespace(BreakMarker);
      NoWhitespaceConcat(before, BreakMarker);
      NoWhitespaceConcat(before + BreakMarker, after);
    }
  }

  /** The callback of the word stage: a piece at least as long as a line
      gets a hard break, a shorter one is kept. A piece comes out empty
      exactly when it goes in empty and the line width is positive. */
  function FitPiece(s: string, maxWidth: real): (r: string)
    ensures NoWhitespace(s) ==> NoWhitespace(r)
    ensures r == [] <==> s == [] && 0.0 < maxWidth
  {
    if |s| as real >= maxWidth then AddBreakPoint(s, maxWidth) else s
  }

  /** The `map` of the word stage over the split pieces. */
  function FitPieces(pieces: seq<string>, maxWidth: real): seq<string> {
    seq(|pieces|, i requires 0 <= i < |pieces| => FitPiece(pieces[i], maxWidth))
  }

  /** The word stage: split on whitespace runs, fit every piece, rejoin
      with single spaces. The only whitespace left is the plain space. */
  function BreakLongWords(text: string, maxWidth: real): (r: string)
    ensures forall k :: 0 <= k < |r| && IsWhitespace(r[k]) ==> r[k] == ' '
  {
    var pieces := Split(text);
    var fitted := FitPieces(pieces, maxWidth);
    SplitPieces(text);
    assert forall i :: 0 <= i < |fitted| ==> NoWhitespace(pieces[i]) && NoWhitespace(fitted[i]);
    JoinSpaces(fitted);
    Join(fitted, " ")
  }

  /** Pieces without whitespace joined with `' '` hold no whitespace but
      the spaces. */
  lemma {:induction false} JoinSpaces(pieces: seq<string>)
    requires forall i :: 0 <= i < |pieces| ==> NoWhitespace(pieces[i])
    ensures forall k :: 0 <= k < |Join(pieces, " ")| && IsWhitespace(Join(pieces, " ")[k]) ==>
      Join(pieces, " ")[k] == ' '
  {
    if |pieces| > 1 {
      var tail := pieces[1..];
      forall i | 0 <= i < |tail| ensures NoWhitespace(tail[i]) {
        assert tail[i] == pieces[i + 1];
      }
      JoinSpaces(tail);
      var r := Join(pieces, " ");
      var head := pieces[0];
      assert r == head + " " + Join(tail, " ");
      forall k | 0 <= k < |r| && IsWhitespace(r[k]) ensures r[k] == ' ' {
        if k > |head| {
          assert r[k] == Join(tail, " ")[k - |head| - 1];
        }
      }
    }
  }

  /** `addEllips(text, maxWidth)`: keep the first `maxWidth - 3` characters
      and append the ellipsis, or give up with `''` when that prefix has no
      more than `MinimumLength` characters. */
  function AddEllips(text: string, maxWidth: real): (r: string)
    ensures r == [] <==> |text| <= MinimumLength || maxWidth - 3.0 < (MinimumLength + 1) as real
    ensures r != [] ==>
      && |r| > |Ellipsis|
      && |r| - |Ellipsis| == Min((maxWidth - 3.0).Floor, |text|)
      && MinimumLength < |r| - |Ellipsis|
      && r == text[..|r| - |Ellipsis|] + Ellipsis
  {
    var prefix := Substr(text, 0.0, maxWidth - 3.0);
    if |prefix| <= MinimumLength then [] else prefix + Ellipsis
  }

  /** `shortenToWithinRadius(radius, text)`. The empty text gives `''`.
      A word stage within the budget is returned as is. Over the budget the
      label is `''` exactly when a line is narrower than eight characters;
      otherwise it is a prefix of the word stage of more than
      `MinimumLength` and at most `maxWidth - 3` characters, followed by
      the ellipsis. */
  function ShortenToWithinRadius(radius: real, text: string): (r: string)
    ensures text == [] ==> r == []
    ensures text != [] && |BreakLongWords(text, MaxWidth(radius))| as real <= Budget(radius)
            ==> r == BreakLongWords(text, MaxWidth(radius))
    ensures text != [] && Budget(radius) < |BreakLongWords(text, MaxWidth(radius))| as real
            ==> var broken := BreakLongWords(text, MaxWidth(radius));
                var k := (MaxWidth(radius) - 3.0).Floor;
                && (r == [] <==> MaxWidth(radius) < 8.0)
                && (r != [] ==>
                      && MinimumLength < k <= |broken|
                      && k as real <= MaxWidth(radius) - 3.0
                      && r == broken[..k] + Ellipsis)
  {
    var maxWidth := MaxWidth(radius);
    var lines := Lines(radius);
    if text == [] then []
    else
      var broken := BreakLongWords(text, maxWidth);
      assert maxWidth * lines == Budget(radius);
      BreakLongWordsNonEmpty(text, maxWidth);
      if broken != [] && |broken| as real > maxWidth * lines then
        EllipsOverBudget(radius, broken);
        AddEllips(broken, maxWidth)
      else broken
  }

  // ---------------------------------------------------------------------
  // The hard break

  /** With a line width of at least two, the break replaces exactly the
      character at index `k = floor(maxWidth - 2)` by the marker, so the
      word grows by four characters. */
  lemma BreakPointReplacesOneChar(s: string, maxWidth: real)
    requires 2.0 <= maxWidth <= |s| as real
    ensures var k := (maxWidth - LineBreakBackTrack).Floor;
      && 0 <= k < |s|
      && k as real + LineBreakBackTrack <= maxWidth < k as real + LineBreakBackTrack + 1.0
      && AddBreakPoint(s, maxWidth) == s[..k] + BreakMarker + s[k + 1..]
      && |AddBreakPoint(s, maxWidth)| == |s| + |BreakMarker| - 1
  {
    var k := (maxWidth - LineBreakBackTrack).Floor;
    assert Trunc(maxWidth - LineBreakBackTrack) == k;
    assert Trunc(maxWidth - LineBreakBackTrack + 1.0) == k + 1;
  }

  /** With a line width strictly between zero and two, nothing is kept
      before the marker and the whole word follows it. */
  lemma BreakPointNarrow(s: string, maxWidth: real)
    requires 0.0 < maxWidth < 2.0
    ensures AddBreakPoint(s, maxWidth) == BreakMarker + s
  {
    assert Trunc(maxWidth - LineBreakBackTrack + 1.0) == 0;
  }

  /** With a line width of zero or less, only a tail of the word follows
      the marker: `substr` counts the negative start back from the end. */
  lemma BreakPointNonPositive(s: string, maxWidth: real)
    requires maxWidth <= 0.0
    ensures var from := Max(|s| + Trunc(maxWidth - 1.0), 0);
      AddBreakPoint(s, maxWidth) == BreakMarker + s[from..]
  {
    assert Trunc(maxWidth - LineBreakBackTrack + 1.0) < 0;
  }

  // ---------------------------------------------------------------------
  // The word stage

  /** Splitting the word stage's result gives back the fitted pieces, one
      for one: the stage keeps the number of pieces, fits each on its own,
      and copies a piece shorter than a line unchanged. */
  lemma BreakLongWordsPieces(text: string, maxWidth: real)
    ensures Split(BreakLongWords(text, maxWidth)) == FitPieces(Split(text), maxWidth)
    ensures |Split(BreakLongWords(text, maxWidth))| == |Split(text)|
    ensures forall i :: 0 <= i < |Split(text)| && (|Split(text)[i]| as real) < maxWidth ==>
      Split(BreakLongWords(text, maxWidth))[i] == Split(text)[i]
  {
    var pieces := Split(text);
    var fitted := FitPieces(pieces, maxWidth);
    SplitPieces(text);
    forall i | 0 < i < |fitted| - 1 ensures fitted[i] != [] {
      assert pieces[i] != [];
    }
    SplitJoin(fitted);
  }

  /** The word stage of a non-empty text is never empty, so the second
      emptiness test of `shortenToWithinRadius` always passes. */
  lemma BreakLongWordsNonEmpty(text: string, maxWidth: real)
    requires text != []
    ensures BreakLongWords(text, maxWidth) != []
  {
    var fitted := FitPieces(Split(text), maxWidth);
    SplitPieces(text);
    if IsWhitespace(text[0]) {
      SplitAtWhitespace(text, 0);
      JoinNonEmpty(fitted, " ");
    } else {
      JoinNonEmpty(fitted, " ");
    }
  }

  lemma JoinNonEmpty(pieces: seq<string>, sep: string)
    requires (|pieces| >= 2 && sep != []) || (|pieces| >= 1 && pieces[0] != [])
    ensures Join(pieces, sep) != []
  {
  }

  /** A text that is a non-empty list of non-empty words, without
      whitespace, each shorter than a line, joined by single spaces, comes
      out of the word stage unchanged. */
  lemma BreakLongWordsKeepsShortWords(words: seq<string>, maxWidth: real)
    requires words != []
    requires forall i :: 0 <= i < |words| ==> words[i] != [] && NoWhitespace(words[i])
    requires forall i :: 0 <= i < |words| ==> (|words[i]| as real) < maxWidth
    ensures BreakLongWords(Join(words, " "), maxWidth) == Join(words, " ")
  {
    SplitJoin(words);
    assert FitPieces(words, maxWidth) == words;
  }

  // ---------------------------------------------------------------------
  // The whole label

  /** Such a text that also fits the budget is returned unchanged. */
  lemma ShortenKeepsFittingText(radius: real, words: seq<string>)
    requires words != []
    requires forall i :: 0 <= i < |words| ==> words[i] != [] && NoWhitespace(words[i])
    requires forall i :: 0 <= i < |words| ==> (|words[i]| as real) < MaxWidth(radius)
    requires |Join(words, " ")| as real <= Budget(radius)
    ensures ShortenToWithinRadius(radius, Join(words, " ")) == Join(words, " ")
  {
    BreakLongWordsKeepsShortWords(words, MaxWidth(radius));
    assert words[0] <= Join(words, " ");
  }

  /** A cut label: when a text of the word stage is over the budget, it
      comes out as `''` exactly when a line is narrower than eight
      characters (the prefix of `maxWidth - 3` characters would have at
      most `MinimumLength` of them); otherwise as its first
      `floor(maxWidth - 3)` characters and the ellipsis. */
  lemma EllipsOverBudget(radius: real, broken: string)
    requires Budget(radius) < |broken| as real
    ensures var r := AddEllips(broken, MaxWidth(radius));
      var k := (MaxWidth(radius) - 3.0).Floor;
      && (r == [] <==> MaxWidth(radius) < 8.0)
      && (r != [] ==>
            && MinimumLength < k <= |broken|
            && r == broken[..k] + Ellipsis)
  {
    if 8.0 <= MaxWidth(radius) {
      WideBudget(radius);
    }
  }

  /** With lines of eight characters or more, the budget exceeds both
      the width of a line and 19 characters. */
  lemma WideBudget(radius: real)
    requires 8.0 <= MaxWidth(radius)
    ensures MaxWidth(radius) < Budget(radius) && 19.0 < Budget(radius)
  {
    var w := MaxWidth(radius);
    assert Budget(radius) == 0.31 * (w * w);
    assert w * w >= 8.0 * w;
  }

  /** The label always fits the budget it was measured against: it is
      `''`, or the word stage within the budget, or a prefix of at most
      `maxWidth - 3` characters and the ellipsis, which a budget of
      `0.31 * maxWidth * maxWidth` holds once `maxWidth >= 8`. The markers
      count as the code units they are made of. */
  lemma ShortenFitsBudget(radius: real, text: string)
    ensures |ShortenToWithinRadius(radius, text)| as real <= Budget(radius)
  {
    BudgetNonNegative(radius);
    var w := MaxWidth(radius);
    if text != [] && 8.0 <= w && Budget(radius) < |BreakLongWords(text, w)| as real {
      EllipsWithinBudget(radius);
    }
  }

  /** For lines of eight characters or more, the cut label's longest form,
      `maxWidth - 3` characters and the eight of the ellipsis, fits the
      budget. */
  lemma EllipsWithinBudget(radius: real)
    requires 8.0 <= MaxWidth(radius)
    ensures MaxWidth(radius) - 3.0 + |Ellipsis| as real <= Budget(radius)
  {
    var w := MaxWidth(radius);
    assert Budget(radius) == 0.31 * (w * w);
    assert w * w >= 8.0 * w;
    assert 0.31 * (w * w) >= 2.48 * w;
    assert 2.48 * w >= w + 5.0;
  }

  /** With radius zero the budget is zero and the kept prefix is empty,
      so any non-empty text gives `''`. */
  lemma ShortenRadiusZero(text: string)
    requires text != []
    ensures ShortenToWithinRadius(0.0, text) == []
  {
    assert MaxWidth(0.0) == 0.0 && Budget(0.0) == 0.0;
    BreakLongWordsNonEmpty(text, 0.0);
  }

  // ---------------------------------------------------------------------
  // Worked cases

  /** A radius of 100 leaves "hello world" unchanged. */
  lemma ShortenHelloWorld()
    ensures ShortenToWithinRadius(100.0, "hello world") == "hello world"
  {
    var words := ["hello", "world"];
    assert Join(words, " ") == "hello world";
    ShortenKeepsFittingText(100.0, words);
  }

  /** A radius of 5 reduces "ok" to `''`: the word is hard-broken into
      "-<br>ok", which is over the budget, and no prefix is kept. */
  lemma ShortenSmallRadius()
    ensures ShortenToWithinRadius(5.0, "ok") == []
  {
    var w := MaxWidth(5.0);
    assert 1.0 < w < 2.0 && Budget(5.0) < 1.0;
    OkHasNoWhitespace();
    BreakPointNarrow("ok", w);
    ShortenOneWord(5.0, "ok");
  }

  /** A radius of 10 gives lines of about 3.2 characters and a budget of
      about 3.2: a long word is hard-broken, is then over the budget, and no
      prefix is kept. */
  lemma ShortenLongWordSmallRadius()
    ensures ShortenToWithinRadius(10.0, "hippopotamus") == []
  {
    var w := MaxWidth(10.0);
    assert 3.0 < w < 4.0 && Budget(10.0) < 4.0;
    HippopotamusHasNoWhitespace();
    ShortenOneWord(10.0, "hippopotamus");
  }

  /** A negative radius need not give `''`: the line budget is the product
      of two negative numbers, hence positive, and the hard break keeps the
      tail of the word that `substr` selects from the end. */
  lemma ShortenNegativeRadius()
    ensures ShortenToWithinRadius(-100.0, "hello") == "-<br>hello"
  {
    var w := MaxWidth(-100.0);
    assert Trunc(w - 1.0) == -33;
    assert Budget(-100.0) > 300.0;
    HelloHasNoWhitespace();
    BreakPointNonPositive("hello", w);
    ShortenOneWord(-100.0, "hello");
  }

  /** With a negative radius a line is narrower than eight characters, so
      a word stage over the budget is cut to `''`. */
  lemma ShortenNegativeOverBudget(radius: real, text: string)
    requires radius < 0.0 && text != []
    requires Budget(radius) < |BreakLongWords(text, MaxWidth(radius))| as real
    ensures ShortenToWithinRadius(radius, text) == []
  {
    assert MaxWidth(radius) < 0.0;
  }

  /** Radius -1 gives a line width of about -0.32 and a budget of about
      0.03: "hello" becomes "-<br>o", which is over the budget, so `''`. */
  lemma ShortenNegativeRadiusSmall()
    ensures ShortenToWithinRadius(-1.0, "hello") == []
  {
    assert -1.0 < MaxWidth(-1.0) < 0.0 && Budget(-1.0) < 1.0;
    HelloHasNoWhitespace();
    ShortenOneWord(-1.0, "hello");
  }

  /** A radius of 20 gives lines of about 6.45 characters and a budget
      of about 12.9: "abcdefg" is hard-broken, losing its fifth letter,
      and fits. */
  lemma ShortenBreaksWord()
    ensures ShortenToWithinRadius(20.0, "abcdefg") == "abcd-<br>fg"
  {
    assert 12.0 < Budget(20.0);
    AbcdefgHasNoWhitespace();
    FitAbcdefg();
    ShortenOneWord(20.0, "abcdefg");
  }

  /** Fitting that result again breaks it once more, which puts it over
      the budget, and a line narrower than eight characters then gives `''`. */
  lemma ShortenRebreaksWord()
    ensures ShortenToWithinRadius(20.0, "abcd-<br>fg") == []
  {
    assert MaxWidth(20.0) < 7.0 && Budget(20.0) < 13.0;
    BrokenAbcdefgHasNoWhitespace();
    FitBrokenAbcdefg();
    ShortenOneWord(20.0, "abcd-<br>fg");
  }

  /** So fitting is not a fixed point: a label that fits, fitted again with
      the same radius, can change. */
  lemma ShortenNotFixedPoint()
    ensures var once := ShortenToWithinRadius(20.0, "abcdefg");
      ShortenToWithinRadius(20.0, once) != once
  {
    ShortenBreaksWord();
    ShortenRebreaksWord();
  }

  /** A label of one word: the word stage only fits the word, and the
      result is cut when it is over the budget. */
  lemma ShortenOneWord(radius: real, word: string)
    requires word != [] && NoWhitespace(word)
    ensures var fitted := FitPiece(word, MaxWidth(radius));
      ShortenToWithinRadius(radius, word) ==
        if |fitted| as real <= Budget(radius) then fitted else AddEllips(fitted, MaxWidth(radius))
  {
    OneWord(word, MaxWidth(radius));
  }

  lemma OkHasNoWhitespace() ensures NoWhitespace("ok") {}
  lemma HelloHasNoWhitespace() ensures NoWhitespace("hello") {}
  lemma HippopotamusHasNoWhitespace() ensures NoWhitespace("hippopotamus") {}
  lemma AbcdefgHasNoWhitespace() ensures NoWhitespace("abcdefg") {}
  lemma BrokenAbcdefgHasNoWhitespace() ensures NoWhitespace("abcd-<br>fg") {}

  /** With radius 20 the break replaces the "e" of "abcdefg". */
  lemma FitAbcdefg()
    ensures FitPiece("abcdefg", MaxWidth(20.0)) == "abcd-<br>fg"
  {
    var w := MaxWidth(20.0);
    assert 6.0 < w < 7.0 && (w - LineBreakBackTrack).Floor == 4;
    BreakPointReplacesOneChar("abcdefg", w);
  }

  /** With radius 20 the break replaces the "-" of "abcd-<br>fg". */
  lemma FitBrokenAbcdefg()
    ensures FitPiece("abcd-<br>fg", MaxWidth(20.0)) == "abcd-<br><br>fg"
  {
    var w := MaxWidth(20.0);
    assert 6.0 < w < 7.0 && (w - LineBreakBackTrack).Floor == 4;
    BreakPointReplacesOneChar("abcd-<br>fg", w);
  }

  /** A text without whitespace is one piece: the word stage only fits it. */
  lemma OneWord(word: string, maxWidth: real)
    requires NoWhitespace(word)
    ensures BreakLongWords(word, maxWidth) == FitPiece(word, maxWidth)
  {
    SplitNoWhitespace(word);
  }
}
