/**
 * The ECMAScript string built-ins the label fitter calls: the regular
 * expression class `\s`, `String.prototype.substr` (ECMA-262 Annex B,
 * B.2.2.1), `split(/\s+/g)` and `Array.prototype.join`.
 *
 * A JavaScript string is a sequence of UTF-16 code units. Strings with
 * characters outside the Basic Multilingual Plane (surrogate pairs in
 * JavaScript) are not modelled; for the rest, a `char` is one code unit
 * and `|s|` is the JavaScript `length`. JavaScript numbers are modelled
 * as exact reals (never NaN or infinite).
 */
module JsString {

  function Min(a: int, b: int): int { if a <= b then a else b }

  function Max(a: int, b: int): int { if a <= b then b else a }

  /** The code units matched by `\s`: the WhiteSpace and LineTerminator
      productions of ECMA-262 (tab, line feed, vertical tab, form feed,
      carriage return, the space separators of Unicode category Zs, the
      byte order mark, and the line and paragraph separators). */
  predicate IsWhitespace(c: char) {
    var n := c as int;
    || 0x09 <= n <= 0x0D
    || n == 0x20 || n == 0xA0 || n == 0x1680
    || 0x2000 <= n <= 0x200A
    || n == 0x2028 || n == 0x2029 || n == 0x202F || n == 0x205F
    || n == 0x3000 || n == 0xFEFF
  }

  /** The class covers the ASCII blanks, the no-break and ideographic
      spaces, the byte order mark and the line separator, but not the
      next-line control, the Mongolian vowel separator or the zero-width
      space, none of which is a Zs space separator. */
  lemma WhitespaceClass()
    ensures IsWhitespace(' ') && IsWhitespace('\t') && IsWhitespace('\n') && IsWhitespace('\r')
    ensures IsWhitespace('\U{A0}') && IsWhitespace('\U{3000}') && IsWhitespace('\U{FEFF}') && IsWhitespace('\U{2028}')
    ensures !IsWhitespace('a') && !IsWhitespace('-') && !IsWhitespace('<')
    ensures !IsWhitespace('\U{85}') && !IsWhitespace('\U{180E}') && !IsWhitespace('\U{200B}')
  {
  }

  predicate NoWhitespace(s: string) {
    forall i :: 0 <= i < |s| ==> !IsWhitespace(s[i])
  }

  lemma NoWhitespaceConcat(a: string, b: string)
    requires NoWhitespace(a) && NoWhitespace(b)
    ensures NoWhitespace(a + b)
  {
    assert forall k :: |a| <= k < |a + b| ==> (a + b)[k] == b[k - |a|];
  }

  /** ToIntegerOrInfinity on a finite number: truncation toward zero. */
  function Trunc(x: real): (n: int)
    ensures 0.0 <= x ==> n as real <= x < n as real + 1.0
    ensures x < 0.0 ==> n as real - 1.0 < x <= n as real
  {
    if 0.0 <= x then x.Floor else -((-x).Floor)
  }

  /** `s.substr(start, length)`: a negative start counts back from the end
      (and stops at 0), a start past the end gives the empty string, and
      the length is clamped to what is left of `s`. */
  function Substr(s: string, start: real, length: real): (r: string)
    ensures |r| <= |s|
    ensures NoWhitespace(s) ==> NoWhitespace(r)
    ensures length < 1.0 ==> r == []
    ensures start == 0.0 && 0 <= Trunc(length) <= |s| ==> r == s[..Trunc(length)]
    ensures 0 <= Trunc(start) <= |s| && |s| <= Trunc(start) + Trunc(length) ==> r == s[Trunc(start)..]
    ensures Trunc(start) < 0 && |s| <= Trunc(length) ==> r == s[Max(|s| + Trunc(start), 0)..]
  {
    var size := |s|;
    var intStart := Trunc(start);
    var from := if intStart < 0 then Max(size + intStart, 0) else Min(intStart, size);
    var count := Min(Max(Trunc(length), 0), size);
    var to := Min(from + count, size);
    SliceNoWhitespace(s, from, to);
    s[from..to]
  }

  /** Taken from position 0, `substr` gives a prefix of `s`. */
  lemma SubstrFromStart(s: string, length: real)
    ensures Substr(s, 0.0, length) == s[..|Substr(s, 0.0, length)|]
  {
  }

  /** With a length of at least `|s|`, `substr` gives a suffix of `s`,
      whatever the start. */
  lemma SubstrToEnd(s: string, start: real, length: real)
    requires |s| <= Trunc(length)
    ensures Substr(s, start, length) == s[|s| - |Substr(s, start, length)|..]
  {
  }

  lemma SliceNoWhitespace(s: string, from: nat, to: nat)
    requires from <= to <= |s|
    ensures NoWhitespace(s) ==> NoWhitespace(s[from..to])
  {
  }

  /** `s.split(/\s+/g)`: the pieces between maximal runs of whitespace.
      Defined one code unit at a time: a code unit that is not whitespace
      joins the first piece of the rest; a whitespace code unit followed by
      more whitespace adds nothing; one that ends its run starts the rest
      with a new, empty piece. The empty string splits into one empty
      piece. */
  function Split(s: string): (pieces: seq<string>)
    ensures |pieces| >= 1
    decreases |s|
  {
    if s == [] then [[]]
    else
      var rest := Split(s[1..]);
      if !IsWhitespace(s[0]) then [[s[0]] + rest[0]] + rest[1..]
      else if |s| > 1 && IsWhitespace(s[1]) then rest
      else [[]] + rest
  }

  /** No piece holds whitespace; only the first and the last piece can be
      empty; and the first is empty exactly when the text starts with
      whitespace. */
  lemma {:induction false} SplitPieces(s: string)
    ensures forall i :: 0 <= i < |Split(s)| ==> NoWhitespace(Split(s)[i])
    ensures forall i :: 0 < i < |Split(s)| - 1 ==> Split(s)[i] != []
    ensures s != [] ==> (Split(s)[0] == [] <==> IsWhitespace(s[0]))
    decreases |s|
  {
    if s != [] {
      var rest := Split(s[1..]);
      SplitPieces(s[1..]);
      if !IsWhitespace(s[0]) {
        SplitWordStep(s);
        assert NoWhitespace([s[0]]);
        NoWhitespaceConcat([s[0]], rest[0]);
      } else if |s| > 1 && IsWhitespace(s[1]) {
        SplitRunStep(s);
      } else {
        SplitEndOfRunStep(s);
      }
    }
  }

  /** A text without whitespace is a single piece, itself. */
  lemma {:induction false} SplitNoWhitespace(s: string)
    requires NoWhitespace(s)
    ensures Split(s) == [s]
    decreases |s|
  {
    if s != [] {
      SplitNoWhitespace(s[1..]);
      assert [s[0]] + s[1..] == s;
    }
  }

  /** A text with whitespace anywhere splits into two or more pieces. */
  lemma {:induction false} SplitAtWhitespace(s: string, j: nat)
    requires j < |s| && IsWhitespace(s[j])
    ensures |Split(s)| >= 2
    decreases |s|
  {
    if j > 0 {
      SplitAtWhitespace(s[1..], j - 1);
    } else if |s| > 1 && IsWhitespace(s[1]) {
      SplitAtWhitespace(s[1..], 0);
    }
  }

  /** The three steps of `Split`, one lemma each. */
  lemma SplitWordStep(s: string)
    requires s != [] && !IsWhitespace(s[0])
    ensures Split(s) == [[s[0]] + Split(s[1..])[0]] + Split(s[1..])[1..]
  {
  }

  lemma SplitRunStep(s: string)
    requires |s| > 1 && IsWhitespace(s[0]) && IsWhitespace(s[1])
    ensures Split(s) == Split(s[1..])
  {
  }

  lemma SplitEndOfRunStep(s: string)
    requires s != [] && IsWhitespace(s[0]) && !(|s| > 1 && IsWhitespace(s[1]))
    ensures Split(s) == [[]] + Split(s[1..])
  {
  }

  /** The last piece is empty exactly when the text is empty or ends with
      whitespace. */
  lemma {:induction false} SplitLastPiece(s: string)
    ensures Split(s)[|Split(s)| - 1] == [] <==> s == [] || IsWhitespace(s[|s| - 1])
    decreases |s|
  {
    if s != [] {
      var t := s[1..];
      var rest := Split(t);
      SplitLastPiece(t);
      if t != [] {
        assert t[|t| - 1] == s[|s| - 1];
        if IsWhitespace(s[|s| - 1]) {
          SplitAtWhitespace(t, |t| - 1);
        }
      }
      if !IsWhitespace(s[0]) {
        SplitWordStep(s);
        if t == [] {
          assert rest == [[]];
        }
      } else if |s| > 1 && IsWhitespace(s[1]) {
        SplitRunStep(s);
      } else {
        SplitEndOfRunStep(s);
      }
    }
  }

  /** `s` with every whitespace code unit removed. */
  function RemoveWhitespace(s: string): string {
    if s == [] then []
    else (if IsWhitespace(s[0]) then [] else [s[0]]) + RemoveWhitespace(s[1..])
  }

  /** The pieces one after the other, with nothing between them. */
  function Concat(pieces: seq<string>): string {
    if pieces == [] then [] else pieces[0] + Concat(pieces[1..])
  }

  /** Splitting loses only whitespace: the pieces, put back together,
      are `s` without its whitespace, in the same order. */
  lemma {:induction false} SplitKeepsText(s: string)
    ensures Concat(Split(s)) == RemoveWhitespace(s)
    decreases |s|
  {
    if s == [] {
      assert Concat([[]]) == [] + Concat([]);
    } else {
      var rest := Split(s[1..]);
      SplitKeepsText(s[1..]);
      if !IsWhitespace(s[0]) {
        SplitWordStep(s);
        ConcatExtendFirst(s[0], rest);
      } else if |s| > 1 && IsWhitespace(s[1]) {
        SplitRunStep(s);
        assert RemoveWhitespace(s) == [] + RemoveWhitespace(s[1..]);
      } else {
        SplitEndOfRunStep(s);
        assert ([[]] + rest)[1..] == rest;
        assert RemoveWhitespace(s) == [] + RemoveWhitespace(s[1..]);
      }
    }
  }

  /** Putting a code unit in front of the first piece puts it in front of
      the concatenation. */
  lemma ConcatExtendFirst(c: char, pieces: seq<string>)
    requires pieces != []
    ensures Concat([[c] + pieces[0]] + pieces[1..]) == [c] + Concat(pieces)
  {
    ConcatCons([c] + pieces[0], pieces[1..]);
    AppendAssoc([c], pieces[0], Concat(pieces[1..]));
  }

  lemma AppendAssoc(a: string, b: string, c: string)
    ensures (a + b) + c == a + (b + c)
  {
  }

  /** The concatenation of a piece followed by more pieces. */
  lemma ConcatCons(x: string, rest: seq<string>)
    ensures Concat([x] + rest) == x + Concat(rest)
  {
    assert ([x] + rest)[1..] == rest;
  }

  /** `pieces.join(sep)`. */
  function Join(pieces: seq<string>, sep: string): (r: string)
    ensures pieces == [] ==> r == []
    ensures pieces != [] ==> pieces[0] <= r
    ensures |pieces| >= 2 ==> pieces[0] + sep <= r
    ensures NoWhitespace(sep) && (forall i :: 0 <= i < |pieces| ==> NoWhitespace(pieces[i])) ==> NoWhitespace(r)
  {
    if |pieces| == 0 then []
    else if |pieces| == 1 then pieces[0]
    else pieces[0] + sep + Join(pieces[1..], sep)
  }

  /** A word without whitespace in front of a text becomes part of the
      text's first piece. */
  lemma {:induction false} SplitWordPrefix(w: string, t: string)
    requires NoWhitespace(w)
    ensures Split(w + t) == [w + Split(t)[0]] + Split(t)[1..]
    decreases |w|
  {
    var p := Split(t);
    if w == [] {
      assert w + t == t && w + p[0] == p[0];
      assert p == [p[0]] + p[1..];
    } else {
      var u := w + t;
      assert u[0] == w[0] && u[1..] == w[1..] + t;
      SplitWordPrefix(w[1..], t);
      SplitWordStep(u);
      AppendAssoc([w[0]], w[1..], p[0]);
      assert [w[0]] + w[1..] == w;
    }
  }

  predicate AllWhitespace(s: string) {
    forall i :: 0 <= i < |s| ==> IsWhitespace(s[i])
  }

  /** A maximal run of whitespace at the front of a text ends a piece: an
      empty one comes first, then the pieces of the rest. */
  lemma {:induction false} SplitRun(run: string, t: string)
    requires run != [] && AllWhitespace(run)
    requires t == [] || !IsWhitespace(t[0])
    ensures Split(run + t) == [[]] + Split(t)
    decreases |run|
  {
    var u := run + t;
    assert u[0] == run[0] && u[1..] == run[1..] + t;
    if |run| == 1 {
      assert u[1..] == t;
      SplitEndOfRunStep(u);
    } else {
      assert u[1] == run[1];
      SplitRun(run[1..], t);
      SplitRunStep(u);
    }
  }

  /** A word without whitespace, a maximal run of whitespace and the rest
      split into the word followed by the pieces of the rest: the text
      breaks exactly at the run. */
  lemma SplitWordRun(w: string, run: string, t: string)
    requires NoWhitespace(w)
    requires run != [] && AllWhitespace(run)
    requires t == [] || !IsWhitespace(t[0])
    ensures Split(w + run + t) == [w] + Split(t)
  {
    SplitRun(run, t);
    SplitWordPrefix(w, run + t);
    AppendAssoc(w, run, t);
    PrependToEmptyFirst(w, Split(t), Split(run + t));
  }

  /** A tab and a double space each break a text once, like a single
      space. */
  lemma SplitTabAndDoubleSpace()
    ensures Split("ab\tcd") == ["ab", "cd"]
    ensures Split("ab  cd") == ["ab", "cd"]
  {
    SplitAbCd("\t");
    assert "ab" + "\t" + "cd" == "ab\tcd";
    SplitAbCd("  ");
    assert "ab" + "  " + "cd" == "ab  cd";
  }

  lemma SplitAbCd(run: string)
    requires run != [] && AllWhitespace(run)
    ensures Split("ab" + run + "cd") == ["ab", "cd"]
  {
    assert NoWhitespace("ab") && NoWhitespace("cd");
    SplitNoWhitespace("cd");
    SplitWordRun("ab", run, "cd");
  }

  /** Splitting undoes joining with one space, as long as no piece holds
      whitespace and only the first and the last piece may be empty. */
  lemma {:induction false} SplitJoin(pieces: seq<string>)
    requires pieces != []
    requires forall i :: 0 <= i < |pieces| ==> NoWhitespace(pieces[i])
    requires forall i :: 0 < i < |pieces| - 1 ==> pieces[i] != []
    ensures Split(Join(pieces, " ")) == pieces
  {
    if |pieces| == 1 {
      SplitNoWhitespace(pieces[0]);
    } else {
      var head, tail := pieces[0], pieces[1..];
      JoinablePiecesTail(pieces);
      SplitJoin(tail);
      var joinedTail := Join(tail, " ");
      JoinStartsWithText(tail);
      assert AllWhitespace(" ");
      SplitWordRun(head, " ", joinedTail);
      assert Join(pieces, " ") == head + " " + joinedTail;
      assert pieces == [head] + tail;
    }
  }

  /** An empty first piece takes on the word put in front of it. */
  lemma PrependToEmptyFirst(head: string, tail: seq<string>, q: seq<string>)
    requires q == [[]] + tail
    ensures [head + q[0]] + q[1..] == [head] + tail
  {
    assert head + [] == head;
    assert q[1..] == tail;
  }

  /** Without its first piece, a list of pieces that `SplitJoin` accepts is
      still accepted, and its first piece is non-empty unless it is alone. */
  lemma JoinablePiecesTail(pieces: seq<string>)
    requires |pieces| >= 2
    requires forall i :: 0 <= i < |pieces| ==> NoWhitespace(pieces[i])
    requires forall i :: 0 < i < |pieces| - 1 ==> pieces[i] != []
    ensures var tail := pieces[1..];
      && (forall i :: 0 <= i < |tail| ==> NoWhitespace(tail[i]))
      && (forall i :: 0 < i < |tail| - 1 ==> tail[i] != [])
      && (|tail| == 1 || tail[0] != [])
  {
    var tail := pieces[1..];
    forall k | 0 <= k < |tail| ensures tail[k] == pieces[k + 1] {
    }
  }

  /** Pieces without whitespace, the first non-empty unless it is alone,
      joined with spaces, do not start with whitespace. */
  lemma JoinStartsWithText(pieces: seq<string>)
    requires pieces != []
    requires forall i :: 0 <= i < |pieces| ==> NoWhitespace(pieces[i])
    requires |pieces| == 1 || pieces[0] != []
    ensures var r := Join(pieces, " "); r == [] || !IsWhitespace(r[0])
  {
    var r := Join(pieces, " ");
    if pieces[0] != [] {
      assert pieces[0] <= r;
      assert r[0] == pieces[0][0];
    }
  }
}
