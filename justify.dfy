/** The full justifier `draw_text_lines` of composite_utils.py. Each line is
    re-split into words; all words but the last are drawn from the left
    edge, each followed by an equal share of the width the words leave
    free, and the last word is drawn flush with the right edge. Lines are
    drawn FONT_LINE_HEIGHT apart, starting at INITIAL_LINE_HEIGHT_OFFSET.
    A draw is recorded as a `Draw` instead of being rasterised; coordinates
    are exact reals where the source computes Python floats. */
module Justifier {
  import opened TextOps
  import opened LineWrapper

  /** FONT_SIZE */
  const FontSize: int := 48

  /** INITIAL_LINE_HEIGHT_OFFSET: -(48 - 33) * 2 / 3, which is exactly -10,
      so the Python 2 floor division and Dafny's division agree. */
  const InitialLineHeightOffset: int := -(FontSize - FontLineHeight) * 2 / 3

  /** One call of `draw_text(draw, (x, y), word)`. */
  datatype Draw = Draw(x: real, y: int, word: string)

  /** The two exceptions a line can raise: line 86 divides by zero for a
      line of one word, and line 96 indexes `words[-1]` of a line of none. */
  datatype Fault = ZeroDivisionError | IndexError

  /** Either every line was drawn, or line `line` raised `fault` and the
      lines after it were not drawn. */
  datatype Outcome = Completed | Raised(line: nat, fault: Fault)

  /** The draws made, in order, and how the call ended. */
  datatype Rendering = Rendering(draws: seq<Draw>, outcome: Outcome)

  /** A line the justifier draws without raising. */
  predicate Drawable(line: string) {
    2 <= |Split(line)|
  }

  /** Line 86: the width left free by the words, shared among the gaps
      between them. Defined for every word count but one, as in the source
      (no words give a divisor of -1). */
  function SpaceWidth(W: int, words: seq<string>, width: string -> nat): real
    requires |words| != 1
  {
    (W - width(Concat(words))) as real / (|words| as real - 1.0)
  }

  /** Lines 89-93: `cur_x` when word `j` is drawn. */
  function PenX(words: seq<string>, width: string -> nat, space: real, j: nat): real
    requires j <= |words|
  {
    if j == 0 then 0.0 else PenX(words, width, space, j - 1) + width(words[j - 1]) as real + space
  }

  /** Lines 90-91: the draws of all words but the last. */
  function FrontDraws(words: seq<string>, width: string -> nat, space: real, y: int): (ds: seq<Draw>)
    requires words != []
    ensures |ds| == |words| - 1
  {
    seq(|words| - 1, j requires 0 <= j < |words| - 1 => Draw(PenX(words, width, space, j), y, words[j]))
  }

  /** Lines 86-98 for a line of at least two words: the front words, then
      the last word flush with the right edge. */
  function LineDraws(W: int, y: int, words: seq<string>, width: string -> nat): seq<Draw>
    requires 2 <= |words|
  {
    FrontDraws(words, width, SpaceWidth(W, words, width), y)
      + [Draw((W - width(Last(words))) as real, y, Last(words))]
  }

  /** An outcome seen from `n` lines earlier. */
  function Shift(o: Outcome, n: nat): Outcome {
    match o
    case Completed => Completed
    case Raised(line, fault) => Raised(line + n, fault)
  }

  /** The draws `d` of `n` lines, followed by the rendering `r` of the lines
      after them. */
  function Prepend(d: seq<Draw>, n: nat, r: Rendering): Rendering {
    Rendering(d + r.draws, Shift(r.outcome, n))
  }

  /** What `draw_text_lines` does with `lines` when the first of them is
      drawn at height `y`. */
  function Justify(W: int, lines: seq<string>, width: string -> nat, y: int): Rendering
    decreases |lines|
  {
    if lines == [] then Rendering([], Completed)
    else
      var words := Split(lines[0]);
      if |words| == 1 then Rendering([], Raised(0, ZeroDivisionError))
      else if |words| == 0 then Rendering([], Raised(0, IndexError))
      else Prepend(LineDraws(W, y, words, width), 1, Justify(W, lines[1..], width, y + FontLineHeight))
  }

  /** `draw_text_lines(draw, size, lines)` with `size[0] == W`: the draws
      land in the result instead of on an image, and an exception ends the
      call with the draws made so far. */
  method DrawTextLines(W: int, lines: seq<string>, width: string -> nat) returns (r: Rendering)
    ensures r == Justify(W, lines, width, InitialLineHeightOffset)
  {
    var draws: seq<Draw> := [];
    var curY := InitialLineHeightOffset;
    for n := 0 to |lines|
      invariant curY == InitialLineHeightOffset + FontLineHeight * n
      invariant Justify(W, lines, width, InitialLineHeightOffset)
             == Prepend(draws, n, Justify(W, lines[n..], width, curY))
    {
      var one := DrawLine(W, lines[n], width, curY);
      JustifyFirstLine(W, lines[n..], width, curY);
      assert lines[n..][1..] == lines[n + 1..];
      if one.outcome.Raised? {
        return Rendering(draws + one.draws, Raised(n, one.outcome.fault));
      }
      PrependPrepend(draws, n, one.draws, Justify(W, lines[n + 1..], width, curY + FontLineHeight));
      draws := draws + one.draws;
      curY := curY + FontLineHeight;
    }
    assert lines[|lines|..] == [];
    assert draws + [] == draws;
    r := Rendering(draws, Completed);
  }

  /** Lines 81-98, one line drawn at height `y`. */
  method DrawLine(W: int, line: string, width: string -> nat, y: int) returns (r: Rendering)
    ensures r == Justify(W, [line], width, y)
  {
    JustifyFirstLine(W, [line], width, y);
    var words := Split(line);
    var lineWithoutSpaces := Concat(words);
    var lineWithoutSpacesWidth := width(lineWithoutSpaces);
    if |words| == 1 {
      return Rendering([], Raised(0, ZeroDivisionError));
    }
    var spaceWidth := (W - lineWithoutSpacesWidth) as real / (|words| as real - 1.0);
    var frontDraws := DrawFrontWords(words, width, spaceWidth, y);
    if |words| == 0 {
      return Rendering(frontDraws, Raised(0, IndexError));
    }
    var lastWordWidth := width(words[|words| - 1]);
    var lastWordX := W - lastWordWidth;
    r := Rendering(frontDraws + [Draw(lastWordX as real, y, words[|words| - 1])], Completed);
  }

  /** Lines 89-93: draws every word but the last, advancing the pen by the
      word's width and one space after each. */
  method DrawFrontWords(words: seq<string>, width: string -> nat, space: real, y: int)
    returns (ds: seq<Draw>)
    ensures words == [] ==> ds == []
    ensures words != [] ==> ds == FrontDraws(words, width, space, y)
  {
    ds := [];
    var front := if words == [] then [] else words[..|words| - 1];
    var curX: real := 0.0;
    for j := 0 to |front|
      invariant curX == PenX(words, width, space, j)
      invariant words != [] ==> ds == FrontDraws(words, width, space, y)[..j]
      invariant words == [] ==> ds == []
    {
      ghost var all := FrontDraws(words, width, space, y);
      assert all[..j + 1] == all[..j] + [Draw(curX, y, front[j])];
      ds := ds + [Draw(curX, y, front[j])];
      var wordWidth := width(front[j]);
      curX := curX + wordWidth as real + space;
    }
    if words != [] {
      assert FrontDraws(words, width, space, y)[..|front|] == FrontDraws(words, width, space, y);
    }
  }

  /** The first line decides how the justifier goes on: it raises, or it
      is drawn as it would be alone and the rest follows one line lower. */
  lemma JustifyFirstLine(W: int, lines: seq<string>, width: string -> nat, y: int)
    requires lines != []
    ensures var one := Justify(W, [lines[0]], width, y);
      var r := Justify(W, lines, width, y);
      (|Split(lines[0])| == 1 ==> one == Rendering([], Raised(0, ZeroDivisionError))) &&
      (|Split(lines[0])| == 0 ==> one == Rendering([], Raised(0, IndexError))) &&
      (one.outcome.Raised? ==> r == one) &&
      (2 <= |Split(lines[0])| ==>
         one == Rendering(LineDraws(W, y, Split(lines[0]), width), Completed) &&
         r == Prepend(one.draws, 1, Justify(W, lines[1..], width, y + FontLineHeight)))
  {
    var words := Split(lines[0]);
    if 2 <= |words| {
      assert [lines[0]][1..] == [];
      assert LineDraws(W, y, words, width) + [] == LineDraws(W, y, words, width);
    }
  }

  /** Draws of `n` lines, then of one more line, then the rest. */
  lemma PrependPrepend(d: seq<Draw>, n: nat, e: seq<Draw>, r: Rendering)
    ensures Prepend(d, n, Prepend(e, 1, r)) == Prepend(d + e, n + 1, r)
  {
    assert d + (e + r.draws) == (d + e) + r.draws;
  }

  /** Draws of one line, then of `m` more, then the rest. */
  lemma PrependNested(e: seq<Draw>, d: seq<Draw>, m: nat, r: Rendering)
    ensures Prepend(e, 1, Prepend(d, m, r)) == Prepend(e + d, m + 1, r)
  {
    assert e + (d + r.draws) == (e + d) + r.draws;
  }

  /** How the justifier ends: it completes exactly when every line has at
      least two words; otherwise it raises on the first line that does not,
      ZeroDivisionError for one word and IndexError for none. */
  lemma {:induction false} JustifyOutcome(W: int, lines: seq<string>, width: string -> nat, y: int)
    ensures var o := Justify(W, lines, width, y).outcome;
      (o == Completed <==> forall k :: 0 <= k < |lines| ==> Drawable(lines[k])) &&
      (o.Raised? ==>
         o.line < |lines| &&
         (forall k :: 0 <= k < o.line ==> Drawable(lines[k])) &&
         (o.fault == ZeroDivisionError <==> |Split(lines[o.line])| == 1) &&
         (o.fault == IndexError <==> Split(lines[o.line]) == []))
    decreases |lines|
  {
    if lines != [] && Drawable(lines[0]) {
      JustifyOutcome(W, lines[1..], width, y + FontLineHeight);
      assert forall k :: 1 <= k < |lines| ==> lines[k] == lines[1..][k - 1];
    }
  }

  /** Lines of two or more words are drawn one after the other: the
      rendering of `A + B` is that of `A` followed by that of `B`, started
      |A| lines lower. */
  lemma {:induction false} JustifyAppend(W: int, A: seq<string>, B: seq<string>, width: string -> nat, y: int)
    requires forall k :: 0 <= k < |A| ==> Drawable(A[k])
    ensures Justify(W, A, width, y).outcome == Completed
    ensures Justify(W, A + B, width, y)
         == Prepend(Justify(W, A, width, y).draws, |A|, Justify(W, B, width, y + FontLineHeight * |A|))
    decreases |A|
  {
    if A == [] {
      assert [] + B == B;
      var r := Justify(W, B, width, y);
      assert [] + r.draws == r.draws;
      assert Shift(r.outcome, 0) == r.outcome;
    } else {
      var words := Split(A[0]);
      assert (A + B)[0] == A[0];
      assert (A + B)[1..] == A[1..] + B;
      JustifyAppend(W, A[1..], B, width, y + FontLineHeight);
      var t := Justify(W, A[1..], width, y + FontLineHeight);
      var r := Justify(W, B, width, y + FontLineHeight * |A|);
      assert y + FontLineHeight + FontLineHeight * |A[1..]| == y + FontLineHeight * |A|;
      PrependNested(LineDraws(W, y, words, width), t.draws, |A| - 1, r);
      assert Shift(Shift(r.outcome, |A| - 1), 1) == Shift(r.outcome, |A|);
    }
  }

  /** Line `k`, when it and every line before it have two or more words,
      is drawn at height y + 33 * k, right after the draws of the lines
      before it. */
  lemma JustifyLineAt(W: int, lines: seq<string>, width: string -> nat, y: int, k: nat)
    requires k < |lines|
    requires forall j :: 0 <= j < k ==> Drawable(lines[j])
    requires Drawable(lines[k])
    ensures var r := Justify(W, lines, width, y);
      var pre := |Justify(W, lines[..k], width, y).draws|;
      var ld := LineDraws(W, y + FontLineHeight * k, Split(lines[k]), width);
      pre + |ld| <= |r.draws| && r.draws[pre..pre + |ld|] == ld
  {
    var A := lines[..k];
    var B := lines[k..];
    assert A + B == lines;
    JustifyAppend(W, A, B, width, y);
    var d := Justify(W, A, width, y).draws;
    var yk := y + FontLineHeight * k;
    var ld := LineDraws(W, yk, Split(lines[k]), width);
    var rest := Justify(W, B[1..], width, yk + FontLineHeight);
    assert B[0] == lines[k];
    assert Justify(W, B, width, yk).draws == ld + rest.draws;
    assert Justify(W, lines, width, y).draws == d + (ld + rest.draws);
    SliceOfConcat(d, ld, rest.draws);
  }

  /** The justifier draws nothing of the line it raises on, nor of any line
      after it: its draws are those of the lines before. */
  lemma JustifyStopsAtFault(W: int, lines: seq<string>, width: string -> nat, y: int)
    ensures var r := Justify(W, lines, width, y);
      r.outcome.Raised? ==> r.outcome.line < |lines| && r.draws == Justify(W, lines[..r.outcome.line], width, y).draws
  {
    var r := Justify(W, lines, width, y);
    JustifyOutcome(W, lines, width, y);
    if r.outcome.Raised? {
      var n := r.outcome.line;
      var A := lines[..n];
      var B := lines[n..];
      assert A + B == lines;
      JustifyAppend(W, A, B, width, y);
      JustifyFirstLine(W, B, width, y + FontLineHeight * n);
      assert Justify(W, lines, width, y).draws == Justify(W, A, width, y).draws + [];
    }
  }

  /** The shape of one justified line: one draw per word, in order, all at
      the line's height; the first at the left edge, the last ending at the
      right edge, and every word but the last two followed by the same gap
      of SpaceWidth before the next. */
  lemma LineDrawsShape(W: int, y: int, words: seq<string>, width: string -> nat)
    requires 2 <= |words|
    ensures var ld := LineDraws(W, y, words, width);
      var space := SpaceWidth(W, words, width);
      |ld| == |words| &&
      (forall j :: 0 <= j < |ld| ==> ld[j].y == y && ld[j].word == words[j]) &&
      ld[0].x == 0.0 &&
      ld[|ld| - 1].x + width(Last(words)) as real == W as real &&
      (forall j :: 1 <= j < |ld| - 1 ==> ld[j].x == ld[j - 1].x + width(words[j - 1]) as real + space)
  {
  }

  /** Sum of the widths of the words, measured one by one. */
  function SumWidths(ws: seq<string>, width: string -> nat): nat {
    if ws == [] then 0 else SumWidths(ws[..|ws| - 1], width) + width(Last(ws))
  }

  /** The pen position is the widths of the words before it plus one gap
      per word. */
  lemma {:induction false} PenXClosed(words: seq<string>, width: string -> nat, space: real, j: nat)
    requires j <= |words|
    ensures PenX(words, width, space, j) == SumWidths(words[..j], width) as real + (j as real) * space
  {
    if j > 0 {
      PenXClosed(words, width, space, j - 1);
      assert words[..j][..j - 1] == words[..j - 1];
      assert (j as real) * space == ((j - 1) as real) * space + space;
    }
  }

  /** When the font measures a line without spaces as the sum of its words,
      the justification is exact: the gap before the last word equals all
      the others. */
  lemma LineDrawsJustified(W: int, y: int, words: seq<string>, width: string -> nat)
    requires 2 <= |words|
    requires width(Concat(words)) == SumWidths(words, width)
    ensures var ld := LineDraws(W, y, words, width);
      ld[|ld| - 1].x == ld[|ld| - 2].x + width(words[|ld| - 2]) as real + SpaceWidth(W, words, width)
  {
    var n := |words|;
    var space := SpaceWidth(W, words, width);
    var gaps := |words| as real - 1.0;
    var C := width(Concat(words));
    assert space == (W - C) as real / gaps;
    assert gaps * space == (W - C) as real;
    PenXClosed(words, width, space, n - 1);
    assert (n - 1) as real == gaps;
    assert words[..n - 1] == words[..|words| - 1];
    assert PenX(words, width, space, n - 1) == (W - width(Last(words))) as real;
  }

  /** The middle part of a concatenation of draws. */
  lemma SliceOfConcat(d: seq<Draw>, e: seq<Draw>, f: seq<Draw>)
    ensures (d + (e + f))[|d|..|d| + |e|] == e
  {
  }
}
