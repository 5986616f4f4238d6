/** The greedy word wrapper `split_text_into_lines` of composite_utils.py.
    The font is the abstract measure `width`. The text is split on whitespace
    and the words are read as the endless stream ws[0], ws[1], …, ws[|ws|-1],
    ws[0], … (the `for` loop sits inside the `while` loop); each word joins
    the current row while the row, joined with single spaces, measures at
    most `W`, and otherwise the row is finalised and `FontLineHeight` is
    charged, until the charged height reaches `H`. */
module LineWrapper {
  import opened TextOps

  /** FONT_LINE_HEIGHT: the height charged for every finalised row. */
  const FontLineHeight: int := 33

  /** The font measures every string at least as wide as it is long. The
      wrapper relies on this to stop: a growing row eventually fails the fit
      test. */
  ghost predicate MeasuresLength(width: string -> nat) {
    forall s: string :: |s| <= width(s)
  }

  /** The consequence of `MeasuresLength` the loop needs: a row that passes
      the fit test holds at most `W + 1` words. */
  ghost predicate FitsFewWords(width: string -> nat, W: int) {
    forall row: seq<string> {:trigger JoinSpace(row)} :: width(JoinSpace(row)) <= W ==> |row| <= W + 1
  }

  /** The fit test of line 56. */
  predicate Fits(width: string -> nat, W: int, row: seq<string>) {
    width(JoinSpace(row)) <= W
  }

  /** Every prefix of `row` longer than `a` words passed the fit test: the
      words after the first `a` were all appended by line 57. */
  ghost predicate Accepted(width: string -> nat, W: int, row: seq<string>, a: nat) {
    forall j :: a < j <= |row| ==> Fits(width, W, row[..j])
  }

  function Last<T>(s: seq<T>): T
    requires s != []
  {
    s[|s| - 1]
  }

  function Flatten(rows: seq<seq<string>>): seq<string> {
    if rows == [] then [] else rows[0] + Flatten(rows[1..])
  }

  /** The first `n` words of the endless stream ws[i], ws[i+1], …, which
      continues with ws[0] after the last word; an `i` of |ws| reads as 0. */
  function Cycle(ws: seq<string>, i: nat, n: nat): (c: seq<string>)
    requires ws != [] && i <= |ws|
    ensures |c| == n
    decreases n
  {
    if n == 0 then []
    else
      var k := if i == |ws| then 0 else i;
      [ws[k]] + Cycle(ws, k + 1, n - 1)
  }

  /** The final value of `lines` when the loop of lines 52-64 runs from the
      state in which `lines` holds the rows finalised so far, `line` is being
      filled, `i` is the index in `ws` of the next word the `for` loop tests
      (|ws| when the `for` loop has just run through all the words and the
      `while` loop starts it again) and `h` is `cur_height`. The last row
      appended is the one finalised by the `break`. */
  function Wrap(ws: seq<string>, W: int, H: int, width: string -> nat,
                lines: seq<seq<string>>, line: seq<string>, i: nat, h: int): (rows: seq<seq<string>>)
    requires ws != [] && i <= |ws|
    requires FitsFewWords(width, W)
    requires h < H
    ensures |lines| < |rows|
    decreases H - h, W + 1 - |line|
  {
    var k := if i == |ws| then 0 else i;
    var w := ws[k];
    if Fits(width, W, line + [w]) then
      Wrap(ws, W, H, width, lines, line + [w], k + 1, h)
    else if h + FontLineHeight >= H then
      lines + [line]
    else
      Wrap(ws, W, H, width, lines + [line], [w], k + 1, h + FontLineHeight)
  }

  /** The rows line 60 appends to `lines` before the loop stops. */
  function GreedyRows(ws: seq<string>, W: int, H: int, width: string -> nat): seq<seq<string>>
    requires MeasuresLength(width)
    requires H <= 0 || ws != []
  {
    LengthBoundsWords(width, W);
    if H <= 0 then [] else Wrap(ws, W, H, width, [], [], 0, 0)
  }

  /** Lines 66-67: when the loop stops, `line` still is the row finalised
      last (or the initial empty row), and it is appended once more when it
      is non-empty. */
  function AppendFinal(rows: seq<seq<string>>): seq<seq<string>> {
    if rows != [] && Last(rows) != [] then rows + [Last(rows)] else rows
  }

  /** The `if line` filter of line 68. */
  function NonEmptyRows(rows: seq<seq<string>>): seq<seq<string>> {
    if rows == [] then []
    else (if rows[0] == [] then [] else [rows[0]]) + NonEmptyRows(rows[1..])
  }

  /** The `" ".join(line)` of line 68, applied to every row. */
  function JoinRows(rows: seq<seq<string>>): (lines: seq<string>)
    ensures |lines| == |rows|
    ensures forall k :: 0 <= k < |rows| ==> lines[k] == JoinSpace(rows[k])
  {
    seq(|rows|, k requires 0 <= k < |rows| => JoinSpace(rows[k]))
  }

  /** The joins of line 68 are undone by the split of line 81: a list of
      rows of words is joined into one line per row, and each line splits
      back into exactly its row, so only an empty row gives an empty line. */
  lemma JoinRowsResplit(rows: seq<seq<string>>)
    requires forall k :: 0 <= k < |rows| ==> AllWords(rows[k])
    ensures |JoinRows(rows)| == |rows|
    ensures forall k :: 0 <= k < |rows| ==>
      Split(JoinRows(rows)[k]) == rows[k] && (JoinRows(rows)[k] == [] <==> rows[k] == [])
  {
    forall k | 0 <= k < |rows|
      ensures Split(JoinRows(rows)[k]) == rows[k]
    {
      SplitJoinSpace(rows[k]);
    }
  }

  /** The rows that survive the filter of line 68, in order. */
  function KeptRows(ws: seq<string>, W: int, H: int, width: string -> nat): seq<seq<string>>
    requires MeasuresLength(width)
    requires H <= 0 || ws != []
  {
    NonEmptyRows(AppendFinal(GreedyRows(ws, W, H, width)))
  }

  /** What `split_text_into_lines` returns for the words `ws`. */
  function WrappedLines(ws: seq<string>, W: int, H: int, width: string -> nat): seq<string>
    requires MeasuresLength(width)
    requires H <= 0 || ws != []
  {
    JoinRows(KeptRows(ws, W, H, width))
  }

  /** `split_text_into_lines(size, text)` with `size == (W, H)`. The loop of
      Python never ends when the text has no words and `H` is positive, so
      that case is excluded. */
  method SplitTextIntoLines(W: int, H: int, text: string, width: string -> nat)
    returns (result: seq<string>)
    requires MeasuresLength(width)
    requires H <= 0 || Split(text) != []
    ensures result == WrappedLines(Split(text), W, H, width)
  {
    var lines: seq<seq<string>> := [];
    var line: seq<string> := [];
    var words := Split(text);
    var curHeight := 0;
    LengthBoundsWords(width, W);
    ghost var rows := GreedyRows(words, W, H, width);
    while curHeight < H
      invariant 0 <= curHeight
      invariant curHeight < H ==> Wrap(words, W, H, width, lines, line, 0, curHeight) == rows
      invariant H <= curHeight ==> lines == rows && line == (if rows == [] then [] else Last(rows))
      decreases H - curHeight, W + 1 - |line|
    {
      lines, line, curHeight := WrapPass(W, H, words, width, lines, line, curHeight);
    }
    if line != [] {
      lines := lines + [line];
    }
    result := JoinRows(NonEmptyRows(lines));
  }

  /** One run of the `for` loop of lines 53-64 through all the words, from
      the state the previous run left; it ends early at the `break` of line
      63. The loop ends with the same rows from the new state as from the
      old one, and when no row was finalised the row has grown by every
      word. */
  method WrapPass(W: int, H: int, words: seq<string>, width: string -> nat,
                  lines0: seq<seq<string>>, line0: seq<string>, height0: int)
    returns (lines: seq<seq<string>>, line: seq<string>, curHeight: int)
    requires words != [] && height0 < H
    requires FitsFewWords(width, W)
    ensures height0 <= curHeight
    ensures curHeight < H ==>
      Wrap(words, W, H, width, lines, line, 0, curHeight) == Wrap(words, W, H, width, lines0, line0, 0, height0)
    ensures H <= curHeight ==>
      lines == Wrap(words, W, H, width, lines0, line0, 0, height0) && lines != [] && line == Last(lines)
    ensures curHeight == height0 ==> |line| == |line0| + |words| <= W + 1
  {
    lines, line, curHeight := lines0, line0, height0;
    ghost var rows := Wrap(words, W, H, width, lines0, line0, 0, height0);
    for i := 0 to |words|
      invariant height0 <= curHeight < H
      invariant Wrap(words, W, H, width, lines, line, i, curHeight) == rows
      invariant curHeight == height0 ==> |line| == |line0| + i
      invariant curHeight == height0 && 0 < i ==> |line| <= W + 1
    {
      var word := words[i];
      var newLine := JoinSpace(line + [word]);
      if width(newLine) <= W {
        line := line + [word];
      } else {
        lines := lines + [line];
        curHeight := curHeight + FontLineHeight;
        if curHeight >= H {
          return;
        }
        line := [word];
      }
    }
    WrapRestart(words, W, H, width, lines, line, curHeight);
  }

  /** A row joined with single spaces has at least one character fewer than
      it has words. */
  lemma {:induction false} JoinSpaceLength(row: seq<string>)
    ensures |row| <= |JoinSpace(row)| + 1
  {
    if |row| > 1 {
      JoinSpaceLength(row[1..]);
    }
  }

  /** A font that measures every string at least as wide as it is long
      never fits more than `W + 1` words on a row. */
  lemma LengthBoundsWords(width: string -> nat, W: int)
    requires MeasuresLength(width)
    ensures FitsFewWords(width, W)
  {
    forall row: seq<string> | width(JoinSpace(row)) <= W
      ensures |row| <= W + 1
    {
      JoinSpaceLength(row);
    }
  }

  /** Running off the end of the word list is the same as starting it again. */
  lemma WrapRestart(ws: seq<string>, W: int, H: int, width: string -> nat,
                    lines: seq<seq<string>>, line: seq<string>, h: int)
    requires ws != []
    requires FitsFewWords(width, W)
    ensures h < H ==> Wrap(ws, W, H, width, lines, line, |ws|, h) == Wrap(ws, W, H, width, lines, line, 0, h)
  {
  }

  /** The rows already in `lines` are carried through unchanged: the loop
      only ever appends to `lines`. */
  lemma {:induction false} WrapAccumulates(ws: seq<string>, W: int, H: int, width: string -> nat,
                                           lines: seq<seq<string>>, line: seq<string>, i: nat, h: int)
    requires ws != [] && i <= |ws| && FitsFewWords(width, W) && h < H
    ensures Wrap(ws, W, H, width, lines, line, i, h) == lines + Wrap(ws, W, H, width, [], line, i, h)
    decreases H - h, W + 1 - |line|
  {
    var k := if i == |ws| then 0 else i;
    var w := ws[k];
    if Fits(width, W, line + [w]) {
      WrapAccumulates(ws, W, H, width, lines, line + [w], k + 1, h);
    } else if h + FontLineHeight < H {
      WrapAccumulates(ws, W, H, width, lines + [line], [w], k + 1, h + FontLineHeight);
      WrapAccumulates(ws, W, H, width, [line], [w], k + 1, h + FontLineHeight);
      var rest := Wrap(ws, W, H, width, [], [w], k + 1, h + FontLineHeight);
      assert [] + [line] == [line];
      assert (lines + [line]) + rest == lines + ([line] + rest);
    }
  }

  /** One step of the loop, seen on the rows finalised from a state. */
  lemma RowsStep(ws: seq<string>, W: int, H: int, width: string -> nat,
                 line: seq<string>, i: nat, h: int)
    requires ws != [] && i <= |ws| && FitsFewWords(width, W) && h < H
    ensures var k := if i == |ws| then 0 else i;
      var w := ws[k];
      var rows := Wrap(ws, W, H, width, [], line, i, h);
      (Fits(width, W, line + [w]) ==> rows == Wrap(ws, W, H, width, [], line + [w], k + 1, h)) &&
      (!Fits(width, W, line + [w]) && H <= h + FontLineHeight ==> rows == [line]) &&
      (!Fits(width, W, line + [w]) && h + FontLineHeight < H ==>
         rows == [line] + Wrap(ws, W, H, width, [], [w], k + 1, h + FontLineHeight))
  {
    var k := if i == |ws| then 0 else i;
    var w := ws[k];
    assert [] + [line] == [line];
    if !Fits(width, W, line + [w]) && h + FontLineHeight < H {
      WrapAccumulates(ws, W, H, width, [line], [w], k + 1, h + FontLineHeight);
    }
  }

  /** Every finalised row costs 33: the loop stops at the first row that
      brings the height from `h` to `H` or beyond. */
  lemma {:induction false} RowsCount(ws: seq<string>, W: int, H: int, width: string -> nat,
                                     line: seq<string>, i: nat, h: int)
    requires ws != [] && i <= |ws| && FitsFewWords(width, W) && h < H
    ensures var rows := Wrap(ws, W, H, width, [], line, i, h);
      h + FontLineHeight * (|rows| - 1) < H <= h + FontLineHeight * |rows|
    decreases H - h, W + 1 - |line|
  {
    var k := if i == |ws| then 0 else i;
    var w := ws[k];
    RowsStep(ws, W, H, width, line, i, h);
    if Fits(width, W, line + [w]) {
      RowsCount(ws, W, H, width, line + [w], k + 1, h);
    } else if h + FontLineHeight < H {
      RowsCount(ws, W, H, width, [w], k + 1, h + FontLineHeight);
    }
  }

  /** Appending a word that passes the fit test keeps every tested prefix
      passing. */
  lemma AcceptedSnoc(width: string -> nat, W: int, line: seq<string>, w: string, a: nat)
    requires a <= |line| && Accepted(width, W, line, a)
    requires Fits(width, W, line + [w])
    ensures Accepted(width, W, line + [w], a)
  {
    forall j | a < j <= |line| + 1
      ensures Fits(width, W, (line + [w])[..j])
    {
      if j <= |line| {
        assert (line + [w])[..j] == line[..j];
      } else {
        assert (line + [w])[..j] == line + [w];
      }
    }
  }

  /** The first row finalised from a state extends the row being filled;
      every later row starts with the word that failed the fit test, and
      every word after the first of a row passed the fit test. */
  lemma {:induction false} RowsShape(ws: seq<string>, W: int, H: int, width: string -> nat,
                                     line: seq<string>, i: nat, h: int, a: nat)
    requires ws != [] && i <= |ws| && FitsFewWords(width, W) && h < H
    requires a <= |line| && Accepted(width, W, line, a)
    ensures var rows := Wrap(ws, W, H, width, [], line, i, h);
      |line| <= |rows[0]| && rows[0][..|line|] == line && Accepted(width, W, rows[0], a) &&
      forall k :: 1 <= k < |rows| ==> rows[k] != [] && Accepted(width, W, rows[k], 1)
    decreases H - h, W + 1 - |line|
  {
    var k := if i == |ws| then 0 else i;
    var w := ws[k];
    RowsStep(ws, W, H, width, line, i, h);
    if Fits(width, W, line + [w]) {
      AcceptedSnoc(width, W, line, w, a);
      RowsShape(ws, W, H, width, line + [w], k + 1, h, a);
      var r0 := Wrap(ws, W, H, width, [], line + [w], k + 1, h)[0];
      assert r0[..|line|] == r0[..|line| + 1][..|line|];
      assert (line + [w])[..|line|] == line;
    } else if h + FontLineHeight < H {
      RowsShape(ws, W, H, width, [w], k + 1, h + FontLineHeight, 1);
      assert line[..|line|] == line;
    } else {
      assert line[..|line|] == line;
    }
  }

  /** Rows are made of input words only. */
  lemma {:induction false} RowsWords(ws: seq<string>, W: int, H: int, width: string -> nat,
                                     line: seq<string>, i: nat, h: int)
    requires ws != [] && i <= |ws| && FitsFewWords(width, W) && h < H
    requires AllWords(ws) && AllWords(line)
    ensures var rows := Wrap(ws, W, H, width, [], line, i, h);
      forall k :: 0 <= k < |rows| ==> AllWords(rows[k])
    decreases H - h, W + 1 - |line|
  {
    var k := if i == |ws| then 0 else i;
    var w := ws[k];
    RowsStep(ws, W, H, width, line, i, h);
    if Fits(width, W, line + [w]) {
      assert AllWords(line + [w]);
      RowsWords(ws, W, H, width, line + [w], k + 1, h);
    } else if h + FontLineHeight < H {
      assert AllWords([w]);
      RowsWords(ws, W, H, width, [w], k + 1, h + FontLineHeight);
    }
  }

  /** A row is finalised only when the next word does not fit on it: that
      word then starts the following row. */
  lemma {:induction false} RowsMaximal(ws: seq<string>, W: int, H: int, width: string -> nat,
                                       line: seq<string>, i: nat, h: int)
    requires ws != [] && i <= |ws| && FitsFewWords(width, W) && h < H
    ensures var rows := Wrap(ws, W, H, width, [], line, i, h);
      forall k :: 1 <= k < |rows| ==> rows[k] != [] && !Fits(width, W, rows[k - 1] + [rows[k][0]])
    decreases H - h, W + 1 - |line|
  {
    var k := if i == |ws| then 0 else i;
    var w := ws[k];
    RowsStep(ws, W, H, width, line, i, h);
    if Fits(width, W, line + [w]) {
      RowsMaximal(ws, W, H, width, line + [w], k + 1, h);
    } else if h + FontLineHeight < H {
      RowsMaximal(ws, W, H, width, [w], k + 1, h + FontLineHeight);
      RowsShape(ws, W, H, width, [w], k + 1, h + FontLineHeight, 1);
      var rest := Wrap(ws, W, H, width, [], [w], k + 1, h + FontLineHeight);
      assert rest[0][0] == rest[0][..1][0] == w;
    }
  }

  /** The words of the rows finalised from a state, in order, continue the
      row being filled with the stream read from index `i`. */
  lemma {:induction false} RowsFollowStream(ws: seq<string>, W: int, H: int, width: string -> nat,
                                            line: seq<string>, i: nat, h: int)
    requires ws != [] && i <= |ws| && FitsFewWords(width, W) && h < H
    ensures |line| <= |Flatten(Wrap(ws, W, H, width, [], line, i, h))|
    ensures var F := Flatten(Wrap(ws, W, H, width, [], line, i, h));
      F == line + Cycle(ws, i, |F| - |line|)
    decreases H - h, W + 1 - |line|, 1
  {
    var k := if i == |ws| then 0 else i;
    var w := ws[k];
    if Fits(width, W, line + [w]) {
      FollowStreamFit(ws, W, H, width, line, i, h);
    } else if h + FontLineHeight < H {
      FollowStreamBreak(ws, W, H, width, line, i, h);
    } else {
      RowsStep(ws, W, H, width, line, i, h);
      FlattenCons(line, []);
      assert line + [] == line;
    }
  }

  /** RowsFollowStream when the next word joins the row. */
  lemma {:induction false} FollowStreamFit(ws: seq<string>, W: int, H: int, width: string -> nat,
                                           line: seq<string>, i: nat, h: int)
    requires ws != [] && i <= |ws| && FitsFewWords(width, W) && h < H
    requires Fits(width, W, line + [ws[if i == |ws| then 0 else i]])
    ensures |line| <= |Flatten(Wrap(ws, W, H, width, [], line, i, h))|
    ensures var F := Flatten(Wrap(ws, W, H, width, [], line, i, h));
      F == line + Cycle(ws, i, |F| - |line|)
    decreases H - h, W + 1 - |line|, 0
  {
    var k := if i == |ws| then 0 else i;
    var w := ws[k];
    assert Wrap(ws, W, H, width, [], line, i, h) == Wrap(ws, W, H, width, [], line + [w], k + 1, h);
    RowsFollowStream(ws, W, H, width, line + [w], k + 1, h);
    StreamCons(ws, i, line, Flatten(Wrap(ws, W, H, width, [], line + [w], k + 1, h)));
  }

  /** RowsFollowStream when the row is finalised and another one starts. */
  lemma {:induction false} FollowStreamBreak(ws: seq<string>, W: int, H: int, width: string -> nat,
                                             line: seq<string>, i: nat, h: int)
    requires ws != [] && i <= |ws| && FitsFewWords(width, W) && h + FontLineHeight < H
    requires !Fits(width, W, line + [ws[if i == |ws| then 0 else i]])
    ensures |line| <= |Flatten(Wrap(ws, W, H, width, [], line, i, h))|
    ensures var F := Flatten(Wrap(ws, W, H, width, [], line, i, h));
      F == line + Cycle(ws, i, |F| - |line|)
    decreases H - h, W + 1 - |line|, 0
  {
    var k := if i == |ws| then 0 else i;
    var w := ws[k];
    WrapBreak(ws, W, H, width, line, i, h);
    var rest := Wrap(ws, W, H, width, [], [w], k + 1, h + FontLineHeight);
    RowsFollowStream(ws, W, H, width, [w], k + 1, h + FontLineHeight);
    FlattenCons(line, rest);
    StreamCons(ws, i, line, line + Flatten(rest));
  }

  /** The loop stops on a word that does not fit: the stream word that
      follows those of the rows finalised from a state does not fit on the
      last of them. */
  lemma {:induction false} RowsEndOnMisfit(ws: seq<string>, W: int, H: int, width: string -> nat,
                                           line: seq<string>, i: nat, h: int)
    requires ws != [] && i <= |ws| && FitsFewWords(width, W) && h < H
    ensures var rows := Wrap(ws, W, H, width, [], line, i, h);
      |line| <= |Flatten(rows)| &&
      !Fits(width, W, Last(rows) + [StreamWord(ws, i + |Flatten(rows)| - |line|)])
    decreases H - h, W + 1 - |line|, 1
  {
    var k := if i == |ws| then 0 else i;
    var w := ws[k];
    RowsFollowStream(ws, W, H, width, line, i, h);
    if Fits(width, W, line + [w]) {
      EndOnMisfitFit(ws, W, H, width, line, i, h);
    } else if h + FontLineHeight < H {
      EndOnMisfitBreak(ws, W, H, width, line, i, h);
    } else {
      RowsStep(ws, W, H, width, line, i, h);
      FlattenCons(line, []);
      assert line + [] == line;
      StreamWordRestart(ws, i, 0);
    }
  }

  /** RowsEndOnMisfit when the next word joins the row. */
  lemma {:induction false} EndOnMisfitFit(ws: seq<string>, W: int, H: int, width: string -> nat,
                                          line: seq<string>, i: nat, h: int)
    requires ws != [] && i <= |ws| && FitsFewWords(width, W) && h < H
    requires Fits(width, W, line + [ws[if i == |ws| then 0 else i]])
    ensures var rows := Wrap(ws, W, H, width, [], line, i, h);
      |line| <= |Flatten(rows)| &&
      !Fits(width, W, Last(rows) + [StreamWord(ws, i + |Flatten(rows)| - |line|)])
    decreases H - h, W + 1 - |line|, 0
  {
    var k := if i == |ws| then 0 else i;
    var w := ws[k];
    var rows := Wrap(ws, W, H, width, [], line + [w], k + 1, h);
    assert Wrap(ws, W, H, width, [], line, i, h) == rows;
    RowsEndOnMisfit(ws, W, H, width, line + [w], k + 1, h);
    StreamWordRestart(ws, i, |Flatten(rows)| - |line|);
  }

  /** RowsEndOnMisfit when the row is finalised and another one starts. */
  lemma {:induction false} EndOnMisfitBreak(ws: seq<string>, W: int, H: int, width: string -> nat,
                                            line: seq<string>, i: nat, h: int)
    requires ws != [] && i <= |ws| && FitsFewWords(width, W) && h + FontLineHeight < H
    requires !Fits(width, W, line + [ws[if i == |ws| then 0 else i]])
    ensures var rows := Wrap(ws, W, H, width, [], line, i, h);
      |line| <= |Flatten(rows)| &&
      !Fits(width, W, Last(rows) + [StreamWord(ws, i + |Flatten(rows)| - |line|)])
    decreases H - h, W + 1 - |line|, 0
  {
    var k := if i == |ws| then 0 else i;
    var w := ws[k];
    var rest := Wrap(ws, W, H, width, [], [w], k + 1, h + FontLineHeight);
    WrapBreak(ws, W, H, width, line, i, h);
    RowsEndOnMisfit(ws, W, H, width, [w], k + 1, h + FontLineHeight);
    FlattenCons(line, rest);
    var x := StreamWord(ws, k + |Flatten(rest)|);
    StreamWordRestart(ws, i, |Flatten(rest)|);
    assert Last([line] + rest) + [x] == Last(rest) + [x];
  }

  /** A row that the next word does not fit on, when the height allows
      another row, is finalised and the next row starts with that word. */
  lemma WrapBreak(ws: seq<string>, W: int, H: int, width: string -> nat,
                  line: seq<string>, i: nat, h: int)
    requires ws != [] && i <= |ws| && FitsFewWords(width, W) && h + FontLineHeight < H
    requires !Fits(width, W, line + [ws[if i == |ws| then 0 else i]])
    ensures var k := if i == |ws| then 0 else i;
      Wrap(ws, W, H, width, [], line, i, h) ==
      [line] + Wrap(ws, W, H, width, [], [ws[k]], k + 1, h + FontLineHeight)
  {
    var k := if i == |ws| then 0 else i;
    WrapAccumulates(ws, W, H, width, [line], [ws[k]], k + 1, h + FontLineHeight);
    assert [] + [line] == [line];
  }

  /** Reading the stream from index |ws| is reading it from index 0. */
  lemma StreamWordRestart(ws: seq<string>, i: nat, q: nat)
    requires ws != [] && i <= |ws|
    ensures StreamWord(ws, (if i == |ws| then 0 else i) + q) == StreamWord(ws, i + q)
  {
  }

  /** One more word read from the stream: a row continued by word `i` and
      the stream after it is continued by the stream from `i`. */
  lemma StreamCons(ws: seq<string>, i: nat, line: seq<string>, F: seq<string>)
    requires ws != [] && i <= |ws|
    requires var k := if i == |ws| then 0 else i;
      |line| < |F| && F == (line + [ws[k]]) + Cycle(ws, k + 1, |F| - |line| - 1)
    ensures F == line + Cycle(ws, i, |F| - |line|)
  {
    var k := if i == |ws| then 0 else i;
    var tail := Cycle(ws, k + 1, |F| - |line| - 1);
    assert Cycle(ws, i, |F| - |line|) == [ws[k]] + tail;
    assert (line + [ws[k]]) + tail == line + ([ws[k]] + tail);
  }

  /** The words of a list of rows: those of the first row, then the rest. */
  lemma FlattenCons(row: seq<string>, rows: seq<seq<string>>)
    ensures Flatten([row] + rows) == row + Flatten(rows)
  {
    assert ([row] + rows)[1..] == rows;
  }

  /** Word `p` of the endless stream ws[0], ws[1], …: the words are read
      again from the start once the list is exhausted. */
  function StreamWord(ws: seq<string>, p: nat): string
    requires ws != []
    decreases p
  {
    if p < |ws| then ws[p] else StreamWord(ws, p - |ws|)
  }

  /** The stream read from index `i` holds word `i + p` of the endless
      stream at position `p`. */
  lemma {:induction false} CycleAt(ws: seq<string>, i: nat, n: nat, p: nat)
    requires ws != [] && i <= |ws| && p < n
    ensures Cycle(ws, i, n)[p] == StreamWord(ws, i + p)
    decreases p
  {
    var k := if i == |ws| then 0 else i;
    if p == 0 {
    } else {
      CycleAt(ws, k + 1, n - 1, p - 1);
    }
    if i == |ws| {
      assert StreamWord(ws, i + p) == StreamWord(ws, p);
    }
  }

  /** Each finalised row charges FONT_LINE_HEIGHT, and the loop stops at the
      first row that brings the charged height to `H` or beyond: for a
      positive height that is ceil(H / 33) rows. */
  lemma GreedyRowsCount(ws: seq<string>, W: int, H: int, width: string -> nat)
    requires MeasuresLength(width)
    requires H <= 0 || ws != []
    ensures var rows := GreedyRows(ws, W, H, width);
      (H <= 0 ==> rows == []) &&
      (0 < H ==> FontLineHeight * (|rows| - 1) < H <= FontLineHeight * |rows|)
  {
    LengthBoundsWords(width, W);
    if 0 < H {
      RowsCount(ws, W, H, width, [], 0, 0);
    }
  }

  /** Only the first row can be empty, and it is empty exactly when the
      first word alone is wider than `W`. */
  lemma GreedyRowsShape(ws: seq<string>, W: int, H: int, width: string -> nat)
    requires MeasuresLength(width)
    requires 0 < H && ws != []
    ensures var rows := GreedyRows(ws, W, H, width);
      (rows[0] == [] <==> W < width(ws[0])) &&
      (forall k :: 1 <= k < |rows| ==> rows[k] != [])
  {
    LengthBoundsWords(width, W);
    var rows := Wrap(ws, W, H, width, [], [], 0, 0);
    assert GreedyRows(ws, W, H, width) == rows;
    RowsShape(ws, W, H, width, [], 0, 0, 0);
    assert JoinSpace([] + [ws[0]]) == ws[0];
    if W < width(ws[0]) {
      RowsStep(ws, W, H, width, [], 0, 0);
      assert rows[0] == [];
    } else {
      assert [] + [ws[0]] == [ws[0]];
      assert rows == Wrap(ws, W, H, width, [], [ws[0]], 1, 0);
      RowsShape(ws, W, H, width, [ws[0]], 1, 0, 0);
    }
  }

  /** Line 56 on the rows: every row of two or more words, and a non-empty
      first row, passes the fit test. */
  lemma GreedyRowsFit(ws: seq<string>, W: int, H: int, width: string -> nat)
    requires MeasuresLength(width)
    requires H <= 0 || ws != []
    ensures var rows := GreedyRows(ws, W, H, width);
      (forall k :: 0 <= k < |rows| && 2 <= |rows[k]| ==> Fits(width, W, rows[k])) &&
      (rows != [] && rows[0] != [] ==> Fits(width, W, rows[0]))
  {
    LengthBoundsWords(width, W);
    if 0 < H {
      var rows := Wrap(ws, W, H, width, [], [], 0, 0);
      assert GreedyRows(ws, W, H, width) == rows;
      RowsShape(ws, W, H, width, [], 0, 0, 0);
      forall k | 0 <= k < |rows| && 2 <= |rows[k]|
        ensures Fits(width, W, rows[k])
      {
        assert rows[k][..|rows[k]|] == rows[k];
      }
      if rows[0] != [] {
        assert rows[0][..|rows[0]|] == rows[0];
      }
    }
  }

  /** Rows are made of words of the input. */
  lemma GreedyRowsWords(ws: seq<string>, W: int, H: int, width: string -> nat)
    requires MeasuresLength(width)
    requires H <= 0 || ws != []
    requires AllWords(ws)
    ensures var rows := GreedyRows(ws, W, H, width);
      forall k :: 0 <= k < |rows| ==> AllWords(rows[k])
  {
    LengthBoundsWords(width, W);
    if 0 < H {
      assert GreedyRows(ws, W, H, width) == Wrap(ws, W, H, width, [], [], 0, 0);
      RowsWords(ws, W, H, width, [], 0, 0);
    }
  }

  /** Greedy: a row is finalised only when the word that starts the next row
      does not fit on it. */
  lemma GreedyRowsMaximal(ws: seq<string>, W: int, H: int, width: string -> nat)
    requires MeasuresLength(width)
    requires H <= 0 || ws != []
    ensures var rows := GreedyRows(ws, W, H, width);
      forall k :: 1 <= k < |rows| ==> rows[k] != [] && !Fits(width, W, rows[k - 1] + [rows[k][0]])
  {
    LengthBoundsWords(width, W);
    if 0 < H {
      assert GreedyRows(ws, W, H, width) == Wrap(ws, W, H, width, [], [], 0, 0);
      RowsMaximal(ws, W, H, width, [], 0, 0);
    }
  }

  /** The words of the rows, in order, are the input words read again and
      again from the start, and the loop stops on a word of that stream
      that does not fit on the last row. */
  lemma GreedyRowsFollowInput(ws: seq<string>, W: int, H: int, width: string -> nat)
    requires MeasuresLength(width)
    requires 0 < H && ws != []
    ensures var rows := GreedyRows(ws, W, H, width);
      var F := Flatten(rows);
      (forall p :: 0 <= p < |F| ==> F[p] == StreamWord(ws, p)) &&
      !Fits(width, W, Last(rows) + [StreamWord(ws, |F|)])
  {
    LengthBoundsWords(width, W);
    var rows := GreedyRows(ws, W, H, width);
    var F := Flatten(rows);
    RowsFollowStream(ws, W, H, width, [], 0, 0);
    RowsEndOnMisfit(ws, W, H, width, [], 0, 0);
    assert F == Cycle(ws, 0, |F|);
    forall p | 0 <= p < |F|
      ensures F[p] == StreamWord(ws, p)
    {
      CycleAt(ws, 0, |F|, p);
    }
  }

  /** The filter keeps a list of non-empty rows as it is. */
  lemma {:induction false} NonEmptyRowsFull(rs: seq<seq<string>>)
    requires forall k :: 0 <= k < |rs| ==> rs[k] != []
    ensures NonEmptyRows(rs) == rs
  {
    if rs != [] {
      NonEmptyRowsFull(rs[1..]);
    }
  }

  /** The filter keeps only non-empty rows of its input. */
  lemma {:induction false} NonEmptyRowsMembers(rs: seq<seq<string>>)
    ensures forall r :: r in NonEmptyRows(rs) ==> r in rs && r != []
  {
    if rs != [] {
      NonEmptyRowsMembers(rs[1..]);
    }
  }

  /** What lines 66-68 keep of the rows: every row but an empty first one,
      followed by the last row once more. */
  lemma KeptRowsStructure(ws: seq<string>, W: int, H: int, width: string -> nat)
    requires MeasuresLength(width)
    requires 0 < H && ws != []
    ensures var rows := GreedyRows(ws, W, H, width);
      var kept := KeptRows(ws, W, H, width);
      (width(ws[0]) <= W ==> kept == rows + [Last(rows)]) &&
      (W < width(ws[0]) && |rows| == 1 ==> kept == []) &&
      (W < width(ws[0]) && 1 < |rows| ==> kept == rows[1..] + [Last(rows)])
  {
    var rows := GreedyRows(ws, W, H, width);
    GreedyRowsShape(ws, W, H, width);
    GreedyRowsCount(ws, W, H, width);
    if width(ws[0]) <= W {
      NonEmptyRowsFull(rows + [Last(rows)]);
    } else if |rows| == 1 {
      assert AppendFinal(rows) == rows;
      assert NonEmptyRows(rows) == [] + NonEmptyRows(rows[1..]);
      assert rows[1..] == [];
    } else {
      var t := rows[1..] + [Last(rows)];
      assert (rows + [Last(rows)])[1..] == t;
      NonEmptyRowsFull(t);
    }
  }

  /** Every returned line is non-empty, re-splits into exactly the row it
      was joined from, and that row is one the loop finalised. */
  lemma WrappedLinesResplit(ws: seq<string>, W: int, H: int, width: string -> nat)
    requires MeasuresLength(width)
    requires H <= 0 || ws != []
    requires AllWords(ws)
    ensures var out := WrappedLines(ws, W, H, width);
      var kept := KeptRows(ws, W, H, width);
      |out| == |kept| &&
      forall k :: 0 <= k < |out| ==>
        out[k] != [] && kept[k] in GreedyRows(ws, W, H, width) && Split(out[k]) == kept[k]
  {
    var rows := GreedyRows(ws, W, H, width);
    var kept := KeptRows(ws, W, H, width);
    var out := WrappedLines(ws, W, H, width);
    GreedyRowsWords(ws, W, H, width);
    NonEmptyRowsMembers(AppendFinal(rows));
    forall k | 0 <= k < |out|
      ensures out[k] != [] && kept[k] in rows && Split(out[k]) == kept[k]
    {
      assert kept[k] in kept;
      assert kept[k] in rows;
      SplitJoinSpace(kept[k]);
    }
  }

  /** Line 56 in the result: a returned line of two or more words measures
      at most `W`; only a single word wider than `W` overflows. */
  lemma WrappedLinesFit(ws: seq<string>, W: int, H: int, width: string -> nat)
    requires MeasuresLength(width)
    requires H <= 0 || ws != []
    requires AllWords(ws)
    ensures var out := WrappedLines(ws, W, H, width);
      forall k :: 0 <= k < |out| && 2 <= |Split(out[k])| ==> width(out[k]) <= W
  {
    var rows := GreedyRows(ws, W, H, width);
    var kept := KeptRows(ws, W, H, width);
    var out := WrappedLines(ws, W, H, width);
    WrappedLinesResplit(ws, W, H, width);
    GreedyRowsFit(ws, W, H, width);
    forall k | 0 <= k < |out| && 2 <= |Split(out[k])|
      ensures width(out[k]) <= W
    {
      var j :| 0 <= j < |rows| && rows[j] == kept[k];
    }
  }

  /** How many lines are returned: one per finalised row plus the repeated
      last row, less an empty first row. */
  lemma WrappedLinesCount(ws: seq<string>, W: int, H: int, width: string -> nat)
    requires MeasuresLength(width)
    requires H <= 0 || ws != []
    ensures var out := WrappedLines(ws, W, H, width);
      var rows := GreedyRows(ws, W, H, width);
      (H <= 0 ==> out == []) &&
      (0 < H && width(ws[0]) <= W ==> |out| == |rows| + 1) &&
      (0 < H && W < width(ws[0]) ==> |out| == if H <= FontLineHeight then 0 else |rows|)
  {
    GreedyRowsCount(ws, W, H, width);
    if 0 < H {
      KeptRowsStructure(ws, W, H, width);
    }
  }

  /** The height bound of the result: at most one line more than fills `H`,
      and, when the first word fits, at least one line more than `H`
      strictly needs. */
  lemma WrappedLinesHeight(ws: seq<string>, W: int, H: int, width: string -> nat)
    requires MeasuresLength(width)
    requires H <= 0 || ws != []
    ensures var out := WrappedLines(ws, W, H, width);
      (0 < H ==> FontLineHeight * |out| < H + 2 * FontLineHeight) &&
      (0 < H && width(ws[0]) <= W ==> H + FontLineHeight <= FontLineHeight * |out|) &&
      (0 < H && width(ws[0]) <= W && H % FontLineHeight != 0 ==> H + FontLineHeight < FontLineHeight * |out|)
  {
    GreedyRowsCount(ws, W, H, width);
    WrappedLinesCount(ws, W, H, width);
    var rows := GreedyRows(ws, W, H, width);
    if 0 < H && H % FontLineHeight != 0 {
      assert (FontLineHeight * |rows|) % FontLineHeight == 0;
    }
  }

  /** No line is returned exactly when the height is not positive, or it
      allows a single row and the first word alone is wider than `W`. */
  lemma WrappedLinesEmpty(ws: seq<string>, W: int, H: int, width: string -> nat)
    requires MeasuresLength(width)
    requires H <= 0 || ws != []
    ensures WrappedLines(ws, W, H, width) == [] <==>
      H <= 0 || (H <= FontLineHeight && W < width(ws[0]))
  {
    GreedyRowsCount(ws, W, H, width);
    WrappedLinesCount(ws, W, H, width);
  }

  /** Lines 66-67 re-append the row finalised by the `break`: what is
      kept, when anything is, ends with the same row twice. */
  lemma KeptRowsLastRepeated(ws: seq<string>, W: int, H: int, width: string -> nat)
    requires MeasuresLength(width)
    requires H <= 0 || ws != []
    ensures var kept := KeptRows(ws, W, H, width);
      kept != [] ==> 2 <= |kept| && kept[|kept| - 1] == kept[|kept| - 2]
  {
    var kept := KeptRows(ws, W, H, width);
    if kept != [] {
      var rows := GreedyRows(ws, W, H, width);
      GreedyRowsCount(ws, W, H, width);
      KeptRowsStructure(ws, W, H, width);
      var L := Last(rows);
      if width(ws[0]) <= W {
        assert kept == rows + [L];
        assert kept[|kept| - 2] == L;
      } else {
        assert 1 < |rows|;
        assert kept == rows[1..] + [L];
        assert kept[|kept| - 2] == rows[|rows| - 1] == L;
      }
    }
  }

  /** A non-empty result always ends with the same line twice. */
  lemma WrappedLinesLastRepeated(ws: seq<string>, W: int, H: int, width: string -> nat)
    requires MeasuresLength(width)
    requires H <= 0 || ws != []
    ensures var out := WrappedLines(ws, W, H, width);
      out != [] ==> 2 <= |out| && out[|out| - 1] == out[|out| - 2]
  {
    KeptRowsLastRepeated(ws, W, H, width);
  }

  /** Apart from the repeated last line, the result holds exactly the words
      of the finalised rows, in order. */
  lemma WrappedLinesWords(ws: seq<string>, W: int, H: int, width: string -> nat)
    requires MeasuresLength(width)
    requires H <= 0 || ws != []
    ensures var kept := KeptRows(ws, W, H, width);
      kept != [] ==> Flatten(kept[..|kept| - 1]) == Flatten(GreedyRows(ws, W, H, width))
  {
    var kept := KeptRows(ws, W, H, width);
    if kept != [] {
      var rows := GreedyRows(ws, W, H, width);
      GreedyRowsCount(ws, W, H, width);
      GreedyRowsShape(ws, W, H, width);
      KeptRowsStructure(ws, W, H, width);
      var front := kept[..|kept| - 1];
      if width(ws[0]) <= W {
        assert front == rows;
      } else {
        assert front == rows[1..];
        FlattenCons(rows[0], rows[1..]);
        assert [rows[0]] + rows[1..] == rows;
        assert rows[0] + Flatten(rows[1..]) == Flatten(rows[1..]);
      }
    }
  }
}
