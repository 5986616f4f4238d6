# Text compositing: greedy word wrap and full justification

This project models the text layout core of `composite_utils.py`, a small
Python 2 tool that writes a caption over an image:

- `split_text_into_lines(size, text)` is a greedy word wrapper. It splits the
  text on whitespace and fills rows while the space-joined row measures at
  most the image width. Each finalised row charges `FONT_LINE_HEIGHT` (33)
  pixels, and the wrapper stops at the first row that brings the charged
  height to the image height or beyond.
- `draw_text_lines(draw, size, lines)` is a full justifier. Each line is
  re-split into words. All words but the last are drawn from the left edge,
  each followed by an equal gap. The last word is drawn flush with the right
  edge. Lines are drawn 33 pixels apart, and the first one is drawn at
  `INITIAL_LINE_HEIGHT_OFFSET` = -(48 - 33) * 2 / 3 = -10.
- `composite(image, text)` chains the two.

The font is an abstract parameter `width: string -> nat`. A draw is recorded
as a `Draw(x, y, word)` value rather than rasterised.

Modules:

- `TextOps` (`text.dfy`) models Python 2's `str.split()`, `" ".join` and
  `"".join`.
- `LineWrapper` (`wrapper.dfy`) models the wrapper. The method
  `SplitTextIntoLines` keeps the source's `while` loop, and `WrapPass` keeps
  its `for` loop with the early `break`. Both are proved against the
  recursive reference function `Wrap`, and the wrapper's promises are proved
  as lemmas about `Wrap`, `GreedyRows` and `WrappedLines`.
- `Justifier` (`justify.dfy`) models the justifier. `DrawTextLines`,
  `DrawLine` and `DrawFrontWords` keep the outer loop, the per-line body and
  the inner loop. They are proved against the reference function `Justify`.
  An exception is modelled as an `Outcome` that names the line that raised
  it.
- `Compositor` (`compose.dfy`) models lines 113-116 of `composite`.

### Behaviour of the code worth knowing

The model follows the code, apart from what "## Left out" lists (exact reals
for floats, the font assumption that bounds the loop), including these
consequences of it.

- **Line count.** The wrapper finalises ceil(H / 33) rows. Lines 66-67
  then append the last row a second time ("# Add final line if there is
  one", line 65, runs after the loop whether or not the words are used up).
  When the first word fits, the result therefore has ceil(H / 33) + 1
  lines, one more than the height has room for (`WrappedLinesCount`,
  `WrappedLinesHeight`).
- **The words repeat.** The `for` loop sits inside
  `while cur_height < size[1]`. The words are read again and again from the
  start until the height is used up, so a short text is repeated to fill
  the image (`GreedyRowsFollowInput`).
- **Single-word lines.** For a wrapped line of a single word, line 86
  divides by zero. `draw_text_lines` raises ZeroDivisionError before drawing
  any word of that line. Nothing catches it, so `composite` raises it from
  line 116 without reaching the multiply of line 119 or returning an image.
  The model records this as a `Raised` outcome together with the draws of
  the earlier lines. The wrapper never produces an empty line, so of the two
  layout faults `composite` can hit only ZeroDivisionError, never IndexError
  (`CompositeFaults`).
- **Empty text.** For text with no words and a positive height, the
  wrapper's loop never ends.

## Data model

| constant or type | source | stands for |
|---|---|---|
| LineWrapper.FontLineHeight | composite_utils.py:14 | `FONT_LINE_HEIGHT` = 33, the height charged per finalised row and the distance between drawn lines |
| Justifier.FontSize | composite_utils.py:13 | `FONT_SIZE` = 48 |
| Justifier.InitialLineHeightOffset | composite_utils.py:15 | `INITIAL_LINE_HEIGHT_OFFSET` = -(48 - 33) * 2 / 3 = -10. Python 2 floor division of -30 by 3 and Dafny's division agree, since the division is exact |
| Justifier.Draw | composite_utils.py:91, 98 | one `draw_text(draw, (x, y), word)` call: the pen position and the word |
| Justifier.Fault | composite_utils.py:86, 96 | the two exceptions a line can raise: ZeroDivisionError at line 86 for one word, IndexError at line 96 for none |
| Justifier.Outcome | composite_utils.py:79-100 | `Completed` when every line was drawn, or `Raised(line, fault)` naming the line that raised and its exception |
| Justifier.Rendering | composite_utils.py:79-100 | the draws made in order, and the outcome |

## Model

| member | source | states |
|---|---|---|
| TextOps.Split | composite_utils.py:50 | `text.split()` yields only words: non-empty strings without whitespace |
| TextOps.JoinSpace | composite_utils.py:54 | `" ".join`: the words with one space between consecutive ones |
| TextOps.Concat | composite_utils.py:82 | `"".join`: the words run together |
| TextOps.SplitKeepsNonSpace | composite_utils.py:50 | the words, concatenated, are exactly the non-whitespace characters of the text, in order |
| TextOps.SplitEmptyIffBlank | composite_utils.py:50 | the split is empty if and only if the text is whitespace only |
| TextOps.JoinSpaceSnoc | composite_utils.py:54 | `" ".join(line + [word])` is the joined line, a space, then the word (just the word for an empty line) |
| TextOps.SplitJoinSpace | composite_utils.py:81 | re-splitting a row of words joined with spaces gives back exactly that row |
| LineWrapper.Fits | composite_utils.py:56 | a row fits when its space-joined form measures at most W |
| LineWrapper.GreedyRows | composite_utils.py:48-64 | the rows the loop appends to `lines`: none for H <= 0, otherwise `Wrap` from an empty row at height 0 |
| LineWrapper.AppendFinal | composite_utils.py:65-67 | the row still in `line` after the loop, which is the last finalised row, appended once more when non-empty |
| LineWrapper.NonEmptyRows | composite_utils.py:68 | the `if line` filter: the non-empty rows, in order |
| LineWrapper.JoinRows | composite_utils.py:68 | the `" ".join(line)` comprehension of line 68: one line per row, row k joined with single spaces (its partner is `JoinRowsResplit`) |
| LineWrapper.KeptRows | composite_utils.py:65-68 | the finalised rows with the final append, less empty rows |
| LineWrapper.WrappedLines | composite_utils.py:48-68 | the kept rows, each joined with single spaces: what `split_text_into_lines` returns |
| LineWrapper.SplitTextIntoLines | composite_utils.py:40-69 | the returned lines are `WrappedLines` of the text's words |
| LineWrapper.WrapPass | composite_utils.py:53-64 | one run of the `for` loop keeps the rows the loop will end with; after the `break` the rows are final and `line` is the last of them; a run that finalises no row grows the row by every word |
| LineWrapper.Wrap | composite_utils.py:52-64 | the loop always finalises at least one more row before it stops |
| LineWrapper.JoinRowsResplit | composite_utils.py:68 | every row of words joined by line 68 splits back (line 81) into exactly that row, and its line is empty only for an empty row |
| LineWrapper.JoinSpaceLength | composite_utils.py:54 | a row of n words joins into at least n - 1 characters |
| LineWrapper.LengthBoundsWords | composite_utils.py:56 | with a font at least as wide as the text is long, a row that passes the fit test has at most W + 1 words, which bounds the loop |
| LineWrapper.WrapRestart | composite_utils.py:52-53 | when the `for` loop runs off the end of the words, the `while` loop starts it again at the first word |
| LineWrapper.WrapAccumulates | composite_utils.py:60 | rows already in `lines` stay as they are; the loop only appends |
| LineWrapper.RowsStep | composite_utils.py:53-64 | the three cases of one word: it joins the row; or the row is finalised and the loop stops; or the row is finalised and a new row starts with the word |
| LineWrapper.WrapBreak | composite_utils.py:59-64 | a word that does not fit, while height remains, finalises the row and starts the next row with that word |
| LineWrapper.RowsCount | composite_utils.py:61-63 | starting from charged height h, the loop finalises r rows with h + 33(r - 1) < H <= h + 33r |
| LineWrapper.AcceptedSnoc | composite_utils.py:56-57 | appending a word that passes the fit test keeps every tested prefix of the row fitting |
| LineWrapper.RowsShape | composite_utils.py:56-64 | the first row extends the row being filled; every later row is non-empty; every word after a row's first passed the fit test |
| LineWrapper.RowsWords | composite_utils.py:53-64 | rows contain only words |
| LineWrapper.RowsMaximal | composite_utils.py:56-64 | a row is finalised only when the first word of the next row does not fit on it |
| LineWrapper.RowsFollowStream | composite_utils.py:52-64 | the words of the rows, in order, continue the current row with the word stream from the current index |
| LineWrapper.FollowStreamFit | composite_utils.py:56-57 | the stream property when the next word joins the row |
| LineWrapper.FollowStreamBreak | composite_utils.py:59-64 | the stream property when the row is finalised and a new one starts |
| LineWrapper.RowsEndOnMisfit | composite_utils.py:56-63 | the stream word after the rows' words does not fit on the last row: the loop stops on a misfit |
| LineWrapper.EndOnMisfitFit | composite_utils.py:56-57 | the misfit property when the next word joins the row |
| LineWrapper.EndOnMisfitBreak | composite_utils.py:59-64 | the misfit property when the row is finalised and a new one starts |
| LineWrapper.StreamWordRestart | composite_utils.py:52-53 | reading the stream from index \|ws\| is reading it from index 0 |
| LineWrapper.StreamCons | composite_utils.py:53 | a row continued by word i and then the stream after it is the row continued by the stream from i |
| LineWrapper.CycleAt | composite_utils.py:52-53 | position p of the words read from index i is word i + p of the endless repetition of the words |
| LineWrapper.GreedyRowsCount | composite_utils.py:52-63 | for H <= 0 there are no rows; otherwise there are r rows with 33(r - 1) < H <= 33r, i.e. ceil(H / 33) |
| LineWrapper.GreedyRowsShape | composite_utils.py:56-64 | only the first row can be empty, and it is empty exactly when the first word alone is wider than W |
| LineWrapper.GreedyRowsFit | composite_utils.py:56-57 | every row of two or more words, and a non-empty first row, measures at most W when joined |
| LineWrapper.GreedyRowsWords | composite_utils.py:50-64 | rows are made of words of the input |
| LineWrapper.GreedyRowsMaximal | composite_utils.py:56-64 | greedy: each row is finalised only because the next row's first word does not fit on it |
| LineWrapper.GreedyRowsFollowInput | composite_utils.py:52-64 | the rows' words, in order, are the input words repeated from the start; the next such word does not fit on the last row |
| LineWrapper.NonEmptyRowsFull | composite_utils.py:68 | the `if line` filter keeps a list of non-empty rows unchanged |
| LineWrapper.NonEmptyRowsMembers | composite_utils.py:68 | the filter keeps only non-empty rows taken from its input |
| LineWrapper.KeptRowsStructure | composite_utils.py:66-68 | the kept rows are all rows (minus an empty first row), followed by the last row once more, or nothing for a single empty row |
| LineWrapper.WrappedLinesResplit | composite_utils.py:68 | every returned line is non-empty and re-splits into exactly the row it was joined from, which is a row the loop finalised |
| LineWrapper.WrappedLinesFit | composite_utils.py:56-68 | a returned line of two or more words measures at most W |
| LineWrapper.WrappedLinesCount | composite_utils.py:60-68 | no lines for H <= 0; rows + 1 lines when the first word fits; otherwise rows lines, or none when H <= 33 |
| LineWrapper.WrappedLinesHeight | composite_utils.py:61-68 | 33 × count < H + 66; when the first word fits, 33 × count >= H + 33, and > H + 33 if H is not a multiple of 33 |
| LineWrapper.WrappedLinesEmpty | composite_utils.py:48-68 | no line is returned exactly when H <= 0, or when H <= 33 and the first word is wider than W |
| LineWrapper.KeptRowsLastRepeated | composite_utils.py:66-67 | non-empty kept rows end with the same row twice |
| LineWrapper.WrappedLinesLastRepeated | composite_utils.py:66-68 | a non-empty result has at least two lines and its last two lines are equal |
| LineWrapper.WrappedLinesWords | composite_utils.py:66-68 | all kept rows but the repeated last one hold exactly the words of the finalised rows, in order |
| Justifier.SpaceWidth | composite_utils.py:86 | the width the words leave free, divided by the number of gaps between them (the word count less one) |
| Justifier.PenX | composite_utils.py:89-93 | `cur_x` when word j is drawn: 0, then advanced by each earlier word's width and one gap |
| Justifier.FrontDraws | composite_utils.py:89-93 | one draw per word but the last, at its pen position and the line's height |
| Justifier.LineDraws | composite_utils.py:86-98 | a line of two or more words: the front draws, then the last word at x = W minus its width |
| Justifier.Justify | composite_utils.py:79-100 | the lines drawn 33 pixels apart from height y; a line of one word raises ZeroDivisionError and one of no words IndexError, ending the call with the draws so far |
| Justifier.DrawTextLines | composite_utils.py:71-100 | the draws and the outcome are `Justify` of the lines, starting at height -10 |
| Justifier.DrawLine | composite_utils.py:81-98 | one line is drawn as `Justify` draws a single line at its height |
| Justifier.DrawFrontWords | composite_utils.py:89-93 | the words but the last are drawn at pen positions advanced by each word's width plus the gap; no words give no draws |
| Justifier.JustifyFirstLine | composite_utils.py:80-100 | the first line either raises (ZeroDivisionError for one word, IndexError for none) or is drawn as it would be alone, and the rest follows 33 pixels lower |
| Justifier.JustifyOutcome | composite_utils.py:80-98 | completes if and only if every line has two or more words; otherwise raises on the first line that does not, with ZeroDivisionError exactly for one word and IndexError exactly for none |
| Justifier.JustifyAppend | composite_utils.py:80-100 | drawable lines are drawn one after the other: A + B renders as A, then B started 33 × \|A\| lower |
| Justifier.JustifyLineAt | composite_utils.py:79-100 | line k, when it and all earlier lines are drawable, is drawn at height y + 33k, right after the draws of the earlier lines |
| Justifier.JustifyStopsAtFault | composite_utils.py:86-96 | nothing of the line that raises, or of any later line, is drawn |
| Justifier.LineDrawsShape | composite_utils.py:86-98 | one draw per word, in order, at the line's height; the first at x = 0; the last ending exactly at W; every word but the last two followed by the same gap `SpaceWidth` (the gap after the last front word needs `LineDrawsJustified`) |
| Justifier.PenXClosed | composite_utils.py:89-93 | the pen is at the sum of the earlier words' widths plus one gap per earlier word |
| Justifier.LineDrawsJustified | composite_utils.py:82-98 | when a line's unspaced width is the sum of its words' widths, the gap before the last word equals the others, so the line is exactly justified |
| Compositor.Composite | composite_utils.py:113-116 | the caption is `Justify` of `WrappedLines` of the text at the image's size |
| Compositor.CompositeFaults | composite_utils.py:113-116 | of the two layout faults, compositing can raise only ZeroDivisionError, on a kept row of one word, and completes exactly when every kept row has two or more words |

## Left out

- `get_text_width` (lines 18-26) loads a TrueType font and measures text with PIL. It is replaced by the parameter `width`.
- `draw_text` (lines 28-38) decodes UTF-8 and rasterises a word. A draw is recorded as a `Draw` value instead. The decode at line 36 raises UnicodeDecodeError on a word that is not valid UTF-8, partway through a line; that error path is not modelled, since strings here are sequences of characters.
- `composite` opening the image, creating the text layer and multiplying the two images (lines 110-119) is not modelled. Only the two layout calls are.
- `FONT_COLOR`, `FONT_BACKGROUND_COLOR`, `FONT_FILE` and `FONT_ENCODING` (lines 9-12) are used only by the parts left out.
- Floating point: `space_width` and `cur_x` are exact reals, and PIL's handling of fractional coordinates is not modelled.
- Exceptions: a raised exception becomes the `Raised` outcome together with the draws made so far. How it propagates out of `composite` is not modelled.
- Python 2 byte strings become `seq<char>`. Whitespace is the six ASCII characters Python 2's `str.split()` separates on.
- SplitTextIntoLines: requires that the text has a word when the height is positive. The source loops forever on such input, and a non-terminating loop cannot be expressed here.
- SplitTextIntoLines: requires a font that measures every string at least as wide as it is long. This is stronger than the source needs. It excludes fonts under which the loop still ends, and it is there because a font that measures growing rows as narrow (zero width, say) makes the source loop forever.
- WrapPass, DrawLine and DrawFrontWords are not separate functions in the source. They are the bodies of the source's loops, split out so that each proof stays small.
