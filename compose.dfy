/** `composite(image, text)` of composite_utils.py, without the image: the
    text is wrapped to the image's size and the wrapped lines are justified
    onto it. Opening the image, creating the text layer and multiplying the
    two are not part of this model. */
module Compositor {
  import opened TextOps
  import opened LineWrapper
  import opened Justifier

  /** Lines 113-116 for an image of `W` by `H` pixels. */
  method Composite(W: int, H: int, text: string, width: string -> nat) returns (r: Rendering)
    requires MeasuresLength(width)
    requires H <= 0 || Split(text) != []
    ensures r == Justify(W, WrappedLines(Split(text), W, H, width), width, InitialLineHeightOffset)
  {
    var lines := SplitTextIntoLines(W, H, text, width);
    r := DrawTextLines(W, lines, width);
  }

  /** The wrapper never hands the justifier an empty line, so compositing
      can only fail with ZeroDivisionError, on the first wrapped line that
      holds a single word; it completes exactly when every row kept by the
      wrapper holds two or more words. */
  lemma CompositeFaults(W: int, H: int, text: string, width: string -> nat)
    requires MeasuresLength(width)
    requires H <= 0 || Split(text) != []
    ensures var lines := WrappedLines(Split(text), W, H, width);
      var kept := KeptRows(Split(text), W, H, width);
      var o := Justify(W, lines, width, InitialLineHeightOffset).outcome;
      (o.Raised? ==> o.fault == ZeroDivisionError && o.line < |kept| && |kept[o.line]| == 1) &&
      (o == Completed <==> forall k :: 0 <= k < |kept| ==> 2 <= |kept[k]|)
  {
    var ws := Split(text);
    WrappedLinesResplit(ws, W, H, width);
    JustifyOutcome(W, WrappedLines(ws, W, H, width), width, InitialLineHeightOffset);
  }
}
