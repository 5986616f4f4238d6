/** The Python 2 string built-ins the layout code relies on: `str.split()`
    with no argument, `" ".join(...)` and `"".join(...)`. Strings are
    sequences of characters; the source runs on Python 2 byte strings, whose
    whitespace is the six ASCII characters below. */
module TextOps {

  /** The characters Python 2's `str.split()` separates words on. */
  predicate IsSpace(c: char) {
    c == ' ' || c == '\t' || c == '\n' || c == '\r' || c == '\U{000B}' || c == '\U{000C}'
  }

  /** A word as `split()` produces it: non-empty and free of whitespace. */
  predicate IsWord(w: string) {
    w != [] && forall k :: 0 <= k < |w| ==> !IsSpace(w[k])
  }

  predicate AllWords(ws: seq<string>) {
    forall k :: 0 <= k < |ws| ==> IsWord(ws[k])
  }

  /** Length of the leading run of non-whitespace characters of `s`. */
  function WordLength(s: string): (n: nat)
    ensures n <= |s|
    ensures forall k :: 0 <= k < n ==> !IsSpace(s[k])
    ensures n < |s| ==> IsSpace(s[n])
  {
    if s == [] || IsSpace(s[0]) then 0 else 1 + WordLength(s[1..])
  }

  /** `s.split()`: the maximal runs of non-whitespace characters of `s`, in
      order; leading, trailing and repeated whitespace produce no words. */
  function Split(s: string): (ws: seq<string>)
    ensures AllWords(ws)
    decreases |s|
  {
    if s == [] then []
    else if IsSpace(s[0]) then Split(s[1..])
    else
      var n := WordLength(s);
      [s[..n]] + Split(s[n..])
  }

  /** `" ".join(ws)` */
  function JoinSpace(ws: seq<string>): string {
    if ws == [] then []
    else if |ws| == 1 then ws[0]
    else ws[0] + " " + JoinSpace(ws[1..])
  }

  /** `"".join(ws)` */
  function Concat(ws: seq<string>): string {
    if ws == [] then [] else ws[0] + Concat(ws[1..])
  }

  /** The non-whitespace characters of `s`, in order. */
  function NonSpace(s: string): string {
    if s == [] then []
    else (if IsSpace(s[0]) then [] else [s[0]]) + NonSpace(s[1..])
  }

  /** Appending a word to a list extends its space-joined form by a
      separating space (unless the list was empty) and the word. */
  lemma {:induction false} JoinSpaceSnoc(line: seq<string>, w: string)
    ensures JoinSpace(line + [w]) == if line == [] then w else JoinSpace(line) + " " + w
  {
    if |line| >= 2 {
      assert (line + [w])[1..] == line[1..] + [w];
      JoinSpaceSnoc(line[1..], w);
    } else if |line| == 1 {
      assert line + [w] == [line[0], w];
    }
  }

  /** A word followed by nothing or by whitespace is a run of exactly its own
      length. */
  lemma {:induction false} WordLengthOfWordThenSpace(w: string, t: string)
    requires IsWord(w)
    requires t == [] || IsSpace(t[0])
    ensures WordLength(w + t) == |w|
  {
    if |w| > 1 {
      assert (w + t)[1..] == w[1..] + t;
      WordLengthOfWordThenSpace(w[1..], t);
    } else {
      assert (w + t)[1..] == t;
    }
  }

  /** Re-splitting a space-joined list of words gives back exactly that list:
      the round trip between the join of line 68 and the split of line 81. */
  lemma {:induction false} SplitJoinSpace(ws: seq<string>)
    requires AllWords(ws)
    ensures Split(JoinSpace(ws)) == ws
  {
    if ws == [] {
    } else if |ws| == 1 {
      SplitWord(ws[0], []);
      assert ws[0] + [] == ws[0];
    } else {
      var rest := JoinSpace(ws[1..]);
      var t := " " + rest;
      assert JoinSpace(ws) == ws[0] + t;
      assert AllWords(ws[1..]);
      SplitWord(ws[0], t);
      assert t[1..] == rest;
      assert Split(t) == Split(rest);
      SplitJoinSpace(ws[1..]);
      assert ws == [ws[0]] + ws[1..];
    }
  }

  /** Splitting a word followed by nothing or by whitespace yields that word
      first, then the split of what follows it. */
  lemma SplitWord(w: string, t: string)
    requires IsWord(w)
    requires t == [] || IsSpace(t[0])
    ensures Split(w + t) == [w] + Split(t)
  {
    WordLengthOfWordThenSpace(w, t);
    var s := w + t;
    assert s[..|w|] == w;
    assert s[|w|..] == t;
  }

  /** Split drops exactly the whitespace: its words, concatenated, are the
      non-whitespace characters of the text in order. */
  lemma {:induction false} SplitKeepsNonSpace(s: string)
    ensures Concat(Split(s)) == NonSpace(s)
    decreases |s|
  {
    if s == [] {
    } else if IsSpace(s[0]) {
      SplitKeepsNonSpace(s[1..]);
    } else {
      var n := WordLength(s);
      SplitKeepsNonSpace(s[n..]);
      NonSpaceOfWord(s[..n], s[n..]);
      assert s == s[..n] + s[n..];
    }
  }

  /** The non-whitespace characters of a word followed by more text are the
      word followed by those of the rest. */
  lemma {:induction false} NonSpaceOfWord(w: string, t: string)
    requires forall k :: 0 <= k < |w| ==> !IsSpace(w[k])
    ensures NonSpace(w + t) == w + NonSpace(t)
  {
    if w != [] {
      assert (w + t)[1..] == w[1..] + t;
      NonSpaceOfWord(w[1..], t);
    } else {
      assert w + t == t;
    }
  }

  /** `s.split()` is empty exactly when `s` consists of whitespace only. */
  lemma {:induction false} SplitEmptyIffBlank(s: string)
    ensures Split(s) == [] <==> forall k :: 0 <= k < |s| ==> IsSpace(s[k])
    decreases |s|
  {
    if s != [] && IsSpace(s[0]) {
      SplitEmptyIffBlank(s[1..]);
      assert forall k :: 1 <= k < |s| ==> s[k] == s[1..][k - 1];
    }
  }
}
