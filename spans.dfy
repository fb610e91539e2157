/**
 * `Diff.get_text_between_line_col`: the source text a node's location
 * covers.  Lines are numbered from 1, columns from 0, and the end column is
 * exclusive.  The text is split at line feeds only and columns count
 * characters.
 */
module Spans {

  /** A node's location attributes: `lineno`, `end_lineno`, `col_offset`, `end_col_offset`. */
  datatype Span = Span(lineno: nat, endLineno: nat, colOffset: nat, endColOffset: nat)

  function Min(a: nat, b: nat): nat {
    if a <= b then a else b
  }

  /** Python's `s[a:b]` for non-negative bounds: both clamp to the length, and a reversed range is empty. */
  function Slice(s: string, a: nat, b: nat): (r: string)
    ensures |r| <= |s|
    ensures a <= b <= |s| ==> r == s[a..b]
    ensures a <= |s| <= b ==> r == s[a..]
    ensures b <= a || |s| <= a ==> r == ""
  {
    var lo, hi := Min(a, |s|), Min(b, |s|);
    if hi <= lo then "" else s[lo..hi]
  }

  /** Python's `s[a:]`. */
  function Suffix(s: string, a: nat): (r: string)
    ensures a <= |s| ==> r == s[a..]
    ensures |s| <= a ==> r == ""
  {
    s[Min(a, |s|)..]
  }

  /** Python's `s[:b]`. */
  function Prefix(s: string, b: nat): (r: string)
    ensures b <= |s| ==> r == s[..b]
    ensures |s| <= b ==> r == s
  {
    s[..Min(b, |s|)]
  }

  /** The position of the first line feed at or after `i`, or the length when there is none. */
  function LineEnd(t: string, i: nat): (k: nat)
    requires i <= |t|
    decreases |t| - i
    ensures i <= k <= |t|
    ensures k < |t| ==> t[k] == '\n'
  {
    if i == |t| || t[i] == '\n' then i else LineEnd(t, i + 1)
  }

  /** No line feed lies between `i` and the end of its line. */
  lemma {:induction false} LineEndIsFirst(t: string, i: nat, p: nat)
    requires i <= p < |t| && p < LineEnd(t, i)
    decreases |t| - i
    ensures t[p] != '\n'
  {
    if p > i {
      LineEndIsFirst(t, i + 1, p);
    }
  }

  /** `str.splitlines()` on line feeds: a final line feed does not start another line. */
  function SplitLines(t: string): (lines: seq<string>)
    decreases |t|
    ensures |lines| <= |t|
  {
    if t == [] then []
    else
      var k := LineEnd(t, 0);
      [t[..k]] + (if k < |t| then SplitLines(t[k + 1..]) else [])
  }

  /** No line holds a line feed. */
  lemma {:induction false} SplitLinesNoFeed(t: string)
    decreases |t|
    ensures forall l | l in SplitLines(t) :: '\n' !in l
  {
    if t != [] {
      var k := LineEnd(t, 0);
      forall p | 0 <= p < k
        ensures t[..k][p] != '\n'
      {
        LineEndIsFirst(t, 0, p);
      }
      if k < |t| {
        SplitLinesNoFeed(t[k + 1..]);
      }
    }
  }

  /** Every line followed by a line feed. */
  function JoinLines(lines: seq<string>): string {
    if lines == [] then "" else lines[0] + "\n" + JoinLines(lines[1..])
  }

  /** The text with a line feed added, unless it is empty or already ends with one. */
  function Terminated(t: string): string {
    if t == [] || t[|t| - 1] == '\n' then t else t + "\n"
  }

  /** A text that ends with a line feed is unchanged by what follows it. */
  lemma TerminatedAfter(head: string, rest: string)
    requires |head| > 0 && head[|head| - 1] == '\n'
    ensures Terminated(head + rest) == head + Terminated(rest)
  {
    if rest == [] {
      assert head + rest == head;
    } else {
      assert (head + rest)[|head + rest| - 1] == rest[|rest| - 1];
      assert (head + rest) + "\n" == head + (rest + "\n");
    }
  }

  /** A text cut at a line feed: what precedes it, the line feed, and what follows. */
  lemma SplitAround(t: string, k: nat)
    requires k < |t| && t[k] == '\n'
    ensures t == (t[..k] + "\n") + t[k + 1..]
  {
    var head, rest := t[..k + 1], t[k + 1..];
    assert t == head + rest;
    assert head == t[..k] + "\n";
  }

  /** Joining a list that starts with `l`: `l`, a line feed, then the rest joined. */
  lemma JoinCons(l: string, rest: seq<string>)
    ensures JoinLines([l] + rest) == (l + "\n") + JoinLines(rest)
  {
    assert ([l] + rest)[0] == l && ([l] + rest)[1..] == rest;
  }

  /** A text that holds a line feed splits into its first line and the rest's lines. */
  lemma SplitFirstLine(t: string, k: nat)
    requires t != [] && k == LineEnd(t, 0) && k < |t|
    ensures SplitLines(t) == [t[..k]] + SplitLines(t[k + 1..])
  {
  }

  /** Splitting loses nothing but the line feeds, apart from supplying a missing last one. */
  lemma {:induction false} SplitJoin(t: string)
    decreases |t|
    ensures JoinLines(SplitLines(t)) == Terminated(t)
  {
    if t != [] {
      var k := LineEnd(t, 0);
      if k < |t| {
        var head, rest := t[..k] + "\n", t[k + 1..];
        SplitAround(t, k);
        SplitFirstLine(t, k);
        JoinCons(t[..k], SplitLines(rest));
        SplitJoin(rest);
        TerminatedAfter(head, rest);
      } else {
        assert SplitLines(t) == [t] by {
          assert t[..k] == t;
        }
        LineEndIsFirst(t, 0, |t| - 1);
      }
    }
  }

  /** Lines `lo` to `hi - 1` (counted from 0) concatenated with no separator. */
  function ConcatRange(lines: seq<string>, lo: nat, hi: nat): string
    requires lo <= hi <= |lines|
    decreases hi
  {
    if hi == lo then "" else ConcatRange(lines, lo, hi - 1) + lines[hi - 1]
  }

  /** What line number `lineNum` contributes. */
  function Piece(line: string, lineNum: nat, s: Span): string {
    if lineNum < s.lineno then ""
    else if lineNum > s.endLineno then ""
    else if lineNum == s.lineno && lineNum == s.endLineno then Slice(line, s.colOffset, s.endColOffset)
    else if lineNum == s.endLineno then Prefix(line, s.endColOffset)
    else if lineNum == s.lineno then Suffix(line, s.colOffset)
    else line
  }

  /** The text gathered from the first `k` lines. */
  function SpanText(lines: seq<string>, s: Span, k: nat): string
    requires k <= |lines|
  {
    if k == 0 then "" else SpanText(lines, s, k - 1) + Piece(lines[k - 1], k, s)
  }

  /**
   * `get_text_between_line_col`: walk the lines with a 1-based counter,
   * skip those before the span, stop after its last line, and collect each
   * line's piece.
   */
  method GetTextBetweenLineCol(text: string, span: Span) returns (expressionText: string)
    ensures expressionText == SpanText(SplitLines(text), span, |SplitLines(text)|)
  {
    expressionText := "";
    var lineNum := 1;
    var lines := SplitLines(text);
    var k := 0;
    while k < |lines|
      invariant 0 <= k <= |lines| && lineNum == k + 1
      invariant expressionText == SpanText(lines, span, k)
    {
      var line := lines[k];
      if lineNum < span.lineno {
        lineNum := lineNum + 1;
        k := k + 1;
        continue;
      } else if lineNum > span.endLineno {
        SpanTextPastEnd(lines, span, k, |lines|);
        break;
      } else if lineNum == span.lineno && lineNum == span.endLineno {
        expressionText := expressionText + Slice(line, span.colOffset, span.endColOffset);
      } else if lineNum == span.endLineno {
        expressionText := expressionText + Prefix(line, span.endColOffset);
      } else if lineNum == span.lineno {
        expressionText := expressionText + Suffix(line, span.colOffset);
      } else {
        expressionText := expressionText + line;
      }
      lineNum := lineNum + 1;
      k := k + 1;
    }
  }

  /** Lines after the span's last line add nothing, which is why the scan may stop there. */
  lemma {:induction false} SpanTextPastEnd(lines: seq<string>, s: Span, k: nat, k': nat)
    requires s.endLineno <= k <= k' <= |lines|
    ensures SpanText(lines, s, k') == SpanText(lines, s, k)
    decreases k'
  {
    if k' > k {
      SpanTextPastEnd(lines, s, k, k' - 1);
    }
  }

  /** Lines before the span's first line add nothing. */
  lemma {:induction false} SpanTextBeforeStart(lines: seq<string>, s: Span, k: nat)
    requires k <= |lines| && k < s.lineno
    ensures SpanText(lines, s, k) == ""
  {
    if k > 0 {
      SpanTextBeforeStart(lines, s, k - 1);
      assert Piece(lines[k - 1], k, s) == "";
    }
  }

  /** A line strictly inside the span is taken whole. */
  lemma PieceInterior(line: string, lineNum: nat, s: Span)
    requires s.lineno < lineNum < s.endLineno
    ensures Piece(line, lineNum, s) == line
  {
  }

  /** Up to the span's last line, the text is the first line's tail and the interior lines whole. */
  lemma {:induction false} SpanTextInterior(lines: seq<string>, s: Span, k: nat)
    requires 1 <= s.lineno <= k < s.endLineno && k <= |lines|
    ensures SpanText(lines, s, k) == Suffix(lines[s.lineno - 1], s.colOffset) + ConcatRange(lines, s.lineno, k)
    decreases k
  {
    var first := Suffix(lines[s.lineno - 1], s.colOffset);
    if k == s.lineno {
      SpanTextBeforeStart(lines, s, k - 1);
    } else {
      SpanTextInterior(lines, s, k - 1);
      PieceInterior(lines[k - 1], k, s);
      assert (first + ConcatRange(lines, s.lineno, k - 1)) + lines[k - 1]
          == first + (ConcatRange(lines, s.lineno, k - 1) + lines[k - 1]);
    }
  }

  /** A span on one line yields that line's slice between the two columns. */
  lemma SpanSingleLine(text: string, s: Span)
    requires 1 <= s.lineno == s.endLineno <= |SplitLines(text)|
    ensures SpanText(SplitLines(text), s, |SplitLines(text)|)
      == Slice(SplitLines(text)[s.lineno - 1], s.colOffset, s.endColOffset)
  {
    var lines := SplitLines(text);
    SpanTextBeforeStart(lines, s, s.lineno - 1);
    SpanTextPastEnd(lines, s, s.endLineno, |lines|);
  }

  /**
   * A span over several lines yields the first line from its column on, the
   * interior lines whole, and the last line up to its column, with nothing
   * in between.
   */
  lemma SpanMultiLine(text: string, s: Span)
    requires 1 <= s.lineno < s.endLineno <= |SplitLines(text)|
    ensures SpanText(SplitLines(text), s, |SplitLines(text)|)
      == Suffix(SplitLines(text)[s.lineno - 1], s.colOffset)
         + ConcatRange(SplitLines(text), s.lineno, s.endLineno - 1)
         + Prefix(SplitLines(text)[s.endLineno - 1], s.endColOffset)
  {
    var lines := SplitLines(text);
    SpanTextInterior(lines, s, s.endLineno - 1);
    SpanTextPastEnd(lines, s, s.endLineno, |lines|);
  }

  /**
   * A span whose last line lies past the end of the text yields the first
   * line from its column on and every later line whole.
   */
  lemma SpanPastLastLine(text: string, s: Span)
    requires 1 <= s.lineno <= |SplitLines(text)| < s.endLineno
    ensures SpanText(SplitLines(text), s, |SplitLines(text)|)
      == Suffix(SplitLines(text)[s.lineno - 1], s.colOffset)
         + ConcatRange(SplitLines(text), s.lineno, |SplitLines(text)|)
  {
    SpanTextInterior(SplitLines(text), s, |SplitLines(text)|);
  }

  /** A span that starts past the end of the text yields nothing. */
  lemma SpanStartsPastEnd(text: string, s: Span)
    requires |SplitLines(text)| < s.lineno
    ensures SpanText(SplitLines(text), s, |SplitLines(text)|) == ""
  {
    SpanTextBeforeStart(SplitLines(text), s, |SplitLines(text)|);
  }

  /** A span that ends before it starts yields nothing. */
  lemma SpanReversed(text: string, s: Span)
    requires s.endLineno < s.lineno
    ensures SpanText(SplitLines(text), s, |SplitLines(text)|) == ""
  {
    var lines := SplitLines(text);
    if s.endLineno <= |lines| {
      SpanTextPastEnd(lines, s, s.endLineno, |lines|);
      SpanTextBeforeStart(lines, s, s.endLineno);
    } else {
      SpanTextBeforeStart(lines, s, |lines|);
    }
  }
}
