/**
 * The segmenter of the highlighting text box: the text is split on ',' into
 * segments, each segment is trimmed, the caller's predicate is applied to the
 * trimmed content, and every accepted segment yields a span (start, length)
 * that locates the trimmed content inside the original text.
 */
module Segmenter {
  import opened Wrappers

  /** The fixed delimiter passed to String.Split. */
  const Delimiter: char := ','

  /**
   * .NET Char.IsWhiteSpace: the Unicode space separators, the line and
   * paragraph separators, U+0009..U+000D and U+0085.
   */
  predicate IsWhiteSpace(c: char) {
    c == ' ' || ('\t' <= c <= '\r') || c == '\U{85}' || c == '\U{A0}' || c == '\U{1680}'
    || ('\U{2000}' <= c <= '\U{200A}') || c == '\U{2028}' || c == '\U{2029}'
    || c == '\U{202F}' || c == '\U{205F}' || c == '\U{3000}'
  }

  /** String.TrimStart(): s without its leading white space. */
  function TrimStart(s: string): (r: string)
    ensures |r| <= |s|
  {
    if |s| > 0 && IsWhiteSpace(s[0]) then TrimStart(s[1..]) else s
  }

  /** s without its trailing white space. */
  function TrimEnd(s: string): (r: string)
    ensures |r| <= |s|
  {
    if |s| > 0 && IsWhiteSpace(s[|s| - 1]) then TrimEnd(s[..|s| - 1]) else s
  }

  /** TrimStart keeps a suffix of s that does not start with white space, and drops only white space. */
  lemma {:induction false} TrimStartIsSuffix(s: string)
    ensures TrimStart(s) == s[|s| - |TrimStart(s)|..]
    ensures TrimStart(s) == [] || !IsWhiteSpace(TrimStart(s)[0])
    ensures forall i :: 0 <= i < |s| - |TrimStart(s)| ==> IsWhiteSpace(s[i])
  {
    if |s| > 0 && IsWhiteSpace(s[0]) {
      TrimStartIsSuffix(s[1..]);
      forall i | 1 <= i < |s| - |TrimStart(s)| ensures IsWhiteSpace(s[i]) {
        assert s[i] == s[1..][i - 1];
      }
    }
  }

  /** TrimEnd keeps a prefix of s that does not end with white space, and drops only white space. */
  lemma {:induction false} TrimEndIsPrefix(s: string)
    ensures TrimEnd(s) == s[..|TrimEnd(s)|]
    ensures TrimEnd(s) == [] || !IsWhiteSpace(TrimEnd(s)[|TrimEnd(s)| - 1])
    ensures forall i :: |TrimEnd(s)| <= i < |s| ==> IsWhiteSpace(s[i])
  {
    if |s| > 0 && IsWhiteSpace(s[|s| - 1]) {
      TrimEndIsPrefix(s[..|s| - 1]);
      forall i | |TrimEnd(s)| <= i < |s| - 1 ensures IsWhiteSpace(s[i]) {
        assert s[i] == s[..|s| - 1][i];
      }
    }
  }

  /** The number of leading white-space characters, |s| - |s.TrimStart()|. */
  function LeadingWhiteSpaceCount(s: string): nat
  {
    |s| - |TrimStart(s)|
  }

  /** String.Trim(): the content between the leading and the trailing white space. */
  function Trim(s: string): (r: string)
    ensures LeadingWhiteSpaceCount(s) + |r| <= |s|
  {
    TrimEnd(TrimStart(s))
  }

  /**
   * Trim keeps the slice of s that starts after the leading white space;
   * what it removes is white space, and what it keeps neither starts nor
   * ends with white space.
   */
  lemma TrimIsSlice(s: string)
    ensures var r := Trim(s);
            var lead := LeadingWhiteSpaceCount(s);
            r == s[lead..lead + |r|]
            && (r == [] || (!IsWhiteSpace(r[0]) && !IsWhiteSpace(r[|r| - 1])))
            && (forall i :: 0 <= i < lead ==> IsWhiteSpace(s[i]))
            && (forall i :: lead + |r| <= i < |s| ==> IsWhiteSpace(s[i]))
  {
    var t := TrimStart(s);
    var r := Trim(s);
    var lead := LeadingWhiteSpaceCount(s);
    TrimStartIsSuffix(s);
    TrimEndIsPrefix(t);
    assert r == t[..|r|];
    assert r == [] || r[0] == t[0];
    forall i | lead + |r| <= i < |s| ensures IsWhiteSpace(s[i]) {
      assert s[i] == t[i - lead];
    }
  }

  predicate AllWhiteSpace(s: string) {
    forall i :: 0 <= i < |s| ==> IsWhiteSpace(s[i])
  }

  /** White space followed by text that does not start with white space trims to that text. */
  lemma {:induction false} TrimStartPadded(w: string, r: string)
    requires AllWhiteSpace(w)
    requires r == [] || !IsWhiteSpace(r[0])
    ensures TrimStart(w + r) == r
  {
    if w == [] {
      assert w + r == r;
    } else {
      assert (w + r)[1..] == w[1..] + r;
      TrimStartPadded(w[1..], r);
    }
  }

  /** Text that does not end with white space, followed by white space, trims to that text. */
  lemma {:induction false} TrimEndPadded(r: string, w: string)
    requires AllWhiteSpace(w)
    requires r == [] || !IsWhiteSpace(r[|r| - 1])
    ensures TrimEnd(r + w) == r
  {
    if w == [] {
      assert r + w == r;
    } else {
      assert (r + w)[..|r + w| - 1] == r + w[..|w| - 1];
      TrimEndPadded(r, w[..|w| - 1]);
    }
  }

  /**
   * The converse of TrimIsSlice: content that neither starts nor ends with
   * white space, padded with white space on both sides, is what Trim
   * returns, and the leading padding is the leading white-space count.
   */
  lemma TrimPadded(lead: string, core: string, trail: string)
    requires AllWhiteSpace(lead) && AllWhiteSpace(trail)
    requires core != [] && !IsWhiteSpace(core[0]) && !IsWhiteSpace(core[|core| - 1])
    ensures Trim(lead + core + trail) == core
    ensures LeadingWhiteSpaceCount(lead + core + trail) == |lead|
  {
    assert lead + core + trail == lead + (core + trail);
    TrimStartPadded(lead, core + trail);
    TrimEndPadded(core, trail);
  }

  /** Joins segments with the delimiter: the inverse of Split. */
  function Join(parts: seq<string>): string
    requires |parts| >= 1
  {
    if |parts| == 1 then parts[0] else parts[0] + [Delimiter] + Join(parts[1..])
  }

  /**
   * String.Split(','): the pieces between delimiters, left to right. The
   * empty string gives one empty piece.
   */
  function Split(s: string): (parts: seq<string>)
    ensures |parts| >= 1
  {
    if |s| == 0 then [""]
    else
      var rest := Split(s[1..]);
      if s[0] == Delimiter then [""] + rest
      else [[s[0]] + rest[0]] + rest[1..]
  }

  /** The pieces contain no delimiter and joining them gives the text back. */
  lemma {:induction false} JoinSplit(s: string)
    ensures forall i :: 0 <= i < |Split(s)| ==> Delimiter !in Split(s)[i]
    ensures Join(Split(s)) == s
  {
    if |s| > 0 {
      var rest := Split(s[1..]);
      JoinSplit(s[1..]);
      var parts := Split(s);
      if s[0] == Delimiter {
        assert parts[1..] == rest;
      } else {
        assert parts[1..] == rest[1..];
        assert |rest| > 1 ==> Join(rest) == rest[0] + [Delimiter] + Join(rest[1..]);
        assert s == [s[0]] + s[1..];
      }
    }
  }

  lemma {:induction false} SplitDelimiterFree(p: string)
    requires Delimiter !in p
    ensures Split(p) == [p]
    decreases |p|
  {
    if |p| > 0 {
      assert p[1..] == p[1..] && Delimiter !in p[1..];
      SplitDelimiterFree(p[1..]);
      assert [p[0]] + p[1..] == p;
    }
  }

  lemma {:induction false} SplitAfterPart(p: string, t: string)
    requires Delimiter !in p
    ensures Split(p + [Delimiter] + t) == [p] + Split(t)
    decreases |p|
  {
    var s := p + [Delimiter] + t;
    if |p| == 0 {
      assert s[1..] == t;
    } else {
      assert s[1..] == p[1..] + [Delimiter] + t;
      SplitAfterPart(p[1..], t);
      assert [p[0]] + p[1..] == p;
    }
  }

  /**
   * Split is the inverse of Join on delimiter-free pieces: the segments of a
   * text are the only delimiter-free pieces whose join is that text.
   */
  lemma {:induction false} SplitJoin(parts: seq<string>)
    requires |parts| >= 1
    requires forall i :: 0 <= i < |parts| ==> Delimiter !in parts[i]
    ensures Split(Join(parts)) == parts
  {
    if |parts| == 1 {
      SplitDelimiterFree(parts[0]);
    } else {
      SplitJoin(parts[1..]);
      SplitAfterPart(parts[0], Join(parts[1..]));
      assert [parts[0]] + parts[1..] == parts;
    }
  }

  /** The segments HighlightMatchedSubstrings walks: none for a null text. */
  function Segments(text: Option<string>): (parts: seq<string>)
    ensures text.None? ==> parts == []
    ensures text.Some? ==> |parts| >= 1
  {
    match text
    case None => []
    case Some(t) => Split(t)
  }

  /**
   * Offset of segment i in the joined text: the lengths of the segments
   * before it plus one delimiter after each of them.
   */
  function SegmentStart(parts: seq<string>, i: nat): nat
    requires i <= |parts|
  {
    if i == 0 then 0 else SegmentStart(parts, i - 1) + |parts[i - 1]| + 1
  }

  lemma {:induction false} SegmentStartOfTail(parts: seq<string>, i: nat)
    requires 1 <= i <= |parts|
    ensures SegmentStart(parts, i) == |parts[0]| + 1 + SegmentStart(parts[1..], i - 1)
  {
    if i > 1 {
      SegmentStartOfTail(parts, i - 1);
    }
  }

  /** Segment offsets grow by at least the segment and its delimiter. */
  lemma {:induction false} SegmentStartMonotonic(parts: seq<string>, i: nat, j: nat)
    requires i < j <= |parts|
    ensures SegmentStart(parts, i) + |parts[i]| < SegmentStart(parts, j)
    decreases j - i
  {
    if i + 1 < j {
      SegmentStartMonotonic(parts, i + 1, j);
    }
  }

  /** A slice of a slice is a slice of the original. */
  lemma SliceOfSlice(s: string, a: nat, b: nat, c: nat, d: nat)
    requires a <= b <= |s| && c <= d <= b - a
    ensures s[a..b][c..d] == s[a + c..a + d]
  {
    forall i | 0 <= i < d - c ensures s[a..b][c..d][i] == s[a + c..a + d][i] {
    }
  }

  /** A slice of the second half of a concatenation. */
  lemma SliceOfConcat(x: string, y: string, a: nat, b: nat)
    requires a <= b <= |y|
    ensures (x + y)[|x| + a..|x| + b] == y[a..b]
  {
    forall i | 0 <= i < b - a ensures (x + y)[|x| + a..|x| + b][i] == y[a..b][i] {
    }
  }

  /**
   * Segment i sits at SegmentStart(parts, i) in the joined text, and a
   * delimiter follows every segment but the last.
   */
  lemma {:induction false} SegmentAt(parts: seq<string>, i: nat)
    requires |parts| >= 1 && i < |parts|
    ensures SegmentStart(parts, i) + |parts[i]| <= |Join(parts)|
    ensures Join(parts)[SegmentStart(parts, i)..SegmentStart(parts, i) + |parts[i]|] == parts[i]
    ensures i + 1 < |parts| ==> SegmentStart(parts, i) + |parts[i]| < |Join(parts)|
                                && Join(parts)[SegmentStart(parts, i) + |parts[i]|] == Delimiter
  {
    if |parts| > 1 {
      var joined := Join(parts);
      var tail := Join(parts[1..]);
      var k := |parts[0]| + 1;
      assert joined == parts[0] + [Delimiter] + tail;
      assert |joined| == k + |tail|;
      if i == 0 {
        assert joined[..|parts[0]|] == parts[0];
        assert joined[|parts[0]|] == Delimiter;
      } else {
        var start := SegmentStart(parts[1..], i - 1);
        var p := parts[i];
        var head := parts[0] + [Delimiter];
        assert parts[1..][i - 1] == p;
        SegmentAt(parts[1..], i - 1);
        SegmentStartOfTail(parts, i);
        assert joined == head + tail;
        SliceOfConcat(head, tail, start, start + |p|);
        if i + 1 < |parts| {
          assert joined[k + start + |p|] == tail[start + |p|];
        }
      }
    }
  }

  /**
   * The lengths of the segments plus one delimiter between each pair add up
   * to the length of the text.
   */
  lemma {:induction false} SegmentLengthsAddUp(parts: seq<string>)
    requires |parts| >= 1
    ensures SegmentStart(parts, |parts|) == |Join(parts)| + 1
  {
    if |parts| > 1 {
      SegmentLengthsAddUp(parts[1..]);
      SegmentStartOfTail(parts, |parts|);
    }
  }

  /**
   * The segments of a text cover it: their lengths plus one comma between
   * each two add up to the length of the text, so the final stringIndex is
   * one past its end.
   */
  lemma SegmentsCoverText(text: string)
    ensures SegmentStart(Split(text), |Split(text)|) == |text| + 1
  {
    JoinSplit(text);
    SegmentLengthsAddUp(Split(text));
  }

  /** The unit a highlight is drawn for: an offset in the text and a length. */
  datatype Span = Span(start: nat, length: nat)

  /**
   * The span of segment i: its offset plus its leading white space, and the
   * length of its trimmed content.
   */
  function SpanAt(parts: seq<string>, i: nat): Span
    requires i < |parts|
  {
    Span(SegmentStart(parts, i) + LeadingWhiteSpaceCount(parts[i]), |Trim(parts[i])|)
  }

  /**
   * The indices, below n and in increasing order, of the segments whose
   * trimmed content the predicate accepts.
   */
  function MatchedSegments(parts: seq<string>, shouldHighlight: string -> bool, n: nat): (m: seq<nat>)
    requires n <= |parts|
    ensures forall k :: 0 <= k < |m| ==> m[k] < n
    ensures forall k, l :: 0 <= k < l < |m| ==> m[k] < m[l]
  {
    if n == 0 then []
    else
      var m := MatchedSegments(parts, shouldHighlight, n - 1);
      if shouldHighlight(Trim(parts[n - 1])) then m + [n - 1] else m
  }

  /** Segment j is listed exactly when the predicate accepts its trimmed content. */
  lemma {:induction false} MatchedSegmentsMembership(parts: seq<string>, shouldHighlight: string -> bool, n: nat, j: nat)
    requires j < n <= |parts|
    ensures j in MatchedSegments(parts, shouldHighlight, n) <==> shouldHighlight(Trim(parts[j]))
  {
    var m := MatchedSegments(parts, shouldHighlight, n - 1);
    if j < n - 1 {
      MatchedSegmentsMembership(parts, shouldHighlight, n - 1, j);
      assert j in m + [n - 1] <==> j in m;
    } else {
      assert j !in m;
    }
  }

  /** The spans of the listed segments, in the same order. */
  function SpansFor(parts: seq<string>, matched: seq<nat>): (spans: seq<Span>)
    requires forall k :: 0 <= k < |matched| ==> matched[k] < |parts|
    ensures |spans| == |matched|
  {
    seq(|matched|, k requires 0 <= k < |matched| => SpanAt(parts, matched[k]))
  }

  lemma SpansForAppend(parts: seq<string>, matched: seq<nat>, i: nat)
    requires forall k :: 0 <= k < |matched| ==> matched[k] < |parts|
    requires i < |parts|
    ensures SpansFor(parts, matched + [i]) == SpansFor(parts, matched) + [SpanAt(parts, i)]
  {
    var a := SpansFor(parts, matched + [i]);
    var b := SpansFor(parts, matched) + [SpanAt(parts, i)];
    assert |a| == |b|;
    forall k | 0 <= k < |a| ensures a[k] == b[k] {
      if k < |matched| {
        assert (matched + [i])[k] == matched[k];
      }
    }
  }

  /** Looking at one more segment adds its span exactly when the predicate accepts it. */
  lemma SpansStep(parts: seq<string>, shouldHighlight: string -> bool, n: nat)
    requires n < |parts|
    ensures SpansFor(parts, MatchedSegments(parts, shouldHighlight, n + 1))
            == SpansFor(parts, MatchedSegments(parts, shouldHighlight, n))
               + (if shouldHighlight(Trim(parts[n])) then [SpanAt(parts, n)] else [])
  {
    if shouldHighlight(Trim(parts[n])) {
      SpansForAppend(parts, MatchedSegments(parts, shouldHighlight, n), n);
    }
  }

  /**
   * The spans HighlightMatchedSubstrings highlights: one per segment whose
   * trimmed content satisfies the predicate, left to right.
   */
  function HighlightSpans(text: Option<string>, shouldHighlight: string -> bool): seq<Span>
  {
    var parts := Segments(text);
    SpansFor(parts, MatchedSegments(parts, shouldHighlight, |parts|))
  }

  /**
   * Where a segment sits in a text, its trimmed content sits after its
   * leading white space.
   */
  lemma TrimmedWithinText(text: string, start: nat, p: string)
    requires start + |p| <= |text| && text[start..start + |p|] == p
    ensures var lead := LeadingWhiteSpaceCount(p);
            start + lead + |Trim(p)| <= |text|
            && text[start + lead..start + lead + |Trim(p)|] == Trim(p)
  {
    var lead := LeadingWhiteSpaceCount(p);
    TrimIsSlice(p);
    SliceOfSlice(text, start, start + |p|, lead, lead + |Trim(p)|);
  }

  /** Where segment i sits in a text, its span covers exactly its trimmed content. */
  lemma SpanAtWithinSegment(parts: seq<string>, text: string, i: nat)
    requires i < |parts|
    requires SegmentStart(parts, i) + |parts[i]| <= |text|
    requires text[SegmentStart(parts, i)..SegmentStart(parts, i) + |parts[i]|] == parts[i]
    ensures SpanAt(parts, i).start + SpanAt(parts, i).length <= |text|
    ensures text[SpanAt(parts, i).start..SpanAt(parts, i).start + SpanAt(parts, i).length] == Trim(parts[i])
  {
    TrimmedWithinText(text, SegmentStart(parts, i), parts[i]);
  }

  /** Segment i of a text sits at its offset in that text. */
  lemma SegmentOfText(text: string, i: nat)
    requires i < |Split(text)|
    ensures SegmentStart(Split(text), i) + |Split(text)[i]| <= |text|
    ensures text[SegmentStart(Split(text), i)..SegmentStart(Split(text), i) + |Split(text)[i]|] == Split(text)[i]
  {
    JoinSplit(text);
    SegmentInJoin(Split(text), text, i);
  }

  /** In the join of some segments, segment i sits at its offset. */
  lemma SegmentInJoin(parts: seq<string>, text: string, i: nat)
    requires i < |parts| && Join(parts) == text
    ensures SegmentStart(parts, i) + |parts[i]| <= |text|
    ensures text[SegmentStart(parts, i)..SegmentStart(parts, i) + |parts[i]|] == parts[i]
  {
    SegmentAt(parts, i);
  }

  /** The span of segment i of a text covers exactly the trimmed content of that segment. */
  lemma SegmentSpanContents(text: string, i: nat, span: Span)
    requires i < |Split(text)| && span == SpanAt(Split(text), i)
    ensures span.start + span.length <= |text|
    ensures text[span.start..span.start + span.length] == Trim(Split(text)[i])
  {
    SegmentOfText(text, i);
    SpanAtWithinSegment(Split(text), text, i);
  }

  /** The k-th span is the span of the k-th matched segment, which the predicate accepts. */
  lemma HighlightSpanOfMatch(text: string, shouldHighlight: string -> bool, k: nat)
    requires k < |HighlightSpans(Some(text), shouldHighlight)|
    ensures var parts := Split(text);
            var m := MatchedSegments(parts, shouldHighlight, |parts|);
            && m[k] < |parts|
            && HighlightSpans(Some(text), shouldHighlight)[k] == SpanAt(parts, m[k])
            && shouldHighlight(Trim(parts[m[k]]))
  {
    var parts := Split(text);
    var m := MatchedSegments(parts, shouldHighlight, |parts|);
    assert m[k] in m;
    MatchedSegmentsMembership(parts, shouldHighlight, |parts|, m[k]);
  }

  /**
   * Every span lies inside the text, its characters are exactly the trimmed
   * content of the segment it was made for, and the predicate accepts them.
   */
  lemma HighlightSpanContents(text: string, shouldHighlight: string -> bool, k: nat)
    requires k < |HighlightSpans(Some(text), shouldHighlight)|
    ensures var parts := Split(text);
            var m := MatchedSegments(parts, shouldHighlight, |parts|);
            var span := HighlightSpans(Some(text), shouldHighlight)[k];
            span.start + span.length <= |text|
            && text[span.start..span.start + span.length] == Trim(parts[m[k]])
            && shouldHighlight(text[span.start..span.start + span.length])
  {
    var i := MatchedSegments(Split(text), shouldHighlight, |Split(text)|)[k];
    HighlightSpanOfMatch(text, shouldHighlight, k);
    SegmentSpanContents(text, i, HighlightSpans(Some(text), shouldHighlight)[k]);
  }

  /**
   * Spans come out in left-to-right order and never overlap: each ends
   * before the next one starts (a delimiter separates them).
   */
  lemma HighlightSpansOrdered(text: Option<string>, shouldHighlight: string -> bool, k: nat, l: nat)
    requires k < l < |HighlightSpans(text, shouldHighlight)|
    ensures var spans := HighlightSpans(text, shouldHighlight);
            spans[k].start + spans[k].length < spans[l].start
  {
    var parts := Segments(text);
    var m := MatchedSegments(parts, shouldHighlight, |parts|);
    SegmentStartMonotonic(parts, m[k], m[l]);
  }

  /**
   * One span per accepted segment: segment j yields a span exactly when the
   * predicate accepts its trimmed content, and that span is SpanAt(parts, j).
   */
  lemma HighlightSpanPerMatch(text: Option<string>, shouldHighlight: string -> bool, j: nat)
    requires j < |Segments(text)|
    ensures var parts := Segments(text);
            shouldHighlight(Trim(parts[j]))
            <==> exists k :: 0 <= k < |HighlightSpans(text, shouldHighlight)|
                           && HighlightSpans(text, shouldHighlight)[k] == SpanAt(parts, j)
  {
    var parts := Segments(text);
    var m := MatchedSegments(parts, shouldHighlight, |parts|);
    var spans := HighlightSpans(text, shouldHighlight);
    MatchedSegmentsMembership(parts, shouldHighlight, |parts|, j);
    if shouldHighlight(Trim(parts[j])) {
      var k :| 0 <= k < |m| && m[k] == j;
      assert spans[k] == SpanAt(parts, j);
    } else {
      forall k | 0 <= k < |spans| ensures spans[k] != SpanAt(parts, j) {
        assert m[k] != j by { assert m[k] in m; }
        if m[k] < j {
          SegmentStartMonotonic(parts, m[k], j);
        } else {
          SegmentStartMonotonic(parts, j, m[k]);
        }
      }
    }
  }

  /**
   * Counting over a first segment p followed by the segments ts: one for p
   * if the predicate accepts it, plus the count over ts.
   */
  lemma {:induction false} MatchedSegmentsAfterFirst(p: string, ts: seq<string>, shouldHighlight: string -> bool, n: nat)
    requires n <= |ts|
    ensures |MatchedSegments([p] + ts, shouldHighlight, n + 1)|
            == (if shouldHighlight(Trim(p)) then 1 else 0) + |MatchedSegments(ts, shouldHighlight, n)|
  {
    if n > 0 {
      MatchedSegmentsAfterFirst(p, ts, shouldHighlight, n - 1);
      assert ([p] + ts)[n] == ts[n - 1];
    } else {
      assert ([p] + ts)[0] == p;
    }
  }

  /** A text without a comma is one highlight if the predicate accepts its trimmed content, and none otherwise. */
  lemma SpanCountOfSegment(p: string, shouldHighlight: string -> bool)
    requires Delimiter !in p
    ensures |HighlightSpans(Some(p), shouldHighlight)| == (if shouldHighlight(Trim(p)) then 1 else 0)
  {
    SplitDelimiterFree(p);
    assert MatchedSegments([p], shouldHighlight, 1)
           == (if shouldHighlight(Trim(p)) then [0] else []);
  }

  /** There are as many highlights as matched segments. */
  lemma SpanCount(text: string, shouldHighlight: string -> bool)
    ensures |HighlightSpans(Some(text), shouldHighlight)| == |MatchedSegments(Split(text), shouldHighlight, |Split(text)|)|
  {
  }

  /**
   * A segment before the first comma adds one highlight if the predicate
   * accepts its trimmed content, and none otherwise, to those of the rest.
   */
  lemma SpanCountAfterSegment(p: string, t: string, shouldHighlight: string -> bool)
    requires Delimiter !in p
    ensures |HighlightSpans(Some(p + [Delimiter] + t), shouldHighlight)|
            == (if shouldHighlight(Trim(p)) then 1 else 0) + |HighlightSpans(Some(t), shouldHighlight)|
  {
    var ts := Split(t);
    assert Split(p + [Delimiter] + t) == [p] + ts by {
      SplitAfterPart(p, t);
    }
    assert |HighlightSpans(Some(p + [Delimiter] + t), shouldHighlight)| == |MatchedSegments([p] + ts, shouldHighlight, |ts| + 1)| by {
      SpanCount(p + [Delimiter] + t, shouldHighlight);
    }
    assert |HighlightSpans(Some(t), shouldHighlight)| == |MatchedSegments(ts, shouldHighlight, |ts|)| by {
      SpanCount(t, shouldHighlight);
    }
    MatchedSegmentsAfterFirst(p, ts, shouldHighlight, |ts|);
  }
}
