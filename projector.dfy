/**
 * Where highlights are drawn: each highlighted span becomes the union of the
 * rectangles the text box reports for the character positions at its two
 * ends (PositionForHighlight). The text box's layout is a parameter: a
 * measure mapping a character index to the rectangle of that caret position
 * in the current layout and scroll state.
 */
module Projector {
  import opened Wrappers
  import opened Segmenter
  import opened Geometry

  /**
   * The rectangle of a highlight starting at startIndex and covering length
   * characters: it covers the rectangles of both end positions.
   */
  function PositionForHighlight(measure: int -> Rect, startIndex: int, length: int): (r: Rect)
    ensures WellFormed(r)
    ensures WellFormed(measure(startIndex)) && WellFormed(measure(startIndex + length)) ==>
              Contains(r, measure(startIndex)) && Contains(r, measure(startIndex + length))
  {
    Union(measure(startIndex), measure(startIndex + length))
  }

  /** No rectangle smaller than the highlight covers both end positions. */
  lemma PositionForHighlightIsSmallest(measure: int -> Rect, startIndex: int, length: int, c: Rect)
    requires WellFormed(measure(startIndex)) && WellFormed(measure(startIndex + length))
    requires Contains(c, measure(startIndex)) && Contains(c, measure(startIndex + length))
    ensures Contains(c, PositionForHighlight(measure, startIndex, length))
  {
    UnionIsSmallest(measure(startIndex), measure(startIndex + length), c);
  }

  /** The highlight rectangle of each span, in order. */
  function Positions(spans: seq<Span>, measure: int -> Rect): (rects: seq<Rect>)
    ensures |rects| == |spans|
  {
    seq(|spans|, k requires 0 <= k < |spans| => PositionForHighlight(measure, spans[k].start, spans[k].length))
  }

  /** With a well-formed layout, the rectangle of a span covers the caret rectangles at both its ends. */
  lemma PositionCoversSpan(spans: seq<Span>, measure: int -> Rect, k: nat)
    requires forall i :: WellFormed(measure(i))
    requires k < |spans|
    ensures Contains(Positions(spans, measure)[k], measure(spans[k].start))
    ensures Contains(Positions(spans, measure)[k], measure(spans[k].start + spans[k].length))
  {
    assert Positions(spans, measure)[k] == PositionForHighlight(measure, spans[k].start, spans[k].length);
    assert WellFormed(measure(spans[k].start)) && WellFormed(measure(spans[k].start + spans[k].length));
  }

  lemma PositionsAppend(spans: seq<Span>, span: Span, measure: int -> Rect)
    ensures Positions(spans + [span], measure) == Positions(spans, measure) + [PositionForHighlight(measure, span.start, span.length)]
  {
    var a := Positions(spans + [span], measure);
    var b := Positions(spans, measure) + [PositionForHighlight(measure, span.start, span.length)];
    forall k | 0 <= k < |a| ensures a[k] == b[k] {
      if k < |spans| {
        assert (spans + [span])[k] == spans[k];
      }
    }
  }

  /**
   * The rectangles placed after looking at the segments before index n, one
   * for each of them whose trimmed content the predicate accepts.
   */
  function PlacedFor(parts: seq<string>, shouldHighlight: string -> bool, measure: int -> Rect, n: nat): seq<Rect>
    requires n <= |parts|
  {
    if n == 0 then []
    else
      var span := SpanAt(parts, n - 1);
      PlacedFor(parts, shouldHighlight, measure, n - 1)
      + (if shouldHighlight(Trim(parts[n - 1])) then [PositionForHighlight(measure, span.start, span.length)] else [])
  }

  /**
   * Looking at one more segment adds the rectangle of its span exactly when
   * the predicate accepts its trimmed content; the span starts at the
   * segment's offset plus its leading white space, and the next segment
   * starts one past the end of this one.
   */
  lemma PositionsStep(parts: seq<string>, shouldHighlight: string -> bool, measure: int -> Rect, i: nat, start: int, trimmed: string, lead: int)
    requires i < |parts|
    requires start == SegmentStart(parts, i) && trimmed == Trim(parts[i]) && lead == |parts[i]| - |TrimStart(parts[i])|
    ensures SegmentStart(parts, i + 1) == start + |parts[i]| + 1
    ensures SpanAt(parts, i) == Span(start + lead, |trimmed|)
    ensures shouldHighlight(trimmed) ==>
              PlacedFor(parts, shouldHighlight, measure, i + 1)
              == PlacedFor(parts, shouldHighlight, measure, i) + [PositionForHighlight(measure, start + lead, |trimmed|)]
    ensures !shouldHighlight(trimmed) ==>
              PlacedFor(parts, shouldHighlight, measure, i + 1) == PlacedFor(parts, shouldHighlight, measure, i)
  {
  }

  /**
   * The rectangles placed segment by segment are those of the matched spans:
   * one per segment whose trimmed content the predicate accepts, in order.
   */
  lemma {:induction false} PlacedForMatched(parts: seq<string>, shouldHighlight: string -> bool, measure: int -> Rect, n: nat)
    requires n <= |parts|
    ensures PlacedFor(parts, shouldHighlight, measure, n)
            == Positions(SpansFor(parts, MatchedSegments(parts, shouldHighlight, n)), measure)
  {
    if n > 0 {
      var spans := SpansFor(parts, MatchedSegments(parts, shouldHighlight, n - 1));
      PlacedForMatched(parts, shouldHighlight, measure, n - 1);
      SpansStep(parts, shouldHighlight, n - 1);
      if shouldHighlight(Trim(parts[n - 1])) {
        PositionsAppend(spans, SpanAt(parts, n - 1), measure);
      }
    }
  }

  /** The rectangles the overlay holds for a text, a predicate and a layout. */
  function HighlightRects(text: Option<string>, shouldHighlight: string -> bool, measure: int -> Rect): seq<Rect>
  {
    Positions(HighlightSpans(text, shouldHighlight), measure)
  }

  /** Placing the rectangles segment by segment over the whole text gives the overlay's rectangles. */
  lemma PlacedForText(text: Option<string>, shouldHighlight: string -> bool, measure: int -> Rect)
    ensures PlacedFor(Segments(text), shouldHighlight, measure, |Segments(text)|) == HighlightRects(text, shouldHighlight, measure)
  {
    PlacedForMatched(Segments(text), shouldHighlight, measure, |Segments(text)|);
  }

  /**
   * Each highlight rectangle covers the caret rectangles at both ends of the
   * trimmed content of a segment the predicate accepts; those ends lie
   * within the text.
   */
  lemma HighlightRectCoversSpan(text: string, shouldHighlight: string -> bool, measure: int -> Rect, k: nat)
    requires forall i :: WellFormed(measure(i))
    requires k < |HighlightRects(Some(text), shouldHighlight, measure)|
    ensures var span := HighlightSpans(Some(text), shouldHighlight)[k];
            var r := HighlightRects(Some(text), shouldHighlight, measure)[k];
            && span.start + span.length <= |text|
            && shouldHighlight(text[span.start..span.start + span.length])
            && Contains(r, measure(span.start)) && Contains(r, measure(span.start + span.length))
  {
    PositionCoversSpan(HighlightSpans(Some(text), shouldHighlight), measure, k);
    HighlightSpanContents(text, shouldHighlight, k);
  }

  /** The layout after scrolling by (dx, dy): every caret rectangle moves by that amount. */
  function Scrolled(measure: int -> Rect, dx: real, dy: real): (scrolled: int -> Rect)
    ensures forall i :: scrolled(i) == Translate(measure(i), dx, dy)
  {
    i => Translate(measure(i), dx, dy)
  }

  /**
   * Scrolling moves every highlight by exactly the scroll offset and keeps
   * its size; no highlight appears or disappears.
   */
  lemma HighlightsFollowScroll(text: Option<string>, shouldHighlight: string -> bool, measure: int -> Rect, dx: real, dy: real)
    ensures var before := HighlightRects(text, shouldHighlight, measure);
            var after := HighlightRects(text, shouldHighlight, Scrolled(measure, dx, dy));
            && |after| == |before|
            && forall k :: 0 <= k < |before| ==> after[k] == Translate(before[k], dx, dy)
  {
    var spans := HighlightSpans(text, shouldHighlight);
    var before := HighlightRects(text, shouldHighlight, measure);
    var after := HighlightRects(text, shouldHighlight, Scrolled(measure, dx, dy));
    forall k | 0 <= k < |before| ensures after[k] == Translate(before[k], dx, dy) {
      UnionTranslate(measure(spans[k].start), measure(spans[k].start + spans[k].length), dx, dy);
    }
  }
}
