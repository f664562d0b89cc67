/**
 * The behaviours exercised by HighlightingTextBoxTests.cs, stated on the
 * model: the spans found in the sample texts, the overlay clip of a padded
 * box, the overlay after text changes and scrolling, and the caret policy.
 */
module Scenarios {
  import opened Wrappers
  import opened Segmenter
  import opened Geometry
  import opened Projector
  import opened HighlightBox

  /** The predicate the tests install: the trimmed segment is exactly "HIT". */
  function IsHit(s: string): bool { s == "HIT" }

  /** A fixed-pitch layout: every character is 7 wide and 16 high. */
  function FixedPitch(i: int): Rect { Rect(7.0 * i as real, 0.0, 0.0, 16.0) }

  /** The span a segment at the given offset contributes: one if the predicate accepts it, none otherwise. */
  function Found(shouldHighlight: string -> bool, segment: string, offset: nat): seq<Span>
  {
    if shouldHighlight(Trim(segment)) then [Span(offset + LeadingWhiteSpaceCount(segment), |Trim(segment)|)] else []
  }

  /** A text with one comma has the two segments around it. */
  lemma SegmentsOfTwo(text: string, a: string, b: string)
    requires Delimiter !in a && Delimiter !in b
    requires text == a + [Delimiter] + b
    ensures Segments(Some(text)) == [a, b]
  {
    SplitAfterPart(a, b);
    SplitDelimiterFree(b);
  }

  /** A text with two commas has the three segments between them. */
  lemma SegmentsOfThree(text: string, a: string, b: string, c: string)
    requires Delimiter !in a && Delimiter !in b && Delimiter !in c
    requires text == a + [Delimiter] + b + [Delimiter] + c
    ensures Segments(Some(text)) == [a, b, c]
  {
    assert text == a + [Delimiter] + (b + [Delimiter] + c);
    SplitAfterPart(a, b + [Delimiter] + c);
    SegmentsOfTwo(b + [Delimiter] + c, b, c);
  }

  /** The spans of a text of two segments are those each contributes, left to right. */
  lemma SpansOfTwo(text: string, a: string, b: string, shouldHighlight: string -> bool)
    requires Segments(Some(text)) == [a, b]
    ensures HighlightSpans(Some(text), shouldHighlight)
            == Found(shouldHighlight, a, 0) + Found(shouldHighlight, b, |a| + 1)
  {
    var parts := [a, b];
    assert SpanAt(parts, 0) == Span(LeadingWhiteSpaceCount(a), |Trim(a)|);
    assert SpanAt(parts, 1) == Span(|a| + 1 + LeadingWhiteSpaceCount(b), |Trim(b)|);
    assert SpansFor(parts, MatchedSegments(parts, shouldHighlight, 1)) == Found(shouldHighlight, a, 0) by {
      SpansStep(parts, shouldHighlight, 0);
    }
    SpansStep(parts, shouldHighlight, 1);
  }

  /** The spans of a text of three segments are those each contributes, left to right. */
  lemma SpansOfThree(text: string, a: string, b: string, c: string, shouldHighlight: string -> bool)
    requires Segments(Some(text)) == [a, b, c]
    ensures HighlightSpans(Some(text), shouldHighlight)
            == Found(shouldHighlight, a, 0) + Found(shouldHighlight, b, |a| + 1)
               + Found(shouldHighlight, c, |a| + |b| + 2)
  {
    var parts := [a, b, c];
    assert SegmentStart(parts, 1) == |a| + 1;
    assert SegmentStart(parts, 2) == |a| + |b| + 2;
    assert SpanAt(parts, 2) == Span(|a| + |b| + 2 + LeadingWhiteSpaceCount(c), |Trim(c)|);
    assert SpansFor(parts, MatchedSegments(parts, shouldHighlight, 2))
           == Found(shouldHighlight, a, 0) + Found(shouldHighlight, b, |a| + 1) by {
      assert SpanAt(parts, 0) == Span(LeadingWhiteSpaceCount(a), |Trim(a)|);
      assert SpanAt(parts, 1) == Span(|a| + 1 + LeadingWhiteSpaceCount(b), |Trim(b)|);
      assert SpansFor(parts, MatchedSegments(parts, shouldHighlight, 1)) == Found(shouldHighlight, a, 0) by {
        SpansStep(parts, shouldHighlight, 0);
      }
      SpansStep(parts, shouldHighlight, 1);
    }
    SpansStep(parts, shouldHighlight, 2);
  }

  /** "HIT", with or without a space before it, is a hit of length 3. */
  lemma FoundHit(offset: nat)
    ensures Found(IsHit, "HIT", offset) == [Span(offset, 3)]
    ensures Found(IsHit, " HIT", offset) == [Span(offset + 1, 3)]
  {
    assert Trim("HIT") == "HIT" && LeadingWhiteSpaceCount("HIT") == 0 by {
      TrimPadded("", "HIT", "");
      assert "" + "HIT" + "" == "HIT";
    }
    TrimPadded(" ", "HIT", "");
    assert " " + "HIT" + "" == " HIT";
  }

  /** "MISS", with or without a space before it, is no hit. */
  lemma FoundMiss(offset: nat)
    ensures Found(IsHit, "MISS", offset) == []
    ensures Found(IsHit, " MISS", offset) == []
  {
    assert Trim("MISS") == "MISS" by {
      TrimPadded("", "MISS", "");
      assert "" + "MISS" + "" == "MISS";
    }
    TrimPadded(" ", "MISS", "");
    assert " " + "MISS" + "" == " MISS";
  }

  lemma HitAfterOneMissSegments()
    ensures HighlightSpans(Some("MISS, HIT, MISS"), IsHit) == Found(IsHit, "MISS", 0) + Found(IsHit, " HIT", 5) + Found(IsHit, " MISS", 10)
  {
    SegmentsOfThree("MISS, HIT, MISS", "MISS", " HIT", " MISS");
    SpansOfThree("MISS, HIT, MISS", "MISS", " HIT", " MISS", IsHit);
  }

  lemma HitAfterOneMissFound()
    ensures Found(IsHit, "MISS", 0) + Found(IsHit, " HIT", 5) + Found(IsHit, " MISS", 10) == [Span(6, 3)]
  {
    FoundMiss(0);
    FoundHit(5);
    FoundMiss(10);
  }

  /** "HIT" is found at offset 6 of "MISS, HIT, MISS". */
  lemma HitAfterOneMiss()
    ensures HighlightSpans(Some("MISS, HIT, MISS"), IsHit) == [Span(6, 3)]
  {
    HitAfterOneMissSegments();
    HitAfterOneMissFound();
  }

  lemma HitAfterTwoMissesSegments()
    ensures HighlightSpans(Some("MISS, MISS, HIT"), IsHit) == Found(IsHit, "MISS", 0) + Found(IsHit, " MISS", 5) + Found(IsHit, " HIT", 11)
  {
    SegmentsOfThree("MISS, MISS, HIT", "MISS", " MISS", " HIT");
    SpansOfThree("MISS, MISS, HIT", "MISS", " MISS", " HIT", IsHit);
  }

  lemma HitAfterTwoMissesFound()
    ensures Found(IsHit, "MISS", 0) + Found(IsHit, " MISS", 5) + Found(IsHit, " HIT", 11) == [Span(12, 3)]
  {
    FoundMiss(0);
    FoundMiss(5);
    FoundHit(11);
  }

  /** "HIT" is found at offset 12 of "MISS, MISS, HIT". */
  lemma HitAfterTwoMisses()
    ensures HighlightSpans(Some("MISS, MISS, HIT"), IsHit) == [Span(12, 3)]
  {
    HitAfterTwoMissesSegments();
    HitAfterTwoMissesFound();
  }

  lemma ThreeHitsSegments()
    ensures HighlightSpans(Some("HIT, HIT, HIT"), IsHit) == Found(IsHit, "HIT", 0) + Found(IsHit, " HIT", 4) + Found(IsHit, " HIT", 9)
  {
    SegmentsOfThree("HIT, HIT, HIT", "HIT", " HIT", " HIT");
    SpansOfThree("HIT, HIT, HIT", "HIT", " HIT", " HIT", IsHit);
  }

  lemma ThreeHitsFound()
    ensures Found(IsHit, "HIT", 0) + Found(IsHit, " HIT", 4) + Found(IsHit, " HIT", 9) == [Span(0, 3), Span(5, 3), Span(10, 3)]
  {
    FoundHit(0);
    FoundHit(4);
    FoundHit(9);
  }

  /** Three hits are found at offsets 0, 5 and 10, in that order. */
  lemma ThreeHits()
    ensures HighlightSpans(Some("HIT, HIT, HIT"), IsHit) == [Span(0, 3), Span(5, 3), Span(10, 3)]
  {
    ThreeHitsSegments();
    ThreeHitsFound();
  }

  lemma TwoHitsThenMissSegments()
    ensures HighlightSpans(Some("HIT, HIT, MISS"), IsHit) == Found(IsHit, "HIT", 0) + Found(IsHit, " HIT", 4) + Found(IsHit, " MISS", 9)
  {
    SegmentsOfThree("HIT, HIT, MISS", "HIT", " HIT", " MISS");
    SpansOfThree("HIT, HIT, MISS", "HIT", " HIT", " MISS", IsHit);
  }

  lemma TwoHitsThenMissFound()
    ensures Found(IsHit, "HIT", 0) + Found(IsHit, " HIT", 4) + Found(IsHit, " MISS", 9) == [Span(0, 3), Span(5, 3)]
  {
    FoundHit(0);
    FoundHit(4);
    FoundMiss(9);
  }

  /** "HIT, HIT, MISS" has highlights at 0 and 5, in that order. */
  lemma TwoHitsThenMiss()
    ensures HighlightSpans(Some("HIT, HIT, MISS"), IsHit) == [Span(0, 3), Span(5, 3)]
  {
    TwoHitsThenMissSegments();
    TwoHitsThenMissFound();
  }

  lemma HitsAroundMissSegments()
    ensures HighlightSpans(Some("HIT, MISS, HIT"), IsHit) == Found(IsHit, "HIT", 0) + Found(IsHit, " MISS", 4) + Found(IsHit, " HIT", 10)
  {
    SegmentsOfThree("HIT, MISS, HIT", "HIT", " MISS", " HIT");
    SpansOfThree("HIT, MISS, HIT", "HIT", " MISS", " HIT", IsHit);
  }

  lemma HitsAroundMissFound()
    ensures Found(IsHit, "HIT", 0) + Found(IsHit, " MISS", 4) + Found(IsHit, " HIT", 10) == [Span(0, 3), Span(11, 3)]
  {
    FoundHit(0);
    FoundMiss(4);
    FoundHit(10);
  }

  /** "HIT, MISS, HIT" has highlights at 0 and 11, in that order. */
  lemma HitsAroundMiss()
    ensures HighlightSpans(Some("HIT, MISS, HIT"), IsHit) == [Span(0, 3), Span(11, 3)]
  {
    HitsAroundMissSegments();
    HitsAroundMissFound();
  }

  /** White space holds no comma. */
  lemma WhiteSpaceHasNoDelimiter(w: string)
    requires AllWhiteSpace(w)
    ensures Delimiter !in w
  {
    forall i | 0 <= i < |w| ensures w[i] != Delimiter {
      assert IsWhiteSpace(w[i]);
    }
  }

  /**
   * A hit padded with any white space, followed by two misses, is one
   * highlight that starts after the leading padding; the input
   * "    HIT  \r\n\t  ,MISS,MISS" is the case of four spaces before and
   * "  \r\n\t  " after.
   */
  lemma HitAmidWhiteSpace(lead: string, trail: string)
    requires AllWhiteSpace(lead) && AllWhiteSpace(trail)
    ensures HighlightSpans(Some(lead + "HIT" + trail + ",MISS,MISS"), IsHit) == [Span(|lead|, 3)]
  {
    var padded := lead + "HIT" + trail;
    var text := padded + ",MISS,MISS";
    assert Found(IsHit, padded, 0) == [Span(|lead|, 3)] by {
      TrimPadded(lead, "HIT", trail);
    }
    assert Delimiter !in padded by {
      WhiteSpaceHasNoDelimiter(lead);
      WhiteSpaceHasNoDelimiter(trail);
    }
    assert text == padded + [Delimiter] + "MISS" + [Delimiter] + "MISS";
    SegmentsOfThree(text, padded, "MISS", "MISS");
    SpansOfThree(text, padded, "MISS", "MISS", IsHit);
    FoundMiss(|padded| + 1);
    FoundMiss(|padded| + 6);
  }

  /** The fixture's input "    HIT  \r\n\t  ,MISS,MISS" has one highlight, at 4 with length 3. */
  lemma HitAmidWhiteSpaceFixture()
    ensures HighlightSpans(Some("    HIT  \r\n\t  ,MISS,MISS"), IsHit) == [Span(4, 3)]
  {
    assert AllWhiteSpace("    ");
    assert AllWhiteSpace("  \r\n\t  ");
    assert "    " + "HIT" + "  \r\n\t  " + ",MISS,MISS" == "    HIT  \r\n\t  ,MISS,MISS";
    HitAmidWhiteSpace("    ", "  \r\n\t  ");
  }

  lemma HitAfterCommaSegments()
    ensures HighlightSpans(Some("MISS, HIT"), IsHit) == Found(IsHit, "MISS", 0) + Found(IsHit, " HIT", 5)
  {
    SegmentsOfTwo("MISS, HIT", "MISS", " HIT");
    SpansOfTwo("MISS, HIT", "MISS", " HIT", IsHit);
  }

  lemma HitAfterCommaFound()
    ensures Found(IsHit, "MISS", 0) + Found(IsHit, " HIT", 5) == [Span(6, 3)]
  {
    FoundMiss(0);
    FoundHit(5);
  }

  /** "MISS, HIT" has one highlight, at offset 6. */
  lemma HitAfterComma()
    ensures HighlightSpans(Some("MISS, HIT"), IsHit) == [Span(6, 3)]
  {
    HitAfterCommaSegments();
    HitAfterCommaFound();
  }

  lemma NoHitSegments()
    ensures HighlightSpans(Some("MISS, MISS "), IsHit) == Found(IsHit, "MISS", 0) + Found(IsHit, " MISS ", 5)
  {
    SegmentsOfTwo("MISS, MISS ", "MISS", " MISS ");
    SpansOfTwo("MISS, MISS ", "MISS", " MISS ", IsHit);
  }

  lemma NoHitFound()
    ensures Found(IsHit, "MISS", 0) + Found(IsHit, " MISS ", 5) == []
  {
    assert Found(IsHit, " MISS ", 5) == [] by {
      TrimPadded(" ", "MISS", " ");
      assert " " + "MISS" + " " == " MISS ";
    }
    FoundMiss(0);
  }

  /** "MISS, MISS " has no highlight. */
  lemma NoHit()
    ensures HighlightSpans(Some("MISS, MISS "), IsHit) == []
  {
    NoHitSegments();
    NoHitFound();
  }

  /** " HIT", " MISS" and "MISS" hold no comma. */
  lemma SampleSegmentsHaveNoDelimiter()
    ensures Delimiter !in "MISS" && Delimiter !in " MISS" && Delimiter !in " HIT"
  {
    assert forall c :: c in "MISS" ==> c in {'M', 'I', 'S'};
    assert forall c :: c in " MISS" ==> c in {' ', 'M', 'I', 'S'};
    assert forall c :: c in " HIT" ==> c in {' ', 'H', 'I', 'T'};
  }

  /** Three segments none of which the predicate accepts make no highlight. */
  lemma NoneOfThree(a: string, b: string, c: string, shouldHighlight: string -> bool)
    requires Delimiter !in a && Delimiter !in b && Delimiter !in c
    requires !shouldHighlight(Trim(a)) && !shouldHighlight(Trim(b)) && !shouldHighlight(Trim(c))
    ensures HighlightSpans(Some(a + [Delimiter] + (b + [Delimiter] + c)), shouldHighlight) == []
  {
    SpanCountAfterSegment(a, b + [Delimiter] + c, shouldHighlight);
    SpanCountAfterSegment(b, c, shouldHighlight);
    SpanCountOfSegment(c, shouldHighlight);
  }

  /** "MISS, MISS, MISS" has no highlight. */
  lemma OnlyMisses()
    ensures HighlightSpans(Some("MISS" + [Delimiter] + (" MISS" + [Delimiter] + " MISS")), IsHit) == []
  {
    FoundMiss(0);
    SampleSegmentsHaveNoDelimiter();
    NoneOfThree("MISS", " MISS", " MISS", IsHit);
  }

  /**
   * Six segments, the second, fourth and fifth of which the predicate
   * accepts, make three highlights.
   */
  lemma ThreeOfSix(miss0: string, miss: string, hit: string, shouldHighlight: string -> bool)
    requires Delimiter !in miss0 && Delimiter !in miss && Delimiter !in hit
    requires !shouldHighlight(Trim(miss0)) && !shouldHighlight(Trim(miss)) && shouldHighlight(Trim(hit))
    ensures |HighlightSpans(Some(miss0 + [Delimiter] + (hit + [Delimiter] + (miss + [Delimiter] + (hit + [Delimiter] + (hit + [Delimiter] + miss))))), shouldHighlight)| == 3
  {
    var t4 := hit + [Delimiter] + miss;
    var t3 := hit + [Delimiter] + t4;
    var t2 := miss + [Delimiter] + t3;
    var t1 := hit + [Delimiter] + t2;
    SpanCountAfterSegment(miss0, t1, shouldHighlight);
    SpanCountAfterSegment(hit, t2, shouldHighlight);
    SpanCountAfterSegment(miss, t3, shouldHighlight);
    SpanCountAfterSegment(hit, t4, shouldHighlight);
    SpanCountAfterSegment(hit, miss, shouldHighlight);
    SpanCountOfSegment(miss, shouldHighlight);
  }

  /** "MISS, HIT, MISS, HIT, HIT, MISS" has three highlights. */
  lemma MultipleHits()
    ensures |HighlightSpans(Some("MISS" + [Delimiter] + (" HIT" + [Delimiter] + (" MISS" + [Delimiter] + (" HIT" + [Delimiter] + (" HIT" + [Delimiter] + " MISS"))))), IsHit)| == 3
  {
    FoundMiss(0);
    FoundHit(0);
    SampleSegmentsHaveNoDelimiter();
    ThreeOfSix("MISS", " MISS", " HIT", IsHit);
  }

  /** A 300 by 30 box with padding (10, 3, 11, 4) clips its overlay to (10, 3, 279, 23). */
  lemma ClipOfPaddedBox()
    ensures OverlayClip(Thickness(10.0, 3.0, 11.0, 4.0), 300.0, 30.0) == Some(Rect(10.0, 3.0, 279.0, 23.0))
  {
  }

  /** A loaded 300 by 30 box that highlights "HIT". */
  method LoadedBox() returns (box: HighlightingTextBox)
    ensures fresh(box) && box.Valid()
    ensures box.text == None && box.innerText == ""
    ensures box.caretIndex == 0 && box.selectionStart == 0 && box.selectionLength == 0
    ensures box.shouldHighlight == IsHit && box.measure == FixedPitch
    ensures box.padding == Thickness(0.0, 0.0, 0.0, 0.0) && box.width == 300.0 && box.height == 30.0
    ensures box.isLoaded && !box.highlightsUpdating
  {
    box := new HighlightingTextBox(FixedPitch);
    box.shouldHighlight := IsHit;
    box.width := 300.0;
    box.height := 30.0;
    box.isLoaded := true;
  }

  /** Replacing the text replaces the highlights: one for "MISS, HIT", none left for "MISS, MISS ". */
  method TextChangeScenario()
  {
    var box := LoadedBox();
    var ok := box.SetText(Some("MISS, HIT"));
    assert ok;
    HitAfterComma();
    NoHit();
    assert |box.highlightCanvas.highlights| == 1;
    ok := box.SetText(Some("MISS, MISS "));
    assert ok;
    assert box.children == [box.highlightCanvas];
    assert box.highlightCanvas.highlights == [];
  }

  /** The overlay of a padded box is clipped to the box less its padding. */
  method ClipScenario()
  {
    var box := LoadedBox();
    box.padding := Thickness(10.0, 3.0, 11.0, 4.0);
    var ok := box.SetText(Some("HIT"));
    assert ok;
    assert box.highlightCanvas.clip == Rect(10.0, 3.0, 279.0, 23.0);
  }

  /**
   * A box narrower than its padding: setting Text throws out of the
   * rebuild, the old overlay is gone and the guard flag stays set, so a
   * later text change no longer rebuilds anything.
   */
  method RejectedClipScenario()
  {
    var box := LoadedBox();
    box.width := 20.0;
    box.padding := Thickness(11.0, 0.0, 10.0, 0.0);
    var ok := box.SetText(Some("HIT"));
    assert !ok && box.text == Some("HIT");
    assert box.children == [] && box.highlightsUpdating;
    ok := box.SetText(Some("MISS"));
    assert ok && box.innerText == "MISS" && box.children == [];
  }

  /**
   * Scrolling the inner box by dx moves every highlight by dx, and no
   * highlight appears or disappears, whatever the text, the predicate and
   * the layout.
   */
  method ScrollScenario(text: string, shouldHighlight: string -> bool, measure: int -> Rect, dx: real)
    requires text != ""
  {
    var box := new HighlightingTextBox(measure);
    box.shouldHighlight := shouldHighlight;
    box.width := 300.0;
    box.height := 30.0;
    box.isLoaded := true;
    var ok := box.SetText(Some(text));
    assert ok && box.ShowsCurrentHighlights();
    var before := box.highlightCanvas.highlights;
    assert before == HighlightRects(Some(text), shouldHighlight, measure);
    box.measure := Scrolled(measure, dx, 0.0);
    assert box.Valid() && !box.highlightsUpdating && box.isLoaded && OverlayClip(box.padding, box.width, box.height).Some?;
    ok := box.OnScrollChanged();
    assert ok && box.ShowsCurrentHighlights();
    var after := box.highlightCanvas.highlights;
    assert after == HighlightRects(Some(text), shouldHighlight, Scrolled(measure, dx, 0.0));
    HighlightsFollowScroll(Some(text), shouldHighlight, measure, dx, 0.0);
    assert |after| == |before|;
    assert forall k :: 0 <= k < |before| ==> after[k].x == before[k].x + dx;
  }

  /** Setting the inner text updates Text. */
  method InnerTextScenario()
  {
    var box := LoadedBox();
    var ok := box.SetInnerText("This is some text");
    assert ok && box.text == Some("This is some text");
  }

  /**
   * Reasserting the caret at the start of a selection keeps the selection;
   * a different caret collapses it there.
   */
  method CaretScenario()
  {
    var box := LoadedBox();
    var ok := box.SetText(Some("florence"));
    ok := box.Select(3, 2);
    assert ok && box.selectionStart == 3 && box.selectionLength == 2 && box.caretIndex == 3;
    ok := box.SetCaretIndex(3);
    assert ok && box.selectionStart == 3 && box.selectionLength == 2;
    ok := box.SetCaretIndex(4);
    assert ok && box.selectionStart == 4 && box.selectionLength == 0 && box.caretIndex == 4;
  }
}
