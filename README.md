# HighlightingTextBox — a Dafny model

HighlightingTextBox is a WPF control that wraps an ordinary TextBox. It splits the
box's text on commas and trims white space from each piece, which is called a
segment here. It then asks a caller-supplied `ShouldHighlight` predicate about each
trimmed segment. Each segment the predicate accepts gets a rectangle behind its
characters, drawn on an overlay Canvas. The overlay is clipped to the box less its
padding. It is rebuilt whenever the inner text changes or the inner box scrolls.
The control also keeps its own `Text` and `CaretIndex` properties in step with the
inner box.

The project has these modules:

- `Wrappers`: `Option`.
- `Segmenter`:
  - String.Split on `','`, String.Trim / TrimStart over the .NET white-space set, and the Join that undoes Split.
  - The offset of each segment in the text.
  - The spans (start, length) HighlightMatchedSubstrings highlights, with what they are proved to cover.
- `Geometry`:
  - `Rect` and `Thickness` over `real`.
  - `Rect.Union` and translation.
  - The overlay clip rectangle, including the case where the `Rect` constructor throws.
- `Projector`:
  - PositionForHighlight: the union of the caret rectangles at both ends of a span.
  - The rectangles for all spans.
  - The step-by-step placement done by the loop.
  - How the rectangles follow a scroll.
- `HighlightBox`: the control as a class.
  - Fields: the two dependency properties, the inner box's text, selection, padding, size and loaded flag, its layout (`measure`), the overlay children and the re-entrancy flag.
  - One method per handler of `HighlightingTextBox.cs`.
  - The framework behaviour the handlers rely on:
    - a property's changed-callback runs only when the value changes;
    - `TextBox.Text` turns null into `""`;
    - `TextBox.Select` clamps its arguments and raises SelectionChanged only on a change;
    - `TextBox.CaretIndex = v` is `Select(v, 0)`.
- `Scenarios`: the behaviours the test fixture `HighlightingTextBoxTests.cs` exercises, stated on the model.

The inner box's layout, `GetRectFromCharacterIndex`, is a parameter: a function
from character index to rectangle. Scrolling replaces it by its translate.

A clip whose width or height is negative is never built: `new Rect(x, y, width,
height)` (HighlightingTextBox.cs:219) throws ArgumentException. The model follows
the code:
- `GetNewHighlightCanvas` returns `None`.
- `ResetHighlightCanvas` leaves the control without an overlay.
- `UpdateHighlights` stops with `highlightsUpdating` still set, as the code has no
  `finally`, and its `ok` result is false. Every handler that reaches it passes that
  result on: `OnScrollChanged`, `OnInternalTextChanged`, `SetInnerText`,
  `OnTextPropertyChanged` and `SetText`. So `ok` is false exactly when the exception
  reaches the caller, and the state is the one the code leaves behind.
- In the same way, `Select` returns false for a negative argument, where
  `TextBox.Select` throws ArgumentOutOfRangeException. The caret handlers pass that on.

## Model

| member | source | states |
|---|---|---|
| Segmenter.TrimStart | HighlightingTextBox/HighlightingTextBox.cs:232 | String.TrimStart: drops the leading characters of the .NET white-space set, never lengthening the string |
| Segmenter.TrimEnd | HighlightingTextBox/HighlightingTextBox.cs:229 | the trailing half of String.Trim: drops the trailing white-space characters, never lengthening the string |
| Segmenter.TrimStartIsSuffix | HighlightingTextBox/HighlightingTextBox.cs:232 | TrimStart keeps a suffix of the segment; it starts with a non-white-space character or is empty, and everything it drops is white space |
| Segmenter.TrimEndIsPrefix | HighlightingTextBox/HighlightingTextBox.cs:229 | TrimEnd keeps a prefix; it ends with a non-white-space character or is empty, and everything it drops is white space |
| Segmenter.LeadingWhiteSpaceCount | HighlightingTextBox/HighlightingTextBox.cs:232 | computes `substring.Length - substring.TrimStart().Length`, the number of leading white-space characters |
| Segmenter.Trim | HighlightingTextBox/HighlightingTextBox.cs:229 | the leading white space plus the trimmed content fit within the segment |
| Segmenter.TrimIsSlice | HighlightingTextBox/HighlightingTextBox.cs:229-232 | the trimmed segment is the slice starting after the leading white space; its ends are not white space and everything outside it is |
| Segmenter.TrimStartPadded | HighlightingTextBox/HighlightingTextBox.cs:232 | TrimStart removes exactly a white-space prefix in front of a non-white-space character |
| Segmenter.TrimEndPadded | HighlightingTextBox/HighlightingTextBox.cs:229 | TrimEnd removes exactly a white-space suffix after a non-white-space character |
| Segmenter.TrimPadded | HighlightingTextBox/HighlightingTextBox.cs:229-232 | content padded with white space on both sides trims back to the content, and the leading count is the length of the left padding |
| Segmenter.Split | HighlightingTextBox/HighlightingTextBox.cs:225 | Split(',') always yields at least one piece |
| Segmenter.JoinSplit | HighlightingTextBox/HighlightingTextBox.cs:225 | no piece contains a comma, and joining the pieces with commas gives the text back |
| Segmenter.SplitJoin | HighlightingTextBox/HighlightingTextBox.cs:225 | splitting the comma-join of comma-free pieces gives those pieces back |
| Segmenter.SplitDelimiterFree | HighlightingTextBox/HighlightingTextBox.cs:225 | a text without a comma is one segment |
| Segmenter.SplitAfterPart | HighlightingTextBox/HighlightingTextBox.cs:225 | a comma-free piece followed by a comma is the first segment, and the rest splits on its own |
| Segmenter.Segments | HighlightingTextBox/HighlightingTextBox.cs:225 | a null Text has no segments; any other text has at least one |
| Segmenter.SegmentStart | HighlightingTextBox/HighlightingTextBox.cs:226-235 | computes the value stringIndex holds when the loop reaches segment i: the lengths of the earlier segments plus one comma each |
| Segmenter.SegmentStartOfTail | HighlightingTextBox/HighlightingTextBox.cs:235 | a segment's offset is the first segment's length plus one plus its offset among the remaining segments |
| Segmenter.SegmentStartMonotonic | HighlightingTextBox/HighlightingTextBox.cs:226-235 | a segment ends strictly before any later segment starts |
| Segmenter.SegmentAt | HighlightingTextBox/HighlightingTextBox.cs:226-235 | the running stringIndex is where each segment sits in the text; a segment that is not the last ends before the end of the text |
| Segmenter.SegmentLengthsAddUp | HighlightingTextBox/HighlightingTextBox.cs:235 | after the last segment, stringIndex is one past the end of the text |
| Segmenter.SegmentsCoverText | HighlightingTextBox/HighlightingTextBox.cs:225-235 | the segment lengths plus one comma between each two add up to the text length |
| Segmenter.SegmentInJoin | HighlightingTextBox/HighlightingTextBox.cs:226-235 | in the comma-join of some segments, each segment's characters sit at its offset |
| Segmenter.SegmentOfText | HighlightingTextBox/HighlightingTextBox.cs:225-235 | each segment of a text sits at its offset in that text |
| Segmenter.SpanAt | HighlightingTextBox/HighlightingTextBox.cs:232-233 | computes the arguments AddHighlight gets for segment i: stringIndex plus the leading white-space count, and the trimmed length |
| Segmenter.MatchedSegments | HighlightingTextBox/HighlightingTextBox.cs:227-230 | the matched segment indices are in range and strictly increasing |
| Segmenter.MatchedSegmentsMembership | HighlightingTextBox/HighlightingTextBox.cs:230 | a segment is matched if and only if the predicate accepts its trimmed content |
| Segmenter.SpansForAppend | HighlightingTextBox/HighlightingTextBox.cs:233 | matching one more segment appends its span |
| Segmenter.SpansStep | HighlightingTextBox/HighlightingTextBox.cs:227-236 | one loop step adds the segment's span exactly when the predicate accepts the trimmed segment |
| Segmenter.HighlightSpans | HighlightingTextBox/HighlightingTextBox.cs:223-237 | computes the (start, length) pairs HighlightMatchedSubstrings passes to AddHighlight, in call order; its properties are the lemmas below |
| Segmenter.TrimmedWithinText | HighlightingTextBox/HighlightingTextBox.cs:232-233 | where a segment sits in the text, its trimmed content sits at the offset plus the leading white-space count |
| Segmenter.SpanAtWithinSegment | HighlightingTextBox/HighlightingTextBox.cs:232-233 | a segment's span covers exactly its trimmed content within the text |
| Segmenter.SegmentSpanContents | HighlightingTextBox/HighlightingTextBox.cs:225-235 | the span computed for segment i of a text lies in the text and covers that segment's trimmed content |
| Segmenter.HighlightSpanOfMatch | HighlightingTextBox/HighlightingTextBox.cs:227-233 | the k-th highlight is the span of the k-th matched segment, and the predicate accepts that segment's trimmed content |
| Segmenter.HighlightSpanContents | HighlightingTextBox/HighlightingTextBox.cs:223-237 | every highlighted span lies in the text, covers exactly the trimmed content of its segment, and the predicate accepts those characters |
| Segmenter.HighlightSpansOrdered | HighlightingTextBox/HighlightingTextBox.cs:223-237 | highlights come left to right and never overlap: each ends before the next starts |
| Segmenter.HighlightSpanPerMatch | HighlightingTextBox/HighlightingTextBox.cs:223-237 | a segment gets a highlight if and only if the predicate accepts its trimmed content, and that highlight is at the segment's span |
| Segmenter.MatchedSegmentsAfterFirst | HighlightingTextBox/HighlightingTextBox.cs:227-230 | the number of matches over a first segment and the rest is one for the first segment if accepted, plus the count over the rest |
| Segmenter.SpanCount | HighlightingTextBox/HighlightingTextBox.cs:223-237 | there is one highlight per matched segment |
| Segmenter.SpanCountOfSegment | HighlightingTextBox/HighlightingTextBox.cs:223-237 | a text without a comma gets one highlight if its trimmed content is accepted, and none otherwise |
| Segmenter.SpanCountAfterSegment | HighlightingTextBox/HighlightingTextBox.cs:223-237 | the segment before the first comma adds one highlight if accepted and none otherwise to those of the rest of the text |
| Geometry.Union | HighlightingTextBox/HighlightingTextBox.cs:252 | Rect.Union gives a well-formed rectangle that contains both well-formed arguments |
| Geometry.UnionIsSmallest | HighlightingTextBox/HighlightingTextBox.cs:252 | every rectangle that contains both arguments contains their union |
| Geometry.Translate | HighlightingTextBox.Tests/HighlightingTextBoxTests.cs:156-171 | the layout assumption behind the scroll test, not code of the control: a scrolled caret rectangle keeps its size and its edges move by the offset |
| Geometry.UnionTranslate | HighlightingTextBox/HighlightingTextBox.cs:252 | translating both rectangles translates their union |
| Geometry.OverlayClip | HighlightingTextBox/HighlightingTextBox.cs:215-219 | the clip exists exactly when the padding fits the box; it is then well-formed, starts at (left, top) padding and ends at the box size less the right and bottom padding |
| Geometry.OverlayClipInsideBox | HighlightingTextBox/HighlightingTextBox.cs:215-219 | with non-negative padding the clip lies within the box |
| Projector.PositionForHighlight | HighlightingTextBox/HighlightingTextBox.cs:249-254 | the highlight rectangle is well-formed and covers the caret rectangles at both ends of the span |
| Projector.PositionForHighlightIsSmallest | HighlightingTextBox/HighlightingTextBox.cs:249-254 | no smaller rectangle covers both end rectangles |
| Projector.Positions | HighlightingTextBox/HighlightingTextBox.cs:241 | one rectangle per span |
| Projector.PositionCoversSpan | HighlightingTextBox/HighlightingTextBox.cs:241-246 | in a well-formed layout each span's rectangle covers the caret rectangles at its two ends |
| Projector.PositionsAppend | HighlightingTextBox/HighlightingTextBox.cs:243 | one more span appends its rectangle |
| Projector.PositionsStep | HighlightingTextBox/HighlightingTextBox.cs:229-235 | one loop iteration: the span starts at stringIndex plus the leading count, has the trimmed length, a rectangle is added exactly when the predicate accepts, and stringIndex advances past the segment and its comma |
| Projector.PlacedFor | HighlightingTextBox/HighlightingTextBox.cs:227-236 | computes the rectangles the loop has added after its first n iterations |
| Projector.HighlightRects | HighlightingTextBox/HighlightingTextBox.cs:223-254 | computes the rectangles HighlightMatchedSubstrings adds for a text, a predicate and a layout: PositionForHighlight of each highlight span |
| Projector.PlacedForMatched | HighlightingTextBox/HighlightingTextBox.cs:223-237 | the rectangles placed segment by segment are those of the matched spans, in order |
| Projector.PlacedForText | HighlightingTextBox/HighlightingTextBox.cs:223-237 | after the last segment, the placed rectangles are the highlights of the text |
| Projector.HighlightRectCoversSpan | HighlightingTextBox/HighlightingTextBox.cs:223-254 | each highlight rectangle covers the caret rectangles at both ends of a span of accepted text inside the text |
| Projector.Scrolled | HighlightingTextBox.Tests/HighlightingTextBoxTests.cs:156-171 | the layout assumption behind the scroll test, not code of the control: the inner box's renderer moves every caret rectangle by the scroll offset |
| Projector.HighlightsFollowScroll | HighlightingTextBox/HighlightingTextBox.cs:186-189 | after a scroll there are as many highlights as before, each translated by the scroll offset |
| HighlightBox.InnerTextOf | HighlightingTextBox/HighlightingTextBox.cs:140 | the inner box holds the Text, or "" for a null Text |
| HighlightBox.ClampedSelection | HighlightingTextBox/HighlightingTextBox.cs:148 | the selection fits the text and is no larger than asked; a selection that fits is kept, and so is a start within the text |
| HighlightBox.IndexOf | HighlightingTextBox/HighlightingTextBox.cs:207 | the position of the first occurrence, which Children.Remove removes |
| HighlightBox.RemoveFirst | HighlightingTextBox/HighlightingTextBox.cs:205-208 | Children.Remove drops the first occurrence if there is one, keeping the other children in order, and changes nothing otherwise |
| HighlightBox.HighlightCanvas.constructor | HighlightingTextBox/HighlightingTextBox.cs:220 | a new overlay has the given clip and no highlights |
| HighlightBox.HighlightingTextBox.constructor | HighlightingTextBox/HighlightingTextBox.cs:62-66 | a new control has no text, caret 0, a predicate that accepts nothing and no overlay |
| HighlightBox.HighlightingTextBox.AddHighlight | HighlightingTextBox/HighlightingTextBox.cs:239-247 | appends exactly the PositionForHighlight rectangle to the overlay |
| HighlightBox.HighlightingTextBox.HighlightMatchedSubstrings | HighlightingTextBox/HighlightingTextBox.cs:223-237 | appends exactly the highlight rectangles of the current text, in order; the loop keeps stringIndex at the segment offset |
| HighlightBox.HighlightingTextBox.GetNewHighlightCanvas | HighlightingTextBox/HighlightingTextBox.cs:213-221 | a fresh, empty overlay clipped to the padded box exactly when that rectangle exists |
| HighlightBox.HighlightingTextBox.ResetHighlightCanvas | HighlightingTextBox/HighlightingTextBox.cs:203-211 | the old overlay is removed and a fresh, empty one is the only overlay; when the clip cannot be built, no overlay remains |
| HighlightBox.HighlightingTextBox.ShowsCurrentHighlights | HighlightingTextBox/HighlightingTextBox.cs:191-211 | the state after a completed rebuild: flag clear, one overlay, clipped to the padded box, holding exactly the current text's highlight rectangles |
| HighlightBox.HighlightingTextBox.UpdatedFrom | HighlightingTextBox/HighlightingTextBox.cs:191-211 | the state a rebuild leaves: unchanged when skipped; no overlay and the flag still set when the clip is rejected; otherwise ShowsCurrentHighlights |
| HighlightBox.HighlightingTextBox.ClipRejected | HighlightingTextBox/HighlightingTextBox.cs:193-198 | a rebuild starts (flag clear, inner box loaded) and the clip has a negative width or height |
| HighlightBox.HighlightingTextBox.UpdateHighlights | HighlightingTextBox/HighlightingTextBox.cs:191-201 | skipped while updating or before load; otherwise the overlay shows exactly the current text's highlights, or on a bad clip none, with the flag left set and ok false (the exception escapes); text and selection untouched |
| HighlightBox.HighlightingTextBox.OnScrollChanged | HighlightingTextBox/HighlightingTextBox.cs:186-189 | a scroll rebuilds the overlay for the new layout; ok is false exactly when that rebuild throws |
| HighlightBox.HighlightingTextBox.SetText | HighlightingTextBox/HighlightingTextBox.cs:70-74 | setting Text to its value changes nothing; otherwise the inner box gets the text and, if that changed the inner text, the overlay is rebuilt; ok is false exactly when that rebuild throws to the caller of the setter |
| HighlightBox.HighlightingTextBox.OnTextPropertyChanged | HighlightingTextBox/HighlightingTextBox.cs:137-141 | the inner box gets Text (null as ""); the overlay is rebuilt if the inner text changed; ok is false exactly when that rebuild throws |
| HighlightBox.HighlightingTextBox.SetInnerText | HighlightingTextBox/HighlightingTextBox.cs:140 | the inner box holds the value; a change copies it out to Text and rebuilds the overlay; ok is false exactly when that rebuild throws |
| HighlightBox.HighlightingTextBox.OnInternalTextChanged | HighlightingTextBox/HighlightingTextBox.cs:170-179 | Text becomes the inner text and the overlay is rebuilt; ok is false exactly when the rebuild at line 178 throws |
| HighlightBox.HighlightingTextBox.SetCaretIndex | HighlightingTextBox/HighlightingTextBox.cs:118-122 | the caret at the selection start keeps the selection; another non-negative caret collapses the selection there, clamped to the text; another negative caret is stored and ok is false, as the inner Select throws |
| HighlightBox.HighlightingTextBox.OnCaretIndexPropertyChanged | HighlightingTextBox/HighlightingTextBox.cs:143-150 | the inner caret moves only when it is elsewhere; the selection then collapses at the clamped value; ok is false for a negative value that has to move |
| HighlightBox.HighlightingTextBox.Select | HighlightingTextBox/HighlightingTextBox.cs:148 | negative arguments change nothing and ok is false (TextBox.Select throws); otherwise the selection is clamped to the text and the caret follows it when it changed |
| HighlightBox.HighlightingTextBox.OnInternalSelectionChanged | HighlightingTextBox/HighlightingTextBox.cs:181-184 | CaretIndex becomes the inner selection start; the selection is kept, and nothing throws |
| Scenarios.SegmentsOfTwo | HighlightingTextBox/HighlightingTextBox.cs:225 | a text with one comma has the two segments around it |
| Scenarios.SegmentsOfThree | HighlightingTextBox/HighlightingTextBox.cs:225 | a text with two commas has the three segments between them |
| Scenarios.SpansOfTwo | HighlightingTextBox/HighlightingTextBox.cs:223-237 | the spans of a two-segment text are those of each segment at its offset |
| Scenarios.SpansOfThree | HighlightingTextBox/HighlightingTextBox.cs:223-237 | the spans of a three-segment text are those of each segment at its offset |
| Scenarios.HitAfterOneMiss | HighlightingTextBox.Tests/HighlightingTextBoxTests.cs:127-137 | "MISS, HIT, MISS" has one highlight, at 6 with length 3 |
| Scenarios.HitAfterTwoMisses | HighlightingTextBox.Tests/HighlightingTextBoxTests.cs:127-137 | "MISS, MISS, HIT" has one highlight, at 12 with length 3 |
| Scenarios.ThreeHits | HighlightingTextBox.Tests/HighlightingTextBoxTests.cs:139-154 | "HIT, HIT, HIT" has highlights at 0, 5 and 10, in that order |
| Scenarios.TwoHitsThenMiss | HighlightingTextBox.Tests/HighlightingTextBoxTests.cs:139-154 | "HIT, HIT, MISS" has highlights at 0 and 5, in that order |
| Scenarios.HitsAroundMiss | HighlightingTextBox.Tests/HighlightingTextBoxTests.cs:139-154 | "HIT, MISS, HIT" has highlights at 0 and 11, in that order |
| Scenarios.HitAmidWhiteSpace | HighlightingTextBox.Tests/HighlightingTextBoxTests.cs:60-68 | a hit padded with any white space before two misses is one highlight, starting after the padding |
| Scenarios.HitAmidWhiteSpaceFixture | HighlightingTextBox.Tests/HighlightingTextBoxTests.cs:60-68 | the fixture's input "    HIT  \r\n\t  ,MISS,MISS" has one highlight, at 4 with length 3 |
| Scenarios.NoneOfThree | HighlightingTextBox.Tests/HighlightingTextBoxTests.cs:70-78 | three rejected segments give no highlight |
| Scenarios.OnlyMisses | HighlightingTextBox.Tests/HighlightingTextBoxTests.cs:70-78 | "MISS, MISS, MISS" has no highlight |
| Scenarios.ThreeOfSix | HighlightingTextBox.Tests/HighlightingTextBoxTests.cs:80-88 | six segments of which three are accepted give three highlights |
| Scenarios.MultipleHits | HighlightingTextBox.Tests/HighlightingTextBoxTests.cs:80-88 | "MISS, HIT, MISS, HIT, HIT, MISS" has three highlights |
| Scenarios.HitAfterComma | HighlightingTextBox.Tests/HighlightingTextBoxTests.cs:90-96 | "MISS, HIT" has one highlight |
| Scenarios.NoHit | HighlightingTextBox.Tests/HighlightingTextBoxTests.cs:97-102 | "MISS, MISS " has none |
| Scenarios.ClipOfPaddedBox | HighlightingTextBox.Tests/HighlightingTextBoxTests.cs:41-58 | a 300 by 30 box with padding (10, 3, 11, 4) clips its overlay to (10, 3, 279, 23) |
| Scenarios.LoadedBox | HighlightingTextBox.Tests/HighlightingTextBoxTests.cs:30-39 | the fixture's control: 300 by 30, loaded, highlighting "HIT", no text yet |

The scenario methods are driven through the control's methods and have no
contract of their own. Each follows one test:
- `TextChangeScenario` follows lines 90-102 of the test fixture.
- `ClipScenario` follows lines 41-58.
- `RejectedClipScenario` has no test. It shows that after the clip is rejected,
  Text keeps the new value, no overlay remains and later text changes rebuild nothing.
- `ScrollScenario` follows lines 156-171, for any text, predicate and layout.
- `InnerTextScenario` follows lines 114-125.
- `CaretScenario` follows lines 173-201.

## Left out

- The dependency-property registrations and pass-through properties `HighlightColor`, `Foreground`, `FontSize`, `FontFamily` and `BorderThickness` (HighlightingTextBox.cs:19-58, 76-116). They carry no logic. `Padding` is modelled as the inner box's padding field, which the host assigns.
- Brushes and the highlight's fill, and z-order: these affect drawing only.
- `OnInitialized` event subscription (124-129). The model calls the handlers directly.
- `OnGotFocus` focus forwarding (131-135) and its test (lines 104-112 of the fixture). The model has no keyboard focus.
- `InitializeInternalTextBox` (154-168): the data bindings of the inner box's size to the control's actual size, and the inner TextBox child itself. Width, height and the loaded flag are fields the host sets; `children` holds only the overlay canvases.
- Text layout and glyph measurement. `GetRectFromCharacterIndex` is the `measure` parameter. `Rect.Empty` and infinite coordinates are not modelled, and coordinates are exact reals, not doubles.
- Change notification for size, padding and `ShouldHighlight`. The control subscribes only to TextChanged, SelectionChanged and ScrollViewer.ScrollChanged (124-129). WPF raises ScrollChanged also when the viewport size changes, so the host calls `OnScrollChanged` after a size change. A change to padding or to `ShouldHighlight` is seen only at the next rebuild.
- Exceptions other than the clip rectangle's ArgumentException and `TextBox.Select`'s ArgumentOutOfRangeException, which the handlers return as `ok`. For example, a throwing predicate is not modelled.
- String lengths and offsets count Unicode scalar values (Dafny's `char`). .NET counts UTF-16 code units in `Length`, `Split`, `TrimStart` and the `stringIndex` passed to GetRectFromCharacterIndex (232-235). The two agree on text with no character above U+FFFF. On text with such a character, .NET places every later highlight one unit further right per such character than the model does.
- HighlightBox.HighlightingTextBox.SetInnerText: does not model TextBox resetting the selection when the text is replaced. The selection is left as it was.
- The inner TextBox's default padding is taken as zero.
- HighlightBox.HighlightingTextBox.OnCaretIndexPropertyChanged: compares against the inner selection start, taken as the inner box's CaretIndex. TextBox's own caret-at-the-end-of-a-selection case is not modelled.
