/**
 * The HighlightingTextBox control as a state machine: the Text and CaretIndex
 * properties of the control, the text and selection of the inner TextBox it
 * wraps, and the highlight overlay it rebuilds whenever the inner text
 * changes or the inner box scrolls.
 *
 * The framework's part is modelled where the handlers depend on it: a
 * property setter runs its changed-callback only when the value changes;
 * TextBox.Text turns null into ""; TextBox.Select clamps to the text and
 * raises SelectionChanged only when the selection changes. The layout is a
 * measure function and the size, padding and loaded flag of the inner box
 * are fields the host assigns.
 */
module HighlightBox {
  import opened Wrappers
  import opened Segmenter
  import opened Geometry
  import opened Projector

  /** The text the inner TextBox holds after its Text is set to text: null becomes "". */
  function InnerTextOf(text: Option<string>): (s: string)
    ensures text.Some? ==> s == text.value
    ensures text.None? ==> s == ""
  {
    if text.Some? then text.value else ""
  }

  /**
   * The selection TextBox.Select(start, length) makes for non-negative
   * arguments: the start is clamped to the text and the length to what
   * follows the start. A selection that fits is taken as it is.
   */
  function ClampedSelection(start: nat, length: nat, textLength: nat): (sel: (nat, nat))
    ensures sel.0 + sel.1 <= textLength
    ensures sel.0 <= start && sel.1 <= length
    ensures start + length <= textLength ==> sel == (start, length)
    ensures start <= textLength ==> sel.0 == start
  {
    var s := if start <= textLength then start else textLength;
    var l := if length <= textLength - s then length else textLength - s;
    (s, l)
  }

  /** The index of the first occurrence of x in s. */
  function IndexOf<T(==)>(s: seq<T>, x: T): (i: nat)
    requires x in s
    ensures i < |s| && s[i] == x && x !in s[..i]
  {
    if s[0] == x then 0
    else
      assert s == [s[0]] + s[1..];
      var i := 1 + IndexOf(s[1..], x);
      assert s[..i] == [s[0]] + s[1..][..i - 1];
      i
  }

  /**
   * Collection<T>.Remove: drops the first occurrence of x, if there is one;
   * the other elements keep their order.
   */
  function RemoveFirst<T(==)>(s: seq<T>, x: T): (r: seq<T>)
    ensures x !in s ==> r == s
    ensures x in s ==> r == s[..IndexOf(s, x)] + s[IndexOf(s, x) + 1..]
    ensures x in s ==> |r| == |s| - 1 && multiset(r) + multiset{x} == multiset(s)
  {
    if s == [] then []
    else if s[0] == x then
      RemovedHead(s, x);
      s[1..]
    else
      var rest := RemoveFirst(s[1..], x);
      RemovedAfterHead(s, x, rest, [s[0]] + rest);
      [s[0]] + rest
  }

  /** Removing x where it is the first element leaves the tail. */
  lemma RemovedHead<T>(s: seq<T>, x: T)
    requires s != [] && s[0] == x
    ensures x in s && IndexOf(s, x) == 0
    ensures s[1..] == s[..IndexOf(s, x)] + s[IndexOf(s, x) + 1..]
    ensures |s[1..]| == |s| - 1 && multiset(s[1..]) + multiset{x} == multiset(s)
  {
    assert s == [s[0]] + s[1..];
  }

  /** Removing x from the tail of s, when s starts with another element, removes it from s. */
  lemma RemovedAfterHead<T>(s: seq<T>, x: T, rest: seq<T>, r: seq<T>)
    requires s != [] && s[0] != x && r == [s[0]] + rest
    requires x !in s[1..] ==> rest == s[1..]
    requires x in s[1..] ==> rest == s[1..][..IndexOf(s[1..], x)] + s[1..][IndexOf(s[1..], x) + 1..]
    requires x in s[1..] ==> |rest| == |s[1..]| - 1 && multiset(rest) + multiset{x} == multiset(s[1..])
    ensures x !in s ==> r == s
    ensures x in s ==> r == s[..IndexOf(s, x)] + s[IndexOf(s, x) + 1..]
    ensures x in s ==> |r| == |s| - 1 && multiset(r) + multiset{x} == multiset(s)
  {
    assert s == [s[0]] + s[1..];
    if x in s {
      assert x in s[1..];
      var i := IndexOf(s[1..], x);
      assert IndexOf(s, x) == i + 1;
      assert s[..i + 1] == [s[0]] + s[1..][..i];
      assert s[i + 2..] == s[1..][i + 1..];
      assert multiset(r) == multiset{s[0]} + multiset(rest);
    }
  }

  /** The overlay Canvas: its clip and the rectangles of the highlights placed on it. */
  class HighlightCanvas {
    const clip: Rect
    var highlights: seq<Rect>

    constructor (clip: Rect)
      ensures this.clip == clip && highlights == []
    {
      this.clip := clip;
      highlights := [];
    }
  }

  class HighlightingTextBox {
    /** The Text property of the control (null until set). */
    var text: Option<string>
    /** The CaretIndex property of the control. */
    var caretIndex: int
    /** The ShouldHighlight property: applied to the trimmed content of each segment. */
    var shouldHighlight: string -> bool

    /** Text, SelectionStart and SelectionLength of the inner TextBox. */
    var innerText: string
    var selectionStart: nat
    var selectionLength: nat

    /** Padding, Width, Height and IsLoaded of the inner TextBox, assigned by the host. */
    var padding: Thickness
    var width: real
    var height: real
    var isLoaded: bool
    /** GetRectFromCharacterIndex of the inner TextBox in its current layout and scroll state. */
    var measure: int -> Rect

    /** The overlay canvases among the control's children, and the current overlay. */
    var children: seq<HighlightCanvas>
    var highlightCanvas: HighlightCanvas?
    var highlightsUpdating: bool

    /** At most one overlay is shown, and it is the current one. */
    ghost predicate Valid()
      reads this
    {
      children == [] || (highlightCanvas != null && children == [highlightCanvas])
    }

    /**
     * The overlay shows exactly the highlights of the current text: one
     * overlay, clipped to the padded box, holding one rectangle per matched
     * segment and nothing left over from an earlier text.
     */
    ghost predicate ShowsCurrentHighlights()
      reads this, highlightCanvas
    {
      && !highlightsUpdating
      && highlightCanvas != null
      && children == [highlightCanvas]
      && OverlayClip(padding, width, height) == Some(highlightCanvas.clip)
      && highlightCanvas.highlights == HighlightRects(text, shouldHighlight, measure)
    }

    /**
     * The overlay state UpdateHighlights leaves behind, given the guard flag,
     * the overlay children and the current overlay before the call.
     */
    ghost predicate UpdatedFrom(wasUpdating: bool, oldChildren: seq<HighlightCanvas>, oldCanvas: HighlightCanvas?)
      reads this, highlightCanvas
    {
      if wasUpdating || !isLoaded then
        // skipped: nothing changes
        highlightsUpdating == wasUpdating && children == oldChildren && highlightCanvas == oldCanvas
      else if OverlayClip(padding, width, height).None? then
        // the clip rectangle was rejected after the old overlay was removed;
        // nothing clears the guard flag
        highlightsUpdating && children == [] && highlightCanvas == oldCanvas
      else
        ShowsCurrentHighlights()
    }

    twostate predicate SameContent()
      reads this
    {
      unchanged(this`text, this`innerText)
    }

    twostate predicate SameSelection()
      reads this
    {
      unchanged(this`caretIndex, this`selectionStart, this`selectionLength)
    }

    twostate predicate SameEnvironment()
      reads this
    {
      unchanged(this`shouldHighlight, this`padding, this`width, this`height, this`isLoaded, this`measure)
    }

    twostate predicate SameOverlay()
      reads this
    {
      unchanged(this`children, this`highlightCanvas, this`highlightsUpdating)
    }

    /**
     * A new control: no text, caret at 0, a predicate that accepts nothing,
     * no overlay yet; the inner box is not loaded until the host says so.
     */
    constructor (measure: int -> Rect)
      ensures Valid()
      ensures text == None && innerText == "" && caretIndex == 0
      ensures selectionStart == 0 && selectionLength == 0
      ensures forall s :: !shouldHighlight(s)
      ensures padding == Thickness(0.0, 0.0, 0.0, 0.0) && width == 0.0 && height == 0.0
      ensures !isLoaded && this.measure == measure
      ensures children == [] && highlightCanvas == null && !highlightsUpdating
    {
      text := None;
      caretIndex := 0;
      shouldHighlight := s => false;
      innerText := "";
      selectionStart := 0;
      selectionLength := 0;
      padding := Thickness(0.0, 0.0, 0.0, 0.0);
      width := 0.0;
      height := 0.0;
      isLoaded := false;
      this.measure := measure;
      children := [];
      highlightCanvas := null;
      highlightsUpdating := false;
    }

    /** Places one highlight covering the characters from startIndex to startIndex + length. */
    method AddHighlight(startIndex: int, length: int)
      requires highlightCanvas != null
      modifies highlightCanvas
      ensures highlightCanvas.highlights == old(highlightCanvas.highlights) + [PositionForHighlight(measure, startIndex, length)]
    {
      var positionRect := PositionForHighlight(measure, startIndex, length);
      // the Rectangle takes the width and height of positionRect and is
      // placed at its left and top
      var highlight := Rect(positionRect.x, positionRect.y, positionRect.width, positionRect.height);
      highlightCanvas.highlights := highlightCanvas.highlights + [highlight];
    }

    /**
     * Walks the comma-separated segments of the text and highlights every
     * segment whose trimmed content the predicate accepts.
     */
    method HighlightMatchedSubstrings()
      requires highlightCanvas != null
      modifies highlightCanvas
      ensures highlightCanvas.highlights == old(highlightCanvas.highlights) + HighlightRects(text, shouldHighlight, measure)
    {
      ghost var placed := highlightCanvas.highlights;
      var substrings := Segments(text);
      var stringIndex := 0;
      var i := 0;
      while i < |substrings|
        invariant 0 <= i <= |substrings|
        invariant stringIndex == SegmentStart(substrings, i)
        invariant highlightCanvas.highlights == placed + PlacedFor(substrings, shouldHighlight, measure, i)
      {
        var substring := substrings[i];
        var trimmedSubstring := Trim(substring);
        if shouldHighlight(trimmedSubstring) {
          var leadingWhiteSpaceCount := |substring| - |TrimStart(substring)|;
          PositionsStep(substrings, shouldHighlight, measure, i, stringIndex, trimmedSubstring, leadingWhiteSpaceCount);
          AddHighlight(stringIndex + leadingWhiteSpaceCount, |trimmedSubstring|);
        } else {
          PositionsStep(substrings, shouldHighlight, measure, i, stringIndex, trimmedSubstring, |substring| - |TrimStart(substring)|);
        }
        stringIndex := stringIndex + |substring| + 1;
        i := i + 1;
      }
      PlacedForText(text, shouldHighlight, measure);
    }

    /**
     * A new, empty overlay clipped to the inner box less its padding, or
     * None when that rectangle has a negative width or height (the Rect
     * constructor throws).
     */
    method GetNewHighlightCanvas() returns (canvas: Option<HighlightCanvas>)
      ensures canvas.Some? <==> OverlayClip(padding, width, height).Some?
      ensures canvas.Some? ==> fresh(canvas.value)
                               && canvas.value.clip == OverlayClip(padding, width, height).value
                               && canvas.value.highlights == []
    {
      var highlightCanvasBounds := OverlayClip(padding, width, height);
      if highlightCanvasBounds.None? {
        return None;
      }
      var c := new HighlightCanvas(highlightCanvasBounds.value);
      return Some(c);
    }

    /**
     * Removes the current overlay and adds a new, empty one. When the new
     * overlay cannot be made, ok is false and the control is left without
     * an overlay.
     */
    method ResetHighlightCanvas() returns (ok: bool)
      requires Valid()
      modifies this
      ensures Valid()
      ensures SameContent() && SameSelection() && SameEnvironment()
      ensures highlightsUpdating == old(highlightsUpdating)
      ensures ok <==> OverlayClip(padding, width, height).Some?
      ensures ok ==> fresh(highlightCanvas) && children == [highlightCanvas]
                     && highlightCanvas.clip == OverlayClip(padding, width, height).value
                     && highlightCanvas.highlights == []
      ensures !ok ==> children == [] && highlightCanvas == old(highlightCanvas)
    {
      if highlightCanvas != null && highlightCanvas in children {
        children := RemoveFirst(children, highlightCanvas);
      }
      var canvas := GetNewHighlightCanvas();
      if canvas.None? {
        return false;
      }
      highlightCanvas := canvas.value;
      children := children + [highlightCanvas];
      return true;
    }

    /**
     * Rebuilds the overlay from the current text, unless a rebuild is already
     * running or the inner box is not loaded. ok is false when the clip
     * rectangle is rejected: the ArgumentException leaves the method before
     * the flag is cleared and goes on to the caller.
     */
    method UpdateHighlights() returns (ok: bool)
      requires Valid()
      modifies this
      ensures Valid()
      ensures SameContent() && SameSelection() && SameEnvironment()
      ensures UpdatedFrom(old(highlightsUpdating), old(children), old(highlightCanvas))
      ensures ok <==> !ClipRejected(old(highlightsUpdating))
      ensures !old(highlightsUpdating) && isLoaded && OverlayClip(padding, width, height).Some? ==> fresh(highlightCanvas)
    {
      if highlightsUpdating || !isLoaded {
        return true;
      }
      highlightsUpdating := true;
      ok := ResetHighlightCanvas();
      if !ok {
        return;
      }
      HighlightMatchedSubstrings();
      highlightsUpdating := false;
    }

    /**
     * A rebuild that starts (the guard flag was clear and the inner box is
     * loaded) and meets a clip rectangle with a negative width or height.
     */
    ghost predicate ClipRejected(wasUpdating: bool)
      reads this
    {
      !wasUpdating && isLoaded && OverlayClip(padding, width, height).None?
    }

    /**
     * The inner box scrolled: the measure already reflects the new offset.
     * ok is false when the rebuild throws.
     */
    method OnScrollChanged() returns (ok: bool)
      requires Valid()
      modifies this
      ensures Valid()
      ensures SameContent() && SameSelection() && SameEnvironment()
      ensures UpdatedFrom(old(highlightsUpdating), old(children), old(highlightCanvas))
      ensures ok <==> !ClipRejected(old(highlightsUpdating))
    {
      ok := UpdateHighlights();
    }

    /**
     * Assigns the Text property; its changed-callback runs only when the
     * value differs. The inner box then holds the text, and if that changed
     * the inner text, the overlay is rebuilt and Text holds the inner text.
     * ok is false when the rebuild throws; the exception reaches the caller
     * with the new text already in place.
     */
    method SetText(value: Option<string>) returns (ok: bool)
      requires Valid()
      modifies this
      decreases if InnerTextOf(value) == innerText then 3 else 8
      ensures Valid()
      ensures SameSelection() && SameEnvironment()
      ensures value == old(text) ==> unchanged(this)
      ensures value != old(text) ==> innerText == InnerTextOf(value)
      ensures value != old(text) && InnerTextOf(value) == old(innerText) ==> text == value && SameOverlay()
      ensures value != old(text) && InnerTextOf(value) != old(innerText) ==>
                text == Some(innerText) && UpdatedFrom(old(highlightsUpdating), old(children), old(highlightCanvas))
      ensures !ok <==> value != old(text) && InnerTextOf(value) != old(innerText) && ClipRejected(old(highlightsUpdating))
    {
      ok := true;
      if value != text {
        text := value;
        ok := OnTextPropertyChanged();
      }
    }

    /** Text changed: copy it into the inner box. ok is false when the rebuild this causes throws. */
    method OnTextPropertyChanged() returns (ok: bool)
      requires Valid()
      modifies this
      decreases if InnerTextOf(text) == innerText then 2 else 7
      ensures Valid()
      ensures SameSelection() && SameEnvironment()
      ensures innerText == InnerTextOf(old(text))
      ensures InnerTextOf(old(text)) == old(innerText) ==> unchanged(this)
      ensures InnerTextOf(old(text)) != old(innerText) ==>
                text == Some(innerText) && UpdatedFrom(old(highlightsUpdating), old(children), old(highlightCanvas))
      ensures !ok <==> InnerTextOf(old(text)) != old(innerText) && ClipRejected(old(highlightsUpdating))
    {
      ok := SetInnerText(InnerTextOf(text));
    }

    /**
     * Assigns the inner box's Text; TextChanged is raised only when it
     * changes. ok is false when the handler's rebuild throws.
     */
    method SetInnerText(value: string) returns (ok: bool)
      requires Valid()
      modifies this
      decreases if value == innerText then 1 else 6
      ensures Valid()
      ensures SameSelection() && SameEnvironment()
      ensures innerText == value
      ensures value == old(innerText) ==> unchanged(this)
      ensures value != old(innerText) ==>
                text == Some(value) && UpdatedFrom(old(highlightsUpdating), old(children), old(highlightCanvas))
      ensures !ok <==> value != old(innerText) && ClipRejected(old(highlightsUpdating))
    {
      ok := true;
      if value != innerText {
        innerText := value;
        ok := OnInternalTextChanged();
      }
    }

    /**
     * The inner text changed: copy it out to Text if it differs, then
     * rebuild the overlay. ok is false when the rebuild throws.
     */
    method OnInternalTextChanged() returns (ok: bool)
      requires Valid()
      modifies this
      decreases if text == Some(innerText) then 0 else 5
      ensures Valid()
      ensures SameSelection() && SameEnvironment()
      ensures innerText == old(innerText) && text == Some(innerText)
      ensures UpdatedFrom(old(highlightsUpdating), old(children), old(highlightCanvas))
      ensures ok <==> !ClipRejected(old(highlightsUpdating))
    {
      var newText := innerText;
      if text != Some(newText) {
        // the inner box already holds newText, so this assignment does not rebuild
        ok := SetText(Some(newText));
        if !ok {
          return;
        }
      }
      ok := UpdateHighlights();
    }

    /**
     * Assigns the CaretIndex property; its changed-callback runs only when
     * the value differs. A value equal to the inner selection start leaves
     * the selection as it is; a different non-negative value collapses the
     * selection there, and the caret then follows the inner selection. A
     * different negative value is stored, and ok is false: the inner
     * box's Select throws.
     */
    method SetCaretIndex(value: int) returns (ok: bool)
      requires Valid()
      modifies this
      decreases if value == selectionStart then 1 else 5
      ensures Valid()
      ensures SameContent() && SameEnvironment() && SameOverlay()
      ensures value == old(caretIndex) ==> unchanged(this)
      ensures value != old(caretIndex) && (value == old(selectionStart) || value < 0) ==>
                caretIndex == value
                && selectionStart == old(selectionStart) && selectionLength == old(selectionLength)
      ensures value != old(caretIndex) && value != old(selectionStart) && value >= 0 ==>
                (selectionStart, selectionLength) == ClampedSelection(value, 0, |innerText|)
                && caretIndex == (if (selectionStart, selectionLength) == (old(selectionStart), old(selectionLength))
                                  then value else selectionStart)
      ensures !ok <==> value != old(caretIndex) && value != old(selectionStart) && value < 0
    {
      ok := true;
      if value != caretIndex {
        caretIndex := value;
        ok := OnCaretIndexPropertyChanged(value);
      }
    }

    /**
     * CaretIndex changed: move the inner caret there only if it is
     * elsewhere. ok is false when that move throws for a negative value.
     */
    method OnCaretIndexPropertyChanged(newValue: int) returns (ok: bool)
      requires Valid()
      modifies this
      decreases if newValue == selectionStart then 0 else 4
      ensures Valid()
      ensures SameContent() && SameEnvironment() && SameOverlay()
      ensures newValue == old(selectionStart) || newValue < 0 ==> unchanged(this)
      ensures newValue != old(selectionStart) && newValue >= 0 ==>
                (selectionStart, selectionLength) == ClampedSelection(newValue, 0, |innerText|)
                && caretIndex == (if (selectionStart, selectionLength) == (old(selectionStart), old(selectionLength))
                                  then old(caretIndex) else selectionStart)
      ensures !ok <==> newValue != old(selectionStart) && newValue < 0
    {
      ok := true;
      if selectionStart != newValue {
        // TextBox.CaretIndex's setter is Select(value, 0)
        ok := Select(newValue, 0);
      }
    }

    /**
     * TextBox.Select: a negative argument throws ArgumentOutOfRangeException
     * (ok is false) and changes nothing; otherwise the clamped selection is
     * made, and SelectionChanged copies the caret out when it differs from
     * the old selection.
     */
    method Select(start: int, length: int) returns (ok: bool)
      requires Valid()
      modifies this
      decreases 3
      ensures Valid()
      ensures SameContent() && SameEnvironment() && SameOverlay()
      ensures ok <==> start >= 0 && length >= 0
      ensures !ok ==> unchanged(this)
      ensures ok ==>
                (selectionStart, selectionLength) == ClampedSelection(start, length, |innerText|)
                && caretIndex == (if (selectionStart, selectionLength) == (old(selectionStart), old(selectionLength))
                                  then old(caretIndex) else selectionStart)
    {
      if start < 0 || length < 0 {
        return false;
      }
      ok := true;
      var selection := ClampedSelection(start, length, |innerText|);
      if selection != (selectionStart, selectionLength) {
        selectionStart, selectionLength := selection.0, selection.1;
        ok := OnInternalSelectionChanged();
      }
    }

    /**
     * The inner selection changed: copy its caret out to CaretIndex, always.
     * The caret is never negative, so this never throws.
     */
    method OnInternalSelectionChanged() returns (ok: bool)
      requires Valid()
      modifies this
      decreases 2
      ensures Valid()
      ensures SameContent() && SameEnvironment() && SameOverlay()
      ensures selectionStart == old(selectionStart) && selectionLength == old(selectionLength)
      ensures caretIndex == selectionStart
      ensures ok
    {
      ok := SetCaretIndex(selectionStart);
    }
  }
}
