/**
 * Pixel geometry of the highlight overlay: rectangles, their union (WPF's
 * Rect.Union) and the overlay clip computed from the padding and the size of
 * the text box.
 */
module Geometry {
  import opened Wrappers

  /** A System.Windows.Rect: position of the top-left corner and a size. */
  datatype Rect = Rect(x: real, y: real, width: real, height: real)

  /** Padding of the text box (a System.Windows.Thickness). */
  datatype Thickness = Thickness(left: real, top: real, right: real, bottom: real)

  function Min(a: real, b: real): real { if a <= b then a else b }

  function Max(a: real, b: real): real { if a >= b then a else b }

  function Right(r: Rect): real { r.x + r.width }

  function Bottom(r: Rect): real { r.y + r.height }

  /** A rectangle with a non-negative size, as every Rect other than Rect.Empty is. */
  predicate WellFormed(r: Rect) {
    r.width >= 0.0 && r.height >= 0.0
  }

  /** Every point of inner lies in outer. */
  predicate Contains(outer: Rect, inner: Rect) {
    outer.x <= inner.x && outer.y <= inner.y
    && Right(inner) <= Right(outer) && Bottom(inner) <= Bottom(outer)
  }

  /**
   * Rect.Union for two non-empty rectangles: the left and top edges are the
   * smaller ones, the right and bottom edges the larger ones (a negative size
   * is replaced by zero). The union is well formed and contains both.
   */
  function Union(a: Rect, b: Rect): (u: Rect)
    ensures WellFormed(u)
    ensures WellFormed(a) && WellFormed(b) ==> Contains(u, a) && Contains(u, b)
  {
    var left := Min(a.x, b.x);
    var top := Min(a.y, b.y);
    Rect(left, top, Max(Max(Right(a), Right(b)) - left, 0.0), Max(Max(Bottom(a), Bottom(b)) - top, 0.0))
  }

  /** The union is the smallest rectangle that contains both arguments. */
  lemma UnionIsSmallest(a: Rect, b: Rect, c: Rect)
    requires WellFormed(a) && WellFormed(b)
    requires Contains(c, a) && Contains(c, b)
    ensures Contains(c, Union(a, b))
  {
  }

  /** The rectangle moved by (dx, dy), as scrolling moves what is measured. */
  function Translate(r: Rect, dx: real, dy: real): (t: Rect)
    ensures t.width == r.width && t.height == r.height
    ensures Right(t) == Right(r) + dx && Bottom(t) == Bottom(r) + dy
  {
    Rect(r.x + dx, r.y + dy, r.width, r.height)
  }

  /** Moving both rectangles moves their union by the same amount. */
  lemma UnionTranslate(a: Rect, b: Rect, dx: real, dy: real)
    ensures Union(Translate(a, dx, dy), Translate(b, dx, dy)) == Translate(Union(a, b), dx, dy)
  {
  }

  /**
   * The clip of the highlight overlay (GetNewHighlightCanvas): the text box
   * of the given size inset by its padding on every side. The Rect
   * constructor rejects a negative width or height with an
   * ArgumentException, which is None here.
   */
  function OverlayClip(padding: Thickness, width: real, height: real): (clip: Option<Rect>)
    ensures clip.Some? <==> padding.left + padding.right <= width && padding.top + padding.bottom <= height
    ensures clip.Some? ==> WellFormed(clip.value)
                           && clip.value.x == padding.left && clip.value.y == padding.top
                           && Right(clip.value) == width - padding.right
                           && Bottom(clip.value) == height - padding.bottom
  {
    var x := padding.left;
    var y := padding.top;
    var w := width - padding.left - padding.right;
    var h := height - padding.top - padding.bottom;
    if w < 0.0 || h < 0.0 then None else Some(Rect(x, y, w, h))
  }

  /** With a non-negative padding the clip lies inside the text box. */
  lemma OverlayClipInsideBox(padding: Thickness, width: real, height: real)
    requires padding.left >= 0.0 && padding.top >= 0.0 && padding.right >= 0.0 && padding.bottom >= 0.0
    requires OverlayClip(padding, width, height).Some?
    ensures Contains(Rect(0.0, 0.0, width, height), OverlayClip(padding, width, height).value)
  {
  }
}
