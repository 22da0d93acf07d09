/**
 * The pure helpers of `Utils` in js/main.js: the viewport test and the scroll
 * target that `smoothScrollTo` hands to `window.scrollTo`.  Page coordinates
 * are JavaScript numbers, modelled as reals.
 */
module Utils {
  import opened Wrappers

  /** The four edges of `element.getBoundingClientRect()` that the viewport test reads. */
  datatype Rect = Rect(top: real, left: real, bottom: real, right: real)

  /** `window.innerWidth/innerHeight` and `document.documentElement.clientWidth/clientHeight`. */
  datatype Window = Window(innerWidth: real, innerHeight: real, clientWidth: real, clientHeight: real)

  /** JavaScript's `a || b` on numbers: a zero is falsy, so the right operand is taken. */
  function OrElse(a: real, b: real): real
  {
    if a != 0.0 then a else b
  }

  function ViewportWidth(w: Window): real
  {
    OrElse(w.innerWidth, w.clientWidth)
  }

  function ViewportHeight(w: Window): real
  {
    OrElse(w.innerHeight, w.clientHeight)
  }

  /** `Utils.isInViewport(element)`, given the element's rectangle and the window sizes. */
  predicate IsInViewport(rect: Rect, w: Window)
  {
    rect.top >= 0.0 && rect.left >= 0.0 && rect.bottom <= ViewportHeight(w) && rect.right <= ViewportWidth(w)
  }

  /** A point of the page that lies inside the visible area. */
  ghost predicate PointVisible(x: real, y: real, w: Window)
  {
    0.0 <= x <= ViewportWidth(w) && 0.0 <= y <= ViewportHeight(w)
  }

  /** Every point of the rectangle is visible: the meaning the edge test stands for. */
  ghost predicate WhollyVisible(rect: Rect, w: Window)
  {
    forall x: real, y: real :: rect.left <= x <= rect.right && rect.top <= y <= rect.bottom ==> PointVisible(x, y, w)
  }

  /** The edge test holds exactly when the whole (well-formed) rectangle is visible. */
  lemma InViewportIffWhollyVisible(rect: Rect, w: Window)
    requires rect.left <= rect.right && rect.top <= rect.bottom
    ensures IsInViewport(rect, w) <==> WhollyVisible(rect, w)
  {
    if WhollyVisible(rect, w) {
      assert PointVisible(rect.left, rect.top, w);
      assert PointVisible(rect.right, rect.bottom, w);
    }
  }

  /** With non-zero window sizes the root element's sizes play no part. */
  lemma WindowSizesTakePrecedence(rect: Rect, w: Window, cw: real, ch: real)
    requires w.innerWidth != 0.0 && w.innerHeight != 0.0
    ensures IsInViewport(rect, w) <==> IsInViewport(rect, w.(clientWidth := cw, clientHeight := ch))
    ensures IsInViewport(rect, w) <==> rect.top >= 0.0 && rect.left >= 0.0 && rect.bottom <= w.innerHeight && rect.right <= w.innerWidth
  {
  }

  /** A zero window size falls back to the root element's size, one axis at a time. */
  lemma ZeroWindowSizeFallsBack(rect: Rect, w: Window)
    ensures w.innerHeight == 0.0 ==> (IsInViewport(rect, w) <==> IsInViewport(rect, w.(innerHeight := w.clientHeight)))
    ensures w.innerWidth == 0.0 ==> (IsInViewport(rect, w) <==> IsInViewport(rect, w.(innerWidth := w.clientWidth)))
    ensures w.innerHeight == 0.0 && w.innerWidth == 0.0 ==>
      (IsInViewport(rect, w) <==> rect.top >= 0.0 && rect.left >= 0.0 && rect.bottom <= w.clientHeight && rect.right <= w.clientWidth)
  {
  }

  /** `element.offsetTop` and `element.offsetHeight`. */
  datatype Box = Box(offsetTop: real, offsetHeight: real)

  function Max(a: real, b: real): (m: real)
    ensures m >= a && m >= b && (m == a || m == b)
  {
    if a >= b then a else b
  }

  /** The scroll position that puts the middle of the element `offset` pixels below the middle of the window. */
  function CentredTop(b: Box, innerHeight: real, offset: real): real
  {
    b.offsetTop - (innerHeight - b.offsetHeight) / 2.0 - offset
  }

  /**
   * The `top` that `smoothScrollTo(element, offset)` passes to `window.scrollTo`,
   * or None when it returns early because there is no element.
   */
  function SmoothScrollTarget(element: Option<Box>, innerHeight: real, offset: real): (r: Option<real>)
    ensures r.None? <==> element.None?
    ensures r.Some? ==> r.value >= 0.0
    ensures r.Some? ==> r.value >= CentredTop(element.value, innerHeight, offset)
    ensures r.Some? ==> r.value == 0.0 || r.value == CentredTop(element.value, innerHeight, offset)
  {
    match element
    case None => None
    case Some(b) => Some(Max(0.0, CentredTop(b, innerHeight, offset)))
  }

  /**
   * When the clamp does not bite, scrolling to the target puts the element's
   * middle `offset` pixels below the middle of the window; when it bites, the
   * page goes to its top and the element's middle is above that point.
   */
  lemma ScrollCentresElement(b: Box, innerHeight: real, offset: real)
    ensures var top := SmoothScrollTarget(Some(b), innerHeight, offset).value;
      CentredTop(b, innerHeight, offset) >= 0.0 ==> b.offsetTop + b.offsetHeight / 2.0 - top == innerHeight / 2.0 + offset
    ensures var top := SmoothScrollTarget(Some(b), innerHeight, offset).value;
      CentredTop(b, innerHeight, offset) < 0.0 ==> top == 0.0 && b.offsetTop + b.offsetHeight / 2.0 < innerHeight / 2.0 + offset
  {
  }
}
