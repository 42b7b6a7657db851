/** Rectangle arithmetic of the IntersectionObserver polyfill in
    keeper/static/keeper/inherit/scripts/unt.js: the intersection of two
    rectangles, the ratio an observer entry reports, and the root rectangle
    grown by its margins. Coordinates are reals; a rectangle carries its
    width and height as separate fields, as the DOM's do. */
module IoGeometry {
  import opened Wrappers

  datatype Rect = Rect(top: real, bottom: real, left: real, right: real, width: real, height: real)

  /** A rectangle whose width and height agree with its sides and are not
      negative. */
  predicate WellFormed(r: Rect)
  {
    r.width == r.right - r.left && r.height == r.bottom - r.top && r.width >= 0.0 && r.height >= 0.0
  }

  /** The closed region of a rectangle, point by point. */
  predicate ContainsPoint(r: Rect, x: real, y: real)
  {
    r.left <= x <= r.right && r.top <= y <= r.bottom
  }

  /** `a` lies within `b`. */
  predicate Inside(a: Rect, b: Rect)
  {
    b.top <= a.top && a.bottom <= b.bottom && b.left <= a.left && a.right <= b.right
  }

  /** `getEmptyRect`: every field zero. */
  const EmptyRect: Rect := Rect(0.0, 0.0, 0.0, 0.0, 0.0, 0.0)

  function Max(a: real, b: real): real { if a >= b then a else b }

  function Min(a: real, b: real): real { if a <= b then a else b }

  /** `computeRectIntersection`: the overlap, or nothing (`false`) when the
      overlap would have a negative width or height. */
  function ComputeRectIntersection(r1: Rect, r2: Rect): (r: Option<Rect>)
    ensures r.Some? ==> WellFormed(r.value) && Inside(r.value, r1) && Inside(r.value, r2)
  {
    var top := Max(r1.top, r2.top);
    var bottom := Min(r1.bottom, r2.bottom);
    var left := Max(r1.left, r2.left);
    var right := Min(r1.right, r2.right);
    var width := right - left;
    var height := bottom - top;
    if width >= 0.0 && height >= 0.0 then Some(Rect(top, bottom, left, right, width, height)) else None
  }

  /** The order of the arguments does not matter. */
  lemma IntersectionCommutes(r1: Rect, r2: Rect)
    ensures ComputeRectIntersection(r1, r2) == ComputeRectIntersection(r2, r1)
  {
  }

  /** The intersection holds exactly the points the two rectangles share:
      it exists iff they share one, and then its points are the shared
      ones. */
  lemma IntersectionPoints(r1: Rect, r2: Rect, x: real, y: real)
    ensures ContainsPoint(r1, x, y) && ContainsPoint(r2, x, y) <==>
      ComputeRectIntersection(r1, r2).Some? && ContainsPoint(ComputeRectIntersection(r1, r2).value, x, y)
  {
  }

  /** No common point means no intersection, and the other way round. */
  lemma IntersectionEmpty(r1: Rect, r2: Rect)
    ensures ComputeRectIntersection(r1, r2).None? <==>
      forall x: real, y: real :: !(ContainsPoint(r1, x, y) && ContainsPoint(r2, x, y))
  {
    if ComputeRectIntersection(r1, r2).Some? {
      var r := ComputeRectIntersection(r1, r2).value;
      IntersectionPoints(r1, r2, r.left, r.top);
    } else {
      forall x: real, y: real
        ensures !(ContainsPoint(r1, x, y) && ContainsPoint(r2, x, y))
      {
        IntersectionPoints(r1, r2, x, y);
      }
    }
  }

  /** The intersection is the largest rectangle inside both. */
  lemma IntersectionLargest(r1: Rect, r2: Rect, a: Rect)
    requires a.top <= a.bottom && a.left <= a.right
    requires Inside(a, r1) && Inside(a, r2)
    ensures ComputeRectIntersection(r1, r2).Some? && Inside(a, ComputeRectIntersection(r1, r2).value)
  {
  }

  /** A well-formed rectangle intersected with itself is itself. */
  lemma IntersectionIdempotent(r: Rect)
    requires WellFormed(r)
    ensures ComputeRectIntersection(r, r) == Some(r)
  {
  }

  // ----- the entry ratio -----

  /** An `IntersectionObserverEntry`: when it was taken, the target's id,
      the root and target rectangles, the intersection (the empty rectangle
      when there is none), whether there is one, and the visible ratio. */
  datatype Entry = Entry(
    time: real, target: nat,
    rootBounds: Rect, boundingClientRect: Rect, intersectionRect: Rect,
    isIntersecting: bool, intersectionRatio: real)

  /** The entry constructor: an absent intersection becomes the empty
      rectangle; the ratio is the intersection's area over the target's,
      or, for a target without area, 1 when intersecting and 0 when not. */
  function MakeEntry(time: real, target: nat, rootBounds: Rect, targetRect: Rect, intersection: Option<Rect>): (e: Entry)
    ensures e.isIntersecting <==> intersection.Some?
    ensures e.intersectionRect == if intersection.Some? then intersection.value else EmptyRect
    ensures e.time == time && e.target == target && e.rootBounds == rootBounds && e.boundingClientRect == targetRect
  {
    var rect := if intersection.Some? then intersection.value else EmptyRect;
    Entry(time, target, rootBounds, targetRect, rect, intersection.Some?, Ratio(targetRect, rect, intersection.Some?))
  }

  /** The ratio rule of the entry constructor. */
  function Ratio(targetRect: Rect, rect: Rect, intersecting: bool): real
  {
    var targetArea := targetRect.width * targetRect.height;
    if targetArea != 0.0 then rect.width * rect.height / targetArea
    else if intersecting then 1.0 else 0.0
  }

  lemma MulMonotone(a: real, b: real, c: real, d: real)
    requires 0.0 <= a <= c && 0.0 <= b <= d
    ensures 0.0 <= a * b <= c * d
  {
    assert a * b <= c * b;
    assert c * b <= c * d;
  }

  lemma MulPositive(a: real, b: real)
    requires a > 0.0 && b > 0.0
    ensures a * b > 0.0
  {
  }

  lemma QuotientAtMostOne(a: real, b: real)
    requires 0.0 <= a <= b && b > 0.0
    ensures 0.0 <= a / b <= 1.0
  {
  }

  /** For a target with area, whose intersection lies within it, the ratio
      is between 0 and 1: 0 without an intersection, 1 when the whole
      target is visible. */
  lemma RatioBounds(time: real, target: nat, rootBounds: Rect, targetRect: Rect, intersection: Option<Rect>)
    requires WellFormed(targetRect) && targetRect.width > 0.0 && targetRect.height > 0.0
    requires intersection.Some? ==> WellFormed(intersection.value) && Inside(intersection.value, targetRect)
    ensures var e := MakeEntry(time, target, rootBounds, targetRect, intersection);
      0.0 <= e.intersectionRatio <= 1.0
      && (intersection.None? ==> e.intersectionRatio == 0.0)
      && (intersection == Some(targetRect) ==> e.intersectionRatio == 1.0)
  {
    var rect := if intersection.Some? then intersection.value else EmptyRect;
    RatioWithin(targetRect, rect, intersection.Some?);
  }

  lemma RatioWithin(targetRect: Rect, rect: Rect, intersecting: bool)
    requires WellFormed(targetRect) && targetRect.width > 0.0 && targetRect.height > 0.0
    requires 0.0 <= rect.width <= targetRect.width && 0.0 <= rect.height <= targetRect.height
    ensures 0.0 <= Ratio(targetRect, rect, intersecting) <= 1.0
    ensures rect.width == 0.0 ==> Ratio(targetRect, rect, intersecting) == 0.0
    ensures rect == targetRect ==> Ratio(targetRect, rect, intersecting) == 1.0
  {
    var targetArea := targetRect.width * targetRect.height;
    MulPositive(targetRect.width, targetRect.height);
    var area := rect.width * rect.height;
    assert Ratio(targetRect, rect, intersecting) == area / targetArea;
    MulMonotone(rect.width, rect.height, targetRect.width, targetRect.height);
    QuotientAtMostOne(area, targetArea);
    if rect.width == 0.0 {
      assert area == 0.0;
    }
    if rect == targetRect {
      SelfQuotient(targetArea);
    }
  }

  lemma SelfQuotient(a: real)
    requires a > 0.0
    ensures a / a == 1.0
  {
  }

  /** A target without area reports 1 exactly when it intersects. */
  lemma RatioOfFlatTarget(time: real, target: nat, rootBounds: Rect, targetRect: Rect, intersection: Option<Rect>)
    requires targetRect.width * targetRect.height == 0.0
    ensures var e := MakeEntry(time, target, rootBounds, targetRect, intersection);
      e.intersectionRatio == (if intersection.Some? then 1.0 else 0.0)
  {
  }

  // ----- root margins -----

  datatype Unit = Px | Percent

  /** One root-margin value: a number and its unit. */
  datatype Margin = Margin(value: real, unit: Unit)

  /** A margin in pixels: as written for `px`, a percentage of the height
      (even positions, top and bottom) or width (odd positions, right and
      left) for `%`. */
  function MarginPixels(m: Margin, i: nat, rect: Rect): real
  {
    if m.unit == Px then m.value
    else m.value * (if i % 2 == 1 then rect.width else rect.height) / 100.0
  }

  /** `_expandRectByRootMargin`: top and left move out by the first and
      fourth margins, right and bottom by the second and third; width and
      height are recomputed from the sides. */
  function ExpandRectByRootMargin(rect: Rect, margins: seq<Margin>): (r: Rect)
    requires |margins| >= 4
    ensures r.top == rect.top - MarginPixels(margins[0], 0, rect)
    ensures r.right == rect.right + MarginPixels(margins[1], 1, rect)
    ensures r.bottom == rect.bottom + MarginPixels(margins[2], 2, rect)
    ensures r.left == rect.left - MarginPixels(margins[3], 3, rect)
    ensures r.width == r.right - r.left && r.height == r.bottom - r.top
  {
    var top := rect.top - MarginPixels(margins[0], 0, rect);
    var right := rect.right + MarginPixels(margins[1], 1, rect);
    var bottom := rect.bottom + MarginPixels(margins[2], 2, rect);
    var left := rect.left - MarginPixels(margins[3], 3, rect);
    Rect(top, bottom, left, right, right - left, bottom - top)
  }

  /** Zero margins, in either unit, leave a well-formed rectangle as it
      is. */
  lemma ZeroMarginsIdentity(rect: Rect, margins: seq<Margin>)
    requires WellFormed(rect)
    requires |margins| >= 4 && forall i :: 0 <= i < 4 ==> margins[i].value == 0.0
    ensures ExpandRectByRootMargin(rect, margins) == rect
  {
  }

  lemma PercentNonNegative(value: real, side: real)
    requires value >= 0.0 && side >= 0.0
    ensures value * side / 100.0 >= 0.0
  {
    MulMonotone(0.0, 0.0, value, side);
  }

  /** Margins that are not negative grow the rectangle: the original lies
      inside the expanded one, which is well formed when the original is. */
  lemma NonNegativeMarginsGrow(rect: Rect, margins: seq<Margin>)
    requires WellFormed(rect)
    requires |margins| >= 4 && forall i :: 0 <= i < 4 ==> margins[i].value >= 0.0
    ensures Inside(rect, ExpandRectByRootMargin(rect, margins))
    ensures WellFormed(ExpandRectByRootMargin(rect, margins))
  {
    MarginPixelsNonNegative(margins[0], 0, rect);
    MarginPixelsNonNegative(margins[1], 1, rect);
    MarginPixelsNonNegative(margins[2], 2, rect);
    MarginPixelsNonNegative(margins[3], 3, rect);
  }

  lemma MarginPixelsNonNegative(m: Margin, i: nat, rect: Rect)
    requires m.value >= 0.0 && rect.width >= 0.0 && rect.height >= 0.0
    ensures MarginPixels(m, i, rect) >= 0.0
  {
    if m.unit == Percent {
      PercentNonNegative(m.value, if i % 2 == 1 then rect.width else rect.height);
    }
  }

  /** A pixel margin widens the rectangle by exactly the right and left
      margins and heightens it by the top and bottom ones. */
  lemma PixelMarginsSize(rect: Rect, margins: seq<Margin>)
    requires WellFormed(rect)
    requires |margins| >= 4 && forall i :: 0 <= i < 4 ==> margins[i].unit == Px
    ensures var r := ExpandRectByRootMargin(rect, margins);
      r.width == rect.width + margins[1].value + margins[3].value
      && r.height == rect.height + margins[0].value + margins[2].value
  {
  }
}
