/** The "nearest" alignment rule (`g` of compute-scroll-into-view): how far a
    scrolling area must move so that an element comes into view with the least
    movement. Positive values scroll forward (down or right). */
module NearestAlignment {

  /** `g(e, t, i, n, o, a, g, r)`: the area spans `[areaStart, areaEnd]` with
      size `areaSize` and borders `borderStart`/`borderEnd`; the element spans
      `[elemStart, elemEnd]` with size `elemSize`. */
  function AlignNearest(areaStart: real, areaEnd: real, areaSize: real,
                        borderStart: real, borderEnd: real,
                        elemStart: real, elemEnd: real, elemSize: real): real
  {
    if (elemStart < areaStart && elemEnd > areaEnd) || (elemStart > areaStart && elemEnd < areaEnd) then
      0.0
    else if (elemStart <= areaStart && elemSize <= areaSize) || (elemEnd >= areaEnd && elemSize >= areaSize) then
      elemStart - areaStart - borderStart
    else if (elemEnd > areaEnd && elemSize < areaSize) || (elemStart < areaStart && elemSize > areaSize) then
      elemEnd - areaEnd + borderEnd
    else
      0.0
  }

  /** The element is left where it is when it overhangs both edges or lies
      strictly inside the area. */
  lemma NearestStaysPut(areaStart: real, areaEnd: real, areaSize: real, borderStart: real, borderEnd: real,
                        elemStart: real, elemEnd: real, elemSize: real)
    requires (elemStart < areaStart && elemEnd > areaEnd) || (elemStart > areaStart && elemEnd < areaEnd)
    ensures AlignNearest(areaStart, areaEnd, areaSize, borderStart, borderEnd, elemStart, elemEnd, elemSize) == 0.0
  {
  }

  /** Otherwise an element that starts at or before the area and fits in it, or
      ends at or after the area and does not fit, is brought flush with the
      area's inner leading edge. */
  lemma NearestAlignsLeading(areaStart: real, areaEnd: real, areaSize: real, borderStart: real, borderEnd: real,
                             elemStart: real, elemEnd: real, elemSize: real)
    requires !((elemStart < areaStart && elemEnd > areaEnd) || (elemStart > areaStart && elemEnd < areaEnd))
    requires (elemStart <= areaStart && elemSize <= areaSize) || (elemEnd >= areaEnd && elemSize >= areaSize)
    ensures var d := AlignNearest(areaStart, areaEnd, areaSize, borderStart, borderEnd, elemStart, elemEnd, elemSize);
            elemStart - d == areaStart + borderStart
  {
  }

  /** Failing that, an element that ends past the area and is smaller than it,
      or starts before the area and is larger than it, is brought flush with the
      area's inner trailing edge. */
  lemma NearestAlignsTrailing(areaStart: real, areaEnd: real, areaSize: real, borderStart: real, borderEnd: real,
                              elemStart: real, elemEnd: real, elemSize: real)
    requires !((elemStart < areaStart && elemEnd > areaEnd) || (elemStart > areaStart && elemEnd < areaEnd))
    requires !((elemStart <= areaStart && elemSize <= areaSize) || (elemEnd >= areaEnd && elemSize >= areaSize))
    requires (elemEnd > areaEnd && elemSize < areaSize) || (elemStart < areaStart && elemSize > areaSize)
    ensures var d := AlignNearest(areaStart, areaEnd, areaSize, borderStart, borderEnd, elemStart, elemEnd, elemSize);
            elemEnd - d == areaEnd - borderEnd
  {
  }

  /** When none of the three rules applies, nothing moves. */
  lemma NearestFallsThrough(areaStart: real, areaEnd: real, areaSize: real, borderStart: real, borderEnd: real,
                            elemStart: real, elemEnd: real, elemSize: real)
    requires !((elemStart < areaStart && elemEnd > areaEnd) || (elemStart > areaStart && elemEnd < areaEnd))
    requires !((elemStart <= areaStart && elemSize <= areaSize) || (elemEnd >= areaEnd && elemSize >= areaSize))
    requires !((elemEnd > areaEnd && elemSize < areaSize) || (elemStart < areaStart && elemSize > areaSize))
    ensures AlignNearest(areaStart, areaEnd, areaSize, borderStart, borderEnd, elemStart, elemEnd, elemSize) == 0.0
  {
  }

  /** Every outcome of the rule: after scrolling by the result, the element has
      not moved, or its leading edge sits on the area's inner leading edge, or
      its trailing edge sits on the area's inner trailing edge. */
  lemma NearestOutcomes(areaStart: real, areaEnd: real, areaSize: real, borderStart: real, borderEnd: real,
                        elemStart: real, elemEnd: real, elemSize: real)
    ensures var d := AlignNearest(areaStart, areaEnd, areaSize, borderStart, borderEnd, elemStart, elemEnd, elemSize);
            d == 0.0 || elemStart - d == areaStart + borderStart || elemEnd - d == areaEnd - borderEnd
  {
  }

  /** A smaller element hanging past the trailing edge scrolls forward; one
      hanging past the leading edge scrolls backward (borders non-negative). */
  lemma NearestDirection(areaStart: real, areaEnd: real, areaSize: real, borderStart: real, borderEnd: real,
                         elemStart: real, elemEnd: real, elemSize: real)
    requires borderStart >= 0.0 && borderEnd >= 0.0 && elemSize < areaSize
    ensures elemStart > areaStart && elemEnd > areaEnd ==>
              AlignNearest(areaStart, areaEnd, areaSize, borderStart, borderEnd, elemStart, elemEnd, elemSize) > 0.0
    ensures elemStart < areaStart && elemEnd < areaEnd ==>
              AlignNearest(areaStart, areaEnd, areaSize, borderStart, borderEnd, elemStart, elemEnd, elemSize) < 0.0
  {
  }
}
