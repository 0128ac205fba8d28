/** Which elements count as scroll containers (`o` and `a` of compute-scroll-into-view). */
module Overflow {
  import opened ScrollDom

  /** `o`: an `overflow-x`/`overflow-y` value lets the box scroll unless it is
      "visible" or "clip", or it is "hidden" and hidden boxes are skipped. */
  predicate CanOverflow(overflow: string, skipHidden: bool)
  {
    (!skipHidden || overflow != "hidden") && overflow != "visible" && overflow != "clip"
  }

  lemma CanOverflowCases(overflow: string, skipHidden: bool)
    ensures overflow == "visible" || overflow == "clip" ==> !CanOverflow(overflow, skipHidden)
    ensures overflow == "hidden" ==> (CanOverflow(overflow, skipHidden) <==> !skipHidden)
    ensures overflow != "visible" && overflow != "clip" && overflow != "hidden" ==> CanOverflow(overflow, skipHidden)
  {
  }

  /** The frame element of the element's window is smaller than the element's content. */
  predicate FrameOverflows(el: Element, frame: Option<ClientBox>)
  {
    match frame
    case None => false
    case Some(f) => f.clientHeight < el.scrollHeight || f.clientWidth < el.scrollWidth
  }

  /** `a`: the element's content overflows its client box in some axis, and its
      style (or, inside a frame, the frame's size) lets it scroll. */
  predicate IsScrollable(el: Element, frame: Option<ClientBox>, skipHidden: bool)
  {
    (el.clientHeight < el.scrollHeight || el.clientWidth < el.scrollWidth) &&
    (CanOverflow(el.overflowY, skipHidden) || CanOverflow(el.overflowX, skipHidden) || FrameOverflows(el, frame))
  }

  /** `a` applied to a node of the snapshot. */
  predicate ElementScrollable(doc: Document, id: NodeId, skipHidden: bool)
    requires id in doc.nodes
  {
    IsScrollable(doc.nodes[id], doc.frameElement, skipHidden)
  }

  /** Without overflow in either axis an element is never a scroll container,
      whatever its style or frame. */
  lemma NoOverflowNotScrollable(el: Element, frame: Option<ClientBox>, skipHidden: bool)
    requires el.clientHeight >= el.scrollHeight && el.clientWidth >= el.scrollWidth
    ensures !IsScrollable(el, frame, skipHidden)
  {
  }

  /** Skipping hidden elements only ever removes scroll containers. */
  lemma SkipHiddenOnlyRemoves(el: Element, frame: Option<ClientBox>)
    ensures IsScrollable(el, frame, true) ==> IsScrollable(el, frame, false)
  {
  }
}
