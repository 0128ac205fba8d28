/** A snapshot of the layout state that scroll-into-view reads.

    The original reads the live DOM (`getBoundingClientRect`, `getComputedStyle`,
    `parentElement`, `window.innerHeight`, ...). Here every such read is taken up
    front: an element is a record of the values the algorithm looks at, and the
    document maps node ids to those records. */
module ScrollDom {

  datatype Option<+T> = None | Some(value: T)

  type NodeId = nat

  /** A DOM node handed in as a target: its id and its `nodeType`. */
  datatype Node = Node(id: NodeId, nodeType: int)

  /** `n`: a target is an element exactly when its `nodeType` is 1. */
  predicate IsElement(node: Node)
  {
    node.nodeType == 1
  }

  /** A Document node (`nodeType` 9), the one kind of node whose `ownerDocument` is null. */
  predicate IsDocument(node: Node)
  {
    node.nodeType == 9
  }

  /** The result of `getBoundingClientRect()`, in viewport coordinates. */
  datatype Rect = Rect(top: real, right: real, bottom: real, left: real, width: real, height: real)

  /** The client box of the frame element hosting the document (`defaultView.frameElement`). */
  datatype ClientBox = ClientBox(clientWidth: int, clientHeight: int)

  /** What the algorithm reads of one element. Border widths are the computed
      `border-*-width` values after `parseInt`. `offsetWidth`/`offsetHeight` are
      `None` for elements that lack them (the `"offsetWidth" in E` test). */
  datatype Element = Element(
    rect: Rect,
    borderTop: int, borderRight: int, borderBottom: int, borderLeft: int,
    clientWidth: int, clientHeight: int,
    offsetWidth: Option<int>, offsetHeight: Option<int>,
    scrollWidth: int, scrollHeight: int,
    scrollTop: real, scrollLeft: real,
    overflowX: string, overflowY: string)

  /** Viewport size (visual viewport when present, else `innerWidth`/`innerHeight`)
      and the window's scroll offsets (`scrollX || pageXOffset`, `scrollY || pageYOffset`). */
  datatype Viewport = Viewport(width: real, height: real, scrollX: real, scrollY: real)

  datatype Document = Document(
    nodes: map<NodeId, Element>,
    documentElement: NodeId,
    body: Option<NodeId>,
    scrollingElement: Option<NodeId>,
    frameElement: Option<ClientBox>,
    viewport: Viewport)
  {
    /** `document.scrollingElement || document.documentElement` */
    function ScrollingRoot(): NodeId
    {
      match scrollingElement
      case Some(e) => e
      case None => documentElement
    }

    /** The snapshot holds a record for every id in `ids`. */
    predicate Records(ids: seq<NodeId>)
    {
      forall k :: 0 <= k < |ids| ==> ids[k] in nodes
    }
  }
}
