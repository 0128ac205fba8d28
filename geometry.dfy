/** The geometry resolver of compute-scroll-into-view: for each collected
    boundary, the new `scrollTop`/`scrollLeft` that brings the target into view.
    The resolver keeps two running anchors, `block` (vertical) and `inline`
    (horizontal): the target's reference point, moved into the scrolled space of
    each inner boundary once that boundary's offset is chosen. */
module ScrollGeometry {
  import opened ScrollDom
  import opened ScrollOptions
  import opened NearestAlignment

  datatype Instruction = Instruction(el: NodeId, top: real, left: real)

  datatype Anchors = Anchors(block: real, inline: real)

  function Max(a: real, b: real): real { if a >= b then a else b }

  function Min(a: real, b: real): real { if a <= b then a else b }

  /** `Math.max(0, Math.min(pos, limit))` */
  function ClampScroll(pos: real, limit: real): (r: real)
    ensures 0.0 <= r <= Max(0.0, limit)
    ensures 0.0 <= pos <= limit ==> r == pos
    ensures pos < 0.0 ==> r == 0.0
  {
    Max(0.0, Min(pos, limit))
  }

  /** `j`: "start" and "nearest" anchor on the top edge, "end" on the bottom
      edge, anything else on the vertical middle. */
  function BlockAnchor(block: Alignment, t: Rect): real
  {
    if block == Start || block == Nearest then t.top
    else if block == End then t.bottom
    else t.top + t.height / 2.0
  }

  /** `k`: "center" anchors on the horizontal middle, "end" on the right edge,
      anything else on the left edge. */
  function InlineAnchor(inline: Alignment, t: Rect): real
  {
    if inline == Center then t.left + t.width / 2.0
    else if inline == End then t.right
    else t.left
  }

  function InitialAnchors(opts: Options, t: Rect): Anchors
  {
    Anchors(BlockAnchor(opts.block, t), InlineAnchor(opts.inline, t))
  }

  /** The target lies inside the viewport and inside the frame's rectangle. */
  predicate AlreadyVisible(vp: Viewport, t: Rect, frame: Rect)
  {
    t.top >= 0.0 && t.left >= 0.0 && t.bottom <= vp.height && t.right <= vp.width &&
    t.top >= frame.top && t.bottom <= frame.bottom && t.left >= frame.left && t.right <= frame.right
  }

  /** The `if-needed` early exit fires at this frame. */
  predicate ExitsAt(doc: Document, mode: ScrollMode, t: Rect, id: NodeId)
    requires id in doc.nodes
  {
    mode == IfNeeded && AlreadyVisible(doc.viewport, t, doc.nodes[id].rect)
  }

  /** `X`: the width of a vertical scrollbar (0 for an element without `offsetWidth`). */
  function GutterWidth(el: Element): real
  {
    match el.offsetWidth
    case Some(w) => (w - el.clientWidth - el.borderLeft - el.borderRight) as real
    case None => 0.0
  }

  /** `G`: the height of a horizontal scrollbar (0 for an element without `offsetHeight`). */
  function GutterHeight(el: Element): real
  {
    match el.offsetHeight
    case Some(h) => (h - el.clientHeight - el.borderTop - el.borderBottom) as real
    case None => 0.0
  }

  /** Largest `scrollTop` a non-root frame accepts (uses the bounding-rect height). */
  function MaxScrollTop(el: Element): real
  {
    el.scrollHeight as real - el.rect.height + GutterHeight(el)
  }

  /** Largest `scrollLeft` a non-root frame accepts (uses the bounding-rect width). */
  function MaxScrollLeft(el: Element): real
  {
    el.scrollWidth as real - el.rect.width + GutterWidth(el)
  }

  /** Vertical offset of the root relative to the window's current scroll. */
  function RootBlockDelta(block: Alignment, vp: Viewport, el: Element, j: real, targetHeight: real): real
  {
    if block == Start then j
    else if block == End then j - vp.height
    else if block == Nearest then
      AlignNearest(vp.scrollY, vp.scrollY + vp.height, vp.height, el.borderTop as real, el.borderBottom as real,
                   vp.scrollY + j, vp.scrollY + j + targetHeight, targetHeight)
    else j - vp.height / 2.0
  }

  /** Horizontal offset of the root relative to the window's current scroll. */
  function RootInlineDelta(inline: Alignment, vp: Viewport, el: Element, k: real, targetWidth: real): real
  {
    if inline == Start then k
    else if inline == Center then k - vp.width / 2.0
    else if inline == End then k - vp.width
    else
      AlignNearest(vp.scrollX, vp.scrollX + vp.width, vp.width, el.borderLeft as real, el.borderRight as real,
                   vp.scrollX + k, vp.scrollX + k + targetWidth, targetWidth)
  }

  /** Vertical offset of a non-root frame relative to its current `scrollTop`. */
  function FrameBlockDelta(block: Alignment, el: Element, j: real, targetHeight: real): real
  {
    var r := el.rect;
    if block == Start then j - r.top - el.borderTop as real
    else if block == End then j - r.bottom + el.borderBottom as real + GutterHeight(el)
    else if block == Nearest then
      AlignNearest(r.top, r.bottom, r.height, el.borderTop as real, el.borderBottom as real + GutterHeight(el),
                   j, j + targetHeight, targetHeight)
    else j - (r.top + r.height / 2.0) + GutterHeight(el) / 2.0
  }

  /** Horizontal offset of a non-root frame relative to its current `scrollLeft`. */
  function FrameInlineDelta(inline: Alignment, el: Element, k: real, targetWidth: real): real
  {
    var r := el.rect;
    if inline == Start then k - r.left - el.borderLeft as real
    else if inline == Center then k - (r.left + r.width / 2.0) + GutterWidth(el) / 2.0
    else if inline == End then k - r.right + el.borderRight as real + GutterWidth(el)
    else
      AlignNearest(r.left, r.right, r.width, el.borderLeft as real, el.borderRight as real + GutterWidth(el),
                   k, k + targetWidth, targetWidth)
  }

  /** One iteration of the resolver loop: the instruction for frame `id` and the
      anchors handed to the next (outer) frame. */
  function Step(doc: Document, block: Alignment, inline: Alignment, t: Rect, a: Anchors, id: NodeId): (Instruction, Anchors)
    requires id in doc.nodes
  {
    var el := doc.nodes[id];
    var vp := doc.viewport;
    if id == doc.ScrollingRoot() then
      var top := Max(0.0, RootBlockDelta(block, vp, el, a.block, t.height) + vp.scrollY);
      var left := Max(0.0, RootInlineDelta(inline, vp, el, a.inline, t.width) + vp.scrollX);
      (Instruction(id, top, left), a)
    else
      var top := ClampScroll(el.scrollTop + FrameBlockDelta(block, el, a.block, t.height), MaxScrollTop(el));
      var left := ClampScroll(el.scrollLeft + FrameInlineDelta(inline, el, a.inline, t.width), MaxScrollLeft(el));
      (Instruction(id, top, left), Anchors(a.block + el.scrollTop - top, a.inline + el.scrollLeft - left))
  }

  /** The instructions for `frames[i..]`, starting from anchors `a`. */
  function ResolveFrom(doc: Document, opts: Options, t: Rect, frames: seq<NodeId>, i: nat, a: Anchors): seq<Instruction>
    requires doc.Records(frames) && i <= |frames|
    decreases |frames| - i
  {
    if i == |frames| then []
    else if ExitsAt(doc, opts.scrollMode, t, frames[i]) then []
    else
      var (ins, next) := Step(doc, opts.block, opts.inline, t, a, frames[i]);
      [ins] + ResolveFrom(doc, opts, t, frames, i + 1, next)
  }

  /** The scroll instructions for `target` over the collected `frames`. */
  function Resolve(doc: Document, opts: Options, target: NodeId, frames: seq<NodeId>): seq<Instruction>
    requires target in doc.nodes && doc.Records(frames)
  {
    var t := doc.nodes[target].rect;
    ResolveFrom(doc, opts, t, frames, 0, InitialAnchors(opts, t))
  }

  /** The `for` loop of the default export. */
  method ResolveInstructions(doc: Document, opts: Options, target: NodeId, frames: seq<NodeId>)
    returns (instructions: seq<Instruction>)
    requires target in doc.nodes && doc.Records(frames)
    ensures instructions == Resolve(doc, opts, target, frames)
  {
    var vp := doc.viewport;
    var t := doc.nodes[target].rect;
    var j := BlockAnchor(opts.block, t);
    var k := InlineAnchor(opts.inline, t);
    instructions := [];
    for c := 0 to |frames|
      invariant instructions + ResolveFrom(doc, opts, t, frames, c, Anchors(j, k)) == Resolve(doc, opts, target, frames)
    {
      var id := frames[c];
      var el := doc.nodes[id];
      if opts.scrollMode == IfNeeded && AlreadyVisible(vp, t, el.rect) {
        return;
      }
      var top, left;
      if id == doc.ScrollingRoot() {
        top := RootBlockDelta(opts.block, vp, el, j, t.height);
        left := RootInlineDelta(opts.inline, vp, el, k, t.width);
        top := Max(0.0, top + vp.scrollY);
        left := Max(0.0, left + vp.scrollX);
      } else {
        top := FrameBlockDelta(opts.block, el, j, t.height);
        left := FrameInlineDelta(opts.inline, el, k, t.width);
        top := Max(0.0, Min(el.scrollTop + top, MaxScrollTop(el)));
        j := j + el.scrollTop - top;
        left := Max(0.0, Min(el.scrollLeft + left, MaxScrollLeft(el)));
        k := k + el.scrollLeft - left;
      }
      instructions := instructions + [Instruction(id, top, left)];
    }
  }

  // ---------------------------------------------------------------------------
  // Properties of the resolver

  /** The offsets each instruction may carry: a non-root frame within
      `[0, max(0, scrollSize - rectSize + gutter)]`, the root only `>= 0`. */
  predicate InScrollRange(doc: Document, ins: Instruction)
    requires ins.el in doc.nodes
  {
    var el := doc.nodes[ins.el];
    if ins.el == doc.ScrollingRoot() then
      ins.top >= 0.0 && ins.left >= 0.0
    else
      0.0 <= ins.top <= Max(0.0, MaxScrollTop(el)) && 0.0 <= ins.left <= Max(0.0, MaxScrollLeft(el))
  }

  predicate AllInScrollRange(doc: Document, r: seq<Instruction>)
  {
    forall n :: 0 <= n < |r| ==> r[n].el in doc.nodes && InScrollRange(doc, r[n])
  }

  lemma StepInScrollRange(doc: Document, block: Alignment, inline: Alignment, t: Rect, a: Anchors, id: NodeId)
    requires id in doc.nodes
    ensures Step(doc, block, inline, t, a, id).0.el == id
    ensures InScrollRange(doc, Step(doc, block, inline, t, a, id).0)
  {
  }

  lemma {:induction false} ResolveFromInScrollRange(doc: Document, opts: Options, t: Rect, frames: seq<NodeId>, i: nat, a: Anchors)
    requires doc.Records(frames) && i <= |frames|
    ensures AllInScrollRange(doc, ResolveFrom(doc, opts, t, frames, i, a))
    decreases |frames| - i
  {
    if i < |frames| && !ExitsAt(doc, opts.scrollMode, t, frames[i]) {
      var (ins, next) := Step(doc, opts.block, opts.inline, t, a, frames[i]);
      StepInScrollRange(doc, opts.block, opts.inline, t, a, frames[i]);
      ResolveFromInScrollRange(doc, opts, t, frames, i + 1, next);
      var r := ResolveFrom(doc, opts, t, frames, i, a);
      var rest := ResolveFrom(doc, opts, t, frames, i + 1, next);
      assert r == [ins] + rest;
      forall n | 0 <= n < |r| ensures r[n].el in doc.nodes && InScrollRange(doc, r[n]) {
        if n > 0 {
          assert r[n] == rest[n - 1];
        }
      }
    }
  }

  /** Every emitted offset lies in the frame's scrollable range. */
  lemma ResolveInScrollRange(doc: Document, opts: Options, target: NodeId, frames: seq<NodeId>)
    requires target in doc.nodes && doc.Records(frames)
    ensures AllInScrollRange(doc, Resolve(doc, opts, target, frames))
  {
    var t := doc.nodes[target].rect;
    ResolveFromInScrollRange(doc, opts, t, frames, 0, InitialAnchors(opts, t));
  }

  /** The instructions name the frames in order, one each, up to the first
      frame at which the `if-needed` exit fires (or to the end). */
  lemma {:induction false} ResolveFromShape(doc: Document, opts: Options, t: Rect, frames: seq<NodeId>, i: nat, a: Anchors)
    requires doc.Records(frames) && i <= |frames|
    ensures var r := ResolveFrom(doc, opts, t, frames, i, a);
            && |r| <= |frames| - i
            && (forall n :: 0 <= n < |r| ==> r[n].el == frames[i + n] && !ExitsAt(doc, opts.scrollMode, t, frames[i + n]))
            && (|r| < |frames| - i ==> ExitsAt(doc, opts.scrollMode, t, frames[i + |r|]))
    decreases |frames| - i
  {
    if i < |frames| && !ExitsAt(doc, opts.scrollMode, t, frames[i]) {
      var (ins, next) := Step(doc, opts.block, opts.inline, t, a, frames[i]);
      ResolveFromShape(doc, opts, t, frames, i + 1, next);
      var r := ResolveFrom(doc, opts, t, frames, i, a);
      var rest := ResolveFrom(doc, opts, t, frames, i + 1, next);
      assert r == [ins] + rest;
      forall n | 0 <= n < |r| ensures r[n].el == frames[i + n] && !ExitsAt(doc, opts.scrollMode, t, frames[i + n]) {
        if n > 0 {
          assert r[n] == rest[n - 1];
        }
      }
    }
  }

  /** Without `if-needed`, exactly one instruction per frame, in walk order. */
  lemma OneInstructionPerFrame(doc: Document, opts: Options, target: NodeId, frames: seq<NodeId>)
    requires target in doc.nodes && doc.Records(frames) && opts.scrollMode == Always
    ensures var r := Resolve(doc, opts, target, frames);
            |r| == |frames| && forall n :: 0 <= n < |r| ==> r[n].el == frames[n]
  {
    var t := doc.nodes[target].rect;
    ResolveFromShape(doc, opts, t, frames, 0, InitialAnchors(opts, t));
  }

  /** With `if-needed`, the result is what the loop had pushed when it met the
      first frame that already shows the target: a prefix of the instructions
      computed without the exit, cut exactly at that frame. */
  lemma {:induction false} ResolveFromIfNeededIsPrefix(doc: Document, opts: Options, t: Rect, frames: seq<NodeId>, i: nat, a: Anchors)
    requires doc.Records(frames) && i <= |frames|
    ensures var r := ResolveFrom(doc, opts, t, frames, i, a);
            var s := ResolveFrom(doc, opts.(scrollMode := Always), t, frames, i, a);
            |r| <= |s| && r == s[..|r|]
    decreases |frames| - i
  {
    if i < |frames| {
      var (ins, next) := Step(doc, opts.block, opts.inline, t, a, frames[i]);
      ResolveFromIfNeededIsPrefix(doc, opts, t, frames, i + 1, next);
      var s := ResolveFrom(doc, opts.(scrollMode := Always), t, frames, i, a);
      var srest := ResolveFrom(doc, opts.(scrollMode := Always), t, frames, i + 1, next);
      assert s == [ins] + srest;
      if !ExitsAt(doc, opts.scrollMode, t, frames[i]) {
        var rest := ResolveFrom(doc, opts, t, frames, i + 1, next);
        assert ResolveFrom(doc, opts, t, frames, i, a) == [ins] + rest;
        assert s[..|rest| + 1] == [ins] + srest[..|rest|];
      }
    }
  }

  lemma IfNeededKeepsPushedInstructions(doc: Document, opts: Options, target: NodeId, frames: seq<NodeId>)
    requires target in doc.nodes && doc.Records(frames)
    ensures var r := Resolve(doc, opts, target, frames);
            var s := Resolve(doc, opts.(scrollMode := Always), target, frames);
            |r| <= |s| && r == s[..|r|] && |r| <= |frames| &&
            (forall n :: 0 <= n < |r| ==>
               !(opts.scrollMode == IfNeeded &&
                 AlreadyVisible(doc.viewport, doc.nodes[target].rect, doc.nodes[frames[n]].rect))) &&
            (|r| < |frames| ==> opts.scrollMode == IfNeeded &&
                                AlreadyVisible(doc.viewport, doc.nodes[target].rect, doc.nodes[frames[|r|]].rect))
  {
    var t := doc.nodes[target].rect;
    ResolveFromIfNeededIsPrefix(doc, opts, t, frames, 0, InitialAnchors(opts, t));
    ResolveFromShape(doc, opts, t, frames, 0, InitialAnchors(opts, t));
    var r := Resolve(doc, opts, target, frames);
    forall n | 0 <= n < |r|
      ensures !(opts.scrollMode == IfNeeded && AlreadyVisible(doc.viewport, t, doc.nodes[frames[n]].rect))
    {
      var x := r[n];
    }
  }

  /** A target already shown by the viewport and the first frame needs no
      scrolling at all under `if-needed`. */
  lemma VisibleTargetNeedsNothing(doc: Document, opts: Options, target: NodeId, frames: seq<NodeId>)
    requires target in doc.nodes && doc.Records(frames) && |frames| > 0
    requires opts.scrollMode == IfNeeded
    requires AlreadyVisible(doc.viewport, doc.nodes[target].rect, doc.nodes[frames[0]].rect)
    ensures Resolve(doc, opts, target, frames) == []
  {
  }

  /** How a frame moves the anchors: a non-root frame by the distance it
      scrolls back (`scrollTop - top`, `scrollLeft - left`); the root not at all. */
  lemma StepMovesAnchors(doc: Document, block: Alignment, inline: Alignment, t: Rect, a: Anchors, id: NodeId)
    requires id in doc.nodes
    ensures var (ins, next) := Step(doc, block, inline, t, a, id);
            var el := doc.nodes[id];
            ins.el == id &&
            (id == doc.ScrollingRoot() ==> next == a) &&
            (id != doc.ScrollingRoot() ==>
               next.block == a.block + el.scrollTop - ins.top && next.inline == a.inline + el.scrollLeft - ins.left)
  {
  }

  /** Within its scroll range, a non-root frame with block "start" scrolls so
      that the anchor lands on its inner top edge (below the top border); with
      "end", on its inner bottom edge (above border and scrollbar); with
      "center", on the middle of its visible area. */
  lemma FrameBlockAlignment(doc: Document, block: Alignment, inline: Alignment, t: Rect, a: Anchors, id: NodeId)
    requires id in doc.nodes && id != doc.ScrollingRoot()
    requires var el := doc.nodes[id];
             0.0 <= el.scrollTop + FrameBlockDelta(block, el, a.block, t.height) <= MaxScrollTop(el)
    ensures var (ins, next) := Step(doc, block, inline, t, a, id);
            var el := doc.nodes[id];
            var r := el.rect;
            (block == Start ==> next.block == r.top + el.borderTop as real) &&
            (block == End ==> next.block == r.bottom - el.borderBottom as real - GutterHeight(el)) &&
            (block == Center ==> next.block == r.top + r.height / 2.0 - GutterHeight(el) / 2.0)
  {
  }

  /** The same for the inline axis. */
  lemma FrameInlineAlignment(doc: Document, block: Alignment, inline: Alignment, t: Rect, a: Anchors, id: NodeId)
    requires id in doc.nodes && id != doc.ScrollingRoot()
    requires var el := doc.nodes[id];
             0.0 <= el.scrollLeft + FrameInlineDelta(inline, el, a.inline, t.width) <= MaxScrollLeft(el)
    ensures var (ins, next) := Step(doc, block, inline, t, a, id);
            var el := doc.nodes[id];
            var r := el.rect;
            (inline == Start ==> next.inline == r.left + el.borderLeft as real) &&
            (inline == End ==> next.inline == r.right - el.borderRight as real - GutterWidth(el)) &&
            (inline == Center ==> next.inline == r.left + r.width / 2.0 - GutterWidth(el) / 2.0)
  {
  }

  /** A target whose bottom hangs below a single non-root frame (its top below
      the frame's top, and smaller than the frame) is scrolled by "nearest"
      exactly so far that its bottom meets the frame's visible bottom, the
      `scrollTop` being clamped to the frame's range. */
  lemma NearestRevealsBottom(doc: Document, opts: Options, target: NodeId, frame: NodeId)
    requires target in doc.nodes && frame in doc.nodes && frame != doc.ScrollingRoot()
    requires opts.scrollMode == Always && opts.block == Nearest
    requires var t := doc.nodes[target].rect;
             var f := doc.nodes[frame].rect;
             t.top > f.top && t.top + t.height > f.bottom && t.height < f.height
    ensures var t := doc.nodes[target].rect;
            var el := doc.nodes[frame];
            var visibleBottom := el.rect.bottom - el.borderBottom as real - GutterHeight(el);
            Resolve(doc, opts, target, [frame])[0].top ==
              ClampScroll(el.scrollTop + (t.top + t.height - visibleBottom), MaxScrollTop(el))
  {
  }

  /** With block "start" and the root as the only frame, the window scrolls so
      that the target's top meets the top of the viewport. */
  lemma RootStartAlignsTop(doc: Document, opts: Options, target: NodeId)
    requires target in doc.nodes && doc.ScrollingRoot() in doc.nodes
    requires opts.scrollMode == Always && opts.block == Start
    ensures var t := doc.nodes[target].rect;
            Resolve(doc, opts, target, [doc.ScrollingRoot()])[0].top == Max(0.0, t.top + doc.viewport.scrollY)
  {
  }

  /** Block "start" with the root as the only frame, the target's top at 500 and
      the window at scroll top 0: the window scrolls to 500. */
  lemma RootStartExample(doc: Document, opts: Options, target: NodeId)
    requires target in doc.nodes && doc.ScrollingRoot() in doc.nodes
    requires opts.scrollMode == Always && opts.block == Start
    requires doc.nodes[target].rect.top == 500.0 && doc.viewport.scrollY == 0.0
    ensures Resolve(doc, opts, target, [doc.ScrollingRoot()])[0].top == 500.0
  {
    RootStartAlignsTop(doc, opts, target);
  }

  /** A block alignment the resolver does not recognise behaves as "center". */
  lemma {:induction false} ResolveFromUnsetBlockIsCenter(doc: Document, opts: Options, t: Rect, frames: seq<NodeId>, i: nat, a: Anchors)
    requires doc.Records(frames) && i <= |frames|
    ensures ResolveFrom(doc, opts.(block := AlignUnset), t, frames, i, a) == ResolveFrom(doc, opts.(block := Center), t, frames, i, a)
    decreases |frames| - i
  {
    if i < |frames| {
      var (ins, next) := Step(doc, AlignUnset, opts.inline, t, a, frames[i]);
      assert Step(doc, Center, opts.inline, t, a, frames[i]) == (ins, next);
      ResolveFromUnsetBlockIsCenter(doc, opts, t, frames, i + 1, next);
    }
  }

  lemma UnsetBlockIsCenter(doc: Document, opts: Options, target: NodeId, frames: seq<NodeId>)
    requires target in doc.nodes && doc.Records(frames)
    ensures Resolve(doc, opts.(block := AlignUnset), target, frames) == Resolve(doc, opts.(block := Center), target, frames)
  {
    var t := doc.nodes[target].rect;
    ResolveFromUnsetBlockIsCenter(doc, opts, t, frames, 0, InitialAnchors(opts.(block := Center), t));
  }

  /** An inline alignment the resolver does not recognise behaves as "nearest". */
  lemma {:induction false} ResolveFromUnsetInlineIsNearest(doc: Document, opts: Options, t: Rect, frames: seq<NodeId>, i: nat, a: Anchors)
    requires doc.Records(frames) && i <= |frames|
    ensures ResolveFrom(doc, opts.(inline := AlignUnset), t, frames, i, a) == ResolveFrom(doc, opts.(inline := Nearest), t, frames, i, a)
    decreases |frames| - i
  {
    if i < |frames| {
      var (ins, next) := Step(doc, opts.block, AlignUnset, t, a, frames[i]);
      assert Step(doc, opts.block, Nearest, t, a, frames[i]) == (ins, next);
      ResolveFromUnsetInlineIsNearest(doc, opts, t, frames, i + 1, next);
    }
  }

  lemma UnsetInlineIsNearest(doc: Document, opts: Options, target: NodeId, frames: seq<NodeId>)
    requires target in doc.nodes && doc.Records(frames)
    ensures Resolve(doc, opts.(inline := AlignUnset), target, frames) == Resolve(doc, opts.(inline := Nearest), target, frames)
  {
    var t := doc.nodes[target].rect;
    ResolveFromUnsetInlineIsNearest(doc, opts, t, frames, 0, InitialAnchors(opts.(inline := Nearest), t));
  }
}
