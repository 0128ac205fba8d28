/** The default export of compute-scroll-into-view: check the target, walk its
    ancestors, then resolve one scroll action per boundary. */
module ComputeScroll {
  import opened ScrollDom
  import opened ScrollOptions
  import opened ScrollBoundaries
  import opened ScrollGeometry

  /** `TypeError("Invalid target")` */
  datatype Error = InvalidTarget

  datatype Result<+T> = Ok(value: T) | Err(error: Error)

  /** The snapshot holds every node the computation may read. */
  predicate Readable(doc: Document, target: Node, ancestors: seq<NodeId>)
  {
    WalkReadable(doc, ancestors) && (IsElement(target) ==> target.id in doc.nodes)
  }

  /** The actions computed for `target`, or the error thrown for a non-element. */
  function Actions(doc: Document, target: Node, ancestors: seq<NodeId>, opts: Options): Result<seq<Instruction>>
    requires Readable(doc, target, ancestors)
  {
    if !IsElement(target) then Err(InvalidTarget)
    else
      var frames := Walk(doc, target.id, ancestors, opts.boundary, opts.skipOverflowHiddenElements);
      WalkMembers(doc, target.id, ancestors, opts.boundary, opts.skipOverflowHiddenElements);
      Ok(Resolve(doc, opts, target.id, frames))
  }

  method ComputeScrollIntoView(doc: Document, target: Node, ancestors: seq<NodeId>, opts: Options)
    returns (r: Result<seq<Instruction>>)
    requires Readable(doc, target, ancestors)
    ensures r == Actions(doc, target, ancestors, opts)
  {
    if !IsElement(target) {
      return Err(InvalidTarget);
    }
    var frames := CollectBoundaries(doc, target.id, ancestors, opts.boundary, opts.skipOverflowHiddenElements);
    WalkMembers(doc, target.id, ancestors, opts.boundary, opts.skipOverflowHiddenElements);
    var instructions := ResolveInstructions(doc, opts, target.id, frames);
    r := Ok(instructions);
  }

  /** Only a non-element target is an error. Every action of a successful call
      scrolls an ancestor of the target within that element's scroll range;
      without `if-needed` there is one action per collected boundary, in walk
      order. */
  lemma ActionsAreScrollableAncestors(doc: Document, target: Node, ancestors: seq<NodeId>, opts: Options)
    requires Readable(doc, target, ancestors)
    ensures Actions(doc, target, ancestors, opts).Err? <==> !IsElement(target)
    ensures var r := Actions(doc, target, ancestors, opts);
            r.Ok? ==>
              && AllInScrollRange(doc, r.value)
              && (forall n :: 0 <= n < |r.value| ==> r.value[n].el in ancestors)
              && (opts.scrollMode == Always ==>
                    var frames := Walk(doc, target.id, ancestors, opts.boundary, opts.skipOverflowHiddenElements);
                    |r.value| == |frames| && forall n :: 0 <= n < |frames| ==> r.value[n].el == frames[n])
  {
    if IsElement(target) {
      var frames := Walk(doc, target.id, ancestors, opts.boundary, opts.skipOverflowHiddenElements);
      WalkMembers(doc, target.id, ancestors, opts.boundary, opts.skipOverflowHiddenElements);
      var r := Resolve(doc, opts, target.id, frames);
      ResolveInScrollRange(doc, opts, target.id, frames);
      var t := doc.nodes[target.id].rect;
      ResolveFromShape(doc, opts, t, frames, 0, InitialAnchors(opts, t));
      forall n | 0 <= n < |r| ensures r[n].el in ancestors {
        assert r[n].el == frames[n];
        assert frames[n] in frames;
      }
    }
  }
}
