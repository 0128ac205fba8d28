/** The scroll-into-view wrapper used by the documentation sidebar: it skips
    detached targets, hands the actions to a custom `behavior` function when one
    is given, and otherwise normalises the options and applies the actions. */
module ScrollIntoView {
  import opened ScrollDom
  import opened ScrollOptions
  import opened ScrollGeometry
  import opened ComputeScroll

  /** `p`: the argument is an object with at least one own key. */
  predicate IsNonEmptyObject(arg: OptionsArg)
  {
    arg.ObjectArg? && arg.options.keyCount != 0
  }

  /** `{block: "end", inline: "nearest"}` */
  const EndNearest := Options(End, Nearest, Always, BoundaryValue(None), false, BehaviorUnset, 2)

  /** `{block: "start", inline: "nearest"}` */
  const StartNearest := Options(Start, Nearest, Always, BoundaryValue(None), false, BehaviorUnset, 2)

  /** `false` means "align to the end", a non-empty object is used as given,
      anything else means "align to the start". */
  function NormalizeOptions(arg: OptionsArg): (r: Options)
    ensures arg == FalseArg ==> r == EndNearest
    ensures IsNonEmptyObject(arg) ==> r == arg.options
    ensures arg != FalseArg && !IsNonEmptyObject(arg) ==> r == StartNearest
  {
    match arg
    case FalseArg => EndNearest
    case ObjectArg(o) => if o.keyCount != 0 then o else StartNearest
    case OtherArg => StartNearest
  }

  /** `e.ownerDocument.documentElement.contains(e)` */
  predicate Connected(doc: Document, target: Node, ancestors: seq<NodeId>)
  {
    target.id == doc.documentElement || doc.documentElement in ancestors
  }

  /** What one call of the wrapper does. */
  datatype Outcome =
    | Thrown(error: Error)                                    // the computation threw
    | HandedToBehavior(actions: seq<Instruction>)             // `options.behavior(actions)`
    | Applied(actions: seq<Instruction>, behavior: Behavior)  // each action scrolled with this behaviour
    | NotScrolled                                             // detached target, nothing happens
    | OwnerDocumentNull                                       // `e.ownerDocument.documentElement` on a Document throws

  /** The behaviour the applier uses: absent means "auto". */
  function ApplierBehavior(b: Behavior): Behavior
  {
    if b == BehaviorUnset then Auto else b
  }

  /** What `d(target, options)` does: a Document target throws on its null
      `ownerDocument`; a custom behaviour is handed the actions (none for a
      detached target); otherwise a detached target is left alone and an attached
      one gets the actions for the normalised options. */
  function ExpectedOutcome(doc: Document, target: Node, ancestors: seq<NodeId>, arg: OptionsArg): Outcome
    requires Readable(doc, target, ancestors)
  {
    var detached := !Connected(doc, target, ancestors);
    if IsDocument(target) then OwnerDocumentNull
    else if IsNonEmptyObject(arg) && arg.options.behavior == CustomBehavior then
      if detached then HandedToBehavior([])
      else
        match Actions(doc, target, ancestors, arg.options)
        case Err(e) => Thrown(e)
        case Ok(actions) => HandedToBehavior(actions)
    else if detached then NotScrolled
    else
      var opts := NormalizeOptions(arg);
      match Actions(doc, target, ancestors, opts)
      case Err(e) => Thrown(e)
      case Ok(actions) => Applied(actions, ApplierBehavior(opts.behavior))
  }

  /** The wrapper `d(target, options)`. */
  method ScrollIntoView(doc: Document, target: Node, ancestors: seq<NodeId>, arg: OptionsArg)
    returns (outcome: Outcome)
    requires Readable(doc, target, ancestors)
    ensures outcome == ExpectedOutcome(doc, target, ancestors, arg)
  {
    if IsDocument(target) {
      return OwnerDocumentNull;
    }
    var detached := !Connected(doc, target, ancestors);
    if IsNonEmptyObject(arg) && arg.options.behavior == CustomBehavior {
      if detached {
        return HandedToBehavior([]);
      }
      var r := ComputeScrollIntoView(doc, target, ancestors, arg.options);
      match r {
        case Err(e) => outcome := Thrown(e);
        case Ok(actions) => outcome := HandedToBehavior(actions);
      }
      return;
    }
    if detached {
      return NotScrolled;
    }
    var opts := NormalizeOptions(arg);
    var r := ComputeScrollIntoView(doc, target, ancestors, opts);
    match r {
      case Err(e) => outcome := Thrown(e);
      case Ok(actions) => outcome := Applied(actions, ApplierBehavior(opts.behavior));
    }
  }

  /** A Document target fails on its null `ownerDocument` before any other
      check, whatever the options. */
  lemma DocumentTargetThrows(doc: Document, target: Node, ancestors: seq<NodeId>, arg: OptionsArg)
    requires Readable(doc, target, ancestors)
    ensures ExpectedOutcome(doc, target, ancestors, arg) == OwnerDocumentNull <==> IsDocument(target)
  {
  }

  /** A detached target other than a Document never scrolls anything and never
      throws: a custom behaviour receives the empty list, otherwise nothing
      happens. */
  lemma DetachedTargetIsNoOp(doc: Document, target: Node, ancestors: seq<NodeId>, arg: OptionsArg)
    requires Readable(doc, target, ancestors) && !Connected(doc, target, ancestors)
    ensures var o := ExpectedOutcome(doc, target, ancestors, arg);
            if IsDocument(target) then o == OwnerDocumentNull
            else if IsNonEmptyObject(arg) && arg.options.behavior == CustomBehavior then o == HandedToBehavior([])
            else o == NotScrolled
  {
  }

  /** An attached target that is neither an element nor a Document raises
      `TypeError("Invalid target")`. */
  lemma NonElementThrows(doc: Document, target: Node, ancestors: seq<NodeId>, arg: OptionsArg)
    requires Readable(doc, target, ancestors) && Connected(doc, target, ancestors) && !IsElement(target)
    ensures ExpectedOutcome(doc, target, ancestors, arg) ==
            if IsDocument(target) then OwnerDocumentNull else Thrown(InvalidTarget)
  {
  }

  /** The applier is never asked to use a custom function or an absent behaviour. */
  lemma AppliedBehaviorIsAutoOrSmooth(doc: Document, target: Node, ancestors: seq<NodeId>, arg: OptionsArg)
    requires Readable(doc, target, ancestors)
    ensures var o := ExpectedOutcome(doc, target, ancestors, arg);
            o.Applied? ==> o.behavior == Auto || o.behavior == Smooth
  {
  }

  /** The sidebar's call `d(selected, {scrollMode: "if-needed"})`: block falls
      into the centre case, inline into "nearest", and the actions are applied
      with behaviour "auto". */
  lemma SidebarScroll(doc: Document, target: Node, ancestors: seq<NodeId>)
    requires Readable(doc, target, ancestors) && Connected(doc, target, ancestors) && IsElement(target)
    ensures var given := Options(AlignUnset, AlignUnset, IfNeeded, BoundaryValue(None), false, BehaviorUnset, 1);
            var centred := given.(block := Center, inline := Nearest);
            ExpectedOutcome(doc, target, ancestors, ObjectArg(given)) ==
              Applied(Actions(doc, target, ancestors, centred).value, Auto) &&
            Actions(doc, target, ancestors, centred).Ok?
  {
    var given := Options(AlignUnset, AlignUnset, IfNeeded, BoundaryValue(None), false, BehaviorUnset, 1);
    var centred := given.(block := Center, inline := Nearest);
    var boundary, skip := BoundaryValue(None), false;
    var frames := ScrollBoundaries.Walk(doc, target.id, ancestors, boundary, skip);
    ScrollBoundaries.WalkMembers(doc, target.id, ancestors, boundary, skip);
    UnsetBlockIsCenter(doc, given, target.id, frames);
    UnsetInlineIsNearest(doc, given.(block := Center), target.id, frames);
    assert given.(block := AlignUnset) == given;
    assert given.(block := Center).(inline := AlignUnset) == given.(block := Center);
  }
}
