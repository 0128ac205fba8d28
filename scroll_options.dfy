/** The options object that scroll-into-view accepts. Any field the caller
    leaves out (or sets to an unrecognised value) is the `...Unset` variant. */
module ScrollOptions {
  import opened ScrollDom

  /** `block` / `inline`: "start" | "center" | "end" | "nearest", or anything else. */
  datatype Alignment = Start | Center | End | Nearest | AlignUnset

  /** `scrollMode`: only the string "if-needed" changes anything. */
  datatype ScrollMode = Always | IfNeeded

  /** `boundary`: a function called on each visited element, or any other value
      `l`, which stands for the test `e !== l` (so an element stops the walk and
      every other value never does). */
  datatype Boundary =
    | BoundaryFunction(keep: NodeId -> bool)
    | BoundaryValue(element: Option<NodeId>)

  /** `behavior`: "auto", "smooth", a function, or absent. */
  datatype Behavior = BehaviorUnset | Auto | Smooth | CustomBehavior

  /** A plain options object; `keyCount` is `Object.keys(options).length`. */
  datatype Options = Options(
    block: Alignment,
    inline: Alignment,
    scrollMode: ScrollMode,
    boundary: Boundary,
    skipOverflowHiddenElements: bool,
    behavior: Behavior,
    keyCount: nat)

  /** The second argument of the wrapper: `false`, an object, or any other value
      (`undefined`, `true`, a number, ...). */
  datatype OptionsArg = FalseArg | ObjectArg(options: Options) | OtherArg

  /** `c`: whether the boundary lets the walk go on past `el`. */
  predicate Accepts(boundary: Boundary, el: NodeId)
  {
    match boundary
    case BoundaryFunction(keep) => keep(el)
    case BoundaryValue(stop) => stop != Some(el)
  }
}
