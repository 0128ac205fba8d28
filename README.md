# Scroll-into-view geometry, modelled in Dafny

The documentation site's "Introduction" page bundles the `compute-scroll-into-view`
library (webpack module `Bran`) and a small wrapper around it (module `/YsI`). The
sidebar uses the wrapper to bring the selected entry into view. This project models
that logic:

- **Overflow classifier** (`o`, `a`): which elements are scroll containers
  (module `Overflow`).
- **Nearest alignment** (`g`): the least movement that brings an element into a
  scrolling area (module `NearestAlignment`).
- **Ancestor walk**: the `while` loop that collects scroll boundaries from the
  target's parent upward (module `ScrollBoundaries`). The method
  `CollectBoundaries` keeps the loop and is proved equal to the recursive
  specification `Walk`.
- **Geometry resolver**: the `for` loop that computes a new `scrollTop` and
  `scrollLeft` for each boundary and carries the running anchors `j`/`k` outward
  (module `ScrollGeometry`). The method `ResolveInstructions` keeps the loop and
  its early `return`, and is proved equal to `Resolve`.
- **Default export**: the target check, then the walk, then the resolver
  (module `ComputeScroll`).
- **Wrapper `d`**: the failure on a Document target's null `ownerDocument`, the detached-target check, the hand-off to a custom `behavior`
  function, and the options normaliser (module `ScrollIntoView`).

The DOM is a snapshot (module `ScrollDom`). Each element is a record of the values
the code reads: bounding rectangle, parsed border widths, client, offset and scroll
sizes, scroll offsets and computed `overflow-x`/`overflow-y`. The document gives
`documentElement`, `body`, `scrollingElement`, the frame element's client box and
the viewport. The target's `parentElement` chain is an explicit sequence of node
ids, nearest first. Coordinates are exact `real`s.

Some behaviours of the code worth stating on their own:

- The `if-needed` exit returns the actions pushed before it
  (`IfNeededKeepsPushedInstructions`).
- A non-root frame's largest scroll offset is `scrollHeight - rect.height + gutter`,
  computed from the bounding-rectangle size.
- The boundary test is applied to the element just visited, before stepping
  further up. So the element the test rejects is still collected when it can
  scroll (`BoundaryElementIsOutermost`).
- A `block` value other than start/end/nearest (including an absent one) takes the
  centre branch. An `inline` value other than start/center/end takes the
  "nearest" branch (`UnsetBlockIsCenter`, `UnsetInlineIsNearest`).

## Model

| member | source | states |
|---|---|---|
| `Overflow.CanOverflow` | _next/static/chunks/pages/introduction-b4c3ffba310b5172775d.js:1 | definition of `o` (no `ensures`): an overflow value allows scrolling unless it is "visible" or "clip", or "hidden" while hidden boxes are skipped; its cases are stated by `CanOverflowCases` |
| `Overflow.IsScrollable` | _next/static/chunks/pages/introduction-b4c3ffba310b5172775d.js:1 | definition of `a` (no `ensures`): the content overflows the client box in some axis, and an axis's overflow value allows scrolling or the hosting frame element is smaller than the content; its properties are stated by `NoOverflowNotScrollable` and `SkipHiddenOnlyRemoves` |
| `Overflow.CanOverflowCases` | _next/static/chunks/pages/introduction-b4c3ffba310b5172775d.js:1 | `o` is false for "visible" and "clip", false for "hidden" exactly when hidden elements are skipped, and true for every other value |
| `Overflow.NoOverflowNotScrollable` | _next/static/chunks/pages/introduction-b4c3ffba310b5172775d.js:1 | `a` is false whenever the content does not overflow the client box in either axis, whatever the style or frame |
| `Overflow.SkipHiddenOnlyRemoves` | _next/static/chunks/pages/introduction-b4c3ffba310b5172775d.js:1 | an element that scrolls while hidden boxes are skipped also scrolls when they are not |
| `NearestAlignment.AlignNearest` | _next/static/chunks/pages/introduction-b4c3ffba310b5172775d.js:1 | definition of `g` (no `ensures`): the three guarded branches and the final 0; each branch is stated by the `Nearest*` lemmas below |
| `NearestAlignment.NearestStaysPut` | _next/static/chunks/pages/introduction-b4c3ffba310b5172775d.js:1 | `g` returns 0 when the element overhangs both edges or lies strictly inside the area |
| `NearestAlignment.NearestAlignsLeading` | _next/static/chunks/pages/introduction-b4c3ffba310b5172775d.js:1 | in the second branch (starts at or before the area and fits, or ends at or after it and does not fit), `g` scrolls the element's start onto the area's inner start edge |
| `NearestAlignment.NearestAlignsTrailing` | _next/static/chunks/pages/introduction-b4c3ffba310b5172775d.js:1 | in the third branch (ends past the area and is smaller, or starts before it and is larger), `g` scrolls the element's end onto the area's inner end edge |
| `NearestAlignment.NearestFallsThrough` | _next/static/chunks/pages/introduction-b4c3ffba310b5172775d.js:1 | when no branch applies, `g` returns 0 |
| `NearestAlignment.NearestOutcomes` | _next/static/chunks/pages/introduction-b4c3ffba310b5172775d.js:1 | for all inputs, after scrolling by `g`'s result the element is unmoved, or flush with the inner start edge, or flush with the inner end edge |
| `NearestAlignment.NearestDirection` | _next/static/chunks/pages/introduction-b4c3ffba310b5172775d.js:1 | a smaller element hanging past the end scrolls forward, and one hanging past the start scrolls backward |
| `ScrollBoundaries.CollectBoundaries` | _next/static/chunks/pages/introduction-b4c3ffba310b5172775d.js:1 | the `while` loop collects exactly the boundaries of the walk specification `Walk` |
| `ScrollBoundaries.WalkIsSubsequence` | _next/static/chunks/pages/introduction-b4c3ffba310b5172775d.js:1 | the boundaries are a subsequence of the target's proper ancestors, nearest first |
| `ScrollBoundaries.WalkMembers` | _next/static/chunks/pages/introduction-b4c3ffba310b5172775d.js:1 | every boundary is an ancestor that is either the scrolling root or a scroll container other than a body that defers to the root |
| `ScrollBoundaries.WalkCollectsEvery` | _next/static/chunks/pages/introduction-b4c3ffba310b5172775d.js:1 | conversely, an ancestor that is the scrolling root or a scroll container other than a body that defers to the root is collected whenever the target and every ancestor below it pass the boundary test and none of them is the scrolling root |
| `ScrollBoundaries.BodySkippedWhenRootDoesNotScroll` | _next/static/chunks/pages/introduction-b4c3ffba310b5172775d.js:1 | `document.body` is never collected when it scrolls and `documentElement` does not (unless it is the scrolling root) |
| `ScrollBoundaries.RootIsLastBoundary` | _next/static/chunks/pages/introduction-b4c3ffba310b5172775d.js:1 | if the walk reaches the scrolling root, the root is collected, scrollable or not, as the last boundary and nowhere earlier |
| `ScrollBoundaries.BoundaryElementIsOutermost` | _next/static/chunks/pages/introduction-b4c3ffba310b5172775d.js:1 | the first ancestor the boundary test rejects is still collected, as the outermost boundary, when it can scroll |
| `ScrollBoundaries.WalkStopsAtRejected` | _next/static/chunks/pages/introduction-b4c3ffba310b5172775d.js:1 | nothing above the first element the boundary test rejects is collected (nothing at all when the target is rejected) |
| `ScrollBoundaries.WalkSkipHiddenDrops` | _next/static/chunks/pages/introduction-b4c3ffba310b5172775d.js:1 | with `skipOverflowHiddenElements` the boundaries are a subsequence of those collected without it |
| `ScrollGeometry.ClampScroll` | _next/static/chunks/pages/introduction-b4c3ffba310b5172775d.js:1 | the clamp `max(0, min(pos, limit))` lies in `[0, max(0, limit)]`, keeps an in-range position unchanged and maps a negative one to 0 |
| `ScrollGeometry.ResolveInstructions` | _next/static/chunks/pages/introduction-b4c3ffba310b5172775d.js:1 | the `for` loop, with its anchor updates and early return, yields exactly the actions of the specification `Resolve` |
| `ScrollGeometry.StepInScrollRange` | _next/static/chunks/pages/introduction-b4c3ffba310b5172775d.js:1 | one iteration emits an action for its frame whose offsets lie in that frame's scroll range |
| `ScrollGeometry.ResolveInScrollRange` | _next/static/chunks/pages/introduction-b4c3ffba310b5172775d.js:1 | every non-root action has `top` in `[0, max(0, scrollHeight - rect.height + gutterH)]` and `left` in `[0, max(0, scrollWidth - rect.width + gutterW)]`; root actions are only `>= 0` |
| `ScrollGeometry.OneInstructionPerFrame` | _next/static/chunks/pages/introduction-b4c3ffba310b5172775d.js:1 | without `if-needed` there is exactly one action per boundary, in walk order |
| `ScrollGeometry.IfNeededKeepsPushedInstructions` | _next/static/chunks/pages/introduction-b4c3ffba310b5172775d.js:1 | with `if-needed` the result is a prefix of the result without it and has at most one action per frame; no frame before the cut has the target visible in both its rectangle and the viewport, and the cut frame does |
| `ScrollGeometry.VisibleTargetNeedsNothing` | _next/static/chunks/pages/introduction-b4c3ffba310b5172775d.js:1 | under `if-needed`, a target inside the viewport and the first boundary gets no actions |
| `ScrollGeometry.StepMovesAnchors` | _next/static/chunks/pages/introduction-b4c3ffba310b5172775d.js:1 | a non-root frame moves the anchors `j`/`k` by `scrollTop - top` and `scrollLeft - left`; the root leaves them unchanged |
| `ScrollGeometry.FrameBlockAlignment` | _next/static/chunks/pages/introduction-b4c3ffba310b5172775d.js:1 | unclamped, a non-root frame puts the block anchor on its inner top edge ("start"), its inner bottom edge above border and scrollbar ("end"), or the middle of its visible area ("center") |
| `ScrollGeometry.FrameInlineAlignment` | _next/static/chunks/pages/introduction-b4c3ffba310b5172775d.js:1 | the same for the inline anchor: inner left edge, inner right edge, or middle of the visible width |
| `ScrollGeometry.NearestRevealsBottom` | _next/static/chunks/pages/introduction-b4c3ffba310b5172775d.js:1 | with "nearest", a target hanging below a single non-root frame moves `scrollTop` by exactly its bottom minus the frame's visible bottom, clamped to the frame's range |
| `ScrollGeometry.RootStartAlignsTop` | _next/static/chunks/pages/introduction-b4c3ffba310b5172775d.js:1 | with "start" and only the root, the window's new scroll top is `max(0, target top + scrollY)` |
| `ScrollGeometry.RootStartExample` | _next/static/chunks/pages/introduction-b4c3ffba310b5172775d.js:1 | a target at top 500 with the window at scroll top 0 yields new scroll top 500 |
| `ScrollGeometry.UnsetBlockIsCenter` | _next/static/chunks/pages/introduction-b4c3ffba310b5172775d.js:1 | an unrecognised or absent `block` gives the same actions as "center" |
| `ScrollGeometry.UnsetInlineIsNearest` | _next/static/chunks/pages/introduction-b4c3ffba310b5172775d.js:1 | an unrecognised or absent `inline` gives the same actions as "nearest" |
| `ScrollDom.IsElement` | _next/static/chunks/pages/introduction-b4c3ffba310b5172775d.js:1 | definition of `n` (no `ensures`): a target is an element exactly when its `nodeType` is 1 |
| `ComputeScroll.Actions` | _next/static/chunks/pages/introduction-b4c3ffba310b5172775d.js:1 | specification of the default export (no `ensures`): `TypeError("Invalid target")` for a non-element, otherwise `Resolve` over `Walk`; its properties are stated by `ActionsAreScrollableAncestors` |
| `ComputeScroll.ComputeScrollIntoView` | _next/static/chunks/pages/introduction-b4c3ffba310b5172775d.js:1 | the default export returns the specified actions: `TypeError("Invalid target")` for a non-element, otherwise the resolver run over the walk |
| `ComputeScroll.ActionsAreScrollableAncestors` | _next/static/chunks/pages/introduction-b4c3ffba310b5172775d.js:1 | only a non-element target is an error; every action scrolls an ancestor within its scroll range; without `if-needed` there is one action per boundary, in walk order |
| `ScrollIntoView.IsNonEmptyObject` | _next/static/chunks/pages/introduction-b4c3ffba310b5172775d.js:1 | definition of `p` (no `ensures`): the options argument is an object with at least one own key |
| `ScrollIntoView.NormalizeOptions` | _next/static/chunks/pages/introduction-b4c3ffba310b5172775d.js:1 | `false` becomes `{block: "end", inline: "nearest"}`, a non-empty object is returned unchanged, anything else becomes `{block: "start", inline: "nearest"}` |
| `ScrollIntoView.ExpectedOutcome` | _next/static/chunks/pages/introduction-b4c3ffba310b5172775d.js:1 | specification of `d` (no `ensures`): a Document target throws on its null `ownerDocument`; a custom behaviour receives the actions (none when detached); otherwise a detached target is left alone and an attached one gets the actions for the normalised options; its properties are stated by the lemmas below |
| `ScrollIntoView.ScrollIntoView` | _next/static/chunks/pages/introduction-b4c3ffba310b5172775d.js:1 | the wrapper `d` produces exactly `ExpectedOutcome`: the null-`ownerDocument` failure for a Document target, custom behaviour hand-off, detached no-op, or normalised options applied |
| `ScrollIntoView.DocumentTargetThrows` | _next/static/chunks/pages/introduction-b4c3ffba310b5172775d.js:1 | the wrapper fails on the null `ownerDocument` exactly when the target is a Document, before the behaviour and detached checks and whatever the options |
| `ScrollIntoView.DetachedTargetIsNoOp` | _next/static/chunks/pages/introduction-b4c3ffba310b5172775d.js:1 | a detached target other than a Document never throws or scrolls: a custom behaviour receives `[]`, and otherwise nothing happens; a detached Document throws on `ownerDocument` |
| `ScrollIntoView.NonElementThrows` | _next/static/chunks/pages/introduction-b4c3ffba310b5172775d.js:1 | an attached non-element target raises `TypeError("Invalid target")`, unless it is a Document, which fails earlier on `ownerDocument` |
| `ScrollIntoView.AppliedBehaviorIsAutoOrSmooth` | _next/static/chunks/pages/introduction-b4c3ffba310b5172775d.js:1 | the applier only ever receives "auto" (also for an absent behaviour) or "smooth" |
| `ScrollIntoView.SidebarScroll` | _next/static/chunks/pages/introduction-b4c3ffba310b5172775d.js:1 | the sidebar's call with `{scrollMode: "if-needed"}` applies, with "auto", the actions for block "center" and inline "nearest" |

## Left out

- Live DOM reads (`getBoundingClientRect`, `getComputedStyle`, `parentElement`, `visualViewport` against `innerWidth`/`innerHeight`, `scrollX` against `pageXOffset`) are snapshot inputs. Borders are taken as already-parsed integers; a `parseInt` that yields `NaN` is not modelled.
- The frame-element lookup with its `try`/`catch` inside `a` is an optional client box in the document; a missing `defaultView` and a cross-origin failure are both `None`.
- The scroll applier (the `forEach` that calls `el.scroll(...)` or assigns `scrollTop`/`scrollLeft`, and the `scrollBehavior` feature test) is browser side effects; the model stops at the list of actions and the behaviour handed to the applier.
- A custom `behavior` function is not run: the outcome records the list it receives, and its return value is not modelled.
- Targets are DOM nodes (an id and a `nodeType`); a value that is not a node at all, for which the wrapper fails on `ownerDocument` before any check, is not modelled.
- The target is taken to belong to the document the script runs in: the wrapper reads `e.ownerDocument` while the default export reads the global `document` (`scrollingElement`, `body`, `documentElement`), and the single document snapshot does not tell the two apart.
- A document without `documentElement` (a null scrolling root) is not modelled.
- Floating-point rounding, `NaN` and infinities: coordinates are exact reals.
- The sidebar React component, the page component, the webpack registration and the static content catalog are presentation glue without behaviour to verify.
- Smooth-scroll timing and interruption belong to the browser.
- The `behavior` option is modelled as auto, smooth, a function, or absent; any other value (such as `"instant"` or `null`), which the applier would receive unchanged, is not modelled.
