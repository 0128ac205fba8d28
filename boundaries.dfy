/** The ancestor walk of compute-scroll-into-view: which ancestors of the target
    get a scroll instruction. `ancestors` is the target's `parentElement` chain,
    nearest first, ending below the node whose `parentElement` is null. */
module ScrollBoundaries {
  import opened ScrollDom
  import opened ScrollOptions
  import opened Overflow

  /** The snapshot holds every node the walk may read. */
  predicate WalkReadable(doc: Document, ancestors: seq<NodeId>)
  {
    doc.documentElement in doc.nodes && doc.Records(ancestors)
  }

  /** `document.body` is left to the root when it scrolls and the document
      element does not (both tested without skipping hidden overflow). */
  predicate BodyDefersToRoot(doc: Document, id: NodeId)
    requires id in doc.nodes && doc.documentElement in doc.nodes
  {
    doc.body == Some(id) && ElementScrollable(doc, id, false) &&
    !ElementScrollable(doc, doc.documentElement, false)
  }

  /** A non-root ancestor that the walk collects. */
  predicate IsBoundary(doc: Document, id: NodeId, skipHidden: bool)
    requires id in doc.nodes && doc.documentElement in doc.nodes
  {
    !BodyDefersToRoot(doc, id) && ElementScrollable(doc, id, skipHidden)
  }

  /** The walk from position `i` of the chain, `current` being the element
      visited last (the target when `i == 0`). */
  function WalkFrom(doc: Document, ancestors: seq<NodeId>, boundary: Boundary, skipHidden: bool,
                    i: nat, current: NodeId): seq<NodeId>
    requires WalkReadable(doc, ancestors) && i <= |ancestors|
    decreases |ancestors| - i
  {
    if i == |ancestors| || !Accepts(boundary, current) then []
    else if ancestors[i] == doc.ScrollingRoot() then [ancestors[i]]
    else
      (if IsBoundary(doc, ancestors[i], skipHidden) then [ancestors[i]] else []) +
      WalkFrom(doc, ancestors, boundary, skipHidden, i + 1, ancestors[i])
  }

  /** The scroll boundaries of `target`, nearest first. */
  function Walk(doc: Document, target: NodeId, ancestors: seq<NodeId>, boundary: Boundary, skipHidden: bool): seq<NodeId>
    requires WalkReadable(doc, ancestors)
  {
    WalkFrom(doc, ancestors, boundary, skipHidden, 0, target)
  }

  /** The `while` loop of the default export: climbs from the target while the
      current element passes the boundary test; always keeps the scrolling root
      and stops there. */
  method CollectBoundaries(doc: Document, target: NodeId, ancestors: seq<NodeId>, boundary: Boundary, skipHidden: bool)
    returns (frames: seq<NodeId>)
    requires WalkReadable(doc, ancestors)
    ensures frames == Walk(doc, target, ancestors, boundary, skipHidden)
  {
    var root := doc.ScrollingRoot();
    frames := [];
    var m := target;
    var i := 0;
    while i < |ancestors| && Accepts(boundary, m)
      invariant i <= |ancestors|
      invariant i > 0 ==> m == ancestors[i - 1]
      invariant i == 0 ==> m == target
      invariant frames + WalkFrom(doc, ancestors, boundary, skipHidden, i, m) == Walk(doc, target, ancestors, boundary, skipHidden)
    {
      assert WalkFrom(doc, ancestors, boundary, skipHidden, i, m) ==
             if ancestors[i] == root then [ancestors[i]]
             else (if IsBoundary(doc, ancestors[i], skipHidden) then [ancestors[i]] else []) +
                  WalkFrom(doc, ancestors, boundary, skipHidden, i + 1, ancestors[i]);
      m := ancestors[i];
      i := i + 1;
      if m == root {
        frames := frames + [m];
        break;
      }
      if IsBoundary(doc, m, skipHidden) {
        frames := frames + [m];
      }
    }
  }

  /** `xs` can be obtained from `ys` by deleting elements. */
  ghost predicate Subsequence<T>(xs: seq<T>, ys: seq<T>)
    decreases |ys|
  {
    xs == [] ||
    (ys != [] && ((xs[0] == ys[0] && Subsequence(xs[1..], ys[1..])) || Subsequence(xs, ys[1..])))
  }

  /** The boundaries are ancestors of the target, in the order of the chain
      (nearest first). */
  lemma {:induction false} WalkFromIsSubsequence(doc: Document, ancestors: seq<NodeId>, boundary: Boundary,
                                                 skipHidden: bool, i: nat, current: NodeId)
    requires WalkReadable(doc, ancestors) && i <= |ancestors|
    ensures Subsequence(WalkFrom(doc, ancestors, boundary, skipHidden, i, current), ancestors[i..])
    decreases |ancestors| - i
  {
    var r := WalkFrom(doc, ancestors, boundary, skipHidden, i, current);
    if i == |ancestors| || !Accepts(boundary, current) {
    } else if ancestors[i] == doc.ScrollingRoot() {
      assert r[1..] == [];
    } else {
      var rest := WalkFrom(doc, ancestors, boundary, skipHidden, i + 1, ancestors[i]);
      WalkFromIsSubsequence(doc, ancestors, boundary, skipHidden, i + 1, ancestors[i]);
      assert ancestors[i..][1..] == ancestors[i + 1..];
      if IsBoundary(doc, ancestors[i], skipHidden) {
        assert r[0] == ancestors[i..][0] && r[1..] == rest;
      } else {
        assert r == rest;
      }
    }
  }

  lemma WalkIsSubsequence(doc: Document, target: NodeId, ancestors: seq<NodeId>, boundary: Boundary, skipHidden: bool)
    requires WalkReadable(doc, ancestors)
    ensures Subsequence(Walk(doc, target, ancestors, boundary, skipHidden), ancestors)
  {
    WalkFromIsSubsequence(doc, ancestors, boundary, skipHidden, 0, target);
    assert ancestors[0..] == ancestors;
  }

  /** Every collected element is an ancestor, and is either the scrolling root
      or a scroll container that is not the deferring body. */
  lemma {:induction false} WalkFromMembers(doc: Document, ancestors: seq<NodeId>, boundary: Boundary,
                                           skipHidden: bool, i: nat, current: NodeId)
    requires WalkReadable(doc, ancestors) && i <= |ancestors|
    ensures forall x :: x in WalkFrom(doc, ancestors, boundary, skipHidden, i, current) ==>
              x in ancestors[i..] && (x == doc.ScrollingRoot() || IsBoundary(doc, x, skipHidden))
    decreases |ancestors| - i
  {
    if i == |ancestors| || !Accepts(boundary, current) {
    } else if ancestors[i] == doc.ScrollingRoot() {
    } else {
      WalkFromMembers(doc, ancestors, boundary, skipHidden, i + 1, ancestors[i]);
      assert ancestors[i..] == [ancestors[i]] + ancestors[i + 1..];
    }
  }

  lemma WalkMembers(doc: Document, target: NodeId, ancestors: seq<NodeId>, boundary: Boundary, skipHidden: bool)
    requires WalkReadable(doc, ancestors)
    ensures forall x :: x in Walk(doc, target, ancestors, boundary, skipHidden) ==>
              x in ancestors && (x == doc.ScrollingRoot() || IsBoundary(doc, x, skipHidden))
    ensures doc.Records(Walk(doc, target, ancestors, boundary, skipHidden))
  {
    WalkFromMembers(doc, ancestors, boundary, skipHidden, 0, target);
    assert ancestors[0..] == ancestors;
    var r := Walk(doc, target, ancestors, boundary, skipHidden);
    forall k | 0 <= k < |r| ensures r[k] in doc.nodes {
      assert r[k] in r;
    }
  }

  /** Conversely, every scroll container the walk passes is collected: an
      ancestor at position `k` that is the scrolling root or a boundary is in the
      result when the target and everything below `k` pass the boundary test and
      the root does not stop the walk earlier. */
  lemma {:induction false} WalkFromCollectsEvery(doc: Document, ancestors: seq<NodeId>, boundary: Boundary,
                                                 skipHidden: bool, i: nat, current: NodeId, k: nat)
    requires WalkReadable(doc, ancestors) && i <= k < |ancestors| && Accepts(boundary, current)
    requires forall j :: i <= j < k ==> ancestors[j] != doc.ScrollingRoot() && Accepts(boundary, ancestors[j])
    requires ancestors[k] == doc.ScrollingRoot() || IsBoundary(doc, ancestors[k], skipHidden)
    ensures ancestors[k] in WalkFrom(doc, ancestors, boundary, skipHidden, i, current)
    decreases |ancestors| - i
  {
    if i < k {
      WalkFromCollectsEvery(doc, ancestors, boundary, skipHidden, i + 1, ancestors[i], k);
    }
  }

  lemma WalkCollectsEvery(doc: Document, target: NodeId, ancestors: seq<NodeId>, boundary: Boundary,
                          skipHidden: bool, k: nat)
    requires WalkReadable(doc, ancestors) && k < |ancestors| && Accepts(boundary, target)
    requires forall j :: 0 <= j < k ==> ancestors[j] != doc.ScrollingRoot() && Accepts(boundary, ancestors[j])
    requires ancestors[k] == doc.ScrollingRoot() || IsBoundary(doc, ancestors[k], skipHidden)
    ensures ancestors[k] in Walk(doc, target, ancestors, boundary, skipHidden)
  {
    WalkFromCollectsEvery(doc, ancestors, boundary, skipHidden, 0, target, k);
  }

  /** `document.body` is never collected when it defers to the root (and is not
      itself the scrolling root). */
  lemma BodySkippedWhenRootDoesNotScroll(doc: Document, target: NodeId, ancestors: seq<NodeId>, boundary: Boundary,
                                         skipHidden: bool, body: NodeId)
    requires WalkReadable(doc, ancestors) && body in doc.nodes
    requires BodyDefersToRoot(doc, body) && body != doc.ScrollingRoot()
    ensures body !in Walk(doc, target, ancestors, boundary, skipHidden)
  {
    WalkMembers(doc, target, ancestors, boundary, skipHidden);
  }

  /** `root` occurs in `r`, if at all, only as its last element. */
  predicate RootOnlyAtEnd(r: seq<NodeId>, root: NodeId)
  {
    forall k :: 0 <= k < |r| - 1 ==> r[k] != root
  }

  /** The scrolling root, once collected, ends the list. */
  lemma {:induction false} WalkFromRootIsLast(doc: Document, ancestors: seq<NodeId>, boundary: Boundary,
                                              skipHidden: bool, i: nat, current: NodeId)
    requires WalkReadable(doc, ancestors) && i <= |ancestors|
    ensures RootOnlyAtEnd(WalkFrom(doc, ancestors, boundary, skipHidden, i, current), doc.ScrollingRoot())
    decreases |ancestors| - i
  {
    if i == |ancestors| || !Accepts(boundary, current) {
    } else if ancestors[i] == doc.ScrollingRoot() {
    } else {
      WalkFromRootIsLast(doc, ancestors, boundary, skipHidden, i + 1, ancestors[i]);
      var rest := WalkFrom(doc, ancestors, boundary, skipHidden, i + 1, ancestors[i]);
      var r := WalkFrom(doc, ancestors, boundary, skipHidden, i, current);
      if IsBoundary(doc, ancestors[i], skipHidden) {
        assert r == [ancestors[i]] + rest;
        forall k | 0 <= k < |r| - 1 ensures r[k] != doc.ScrollingRoot() {
          if k > 0 {
            assert r[k] == rest[k - 1];
          }
        }
      } else {
        assert r == rest;
      }
    }
  }

  /** If the walk reaches the scrolling root (at position `n` of the chain, with
      the target and every ancestor below it passing the boundary test), the root
      is collected last, whether or not it can scroll. */
  lemma {:induction false} WalkFromReachesRoot(doc: Document, ancestors: seq<NodeId>, boundary: Boundary,
                                               skipHidden: bool, i: nat, current: NodeId, n: nat)
    requires WalkReadable(doc, ancestors) && i <= n < |ancestors|
    requires ancestors[n] == doc.ScrollingRoot() && Accepts(boundary, current)
    requires forall j :: i <= j < n ==> ancestors[j] != doc.ScrollingRoot() && Accepts(boundary, ancestors[j])
    ensures var r := WalkFrom(doc, ancestors, boundary, skipHidden, i, current);
            r != [] && r[|r| - 1] == doc.ScrollingRoot()
    decreases |ancestors| - i
  {
    if ancestors[i] != doc.ScrollingRoot() {
      WalkFromReachesRoot(doc, ancestors, boundary, skipHidden, i + 1, ancestors[i], n);
    }
  }

  lemma RootIsLastBoundary(doc: Document, target: NodeId, ancestors: seq<NodeId>, boundary: Boundary,
                           skipHidden: bool, n: nat)
    requires WalkReadable(doc, ancestors) && n < |ancestors|
    requires ancestors[n] == doc.ScrollingRoot() && Accepts(boundary, target)
    requires forall j :: 0 <= j < n ==> ancestors[j] != doc.ScrollingRoot() && Accepts(boundary, ancestors[j])
    ensures var r := Walk(doc, target, ancestors, boundary, skipHidden);
            r != [] && r[|r| - 1] == doc.ScrollingRoot() && RootOnlyAtEnd(r, doc.ScrollingRoot())
  {
    WalkFromReachesRoot(doc, ancestors, boundary, skipHidden, 0, target, n);
    WalkFromRootIsLast(doc, ancestors, boundary, skipHidden, 0, target);
  }

  /** The element the boundary test rejects is itself still visited: when it is
      a scroll container it is the outermost boundary collected. */
  lemma {:induction false} WalkFromEndsAtRejected(doc: Document, ancestors: seq<NodeId>, boundary: Boundary,
                                                  skipHidden: bool, i: nat, current: NodeId, n: nat)
    requires WalkReadable(doc, ancestors) && i <= n < |ancestors|
    requires Accepts(boundary, current)
    requires forall j :: i <= j < n ==> ancestors[j] != doc.ScrollingRoot() && Accepts(boundary, ancestors[j])
    requires ancestors[n] != doc.ScrollingRoot() && !Accepts(boundary, ancestors[n])
    requires IsBoundary(doc, ancestors[n], skipHidden)
    ensures var r := WalkFrom(doc, ancestors, boundary, skipHidden, i, current);
            r != [] && r[|r| - 1] == ancestors[n]
    decreases |ancestors| - i
  {
    var r := WalkFrom(doc, ancestors, boundary, skipHidden, i, current);
    var rest := WalkFrom(doc, ancestors, boundary, skipHidden, i + 1, ancestors[i]);
    if i < n {
      WalkFromEndsAtRejected(doc, ancestors, boundary, skipHidden, i + 1, ancestors[i], n);
      var head := if IsBoundary(doc, ancestors[i], skipHidden) then [ancestors[i]] else [];
      assert r == head + rest;
      assert r[|r| - 1] == rest[|rest| - 1];
    } else {
      assert rest == [];
      assert r == [ancestors[n]];
    }
  }

  lemma BoundaryElementIsOutermost(doc: Document, target: NodeId, ancestors: seq<NodeId>, boundary: Boundary,
                                   skipHidden: bool, n: nat)
    requires WalkReadable(doc, ancestors) && n < |ancestors| && Accepts(boundary, target)
    requires forall j :: 0 <= j < n ==> ancestors[j] != doc.ScrollingRoot() && Accepts(boundary, ancestors[j])
    requires ancestors[n] != doc.ScrollingRoot() && !Accepts(boundary, ancestors[n])
    requires IsBoundary(doc, ancestors[n], skipHidden)
    ensures var r := Walk(doc, target, ancestors, boundary, skipHidden);
            r != [] && r[|r| - 1] == ancestors[n]
  {
    WalkFromEndsAtRejected(doc, ancestors, boundary, skipHidden, 0, target, n);
  }

  /** The walk never goes above the first element the boundary test rejects:
      if the element visited before position `j` (the target for `j == 0`) is
      rejected, everything collected lies below position `j`. */
  lemma {:induction false} WalkFromStopsAtRejected(doc: Document, ancestors: seq<NodeId>, boundary: Boundary,
                                                   skipHidden: bool, i: nat, current: NodeId, j: nat)
    requires WalkReadable(doc, ancestors) && i <= j <= |ancestors|
    requires i > 0 ==> current == ancestors[i - 1]
    requires if j == 0 then !Accepts(boundary, current) else !Accepts(boundary, ancestors[j - 1])
    ensures forall x :: x in WalkFrom(doc, ancestors, boundary, skipHidden, i, current) ==> x in ancestors[i..j]
    decreases |ancestors| - i
  {
    if i == |ancestors| || !Accepts(boundary, current) {
    } else if ancestors[i] == doc.ScrollingRoot() {
      assert ancestors[i] in ancestors[i..j];
    } else {
      WalkFromStopsAtRejected(doc, ancestors, boundary, skipHidden, i + 1, ancestors[i], j);
      assert ancestors[i..j] == [ancestors[i]] + ancestors[i + 1..j];
    }
  }

  lemma WalkStopsAtRejected(doc: Document, target: NodeId, ancestors: seq<NodeId>, boundary: Boundary,
                            skipHidden: bool, j: nat)
    requires WalkReadable(doc, ancestors) && j <= |ancestors|
    requires if j == 0 then !Accepts(boundary, target) else !Accepts(boundary, ancestors[j - 1])
    ensures forall x :: x in Walk(doc, target, ancestors, boundary, skipHidden) ==> x in ancestors[..j]
  {
    WalkFromStopsAtRejected(doc, ancestors, boundary, skipHidden, 0, target, j);
    assert ancestors[0..j] == ancestors[..j];
  }

  /** Skipping `overflow: hidden` elements only drops boundaries: the list is a
      subsequence of the one collected without skipping. */
  lemma {:induction false} WalkFromSkipHiddenDrops(doc: Document, ancestors: seq<NodeId>, boundary: Boundary,
                                                   i: nat, current: NodeId)
    requires WalkReadable(doc, ancestors) && i <= |ancestors|
    ensures Subsequence(WalkFrom(doc, ancestors, boundary, true, i, current),
                        WalkFrom(doc, ancestors, boundary, false, i, current))
    decreases |ancestors| - i
  {
    var r := WalkFrom(doc, ancestors, boundary, true, i, current);
    var s := WalkFrom(doc, ancestors, boundary, false, i, current);
    if i == |ancestors| || !Accepts(boundary, current) {
    } else if ancestors[i] == doc.ScrollingRoot() {
      assert r == s == [ancestors[i]];
      assert r[1..] == [];
    } else {
      var a := ancestors[i];
      var rr := WalkFrom(doc, ancestors, boundary, true, i + 1, a);
      var ss := WalkFrom(doc, ancestors, boundary, false, i + 1, a);
      WalkFromSkipHiddenDrops(doc, ancestors, boundary, i + 1, a);
      SkipHiddenOnlyRemoves(doc.nodes[a], doc.frameElement);
      if IsBoundary(doc, a, true) {
        assert r == [a] + rr && s == [a] + ss;
        assert r[0] == s[0] && r[1..] == rr && s[1..] == ss;
      } else if IsBoundary(doc, a, false) {
        assert r == rr && s == [a] + ss && s[1..] == ss;
        assert r == [] || Subsequence(r, s[1..]);
      } else {
        assert r == rr && s == ss;
      }
    }
  }

  lemma WalkSkipHiddenDrops(doc: Document, target: NodeId, ancestors: seq<NodeId>, boundary: Boundary)
    requires WalkReadable(doc, ancestors)
    ensures Subsequence(Walk(doc, target, ancestors, boundary, true), Walk(doc, target, ancestors, boundary, false))
  {
    WalkFromSkipHiddenDrops(doc, ancestors, boundary, 0, target);
  }
}
