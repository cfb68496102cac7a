/**
 * An abstract DOM: an element has a tag, a class set, an attribute map, an inline style map,
 * its rendered text and an ordered sequence of child elements. An element of a page is
 * referred to by its path, the child indices leading to it from the document's root.
 */
module Dom {
  import opened Wrappers
  import opened Seqs

  /** Child indices from the document root; `[]` is the root itself. */
  type Path = seq<nat>

  /** The class carried by the container of injected export controls. */
  const ExportMarker: string := "ai-export-buttons"

  datatype Element = Element(
    tag: string,                  // lower-case tag name
    classes: set<string>,
    attrs: map<string, string>,
    style: map<string, string>,   // inline style, keyed by CSS property name
    text: string,                 // the element's rendered text (innerText), taken as given
    children: seq<Element>)

  predicate HasClass(e: Element, c: string) {
    c in e.classes
  }

  /** The attribute selector `[k="v"]`. */
  predicate AttrIs(e: Element, k: string, v: string) {
    k in e.attrs && e.attrs[k] == v
  }

  predicate IsMarker(e: Element) {
    HasClass(e, ExportMarker)
  }

  /** The element at `p` below `e`, if `p` names one. */
  function NodeAt(e: Element, p: Path): Option<Element>
    decreases |p|
  {
    if |p| == 0 then Some(e)
    else if p[0] < |e.children| then NodeAt(e.children[p[0]], p[1..])
    else None
  }

  /** The element at `p` exists and carries the marker class. */
  predicate MarkedAt(e: Element, p: Path) {
    NodeAt(e, p).Some? && IsMarker(NodeAt(e, p).value)
  }

  /**
   * `e.querySelector('.ai-export-buttons') != null`: a proper descendant of `e`
   * carries the marker class (the element itself is not searched).
   */
  predicate HasMarkedDescendant(e: Element)
    decreases e
  {
    exists i :: 0 <= i < |e.children| && (IsMarker(e.children[i]) || HasMarkedDescendant(e.children[i]))
  }

  /** The recursive search agrees with "some non-empty path below `e` names a marked element". */
  lemma {:induction false} MarkedDescendantAt(e: Element)
    ensures HasMarkedDescendant(e) <==> exists p :: |p| > 0 && MarkedAt(e, p)
    decreases e
  {
    if HasMarkedDescendant(e) {
      var i :| 0 <= i < |e.children| && (IsMarker(e.children[i]) || HasMarkedDescendant(e.children[i]));
      if IsMarker(e.children[i]) {
        assert [i][1..] == [];
        assert MarkedAt(e, [i]);
      } else {
        MarkedDescendantAt(e.children[i]);
        var q :| |q| > 0 && MarkedAt(e.children[i], q);
        assert ([i] + q)[1..] == q;
        assert MarkedAt(e, [i] + q);
      }
    }
    if exists p :: |p| > 0 && MarkedAt(e, p) {
      var p :| |p| > 0 && MarkedAt(e, p);
      var i := p[0];
      assert i < |e.children|;
      if |p| == 1 {
        assert p[1..] == [];
        assert NodeAt(e.children[i], p[1..]) == Some(e.children[i]);
      } else {
        MarkedDescendantAt(e.children[i]);
        assert MarkedAt(e.children[i], p[1..]);
      }
    }
  }

  // ---------------------------------------------------------------------------
  // closest('[data-is-streaming="false"]')

  /** The element is marked as a finished (not streaming) response. */
  predicate IsNotStreaming(e: Element) {
    AttrIs(e, "data-is-streaming", "false")
  }

  /**
   * Some element on the way from `e` down to the element at `p`, both ends included,
   * is not streaming: for `e` the document root, the element at `p` has an inclusive
   * ancestor matching `[data-is-streaming="false"]`.
   */
  predicate NotStreamingOnPath(e: Element, p: Path)
    decreases |p|
  {
    IsNotStreaming(e) || (|p| > 0 && p[0] < |e.children| && NotStreamingOnPath(e.children[p[0]], p[1..]))
  }

  // ---------------------------------------------------------------------------
  // Tags above an element

  /**
   * Some element strictly above the end of `p`, starting with `e` itself, has tag `tag`:
   * for `e` an element, the element at `p` below it has `e` or one of its descendants
   * as a proper ancestor with that tag.
   */
  predicate TagAbove(e: Element, p: Path, tag: string)
    decreases |p|
  {
    |p| > 0 && (e.tag == tag || (p[0] < |e.children| && TagAbove(e.children[p[0]], p[1..], tag)))
  }

  /**
   * The element at `p` below `root` has a proper ancestor with tag `tag` that is itself a
   * proper descendant of `root` (`root.querySelectorAll(tag)` followed by a search below it).
   */
  predicate TagBetween(root: Element, p: Path, tag: string) {
    |p| > 0 && p[0] < |root.children| && TagAbove(root.children[p[0]], p[1..], tag)
  }

  // ---------------------------------------------------------------------------
  // Document order (the order of querySelectorAll)

  /** One element met by the traversal, with whether an inclusive ancestor is not streaming. */
  datatype Visit = Visit(path: Path, node: Element, settled: bool)

  /**
   * All elements of the subtree `e` (found at `base`) in document order. `above` says whether
   * a proper ancestor of `e` is not streaming; the flag is passed down the traversal.
   */
  function Preorder(e: Element, base: Path, above: bool): seq<Visit>
    decreases e, 1, 0
  {
    var here := above || IsNotStreaming(e);
    [Visit(base, e, here)] + ChildVisits(e, base, here, 0)
  }

  /** The subtrees of `e.children[i..]`, one after another. */
  function ChildVisits(e: Element, base: Path, here: bool, i: nat): seq<Visit>
    requires i <= |e.children|
    decreases e, 0, |e.children| - i
  {
    if i == |e.children| then []
    else Preorder(e.children[i], base + [i], here) + ChildVisits(e, base, here, i + 1)
  }

  /** Every element of the document, the root first, in document order. */
  function DocumentOrder(doc: Element): seq<Visit> {
    Preorder(doc, [], false)
  }

  function VisitPaths(vs: seq<Visit>): seq<Path> {
    Map(vs, (v: Visit) => v.path)
  }

  /** What a visit found below `base` says about the subtree `e`. */
  predicate VisitFits(e: Element, base: Path, above: bool, v: Visit) {
    && |base| <= |v.path|
    && v.path[..|base|] == base
    && NodeAt(e, v.path[|base|..]) == Some(v.node)
    && v.settled == (above || NotStreamingOnPath(e, v.path[|base|..]))
  }

  /** Each visit names the element found at its path and whether it has a non-streaming inclusive ancestor. */
  lemma {:induction false} PreorderSound(e: Element, base: Path, above: bool)
    ensures forall v :: v in Preorder(e, base, above) ==> VisitFits(e, base, above, v)
    decreases e, 1, 0
  {
    var here := above || IsNotStreaming(e);
    ChildVisitsSound(e, base, here, 0);
    forall v | v in Preorder(e, base, above) ensures VisitFits(e, base, above, v) {
      if v != Preorder(e, base, above)[0] {
        assert v in ChildVisits(e, base, here, 0);
        var rel := v.path[|base|..];
        var i := v.path[|base|];
        assert rel[0] == i && rel[1..] == v.path[|base| + 1..];
      }
    }
  }

  lemma {:induction false} ChildVisitsSound(e: Element, base: Path, here: bool, i: nat)
    requires i <= |e.children|
    ensures forall v :: v in ChildVisits(e, base, here, i) ==>
      && |base| < |v.path|
      && v.path[..|base|] == base
      && i <= v.path[|base|] < |e.children|
      && NodeAt(e.children[v.path[|base|]], v.path[|base| + 1..]) == Some(v.node)
      && v.settled == (here || NotStreamingOnPath(e.children[v.path[|base|]], v.path[|base| + 1..]))
    decreases e, 0, |e.children| - i
  {
    if i < |e.children| {
      var c := e.children[i];
      PreorderSound(c, base + [i], here);
      ChildVisitsSound(e, base, here, i + 1);
      forall v | v in Preorder(c, base + [i], here)
        ensures v.path[..|base|] == base && v.path[|base|] == i
      {
        assert v.path[..|base| + 1] == base + [i];
        assert v.path[..|base|] == v.path[..|base| + 1][..|base|];
      }
      forall v | v in Preorder(c, base + [i], here)
        ensures v.path[|base| + 1..] == v.path[|base + [i]|..]
      {
      }
    }
  }

  /** The traversal reaches every element of the subtree. */
  lemma {:induction false} PreorderComplete(e: Element, base: Path, above: bool, rel: Path)
    requires NodeAt(e, rel).Some?
    ensures exists v :: v in Preorder(e, base, above) && v.path == base + rel
    decreases e
  {
    var here := above || IsNotStreaming(e);
    if |rel| == 0 {
      assert Preorder(e, base, above)[0].path == base + rel;
    } else {
      var i := rel[0];
      PreorderComplete(e.children[i], base + [i], here, rel[1..]);
      var v :| v in Preorder(e.children[i], base + [i], here) && v.path == base + [i] + rel[1..];
      assert base + [i] + rel[1..] == base + rel;
      ChildVisitsIncludes(e, base, here, 0, i);
    }
  }

  lemma {:induction false} ChildVisitsIncludes(e: Element, base: Path, here: bool, j: nat, i: nat)
    requires j <= i < |e.children|
    ensures forall v :: v in Preorder(e.children[i], base + [i], here) ==> v in ChildVisits(e, base, here, j)
    decreases i - j
  {
    if j < i {
      ChildVisitsIncludes(e, base, here, j + 1, i);
    }
  }

  lemma VisitPathsAppend(a: seq<Visit>, b: seq<Visit>)
    ensures VisitPaths(a + b) == VisitPaths(a) + VisitPaths(b)
  {
    assert forall k :: 0 <= k < |a + b| ==> VisitPaths(a + b)[k] == (VisitPaths(a) + VisitPaths(b))[k];
  }

  lemma DistinctAppend(a: seq<Path>, b: seq<Path>)
    requires Distinct(a) && Distinct(b)
    requires forall x, y :: x in a && y in b ==> x != y
    ensures Distinct(a + b)
  {
    forall i, j | 0 <= i < j < |a + b| ensures (a + b)[i] != (a + b)[j] {
      if j < |a| {
        assert (a + b)[i] == a[i] && (a + b)[j] == a[j];
      } else if i >= |a| {
        assert (a + b)[i] == b[i - |a|] && (a + b)[j] == b[j - |a|];
      } else {
        assert (a + b)[i] == a[i] && (a + b)[j] == b[j - |a|];
        assert a[i] in a && b[j - |a|] in b;
      }
    }
  }

  /** Document order lists no element twice: the visited paths are pairwise different. */
  lemma {:induction false} PreorderDistinct(e: Element, base: Path, above: bool)
    ensures Distinct(VisitPaths(Preorder(e, base, above)))
    decreases e, 1, 0
  {
    var here := above || IsNotStreaming(e);
    var rest := ChildVisits(e, base, here, 0);
    ChildVisitsDistinct(e, base, here, 0);
    ChildVisitsSound(e, base, here, 0);
    VisitPathsAppend([Visit(base, e, here)], rest);
    forall y | y in VisitPaths(rest) ensures base != y {
      var k :| 0 <= k < |rest| && VisitPaths(rest)[k] == y;
      assert rest[k] in rest;
    }
    DistinctAppend(VisitPaths([Visit(base, e, here)]), VisitPaths(rest));
  }

  lemma {:induction false} ChildVisitsDistinct(e: Element, base: Path, here: bool, i: nat)
    requires i <= |e.children|
    ensures Distinct(VisitPaths(ChildVisits(e, base, here, i)))
    decreases e, 0, |e.children| - i
  {
    if i < |e.children| {
      var first := Preorder(e.children[i], base + [i], here);
      var rest := ChildVisits(e, base, here, i + 1);
      PreorderDistinct(e.children[i], base + [i], here);
      ChildVisitsDistinct(e, base, here, i + 1);
      PreorderSound(e.children[i], base + [i], here);
      ChildVisitsSound(e, base, here, i + 1);
      VisitPathsAppend(first, rest);
      forall x, y | x in VisitPaths(first) && y in VisitPaths(rest) ensures x != y {
        var a :| 0 <= a < |first| && VisitPaths(first)[a] == x;
        var b :| 0 <= b < |rest| && VisitPaths(rest)[b] == y;
        assert first[a] in first && rest[b] in rest;
        assert x[..|base| + 1] == base + [i];
        assert x[|base|] == i;
      }
      DistinctAppend(VisitPaths(first), VisitPaths(rest));
    }
  }

  // ---------------------------------------------------------------------------
  // Ancestors before descendants

  /** `p` names `q`'s element or one of its ancestors. */
  predicate IsPrefix(p: Path, q: Path) {
    |p| <= |q| && q[..|p|] == p
  }

  /**
   * No path names an element at or above one named earlier: every element comes before its
   * descendants, and none comes twice.
   */
  predicate AncestorsFirst(ps: seq<Path>) {
    Pairwise(ps, ComesAfter)
  }

  /** `y`, listed after `x`, names neither `x`'s element nor an ancestor of it. */
  predicate ComesAfter(x: Path, y: Path) {
    !IsPrefix(y, x)
  }

  /** Two paths with the same first step: one names an ancestor of the other's element exactly when their tails do. */
  lemma PrefixStep(p: Path, q: Path)
    requires |p| > 0 && |q| > 0 && p[0] == q[0]
    ensures IsPrefix(p, q) <==> IsPrefix(p[1..], q[1..])
  {
    if |p| <= |q| {
      assert q[..|p|] == [q[0]] + q[1..][..|p| - 1];
      assert p == [p[0]] + p[1..];
    }
  }

  /** An element exists wherever a descendant of it does. */
  lemma {:induction false} NodeAtPrefix(e: Element, r: Path, q: Path)
    ensures IsPrefix(r, q) && NodeAt(e, q).Some? ==> NodeAt(e, r).Some?
    decreases |r|
  {
    if |r| > 0 && |q| > 0 && r[0] == q[0] && r[0] < |e.children| {
      PrefixStep(r, q);
      NodeAtPrefix(e.children[r[0]], r[1..], q[1..]);
    }
  }

  /** One more step down a path names a child of the element the path names. */
  lemma {:induction false} NodeAtExtend(e: Element, p: Path, i: nat)
    ensures NodeAt(e, p + [i]) ==
      if NodeAt(e, p).Some? && i < |NodeAt(e, p).value.children| then Some(NodeAt(e, p).value.children[i]) else None
    decreases |p|
  {
    if |p| == 0 {
      assert (p + [i])[1..] == [];
    } else {
      assert (p + [i])[0] == p[0] && (p + [i])[1..] == p[1..] + [i];
      if p[0] < |e.children| {
        NodeAtExtend(e.children[p[0]], p[1..], i);
      }
    }
  }

  lemma AncestorsFirstAppend(a: seq<Path>, b: seq<Path>)
    requires AncestorsFirst(a) && AncestorsFirst(b)
    requires forall x, y :: x in a && y in b ==> !IsPrefix(y, x)
    ensures AncestorsFirst(a + b)
  {
    forall i, j | 0 <= i < j < |a + b| ensures !IsPrefix((a + b)[j], (a + b)[i]) {
      if j < |a| {
        assert (a + b)[i] == a[i] && (a + b)[j] == a[j];
      } else if i >= |a| {
        assert (a + b)[i] == b[i - |a|] && (a + b)[j] == b[j - |a|];
      } else {
        assert (a + b)[i] == a[i] && (a + b)[j] == b[j - |a|];
        assert a[i] in a && b[j - |a|] in b;
      }
    }
  }

  /** Document order visits every element before its descendants, and each element once. */
  lemma {:induction false} PreorderAncestorsFirst(e: Element, base: Path, above: bool)
    ensures AncestorsFirst(VisitPaths(Preorder(e, base, above)))
    decreases e, 1, 0
  {
    var here := above || IsNotStreaming(e);
    var rest := ChildVisits(e, base, here, 0);
    ChildVisitsAncestorsFirst(e, base, here, 0);
    ChildVisitsSound(e, base, here, 0);
    VisitPathsAppend([Visit(base, e, here)], rest);
    forall y | y in VisitPaths(rest) ensures !IsPrefix(y, base) {
      var k :| 0 <= k < |rest| && VisitPaths(rest)[k] == y;
      assert rest[k] in rest;
    }
    AncestorsFirstAppend(VisitPaths([Visit(base, e, here)]), VisitPaths(rest));
  }

  lemma {:induction false} ChildVisitsAncestorsFirst(e: Element, base: Path, here: bool, i: nat)
    requires i <= |e.children|
    ensures AncestorsFirst(VisitPaths(ChildVisits(e, base, here, i)))
    decreases e, 0, |e.children| - i
  {
    if i < |e.children| {
      var first := Preorder(e.children[i], base + [i], here);
      var rest := ChildVisits(e, base, here, i + 1);
      PreorderAncestorsFirst(e.children[i], base + [i], here);
      ChildVisitsAncestorsFirst(e, base, here, i + 1);
      PreorderSound(e.children[i], base + [i], here);
      ChildVisitsSound(e, base, here, i + 1);
      VisitPathsAppend(first, rest);
      forall x, y | x in VisitPaths(first) && y in VisitPaths(rest) ensures !IsPrefix(y, x) {
        var a :| 0 <= a < |first| && VisitPaths(first)[a] == x;
        var b :| 0 <= b < |rest| && VisitPaths(rest)[b] == y;
        assert first[a] in first && rest[b] in rest;
        assert x[..|base| + 1] == base + [i];
        assert x[|base|] == i;
        assert |base| < |y| && y[|base|] != x[|base|];
      }
      AncestorsFirstAppend(VisitPaths(first), VisitPaths(rest));
    }
  }
}
