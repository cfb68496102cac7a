/**
 * The content script's injection pass: find the page's answers, append one block of export
 * controls to each answer that has none yet, and retry on a timer while the page shows no
 * answers, at most ten attempts in all.
 */
module ContentScript {
  import opened Wrappers
  import opened Seqs
  import opened Types
  import opened Dom
  import opened WebsiteDetector
  import opened ExportManager

  const MaxAttempts: nat := 10
  const RetryDelayMs: nat := 1000

  // ---------------------------------------------------------------------------
  // The controls block

  const ContainerStyle: map<string, string> :=
    map["margin-top" := "12px", "margin-bottom" := "12px", "display" := "flex", "gap" := "8px", "flex-wrap" := "wrap"]

  /** The inline style shared by both buttons; only the background differs. */
  function ButtonStyle(background: string): map<string, string> {
    map[
      "background" := background,
      "color" := "white",
      "border" := "none",
      "padding" := "8px 16px",
      "border-radius" := "6px",
      "cursor" := "pointer",
      "font-size" := "14px",
      "font-weight" := "500",
      "transition" := "background-color 0.2s",
      "display" := "flex",
      "align-items" := "center",
      "gap" := "6px"]
  }

  const DownloadPdfText: string := "\U{1F4C4} Download PDF"
  const PrintText: string := "\U{1F5A8}\U{FE0F} Print"

  const PdfButtonElement: Element := Element("button", {}, map[], ButtonStyle("#4285f4"), DownloadPdfText, [])
  const PrintButtonElement: Element := Element("button", {}, map[], ButtonStyle("#34a853"), PrintText, [])

  /** The container appended to an answer: the marker class, the PDF button, then the print button. */
  const Controls: Element :=
    Element("div", {ExportMarker}, map[], ContainerStyle, "", [PdfButtonElement, PrintButtonElement])

  /** One of the three elements a controls block is made of. */
  predicate IsControlsBlueprint(e: Element) {
    e == Controls || e == PdfButtonElement || e == PrintButtonElement
  }

  /** The element is the container or a button of a controls block, whatever has been appended to it. */
  predicate IsControlsPart(e: Element) {
    || e.(children := []) == Controls.(children := [])
    || e.(children := []) == PdfButtonElement
    || e.(children := []) == PrintButtonElement
  }

  /** No site's selector group matches the controls block or its buttons. */
  lemma ControlsNeverSelected(site: Site, e: Element)
    requires IsControlsPart(e)
    ensures !Selects(site, e)
  {
    assert e.attrs == map[];
    assert "prose" != ExportMarker && "font-claude-message" != ExportMarker && "message-content" != ExportMarker;
    assert "group/conversation-turn" != ExportMarker && "answer-content" != ExportMarker && "result-content" != ExportMarker;
  }

  // ---------------------------------------------------------------------------
  // answerElement.appendChild(buttonsContainer)

  /** Appends a controls block as the last child of the element at `p` (no change when `p` names none). */
  function AppendControls(doc: Element, p: Path): Element
    decreases |p|
  {
    if |p| == 0 then doc.(children := doc.children + [Controls])
    else if p[0] < |doc.children| then
      doc.(children := doc.children[p[0] := AppendControls(doc.children[p[0]], p[1..])])
    else doc
  }

  /**
   * `b` is `a` with zero or more controls blocks appended below it: every element keeps its
   * tag, classes, attributes, style and text and its children in order, and each child
   * beyond the original ones is a controls block (itself possibly grown).
   */
  predicate Grown(a: Element, b: Element)
    decreases b
  {
    && b.(children := a.children) == a
    && |a.children| <= |b.children|
    && (forall i :: 0 <= i < |a.children| ==> Grown(a.children[i], b.children[i]))
    && (forall i :: |a.children| <= i < |b.children| ==> Grown(Controls, b.children[i]))
  }

  lemma {:induction false} GrownReflexive(a: Element)
    ensures Grown(a, a)
    decreases a
  {
    forall i | 0 <= i < |a.children|
      ensures Grown(a.children[i], a.children[i])
    {
      GrownReflexive(a.children[i]);
    }
  }

  lemma {:induction false} GrownTransitive(a: Element, b: Element, c: Element)
    requires Grown(a, b) && Grown(b, c)
    ensures Grown(a, c)
    decreases c
  {
    forall i | 0 <= i < |a.children|
      ensures Grown(a.children[i], c.children[i])
    {
      GrownTransitive(a.children[i], b.children[i], c.children[i]);
    }
    forall i | |a.children| <= i < |b.children|
      ensures Grown(Controls, c.children[i])
    {
      GrownTransitive(Controls, b.children[i], c.children[i]);
    }
  }

  /** Appending a controls block grows the page. */
  lemma {:induction false} AppendGrows(doc: Element, p: Path)
    ensures Grown(doc, AppendControls(doc, p))
    decreases |p|
  {
    var r := AppendControls(doc, p);
    GrownReflexive(Controls);
    forall i | 0 <= i < |doc.children|
      ensures Grown(doc.children[i], r.children[i])
    {
      if |p| > 0 && i == p[0] {
        AppendGrows(doc.children[i], p[1..]);
      } else {
        GrownReflexive(doc.children[i]);
      }
    }
  }

  /**
   * The element at `p` gains exactly one child, a controls block, as its last child, and so
   * contains export controls afterwards.
   */
  lemma {:induction false} AppendMarks(doc: Element, p: Path)
    requires NodeAt(doc, p).Some?
    ensures var n := NodeAt(AppendControls(doc, p), p);
      && n.Some?
      && n.value.children == NodeAt(doc, p).value.children + [Controls]
      && HasMarkedDescendant(n.value)
    decreases |p|
  {
    if |p| == 0 {
      var n := AppendControls(doc, p);
      assert IsMarker(n.children[|n.children| - 1]);
    } else {
      AppendMarks(doc.children[p[0]], p[1..]);
    }
  }

  /** Appending below `q` leaves the number of children of every other element unchanged. */
  lemma {:induction false} AppendElsewhere(doc: Element, q: Path, p: Path)
    requires NodeAt(doc, p).Some? && p != q
    ensures NodeAt(AppendControls(doc, q), p).Some?
    ensures |NodeAt(AppendControls(doc, q), p).value.children| == |NodeAt(doc, p).value.children|
    decreases |p|
  {
    var r := AppendControls(doc, q);
    if |p| == 0 {
      assert |q| > 0;
    } else if |q| > 0 && q[0] == p[0] {
      assert p == [p[0]] + p[1..] && q == [q[0]] + q[1..];
      AppendElsewhere(doc.children[p[0]], q[1..], p[1..]);
    } else {
      assert r.children[p[0]] == doc.children[p[0]];
    }
  }

  /** Appending below `q` leaves every element that is neither `q`'s element nor an ancestor of it as it was. */
  lemma {:induction false} AppendKeepsOthers(doc: Element, q: Path, p: Path)
    requires NodeAt(doc, p).Some? && !IsPrefix(p, q)
    ensures NodeAt(AppendControls(doc, q), p) == NodeAt(doc, p)
    decreases |p|
  {
    var r := AppendControls(doc, q);
    assert |p| > 0;
    if |q| > 0 && q[0] == p[0] {
      PrefixStep(p, q);
      AppendKeepsOthers(doc.children[p[0]], q[1..], p[1..]);
    } else {
      assert r.children[p[0]] == doc.children[p[0]];
    }
  }

  /** A grown page still has every element of the original, grown in turn. */
  lemma {:induction false} GrownNodeAt(a: Element, b: Element, p: Path)
    requires Grown(a, b) && NodeAt(a, p).Some?
    ensures NodeAt(b, p).Some? && Grown(NodeAt(a, p).value, NodeAt(b, p).value)
    decreases |p|
  {
    if |p| > 0 {
      GrownNodeAt(a.children[p[0]], b.children[p[0]], p[1..]);
    }
  }

  /**
   * `b` is `a` with zero or more marked blocks added below it, each with any content: every
   * element of `a` keeps its fields and its children in order, and every child after those
   * carries the marker class. Unlike `Grown`, a block may have changed since it was built,
   * as when its PDF button has been relabelled, disabled or recoloured.
   */
  predicate Decorated(a: Element, b: Element)
    decreases b
  {
    && b.(children := a.children) == a
    && |a.children| <= |b.children|
    && (forall i :: 0 <= i < |a.children| ==> Decorated(a.children[i], b.children[i]))
    && (forall i :: |a.children| <= i < |b.children| ==> IsMarker(b.children[i]))
  }

  lemma DecoratedKeepsClasses(a: Element, b: Element)
    requires Decorated(a, b)
    ensures b.classes == a.classes
  {
    assert b.(children := a.children).classes == b.classes;
  }

  /** Appending controls blocks as built is one way of decorating. */
  lemma {:induction false} GrownDecorated(a: Element, b: Element)
    requires Grown(a, b)
    ensures Decorated(a, b)
    decreases b
  {
    forall i | 0 <= i < |a.children|
      ensures Decorated(a.children[i], b.children[i])
    {
      GrownDecorated(a.children[i], b.children[i]);
    }
    forall i | |a.children| <= i < |b.children|
      ensures IsMarker(b.children[i])
    {
      assert b.children[i].classes == Controls.classes;
    }
  }

  /** Replacing an added block by any other marked element keeps the page decorated. */
  lemma BlockEditedDecorated(a: Element, b: Element, i: nat, block: Element)
    requires Decorated(a, b) && |a.children| <= i < |b.children| && IsMarker(block)
    ensures Decorated(a, b.(children := b.children[i := block]))
  {
  }

  /**
   * Children decorated from `xs`, with only marked blocks after them: the children the export
   * copy keeps are the same number, each decorated from its counterpart.
   */
  lemma {:induction false} KeptChildrenDecorated(xs: seq<Element>, ys: seq<Element>)
    requires |xs| <= |ys|
    requires forall i :: 0 <= i < |xs| ==> Decorated(xs[i], ys[i])
    requires forall i :: |xs| <= i < |ys| ==> IsMarker(ys[i])
    ensures |Filter(xs, IsKept)| == |Filter(ys, IsKept)|
    ensures forall j :: 0 <= j < |Filter(xs, IsKept)| ==> Decorated(Filter(xs, IsKept)[j], Filter(ys, IsKept)[j])
    decreases |ys|
  {
    if |ys| > 0 && |xs| == 0 {
      assert !IsKept(ys[0]);
      KeptChildrenDecorated(xs, ys[1..]);
    } else if |ys| > 0 {
      DecoratedKeepsClasses(xs[0], ys[0]);
      KeptChildrenDecorated(xs[1..], ys[1..]);
    }
  }

  /**
   * The export copy of a decorated element is the export copy of the original: the copy drops
   * exactly the blocks that were added, whatever they hold by now.
   */
  lemma {:induction false} StripDecorated(a: Element, b: Element)
    requires Decorated(a, b)
    ensures StripMarkers(b) == StripMarkers(a)
    decreases b
  {
    var ka := Filter(a.children, IsKept);
    var kb := Filter(b.children, IsKept);
    KeptChildrenDecorated(a.children, b.children);
    forall j | 0 <= j < |ka|
      ensures StripMarkers(kb[j]) == StripMarkers(ka[j])
    {
      assert kb[j] in kb;
      StripDecorated(ka[j], kb[j]);
    }
    assert StripMarkers(b).children == StripMarkers(a).children;
  }

  /**
   * The export copy of a grown element is the export copy of the original: the copy drops
   * exactly the controls that growth added.
   */
  lemma StripGrown(a: Element, b: Element)
    requires Grown(a, b)
    ensures StripMarkers(b) == StripMarkers(a)
  {
    GrownDecorated(a, b);
    StripDecorated(a, b);
  }

  /** Controls already present stay present. */
  lemma {:induction false} GrownKeepsMarks(a: Element, b: Element)
    requires Grown(a, b) && HasMarkedDescendant(a)
    ensures HasMarkedDescendant(b)
    decreases a
  {
    var i :| 0 <= i < |a.children| && (IsMarker(a.children[i]) || HasMarkedDescendant(a.children[i]));
    if !IsMarker(a.children[i]) {
      GrownKeepsMarks(a.children[i], b.children[i]);
    }
    assert IsMarker(b.children[i]) || HasMarkedDescendant(b.children[i]);
  }

  /** Attributes are untouched, so whether an element sits under a finished response is too. */
  lemma {:induction false} GrownKeepsSettled(a: Element, b: Element, p: Path)
    requires Grown(a, b) && NodeAt(a, p).Some?
    ensures NotStreamingOnPath(a, p) <==> NotStreamingOnPath(b, p)
    decreases |p|
  {
    if |p| > 0 {
      GrownKeepsSettled(a.children[p[0]], b.children[p[0]], p[1..]);
    }
  }

  /** Everything inside an element grown from a part of a controls block is part of one. */
  lemma {:induction false} GrownFromControls(y: Element, x: Element, q: Path)
    requires IsControlsBlueprint(y) && Grown(y, x) && NodeAt(x, q).Some?
    ensures IsControlsPart(NodeAt(x, q).value)
    decreases |q|
  {
    if |q| == 0 {
      assert x.(children := []) == y.(children := []);
    } else if q[0] < |y.children| {
      assert y == Controls;
      assert y.children[q[0]] == PdfButtonElement || y.children[q[0]] == PrintButtonElement;
      GrownFromControls(y.children[q[0]], x.children[q[0]], q[1..]);
    } else {
      GrownFromControls(Controls, x.children[q[0]], q[1..]);
    }
  }

  /** Every element of the grown page that the original lacks is part of a controls block. */
  lemma {:induction false} GrownNewNodes(a: Element, b: Element, p: Path)
    requires Grown(a, b) && NodeAt(a, p).None? && NodeAt(b, p).Some?
    ensures IsControlsPart(NodeAt(b, p).value)
    decreases |p|
  {
    if p[0] < |a.children| {
      GrownNewNodes(a.children[p[0]], b.children[p[0]], p[1..]);
    } else {
      GrownFromControls(Controls, b.children[p[0]], p[1..]);
    }
  }

  // ---------------------------------------------------------------------------
  // The injection pass

  /** Appends controls to the element at `p` unless it already contains some. */
  function AttachIfUnmarked(doc: Element, p: Path): Element {
    if NodeAt(doc, p).Some? && !HasMarkedDescendant(NodeAt(doc, p).value) then AppendControls(doc, p) else doc
  }

  /** `answers.forEach(...)`: the guarded attach for each answer in turn, on the page as it stands. */
  function AttachAll(doc: Element, answers: seq<Answer>): Element
    decreases |answers|
  {
    if |answers| == 0 then doc else AttachAll(AttachIfUnmarked(doc, answers[0].element), answers[1..])
  }

  lemma {:induction false} AttachAllGrows(doc: Element, answers: seq<Answer>)
    ensures Grown(doc, AttachAll(doc, answers))
    decreases |answers|
  {
    if |answers| == 0 {
      GrownReflexive(doc);
    } else {
      var next := AttachIfUnmarked(doc, answers[0].element);
      if next == doc {
        GrownReflexive(doc);
      } else {
        AppendGrows(doc, answers[0].element);
      }
      AttachAllGrows(next, answers[1..]);
      GrownTransitive(doc, next, AttachAll(doc, answers));
    }
  }

  /** After the pass every answer element of the page contains export controls. */
  lemma {:induction false} AttachAllMarks(doc: Element, answers: seq<Answer>)
    ensures forall a :: a in answers && NodeAt(doc, a.element).Some? ==>
      NodeAt(AttachAll(doc, answers), a.element).Some? && HasMarkedDescendant(NodeAt(AttachAll(doc, answers), a.element).value)
    decreases |answers|
  {
    if |answers| > 0 {
      var p := answers[0].element;
      var next := AttachIfUnmarked(doc, p);
      var r := AttachAll(doc, answers);
      AttachAllMarks(next, answers[1..]);
      AttachAllGrows(next, answers[1..]);
      if NodeAt(doc, p).Some? {
        if HasMarkedDescendant(NodeAt(doc, p).value) {
          assert next == doc;
        } else {
          AppendMarks(doc, p);
        }
        GrownNodeAt(next, r, p);
        GrownKeepsMarks(NodeAt(next, p).value, NodeAt(r, p).value);
      }
      forall a | a in answers && NodeAt(doc, a.element).Some?
        ensures NodeAt(r, a.element).Some? && HasMarkedDescendant(NodeAt(r, a.element).value)
      {
        if a.element != p {
          assert a in answers[1..];
          if next != doc {
            AppendGrows(doc, p);
          } else {
            GrownReflexive(doc);
          }
          GrownNodeAt(doc, next, a.element);
        }
      }
    }
  }

  /**
   * Only answer elements gain children, and each at most one: an element named by no answer
   * keeps its number of children, one named by an answer gains at most one.
   */
  lemma {:induction false} AttachAllOnlyAnswers(doc: Element, answers: seq<Answer>, p: Path)
    requires Distinct(AnswerPaths(answers)) && NodeAt(doc, p).Some?
    ensures NodeAt(AttachAll(doc, answers), p).Some?
    ensures |NodeAt(AttachAll(doc, answers), p).value.children| <=
      |NodeAt(doc, p).value.children| + (if p in AnswerPaths(answers) then 1 else 0)
    ensures p !in AnswerPaths(answers) ==>
      |NodeAt(AttachAll(doc, answers), p).value.children| == |NodeAt(doc, p).value.children|
    decreases |answers|
  {
    if |answers| == 0 {
    } else {
      var q := answers[0].element;
      var next := AttachIfUnmarked(doc, q);
      var rest := answers[1..];
      assert AnswerPaths(answers) == [q] + AnswerPaths(rest);
      assert Distinct(AnswerPaths(rest)) by {
        forall i, j | 0 <= i < j < |AnswerPaths(rest)|
          ensures AnswerPaths(rest)[i] != AnswerPaths(rest)[j]
        {
          assert AnswerPaths(rest)[i] == AnswerPaths(answers)[i + 1];
          assert AnswerPaths(rest)[j] == AnswerPaths(answers)[j + 1];
        }
      }
      if p == q {
        forall j | 0 <= j < |AnswerPaths(rest)|
          ensures AnswerPaths(rest)[j] != p
        {
          assert AnswerPaths(rest)[j] == AnswerPaths(answers)[j + 1];
        }
        if next != doc {
          AppendMarks(doc, p);
        }
      } else if next != doc {
        AppendElsewhere(doc, q, p);
      }
      AttachAllOnlyAnswers(next, rest, p);
    }
  }

  /** The pass leaves an element untouched when no answer names it or an element below it. */
  lemma {:induction false} AttachAllKeepsNode(doc: Element, answers: seq<Answer>, t: Path)
    requires NodeAt(doc, t).Some?
    requires forall a :: a in answers ==> !IsPrefix(t, a.element)
    ensures NodeAt(AttachAll(doc, answers), t) == NodeAt(doc, t)
    decreases |answers|
  {
    if |answers| > 0 {
      var next := AttachIfUnmarked(doc, answers[0].element);
      if next != doc {
        AppendKeepsOthers(doc, answers[0].element, t);
      }
      assert forall a :: a in answers[1..] ==> a in answers;
      AttachAllKeepsNode(next, answers[1..], t);
    }
  }

  /**
   * The element at `p` has gained exactly one child, a controls block, after its original
   * children, which are kept in order (grown at most).
   */
  predicate ControlsAddedOnce(before: Element, after: Element, p: Path) {
    && NodeAt(before, p).Some?
    && NodeAt(after, p).Some?
    && var was := NodeAt(before, p).value.children;
       var now := NodeAt(after, p).value.children;
       && |now| == |was| + 1
       && now[|was|] == Controls
       && forall i :: 0 <= i < |was| ==> Grown(was[i], now[i])
  }

  /**
   * The block appended to the first answer survives the rest of the loop: no later answer is
   * that element or an ancestor of it, and none lies below the new block.
   */
  lemma FirstAnswerKeepsBlock(doc: Element, q: Path, rest: seq<Answer>)
    requires NodeAt(doc, q).Some?
    requires Distinct(AnswerPaths(rest))
    requires forall a :: a in rest ==> NodeAt(doc, a.element).Some? && !IsPrefix(a.element, q)
    ensures ControlsAddedOnce(doc, AttachAll(AppendControls(doc, q), rest), q)
  {
    var next := AppendControls(doc, q);
    var r := AttachAll(next, rest);
    AppendMarks(doc, q);
    var n := |NodeAt(doc, q).value.children|;
    NodeAtExtend(next, q, n);
    NodeAtExtend(doc, q, n);
    forall a | a in rest
      ensures !IsPrefix(q + [n], a.element)
    {
      NodeAtPrefix(doc, q + [n], a.element);
    }
    forall j | 0 <= j < |AnswerPaths(rest)|
      ensures AnswerPaths(rest)[j] != q
    {
      assert AnswerPaths(rest)[j] == rest[j].element;
      assert rest[j] in rest;
    }
    AttachAllOnlyAnswers(next, rest, q);
    AttachAllKeepsNode(next, rest, q + [n]);
    NodeAtExtend(r, q, n);
    AttachAllGrows(next, rest);
    GrownNodeAt(next, r, q);
  }

  /** The answers after the first still come ancestors first, and none is an ancestor of the first. */
  lemma AncestorsFirstTail(answers: seq<Answer>)
    requires |answers| > 0 && AncestorsFirst(AnswerPaths(answers))
    ensures AncestorsFirst(AnswerPaths(answers[1..]))
    ensures Distinct(AnswerPaths(answers[1..]))
    ensures forall a :: a in answers[1..] ==> !IsPrefix(a.element, answers[0].element)
  {
    var paths := AnswerPaths(answers);
    var rest := answers[1..];
    forall a | a in rest
      ensures !IsPrefix(a.element, answers[0].element)
    {
      var j :| 0 <= j < |rest| && rest[j] == a;
      assert paths[0] == answers[0].element && paths[j + 1] == rest[j].element;
      assert ComesAfter(paths[0], paths[j + 1]);
    }
    forall i, j | 0 <= i < j < |AnswerPaths(rest)|
      ensures ComesAfter(AnswerPaths(rest)[i], AnswerPaths(rest)[j])
      ensures AnswerPaths(rest)[i] != AnswerPaths(rest)[j]
    {
      assert AnswerPaths(rest)[i] == paths[i + 1] && AnswerPaths(rest)[j] == paths[j + 1];
      assert ComesAfter(paths[i + 1], paths[j + 1]);
    }
  }

  /**
   * When the answers come ancestors first and none contains controls, the pass gives each
   * answer exactly one controls block, as its last child.
   */
  lemma {:induction false} AttachAllExact(doc: Element, answers: seq<Answer>)
    requires AncestorsFirst(AnswerPaths(answers))
    requires forall a :: a in answers ==>
      NodeAt(doc, a.element).Some? && !HasMarkedDescendant(NodeAt(doc, a.element).value)
    ensures forall a :: a in answers ==> ControlsAddedOnce(doc, AttachAll(doc, answers), a.element)
    decreases |answers|
  {
    if |answers| > 0 {
      var q := answers[0].element;
      var rest := answers[1..];
      var next := AppendControls(doc, q);
      var r := AttachAll(doc, answers);
      assert r == AttachAll(next, rest);
      AncestorsFirstTail(answers);
      forall a | a in rest
        ensures NodeAt(next, a.element) == NodeAt(doc, a.element)
      {
        AppendKeepsOthers(doc, q, a.element);
      }
      AttachAllExact(next, rest);
      FirstAnswerKeepsBlock(doc, q, rest);
      forall a | a in answers
        ensures ControlsAddedOnce(doc, r, a.element)
      {
        if a.element != q {
          assert a in rest;
        }
      }
    }
  }

  /** The scheduler's state after one call of injectExportButtons. */
  datatype Injection = Injection(page: Element, attempts: nat, retryAfterMs: Option<nat>)

  /**
   * One call of injectExportButtons with `attempts` earlier calls: counts the call, finds the
   * answers, attaches controls to those without, and schedules another call in one second
   * when no answer was found and fewer than ten calls have been made.
   */
  function InjectExportButtons(attempts: nat, hostname: string, page: Element): (r: Injection)
    ensures r.attempts == attempts + 1
    ensures r.retryAfterMs.Some? <==> |FindAnswerElements(hostname, page)| == 0 && attempts + 1 < MaxAttempts
    ensures r.retryAfterMs.Some? ==> r.retryAfterMs.value == RetryDelayMs
    ensures FindAnswerElements(hostname, page) == [] ==> r.page == page
  {
    var counted := attempts + 1;
    var answers := FindAnswerElements(hostname, page);
    var next := AttachAll(page, answers);
    Injection(next, counted, if |answers| == 0 && counted < MaxAttempts then Some(RetryDelayMs) else None)
  }

  /**
   * One pass leaves every answer with controls and changes nothing else: the page only
   * grows by controls blocks, each appended to an answer, at most one per answer.
   */
  lemma InjectionAttachesToAnswers(attempts: nat, hostname: string, page: Element)
    ensures var r := InjectExportButtons(attempts, hostname, page);
      && Grown(page, r.page)
      && (forall a :: a in FindAnswerElements(hostname, page) ==>
            NodeAt(r.page, a.element).Some? && HasMarkedDescendant(NodeAt(r.page, a.element).value))
    ensures forall p :: NodeAt(page, p).Some? ==>
      var r := InjectExportButtons(attempts, hostname, page);
      var paths := AnswerPaths(FindAnswerElements(hostname, page));
      && NodeAt(r.page, p).Some?
      && |NodeAt(r.page, p).value.children| <= |NodeAt(page, p).value.children| + (if p in paths then 1 else 0)
      && (p !in paths ==> |NodeAt(r.page, p).value.children| == |NodeAt(page, p).value.children|)
  {
    var answers := FindAnswerElements(hostname, page);
    AttachAllGrows(page, answers);
    AttachAllMarks(page, answers);
    if DetectWebsite(hostname).Some? {
      var site := DetectWebsite(hostname).value;
      AnswersSound(site, page);
      AnswersInDocumentOrder(site, page);
    }
    forall p | NodeAt(page, p).Some?
      ensures NodeAt(AttachAll(page, answers), p).Some?
      ensures |NodeAt(AttachAll(page, answers), p).value.children| <=
        |NodeAt(page, p).value.children| + (if p in AnswerPaths(answers) then 1 else 0)
      ensures p !in AnswerPaths(answers) ==>
        |NodeAt(AttachAll(page, answers), p).value.children| == |NodeAt(page, p).value.children|
    {
      AttachAllOnlyAnswers(page, answers, p);
    }
  }

  /**
   * One pass gives every answer exactly one controls container, holding the PDF and the
   * print button, as its last child: among its children that one alone carries the marker.
   */
  lemma InjectionAddsOneBlockEach(attempts: nat, hostname: string, page: Element)
    ensures forall a :: a in FindAnswerElements(hostname, page) ==>
      var r := InjectExportButtons(attempts, hostname, page);
      && ControlsAddedOnce(page, r.page, a.element)
      && var now := NodeAt(r.page, a.element).value.children;
         && now[|now| - 1].children == [PdfButtonElement, PrintButtonElement]
         && forall i :: 0 <= i < |now| ==> (IsMarker(now[i]) <==> i == |now| - 1)
  {
    var answers := FindAnswerElements(hostname, page);
    var r := InjectExportButtons(attempts, hostname, page);
    if DetectWebsite(hostname).Some? {
      var site := DetectWebsite(hostname).value;
      AnswersSound(site, page);
      AnswersAncestorsFirst(site, page);
      AttachAllExact(page, answers);
      forall a | a in answers
        ensures var now := NodeAt(r.page, a.element).value.children;
          forall i :: 0 <= i < |now| ==> (IsMarker(now[i]) <==> i == |now| - 1)
      {
        var was := NodeAt(page, a.element).value;
        var now := NodeAt(r.page, a.element).value.children;
        forall i | 0 <= i < |was.children|
          ensures !IsMarker(now[i])
        {
          assert !IsMarker(was.children[i]);
          assert now[i].classes == was.children[i].classes;
        }
      }
    }
  }

  /**
   * The pass decorates every answer it finds, and an answer decorated in any way (the pass's
   * blocks, later relabelled, disabled or recoloured) is exported as it was before the pass:
   * its copy drops exactly the added blocks.
   */
  lemma InjectedAnswerExportsAsBefore(attempts: nat, hostname: string, page: Element, s: ExportSettings)
    ensures forall a :: a in FindAnswerElements(hostname, page) ==>
      var r := InjectExportButtons(attempts, hostname, page);
      && NodeAt(page, a.element).Some?
      && NodeAt(r.page, a.element).Some?
      && Decorated(NodeAt(page, a.element).value, NodeAt(r.page, a.element).value)
    ensures forall a, b ::
      (a in FindAnswerElements(hostname, page) && NodeAt(page, a.element).Some? &&
       Decorated(NodeAt(page, a.element).value, b)) ==>
      && StripMarkers(b) == NodeAt(page, a.element).value
      && ProcessContentForExport(b, s) == ProcessContentForExport(NodeAt(page, a.element).value, s)
  {
    var r := InjectExportButtons(attempts, hostname, page);
    InjectionAttachesToAnswers(attempts, hostname, page);
    if DetectWebsite(hostname).Some? {
      AnswersSound(DetectWebsite(hostname).value, page);
    }
    forall a | a in FindAnswerElements(hostname, page)
      ensures Decorated(NodeAt(page, a.element).value, NodeAt(r.page, a.element).value)
    {
      GrownNodeAt(page, r.page, a.element);
      GrownDecorated(NodeAt(page, a.element).value, NodeAt(r.page, a.element).value);
    }
    forall a, b | a in FindAnswerElements(hostname, page) && NodeAt(page, a.element).Some? &&
      Decorated(NodeAt(page, a.element).value, b)
      ensures StripMarkers(b) == NodeAt(page, a.element).value
      ensures ProcessContentForExport(b, s) == ProcessContentForExport(NodeAt(page, a.element).value, s)
    {
      var before := NodeAt(page, a.element).value;
      StripDecorated(before, b);
      StripKeepsUnmarked(before);
      ProcessSeesOnlyStripped(b, before, s);
    }
  }

  // ---------------------------------------------------------------------------
  // A ChatGPT turn wrapping the assistant's message: both match the selector group, so the
  // turn ends up holding two controls blocks, its own and the message's.

  const NestedReply := Element("div", {}, map["data-message-author-role" := "assistant"], map[], "hi", [])
  const NestedTurn := Element("article", {}, map["data-testid" := "conversation-turn-2"], map[], "hi", [NestedReply])
  const NestedPage := Element("main", {}, map[], map[], "", [NestedTurn])

  /** On that page the turn and the message are both answers. */
  lemma NestedPageAnswers()
    ensures exists a :: a in FindAnswerElements("chat.openai.com", NestedPage) && a.element == [0]
    ensures exists a :: a in FindAnswerElements("chat.openai.com", NestedPage) && a.element == [0, 0]
  {
    DetectRegisteredHosts();
    assert StartsWith("conversation-turn-2", "conversation-turn-");
    assert !HasMarkedDescendant(NestedTurn) by {
      assert NestedTurn.children == [NestedReply];
      assert !HasMarkedDescendant(NestedReply);
    }
    assert NodeAt(NestedPage, [0, 0]) == Some(NestedReply) by {
      assert [0, 0][1..] == [0];
    }
    AnswersComplete(ChatGpt, NestedPage, [0]);
    AnswersComplete(ChatGpt, NestedPage, [0, 0]);
  }

  /** A page where both the turn and the message gained one block has two blocks inside the turn. */
  lemma NestedBlocks(r: Element)
    requires ControlsAddedOnce(NestedPage, r, [0]) && ControlsAddedOnce(NestedPage, r, [0, 0])
    ensures NodeAt(r, [0]).Some? && MarkedAt(NodeAt(r, [0]).value, [1]) && MarkedAt(NodeAt(r, [0]).value, [0, 0])
  {
    assert NodeAt(NestedPage, [0]) == Some(NestedTurn);
    assert NodeAt(NestedPage, [0, 0]) == Some(NestedReply) by {
      assert [0, 0][1..] == [0];
    }
    var turn := NodeAt(r, [0]).value;
    NodeAtExtend(r, [0], 0);
    assert [0] + [0] == [0, 0];
    assert turn.children[0] == NodeAt(r, [0, 0]).value;
    assert [0, 0][1..] == [0];
  }

  /**
   * After one pass the turn contains two marked blocks: its own last child and the one
   * inside the message.
   */
  lemma NestedAnswersGetTwoBlocks()
    ensures var turn := NodeAt(InjectExportButtons(0, "chat.openai.com", NestedPage).page, [0]);
      && turn.Some?
      && MarkedAt(turn.value, [1])
      && MarkedAt(turn.value, [0, 0])
  {
    var answers := FindAnswerElements("chat.openai.com", NestedPage);
    var r := InjectExportButtons(0, "chat.openai.com", NestedPage).page;
    NestedPageAnswers();
    InjectionAddsOneBlockEach(0, "chat.openai.com", NestedPage);
    var outer :| outer in answers && outer.element == [0];
    var inner :| inner in answers && inner.element == [0, 0];
    NestedBlocks(r);
  }

  /** On a page grown from `page`, only elements of `page` that already were answers can be answers. */
  lemma GrownAnswers(site: Site, page: Element, grown: Element, p: Path)
    requires Grown(page, grown) && IsAnswerAt(site, grown, p)
    ensures IsAnswerAt(site, page, p)
  {
    if NodeAt(page, p).None? {
      GrownNewNodes(page, grown, p);
      ControlsNeverSelected(site, NodeAt(grown, p).value);
    } else {
      GrownNodeAt(page, grown, p);
      GrownKeepsSettled(page, grown, p);
      if HasMarkedDescendant(NodeAt(page, p).value) {
        GrownKeepsMarks(NodeAt(page, p).value, NodeAt(grown, p).value);
      }
    }
  }

  /**
   * The marker guard makes the pass idempotent: on the page a pass leaves behind, a second
   * pass finds no answers and changes nothing.
   */
  lemma {:induction false} InjectionIdempotent(attempts: nat, hostname: string, page: Element)
    ensures var r := InjectExportButtons(attempts, hostname, page);
      && FindAnswerElements(hostname, r.page) == []
      && InjectExportButtons(r.attempts, hostname, r.page).page == r.page
  {
    var r := InjectExportButtons(attempts, hostname, page);
    InjectionAttachesToAnswers(attempts, hostname, page);
    if DetectWebsite(hostname).Some? {
      var site := DetectWebsite(hostname).value;
      var again := FindSiteAnswers(site, r.page);
      if |again| > 0 {
        AnswersSound(site, r.page);
        assert again[0] in again;
        var p := again[0].element;
        GrownAnswers(site, page, r.page, p);
        AnswersComplete(site, page, p);
        assert false;
      }
    }
  }

  // ---------------------------------------------------------------------------
  // The retry timer

  /**
   * The number of calls the one-second retry makes, counting the first, from a state with
   * `attempts` earlier calls, while the page stays as it is.
   */
  function RetryCalls(attempts: nat, hostname: string, page: Element): nat
    decreases MaxAttempts - attempts
  {
    var r := InjectExportButtons(attempts, hostname, page);
    if r.retryAfterMs.Some? then 1 + RetryCalls(r.attempts, hostname, r.page) else 1
  }

  /**
   * On a page that never shows an answer the retries stop at the tenth call counted from
   * the start; from ten calls or more, the call that finds nothing is the last.
   */
  lemma {:induction false} RetryCallsWithoutAnswers(attempts: nat, hostname: string, page: Element)
    requires FindAnswerElements(hostname, page) == []
    ensures RetryCalls(attempts, hostname, page) == if attempts < MaxAttempts then MaxAttempts - attempts else 1
    decreases MaxAttempts - attempts
  {
    var r := InjectExportButtons(attempts, hostname, page);
    if r.retryAfterMs.Some? {
      RetryCallsWithoutAnswers(r.attempts, hostname, r.page);
    }
  }

  /** From a fresh start on a page without answers, injectExportButtons runs exactly ten times. */
  lemma RetriesTenTimes(hostname: string, page: Element)
    requires FindAnswerElements(hostname, page) == []
    ensures RetryCalls(0, hostname, page) == MaxAttempts
  {
    RetryCallsWithoutAnswers(0, hostname, page);
  }

  /** A call that finds an answer never schedules a retry, so the chain ends with it. */
  lemma AnswersStopRetries(attempts: nat, hostname: string, page: Element)
    requires FindAnswerElements(hostname, page) != []
    ensures RetryCalls(attempts, hostname, page) == 1
  {
  }
}
