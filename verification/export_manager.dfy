/**
 * The export renderer: the normalising copy of an answer element, the print stylesheet,
 * the PDF converter's option record, and which branch the PDF and print paths take.
 */
module ExportManager {
  import opened Wrappers
  import opened Seqs
  import opened Decimal
  import opened Types
  import opened Dom
  import opened Settings

  // ---------------------------------------------------------------------------
  // Style values, each a function of the settings alone

  function PageBackground(s: ExportSettings): string {
    if s.darkMode then "#1a1a1a" else "#ffffff"
  }

  function PageForeground(s: ExportSettings): string {
    if s.darkMode then "#ffffff" else "#000000"
  }

  function CodeBackground(s: ExportSettings): string {
    if s.darkMode then "#2d2d2d" else "#f5f5f5"
  }

  /** The CSS text of the chosen font size. */
  function FontSizeText(f: FontSize): string {
    FontSizesIncreasing();
    FontSizes[f]
  }

  /** The inline style written on the copied answer element itself. */
  function RootOverlay(s: ExportSettings): map<string, string> {
    map[
      "font-family" := s.fontFamily,
      "font-size" := FontSizeText(s.fontSize),
      "line-height" := "1.6",
      "max-width" := "100%",
      "margin" := "0",
      "padding" := "20px",
      "background-color" := PageBackground(s),
      "color" := PageForeground(s)]
  }

  function CodeOverlay(s: ExportSettings): map<string, string> {
    map[
      "font-family" := "Courier New, monospace",
      "background-color" := CodeBackground(s),
      "padding" := "10px",
      "border-radius" := "4px",
      "overflow" := "auto"]
  }

  const ListOverlay: map<string, string> :=
    map["padding-left" := "20px", "margin-bottom" := "10px"]

  const TableOverlay: map<string, string> :=
    map["border-collapse" := "collapse", "width" := "100%", "margin-bottom" := "15px"]

  const CellOverlay: map<string, string> :=
    map["border" := "1px solid #ccc", "padding" := "8px"]

  const HeadingOverlay: map<string, string> :=
    map["margin-top" := "20px", "margin-bottom" := "10px", "font-weight" := "bold"]

  const CodeTags: set<string> := {"pre", "code"}
  const ListTags: set<string> := {"ul", "ol"}
  const CellTags: set<string> := {"td", "th"}
  const HeadingTags: set<string> := {"h1", "h2", "h3", "h4", "h5", "h6"}

  /** Tags whose descendants get a style of their own. */
  predicate StyledTag(tag: string, inTable: bool) {
    tag in CodeTags || tag in ListTags || tag == "table" || (tag in CellTags && inTable) || tag in HeadingTags
  }

  /**
   * The style written on a descendant with tag `tag`; `inTable` says whether a table between
   * the copy's root and the descendant encloses it (only then are td/th cells styled).
   */
  function DescendantOverlay(tag: string, inTable: bool, s: ExportSettings): map<string, string> {
    if tag in CodeTags then CodeOverlay(s)
    else if tag in ListTags then ListOverlay
    else if tag == "table" then TableOverlay
    else if tag in CellTags && inTable then CellOverlay
    else if tag in HeadingTags then HeadingOverlay
    else map[]
  }

  // ---------------------------------------------------------------------------
  // processContentForExport

  /** A child the copy keeps: one that is not a controls block. */
  predicate IsKept(c: Element) {
    !IsMarker(c)
  }

  /** Two contents whose stripped copies agree are exported alike. */
  lemma ProcessSeesOnlyStripped(a: Element, b: Element, s: ExportSettings)
    requires StripMarkers(a) == StripMarkers(b)
    ensures ProcessContentForExport(a, s) == ProcessContentForExport(b, s)
  {
  }

  /** The copy with every marked subtree below the root removed; the root itself is kept. */
  function StripMarkers(e: Element): (r: Element)
    ensures r.(children := e.children) == e
    decreases e
  {
    var kept := Filter(e.children, IsKept);
    e.(children := seq(|kept|, i requires 0 <= i < |kept| => StripMarkers(kept[i])))
  }

  /** Styles `e` as a descendant of the copy, and everything below it. */
  function StyleSubtree(e: Element, s: ExportSettings, inTable: bool): (r: Element)
    ensures r.(style := e.style, children := e.children) == e
    ensures |r.children| == |e.children|
    decreases e
  {
    var below := inTable || e.tag == "table";
    e.(style := e.style + DescendantOverlay(e.tag, inTable, s),
       children := seq(|e.children|, i requires 0 <= i < |e.children| => StyleSubtree(e.children[i], s, below)))
  }

  /** The normalised copy of an answer element that both export paths render. */
  function ProcessContentForExport(content: Element, s: ExportSettings): Element {
    var copy := StripMarkers(content);
    copy.(style := copy.style + RootOverlay(s),
          children := seq(|copy.children|, i requires 0 <= i < |copy.children| => StyleSubtree(copy.children[i], s, false)))
  }

  // ---------------------------------------------------------------------------
  // Marker removal

  lemma FilterKeepsAll<T(!new)>(s: seq<T>, p: T -> bool)
    requires forall i :: 0 <= i < |s| ==> p(s[i])
    ensures Filter(s, p) == s
    decreases |s|
  {
    if |s| > 0 {
      FilterKeepsAll(s[1..], p);
    }
  }

  /** No element below the root of the stripped copy carries the marker class. */
  lemma {:induction false} StripRemovesMarkers(e: Element)
    ensures !HasMarkedDescendant(StripMarkers(e))
    decreases e
  {
    var r := StripMarkers(e);
    var kept := Filter(e.children, IsKept);
    forall i | 0 <= i < |r.children|
      ensures !IsMarker(r.children[i]) && !HasMarkedDescendant(r.children[i])
    {
      assert kept[i] in kept;
      StripRemovesMarkers(kept[i]);
    }
  }

  /** A subtree without markers below its root is copied as it is. */
  lemma {:induction false} StripKeepsUnmarked(e: Element)
    requires !HasMarkedDescendant(e)
    ensures StripMarkers(e) == e
    decreases e
  {
    FilterKeepsAll(e.children, IsKept);
    forall i | 0 <= i < |e.children| ensures StripMarkers(e.children[i]) == e.children[i] {
      StripKeepsUnmarked(e.children[i]);
    }
    assert StripMarkers(e).children == e.children;
  }

  // ---------------------------------------------------------------------------
  // Styling, element by element

  /** Styling keeps the classes of every element, so it neither adds nor removes markers. */
  lemma {:induction false} StyleKeepsMarkers(e: Element, s: ExportSettings, inTable: bool)
    ensures HasMarkedDescendant(StyleSubtree(e, s, inTable)) == HasMarkedDescendant(e)
    decreases e
  {
    var r := StyleSubtree(e, s, inTable);
    forall i | 0 <= i < |e.children|
      ensures IsMarker(r.children[i]) == IsMarker(e.children[i])
      ensures HasMarkedDescendant(r.children[i]) == HasMarkedDescendant(e.children[i])
    {
      StyleKeepsMarkers(e.children[i], s, inTable || e.tag == "table");
    }
  }

  /** The element at `p` of a styled subtree is the styled element at `p` of the original. */
  lemma {:induction false} StyleSubtreeAt(e: Element, s: ExportSettings, inTable: bool, p: Path)
    ensures NodeAt(StyleSubtree(e, s, inTable), p).Some? == NodeAt(e, p).Some?
    ensures NodeAt(e, p).Some? ==>
      NodeAt(StyleSubtree(e, s, inTable), p).value
        == StyleSubtree(NodeAt(e, p).value, s, inTable || TagAbove(e, p, "table"))
    decreases |p|
  {
    if |p| > 0 && p[0] < |e.children| {
      StyleSubtreeAt(e.children[p[0]], s, inTable || e.tag == "table", p[1..]);
    }
  }

  /** Styling an already styled subtree again changes nothing. */
  lemma {:induction false} StyleIdempotent(e: Element, s: ExportSettings, inTable: bool)
    ensures StyleSubtree(StyleSubtree(e, s, inTable), s, inTable) == StyleSubtree(e, s, inTable)
    decreases e
  {
    var once := StyleSubtree(e, s, inTable);
    var twice := StyleSubtree(once, s, inTable);
    forall i | 0 <= i < |e.children| ensures twice.children[i] == once.children[i] {
      StyleIdempotent(e.children[i], s, inTable || e.tag == "table");
    }
    var o := DescendantOverlay(e.tag, inTable, s);
    assert (e.style + o) + o == e.style + o;
  }

  /**
   * The element at a non-empty path `p` of the normalised copy is, styled, the element at `p`
   * of the marker-free copy, with `inTable` true exactly when a table below the root encloses it.
   */
  lemma NormalizedAt(content: Element, s: ExportSettings, p: Path)
    requires |p| > 0
    ensures NodeAt(ProcessContentForExport(content, s), p).Some? == NodeAt(StripMarkers(content), p).Some?
    ensures NodeAt(StripMarkers(content), p).Some? ==>
      NodeAt(ProcessContentForExport(content, s), p).value
        == StyleSubtree(NodeAt(StripMarkers(content), p).value, s, TagBetween(StripMarkers(content), p, "table"))
  {
    var copy := StripMarkers(content);
    if p[0] < |copy.children| {
      StyleSubtreeAt(copy.children[p[0]], s, false, p[1..]);
    }
  }

  // ---------------------------------------------------------------------------
  // What normalisation promises

  /**
   * The copy's root keeps its tag, classes, attributes and text and gets the base typography
   * and the page palette: in dark mode background #1a1a1a and text #ffffff, otherwise
   * background #ffffff and text #000000. Style properties outside that set are kept.
   */
  lemma RootStyled(content: Element, s: ExportSettings)
    ensures var r := ProcessContentForExport(content, s);
      && r.tag == content.tag && r.classes == content.classes
      && r.attrs == content.attrs && r.text == content.text
      && r.style["font-family"] == s.fontFamily
      && s.fontSize in FontSizes && r.style["font-size"] == FontSizes[s.fontSize]
      && r.style["line-height"] == "1.6"
      && r.style["max-width"] == "100%"
      && r.style["margin"] == "0"
      && r.style["padding"] == "20px"
      && r.style["background-color"] == (if s.darkMode then "#1a1a1a" else "#ffffff")
      && r.style["color"] == (if s.darkMode then "#ffffff" else "#000000")
      && forall k :: k !in RootOverlay(s) ==>
           (k in r.style <==> k in content.style) && (k in content.style ==> r.style[k] == content.style[k])
  {
    var r := ProcessContentForExport(content, s);
    RootValues(StripMarkers(content).style, r.style, s);
  }

  /** No element below the copy's root carries the marker class; the root itself is never removed. */
  lemma MarkersRemoved(content: Element, s: ExportSettings)
    ensures !HasMarkedDescendant(ProcessContentForExport(content, s))
    ensures IsMarker(ProcessContentForExport(content, s)) == IsMarker(content)
  {
    var copy := StripMarkers(content);
    var r := ProcessContentForExport(content, s);
    StripRemovesMarkers(content);
    forall i | 0 <= i < |r.children|
      ensures !IsMarker(r.children[i]) && !HasMarkedDescendant(r.children[i])
    {
      StyleKeepsMarkers(copy.children[i], s, false);
    }
  }

  /** A node of the normalised copy at `p`, below its root. */
  predicate DescendantAt(r: Element, p: Path) {
    |p| > 0 && NodeAt(r, p).Some?
  }

  /** The style of an element below the root is its style in the marker-free copy plus its overlay. */
  lemma DescendantStyle(content: Element, s: ExportSettings, p: Path)
    requires DescendantAt(ProcessContentForExport(content, s), p)
    ensures NodeAt(StripMarkers(content), p).Some?
    ensures var n := NodeAt(ProcessContentForExport(content, s), p).value;
      var m := NodeAt(StripMarkers(content), p).value;
      && n.tag == m.tag && n.classes == m.classes && n.attrs == m.attrs && n.text == m.text
      && n.style == m.style + DescendantOverlay(m.tag, TagBetween(StripMarkers(content), p, "table"), s)
  {
    NormalizedAt(content, s, p);
  }

  /** Which overlay each kind of tag gets. */
  lemma OverlayOfTag(tag: string, inTable: bool, s: ExportSettings)
    ensures tag in CodeTags ==> DescendantOverlay(tag, inTable, s) == CodeOverlay(s)
    ensures tag in ListTags ==> DescendantOverlay(tag, inTable, s) == ListOverlay
    ensures tag == "table" ==> DescendantOverlay(tag, inTable, s) == TableOverlay
    ensures tag in CellTags && inTable ==> DescendantOverlay(tag, inTable, s) == CellOverlay
    ensures tag in HeadingTags ==> DescendantOverlay(tag, inTable, s) == HeadingOverlay
    ensures !StyledTag(tag, inTable) ==> DescendantOverlay(tag, inTable, s) == map[]
  {
  }

  // The values each overlay writes, read off a style it was applied to.

  lemma EmptyOverlay(before: map<string, string>, after: map<string, string>)
    requires after == before + map[]
    ensures after == before
  {
  }

  lemma RootValues(before: map<string, string>, after: map<string, string>, s: ExportSettings)
    requires after == before + RootOverlay(s)
    ensures after["font-family"] == s.fontFamily
    ensures s.fontSize in FontSizes && after["font-size"] == FontSizes[s.fontSize]
    ensures after["line-height"] == "1.6" && after["max-width"] == "100%"
    ensures after["margin"] == "0" && after["padding"] == "20px"
    ensures after["background-color"] == (if s.darkMode then "#1a1a1a" else "#ffffff")
    ensures after["color"] == (if s.darkMode then "#ffffff" else "#000000")
    ensures forall k :: k !in RootOverlay(s) ==>
      (k in after <==> k in before) && (k in before ==> after[k] == before[k])
  {
    FontSizesIncreasing();
  }

  lemma CodeValues(before: map<string, string>, after: map<string, string>, s: ExportSettings)
    requires after == before + CodeOverlay(s)
    ensures after["font-family"] == "Courier New, monospace"
    ensures after["background-color"] == (if s.darkMode then "#2d2d2d" else "#f5f5f5")
    ensures after["padding"] == "10px"
  {
  }

  lemma ListValues(before: map<string, string>, after: map<string, string>)
    requires after == before + ListOverlay
    ensures after["padding-left"] == "20px" && after["margin-bottom"] == "10px"
  {
  }

  lemma TableValues(before: map<string, string>, after: map<string, string>)
    requires after == before + TableOverlay
    ensures after["border-collapse"] == "collapse" && after["width"] == "100%"
  {
  }

  lemma CellValues(before: map<string, string>, after: map<string, string>)
    requires after == before + CellOverlay
    ensures after["border"] == "1px solid #ccc" && after["padding"] == "8px"
  {
  }

  lemma HeadingValues(before: map<string, string>, after: map<string, string>)
    requires after == before + HeadingOverlay
    ensures after["margin-top"] == "20px" && after["margin-bottom"] == "10px"
    ensures after["font-weight"] == "bold"
  {
  }

  /** Every pre/code element below the root gets the monospace font, the code palette and padding. */
  lemma CodeBlocksStyled(content: Element, s: ExportSettings, p: Path)
    requires DescendantAt(ProcessContentForExport(content, s), p)
    requires NodeAt(ProcessContentForExport(content, s), p).value.tag in CodeTags
    ensures var n := NodeAt(ProcessContentForExport(content, s), p).value;
      && NodeAt(StripMarkers(content), p).Some?
      && n.style == NodeAt(StripMarkers(content), p).value.style + CodeOverlay(s)
      && n.style["font-family"] == "Courier New, monospace"
      && n.style["background-color"] == (if s.darkMode then "#2d2d2d" else "#f5f5f5")
      && n.style["padding"] == "10px"
  {
    DescendantStyle(content, s, p);
    var n := NodeAt(ProcessContentForExport(content, s), p).value;
    var m := NodeAt(StripMarkers(content), p).value;
    OverlayOfTag(m.tag, TagBetween(StripMarkers(content), p, "table"), s);
    CodeValues(m.style, n.style, s);
  }

  /** Every ul/ol element below the root gets a 20px left padding and a 10px bottom margin. */
  lemma ListsStyled(content: Element, s: ExportSettings, p: Path)
    requires DescendantAt(ProcessContentForExport(content, s), p)
    requires NodeAt(ProcessContentForExport(content, s), p).value.tag in ListTags
    ensures var n := NodeAt(ProcessContentForExport(content, s), p).value;
      && NodeAt(StripMarkers(content), p).Some?
      && n.style == NodeAt(StripMarkers(content), p).value.style + ListOverlay
      && n.style["padding-left"] == "20px"
      && n.style["margin-bottom"] == "10px"
  {
    DescendantStyle(content, s, p);
    var n := NodeAt(ProcessContentForExport(content, s), p).value;
    var m := NodeAt(StripMarkers(content), p).value;
    OverlayOfTag(m.tag, TagBetween(StripMarkers(content), p, "table"), s);
    ListValues(m.style, n.style);
  }

  /** Every table below the root gets collapsed borders and full width. */
  lemma TablesStyled(content: Element, s: ExportSettings, p: Path)
    requires DescendantAt(ProcessContentForExport(content, s), p)
    requires NodeAt(ProcessContentForExport(content, s), p).value.tag == "table"
    ensures var n := NodeAt(ProcessContentForExport(content, s), p).value;
      && NodeAt(StripMarkers(content), p).Some?
      && n.style == NodeAt(StripMarkers(content), p).value.style + TableOverlay
      && n.style["border-collapse"] == "collapse"
      && n.style["width"] == "100%"
  {
    DescendantStyle(content, s, p);
    var n := NodeAt(ProcessContentForExport(content, s), p).value;
    var m := NodeAt(StripMarkers(content), p).value;
    OverlayOfTag(m.tag, TagBetween(StripMarkers(content), p, "table"), s);
    TableValues(m.style, n.style);
  }

  /** Every td/th inside such a table gets a 1px solid #ccc border and 8px padding. */
  lemma TableCellsStyled(content: Element, s: ExportSettings, p: Path)
    requires DescendantAt(ProcessContentForExport(content, s), p)
    requires NodeAt(ProcessContentForExport(content, s), p).value.tag in CellTags
    requires TagBetween(StripMarkers(content), p, "table")
    ensures var n := NodeAt(ProcessContentForExport(content, s), p).value;
      && NodeAt(StripMarkers(content), p).Some?
      && n.style == NodeAt(StripMarkers(content), p).value.style + CellOverlay
      && n.style["border"] == "1px solid #ccc"
      && n.style["padding"] == "8px"
  {
    DescendantStyle(content, s, p);
    var n := NodeAt(ProcessContentForExport(content, s), p).value;
    var m := NodeAt(StripMarkers(content), p).value;
    OverlayOfTag(m.tag, TagBetween(StripMarkers(content), p, "table"), s);
    CellValues(m.style, n.style);
  }

  /** Every h1-h6 below the root gets 20px/10px vertical margins and bold weight. */
  lemma HeadingsStyled(content: Element, s: ExportSettings, p: Path)
    requires DescendantAt(ProcessContentForExport(content, s), p)
    requires NodeAt(ProcessContentForExport(content, s), p).value.tag in HeadingTags
    ensures var n := NodeAt(ProcessContentForExport(content, s), p).value;
      && NodeAt(StripMarkers(content), p).Some?
      && n.style == NodeAt(StripMarkers(content), p).value.style + HeadingOverlay
      && n.style["margin-top"] == "20px"
      && n.style["margin-bottom"] == "10px"
      && n.style["font-weight"] == "bold"
  {
    DescendantStyle(content, s, p);
    var n := NodeAt(ProcessContentForExport(content, s), p).value;
    var m := NodeAt(StripMarkers(content), p).value;
    OverlayOfTag(m.tag, TagBetween(StripMarkers(content), p, "table"), s);
    HeadingValues(m.style, n.style);
  }

  /**
   * Any other element below the root, a td/th outside a table included, keeps its style;
   * every element below the root keeps its tag, classes, attributes and text.
   */
  lemma OtherElementsUntouched(content: Element, s: ExportSettings, p: Path)
    requires DescendantAt(ProcessContentForExport(content, s), p)
    ensures NodeAt(StripMarkers(content), p).Some?
    ensures var n := NodeAt(ProcessContentForExport(content, s), p).value;
      var m := NodeAt(StripMarkers(content), p).value;
      && n.tag == m.tag && n.classes == m.classes && n.attrs == m.attrs && n.text == m.text
      && (!StyledTag(n.tag, TagBetween(StripMarkers(content), p, "table")) ==> n.style == m.style)
  {
    DescendantStyle(content, s, p);
    var n := NodeAt(ProcessContentForExport(content, s), p).value;
    var m := NodeAt(StripMarkers(content), p).value;
    var inTable := TagBetween(StripMarkers(content), p, "table");
    OverlayOfTag(m.tag, inTable, s);
    if !StyledTag(n.tag, inTable) {
      EmptyOverlay(m.style, n.style);
    }
  }

  /** An input without markers below its root loses no element: only styles change. */
  lemma UnmarkedInputKeepsShape(content: Element, s: ExportSettings, p: Path)
    requires !HasMarkedDescendant(content)
    ensures NodeAt(ProcessContentForExport(content, s), p).Some? == NodeAt(content, p).Some?
  {
    StripKeepsUnmarked(content);
    if |p| > 0 {
      NormalizedAt(content, s, p);
    }
  }

  /** Normalising a normalised copy again with the same settings yields the same copy. */
  lemma NormalizeIdempotent(content: Element, s: ExportSettings)
    ensures ProcessContentForExport(ProcessContentForExport(content, s), s) == ProcessContentForExport(content, s)
  {
    var once := ProcessContentForExport(content, s);
    var copy := StripMarkers(content);
    MarkersRemoved(content, s);
    StripKeepsUnmarked(once);
    var twice := ProcessContentForExport(once, s);
    forall i | 0 <= i < |once.children| ensures twice.children[i] == once.children[i] {
      StyleIdempotent(copy.children[i], s, false);
    }
    assert (copy.style + RootOverlay(s)) + RootOverlay(s) == copy.style + RootOverlay(s);
  }

  // ---------------------------------------------------------------------------
  // getExportStyles: the stylesheet of the print document, as rules

  /** One CSS rule: a selector list and its declarations (no rule declares a property twice). */
  datatype Rule = Rule(selectors: seq<string>, declarations: map<string, string>)

  /** The rules of the stylesheet and those inside its `@media print` block. */
  datatype Stylesheet = Stylesheet(rules: seq<Rule>, printRules: seq<Rule>)

  function ExportStyles(s: ExportSettings): Stylesheet {
    Stylesheet(
      [ Rule(["body"], map[
          "font-family" := s.fontFamily,
          "font-size" := FontSizeText(s.fontSize),
          "line-height" := "1.6",
          "margin" := "0",
          "padding" := "20px",
          "background-color" := PageBackground(s),
          "color" := PageForeground(s)]),
        Rule(["pre", "code"], map[
          "font-family" := "'Courier New', monospace",
          "background-color" := CodeBackground(s),
          "padding" := "10px",
          "border-radius" := "4px",
          "overflow" := "auto"]),
        Rule(["ul", "ol"], map["padding-left" := "20px", "margin-bottom" := "10px"]),
        Rule(["table"], map["border-collapse" := "collapse", "width" := "100%", "margin-bottom" := "15px"]),
        Rule(["td", "th"], map["border" := "1px solid #ccc", "padding" := "8px"]),
        Rule(["h1", "h2", "h3", "h4", "h5", "h6"], map[
          "margin-top" := "20px", "margin-bottom" := "10px", "font-weight" := "bold"])],
      [Rule(["body"], map["margin" := "0", "padding" := "20px"])])
  }

  /** The body rule of the print stylesheet is the root's inline style without max-width. */
  lemma BodyRuleMirrorsRoot(s: ExportSettings)
    ensures var sheet := ExportStyles(s);
      && |sheet.rules| == 6
      && sheet.rules[0].selectors == ["body"]
      && sheet.rules[0].declarations == RootOverlay(s) - {"max-width"}
  {
    var body := ExportStyles(s).rules[0].declarations;
    var root := RootOverlay(s);
    assert body.Keys == root.Keys - {"max-width"};
  }

  /** The pre/code rule is the inline code style, except that the font name is quoted. */
  lemma CodeRuleMirrorsInline(s: ExportSettings)
    ensures var sheet := ExportStyles(s);
      && |sheet.rules| == 6
      && sheet.rules[1].selectors == ["pre", "code"]
      && sheet.rules[1].declarations == CodeOverlay(s)["font-family" := "'Courier New', monospace"]
  {
  }

  /** The list, table, cell and heading rules are exactly their inline overlays, for the same tags. */
  lemma BlockRulesMirrorInline(s: ExportSettings)
    ensures var sheet := ExportStyles(s);
      && |sheet.rules| == 6
      && (forall t :: t in ListTags <==> t in sheet.rules[2].selectors)
      && sheet.rules[2].declarations == ListOverlay
      && sheet.rules[3].selectors == ["table"]
      && sheet.rules[3].declarations == TableOverlay
      && (forall t :: t in CellTags <==> t in sheet.rules[4].selectors)
      && sheet.rules[4].declarations == CellOverlay
      && (forall t :: t in HeadingTags <==> t in sheet.rules[5].selectors)
      && sheet.rules[5].declarations == HeadingOverlay
  {
  }

  /** The print document's body palette is the palette written inline on the normalised copy. */
  lemma PrintPaletteMatchesInline(content: Element, s: ExportSettings)
    ensures var body := ExportStyles(s).rules[0].declarations;
      var root := ProcessContentForExport(content, s).style;
      && "background-color" in body && "background-color" in root
      && "color" in body && "color" in root
      && body["background-color"] == root["background-color"]
      && body["color"] == root["color"]
  {
    RootStyled(content, s);
  }

  // ---------------------------------------------------------------------------
  // exportToPDF

  /** The option record handed to the HTML-to-PDF converter. */
  datatype PdfOptions = PdfOptions(
    margin: seq<nat>,
    filename: string,
    imageType: string,
    scale: nat,
    useCors: bool,
    allowTaint: bool,
    unit: string,
    format: string,
    orientation: string)

  /** `ai-answer-${Date.now()}.pdf` */
  function PdfFileName(now: nat): string {
    "ai-answer-" + DecimalText(now) + ".pdf"
  }

  function PdfOptionsFor(s: ExportSettings, now: nat): PdfOptions {
    MarginsUniform();
    PdfOptions(Margins[s.margins], PdfFileName(now), "jpeg", 2, true, true, "mm", PageFormatName(s.pageFormat), "portrait")
  }

  /**
   * The PDF options follow the settings: four equal margins of the chosen profile, the chosen
   * page format in millimetres, portrait orientation (every format is taller than wide) and
   * canvas scale 2.
   */
  lemma PdfOptionsFollowSettings(s: ExportSettings, now: nat)
    ensures var o := PdfOptionsFor(s, now);
      && s.margins in Margins && o.margin == Margins[s.margins]
      && |o.margin| == 4
      && (forall i :: 0 <= i < 4 ==> o.margin[i] == Margins[s.margins][0])
      && o.format == PageFormatName(s.pageFormat)
      && o.unit == "mm"
      && o.orientation == "portrait"
      && s.pageFormat in PageFormats && PageFormats[s.pageFormat].0 < PageFormats[s.pageFormat].1
      && o.scale == 2
  {
    MarginsUniform();
    PageFormatsPortrait();
  }

  /** The file name is `ai-answer-<timestamp>.pdf`, and the timestamp can be read back from it. */
  lemma PdfFileNameEncodesTime(now: nat)
    ensures var f := PdfFileName(now);
      && |f| > 14
      && f[..10] == "ai-answer-"
      && f[|f| - 4..] == ".pdf"
      && DecimalValue(f[10..|f| - 4]) == Some(now)
  {
    var f := PdfFileName(now);
    assert f[10..|f| - 4] == DecimalText(now);
    DecimalRoundTrip(now);
  }

  /** How an export settles for the caller that awaits it. */
  datatype Settlement = Resolved | Rejected

  datatype PdfOutcome = PdfSaved(options: PdfOptions, document: Element) | PdfAlert(message: string)

  datatype PdfExport = PdfExport(outcome: PdfOutcome, settles: Settlement)

  const PdfFailureMessage: string := "Failed to export PDF. Please try again."

  /**
   * exportToPDF as written: reads the settings, normalises the answer and hands both to the
   * converter; `converts` says whether loading and running the converter succeeds. Every
   * failure is caught inside and turned into an alert, so the returned promise always resolves.
   */
  function ExportToPdf(content: Element, store: Store, readFails: bool, now: nat, converts: bool): (r: PdfExport)
    ensures r.settles == Resolved
    ensures r.outcome.PdfSaved? <==> converts
    ensures r.outcome.PdfSaved? ==>
      var s := GetSettings(store, readFails);
      r.outcome.options == PdfOptionsFor(s, now) && r.outcome.document == ProcessContentForExport(content, s)
    ensures r.outcome.PdfAlert? ==> r.outcome.message == PdfFailureMessage
  {
    var s := GetSettings(store, readFails);
    if converts then PdfExport(PdfSaved(PdfOptionsFor(s, now), ProcessContentForExport(content, s)), Resolved)
    else PdfExport(PdfAlert(PdfFailureMessage), Resolved)
  }

  /** exportToPDF as its caller evidently expects it: the same, but a failure still rejects after the alert. */
  function ExportToPdfReporting(content: Element, store: Store, readFails: bool, now: nat, converts: bool): (r: PdfExport)
    ensures r.settles == Resolved <==> converts
    ensures r.outcome == ExportToPdf(content, store, readFails, now, converts).outcome
  {
    var run := ExportToPdf(content, store, readFails, now, converts);
    if converts then run else run.(settles := Rejected)
  }

  // ---------------------------------------------------------------------------
  // printContent

  /** The standalone document written into the new window, printed after a settle delay. */
  datatype PrintJob = PrintJob(title: string, styles: Stylesheet, body: Element, printDelayMs: nat)

  datatype PrintOutcome = Printed(job: PrintJob) | PrintAlert(message: string)

  const PopupBlockedMessage: string := "Please allow popups for this site to use the print feature."
  const PrintFailureMessage: string := "Failed to open print dialog. Please try again."
  const PrintSettleMs: nat := 500

  /**
   * printContent: reads the settings, normalises the answer, opens a window (`opens` is false
   * when popups are blocked) and writes the document (`writes` is false when that throws).
   * Every failure ends in an alert; the promise always resolves.
   */
  function PrintContent(content: Element, store: Store, readFails: bool, opens: bool, writes: bool): (r: PrintOutcome)
    ensures !opens ==> r == PrintAlert(PopupBlockedMessage)
    ensures opens && !writes ==> r == PrintAlert(PrintFailureMessage)
    ensures r.Printed? <==> opens && writes
    ensures r.Printed? ==>
      var s := GetSettings(store, readFails);
      && r.job.title == "AI Answer Export"
      && r.job.styles == ExportStyles(s)
      && r.job.body == ProcessContentForExport(content, s)
      && r.job.printDelayMs == 500
  {
    var s := GetSettings(store, readFails);
    var copy := ProcessContentForExport(content, s);
    if !opens then PrintAlert(PopupBlockedMessage)
    else if !writes then PrintAlert(PrintFailureMessage)
    else Printed(PrintJob("AI Answer Export", ExportStyles(s), copy, PrintSettleMs))
  }

  /**
   * The two export paths render the same thing: when the popup opens and the write succeeds,
   * the printed body is the very document the PDF path saves, and the printed stylesheet
   * mirrors the copy's inline root style.
   */
  lemma PrintMatchesPdf(content: Element, store: Store, readFails: bool, now: nat)
    ensures var printed := PrintContent(content, store, readFails, true, true);
      var saved := ExportToPdf(content, store, readFails, now, true).outcome;
      && printed.Printed? && saved.PdfSaved?
      && printed.job.body == saved.document
      && printed.job.styles.rules[0].declarations == RootOverlay(GetSettings(store, readFails)) - {"max-width"}
  {
    BodyRuleMirrorsRoot(GetSettings(store, readFails));
  }
}
