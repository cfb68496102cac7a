/**
 * The answer locator: which of the three sites a hostname belongs to, and which elements of
 * the page are answers that still lack export controls.
 */
module WebsiteDetector {
  import opened Wrappers
  import opened Seqs
  import opened Types
  import opened Dom

  /** Classifies a hostname by ordered substring tests: chat.openai.com, then claude.ai, then perplexity.ai. */
  function DetectWebsite(hostname: string): (r: Option<Site>)
    ensures r == Some(ChatGpt) <==> Contains(hostname, "chat.openai.com")
    ensures r == Some(Claude) <==>
      !Contains(hostname, "chat.openai.com") && Contains(hostname, "claude.ai")
    ensures r == Some(Perplexity) <==>
      !Contains(hostname, "chat.openai.com") && !Contains(hostname, "claude.ai")
      && Contains(hostname, "perplexity.ai")
    ensures r.None? <==>
      !Contains(hostname, "chat.openai.com") && !Contains(hostname, "claude.ai")
      && !Contains(hostname, "perplexity.ai")
  {
    if Contains(hostname, "chat.openai.com") then Some(ChatGpt)
    else if Contains(hostname, "claude.ai") then Some(Claude)
    else if Contains(hostname, "perplexity.ai") then Some(Perplexity)
    else None
  }

  /** The three hosts the content script is registered for are recognised. */
  lemma DetectRegisteredHosts()
    ensures DetectWebsite("chat.openai.com") == Some(ChatGpt)
    ensures DetectWebsite("claude.ai") == Some(Claude)
  {
    assert "claude.ai"[..9] == "claude.ai";
  }

  lemma DetectPerplexityHost()
    ensures DetectWebsite("www.perplexity.ai") == Some(Perplexity)
  {
    ContainsNeedsChar("www.perplexity.ai", "chat.openai.com", 'c');
    ContainsNeedsChar("www.perplexity.ai", "claude.ai", 'c');
    PerplexityHostContainsDomain();
  }

  lemma PerplexityHostContainsDomain()
    ensures Contains("www.perplexity.ai", "perplexity.ai")
  {
    assert "www.perplexity.ai" == "www." + "perplexity.ai";
    ContainsSuffix("www.", "perplexity.ai");
  }

  /** A host outside the three sites is not recognised. */
  lemma DetectOtherHost()
    ensures DetectWebsite("example.com") == None
  {
    ContainsNeedsChar("example.com", "claude.ai", 'u');
  }

  // ---------------------------------------------------------------------------
  // Selector groups, one predicate per site

  /** `[data-testid^="conversation-turn-"], [data-message-author-role="assistant"],
      .group\/conversation-turn, [data-testid="bot-message"]` */
  predicate ChatGptSelector(e: Element) {
    || ("data-testid" in e.attrs && StartsWith(e.attrs["data-testid"], "conversation-turn-"))
    || AttrIs(e, "data-message-author-role", "assistant")
    || HasClass(e, "group/conversation-turn")
    || AttrIs(e, "data-testid", "bot-message")
  }

  /** `[data-testid="message"], .font-claude-message, .prose, [role="article"], .message-content` */
  predicate ClaudeSelector(e: Element) {
    || AttrIs(e, "data-testid", "message")
    || HasClass(e, "font-claude-message")
    || HasClass(e, "prose")
    || AttrIs(e, "role", "article")
    || HasClass(e, "message-content")
  }

  /** `.prose, [data-testid="answer"], .answer-content, .result-content, [role="article"]` */
  predicate PerplexitySelector(e: Element) {
    || HasClass(e, "prose")
    || AttrIs(e, "data-testid", "answer")
    || HasClass(e, "answer-content")
    || HasClass(e, "result-content")
    || AttrIs(e, "role", "article")
  }

  predicate Selects(site: Site, e: Element) {
    match site
    case ChatGpt => ChatGptSelector(e)
    case Claude => ClaudeSelector(e)
    case Perplexity => PerplexitySelector(e)
  }

  /** An answer found on the page: the element (by path), its text and the site. */
  datatype Answer = Answer(element: Path, content: string, website: Site)

  /** `document.querySelectorAll(group)`: the elements the site's selector group matches, in document order. */
  function SelectorMatches(site: Site, doc: Element): seq<Visit> {
    Filter(DocumentOrder(doc), (v: Visit) => Selects(site, v.node))
  }

  /** The per-element test of the site's finder: no controls inside yet and, on Claude, not streaming. */
  predicate Qualifies(site: Site, v: Visit) {
    match site
    case Claude => v.settled && !HasMarkedDescendant(v.node)
    case _ => !HasMarkedDescendant(v.node)
  }

  /** `element.innerText || ''` is the text itself, the empty text included. */
  function ToAnswer(site: Site, v: Visit): Answer {
    Answer(v.path, v.node.text, site)
  }

  /** The per-site finders (findChatGPTAnswers, findClaudeAnswers, findPerplexityAnswers). */
  function FindSiteAnswers(site: Site, doc: Element): seq<Answer> {
    Map(Filter(SelectorMatches(site, doc), (v: Visit) => Qualifies(site, v)), (v: Visit) => ToAnswer(site, v))
  }

  /** The answers of the page at `hostname`; none when the host is not recognised. */
  function FindAnswerElements(hostname: string, doc: Element): (r: seq<Answer>)
    ensures DetectWebsite(hostname).None? ==> r == []
    ensures forall a :: a in r ==> Some(a.website) == DetectWebsite(hostname)
  {
    match DetectWebsite(hostname)
    case None => []
    case Some(site) => FindSiteAnswers(site, doc)
  }

  function AnswerPaths(answers: seq<Answer>): seq<Path> {
    Map(answers, (a: Answer) => a.element)
  }

  /** The element at `p` is one the site's finder should report. */
  predicate IsAnswerAt(site: Site, doc: Element, p: Path) {
    && NodeAt(doc, p).Some?
    && Selects(site, NodeAt(doc, p).value)
    && !HasMarkedDescendant(NodeAt(doc, p).value)
    && (site == Claude ==> NotStreamingOnPath(doc, p))
  }

  /**
   * Each answer names an element the site's group matches, that holds no export controls and,
   * on Claude, has an inclusive ancestor with data-is-streaming="false"; its content is that
   * element's text and its website the site.
   */
  lemma AnswersSound(site: Site, doc: Element)
    ensures forall a :: a in FindSiteAnswers(site, doc) ==>
      && IsAnswerAt(site, doc, a.element)
      && a.content == NodeAt(doc, a.element).value.text
      && a.website == site
  {
    PreorderSound(doc, [], false);
    var kept := Filter(SelectorMatches(site, doc), (v: Visit) => Qualifies(site, v));
    forall a | a in FindSiteAnswers(site, doc)
      ensures IsAnswerAt(site, doc, a.element) && a.content == NodeAt(doc, a.element).value.text
    {
      var k :| 0 <= k < |kept| && FindSiteAnswers(site, doc)[k] == a;
      var v := kept[k];
      assert v in kept;
      assert v in DocumentOrder(doc);
      assert v.path[0..] == v.path;
    }
  }

  /** Every element the finder should report is reported. */
  lemma AnswersComplete(site: Site, doc: Element, p: Path)
    requires IsAnswerAt(site, doc, p)
    ensures exists a :: a in FindSiteAnswers(site, doc) && a.element == p
  {
    PreorderComplete(doc, [], false, p);
    PreorderSound(doc, [], false);
    var v :| v in DocumentOrder(doc) && v.path == [] + p;
    assert v.path[0..] == p;
    var kept := Filter(SelectorMatches(site, doc), (v: Visit) => Qualifies(site, v));
    assert v in kept;
    var k :| 0 <= k < |kept| && kept[k] == v;
    assert FindSiteAnswers(site, doc)[k] == ToAnswer(site, v);
  }

  /** An element is reported exactly when it is an unprocessed answer of the site. */
  lemma AnswersExactly(site: Site, doc: Element, p: Path)
    ensures (exists a :: a in FindSiteAnswers(site, doc) && a.element == p) <==> IsAnswerAt(site, doc, p)
  {
    AnswersSound(site, doc);
    if IsAnswerAt(site, doc, p) {
      AnswersComplete(site, doc, p);
    }
  }

  /**
   * The answers come in document order, each element at most once: their elements form a
   * duplicate-free subsequence of the elements the selector group matches.
   */
  lemma AnswersInDocumentOrder(site: Site, doc: Element)
    ensures IsSubsequence(AnswerPaths(FindSiteAnswers(site, doc)), VisitPaths(SelectorMatches(site, doc)))
    ensures Distinct(AnswerPaths(FindSiteAnswers(site, doc)))
  {
    var all := DocumentOrder(doc);
    var matched := SelectorMatches(site, doc);
    var kept := Filter(matched, (v: Visit) => Qualifies(site, v));
    assert AnswerPaths(FindSiteAnswers(site, doc)) == VisitPaths(kept);
    FilterIsSubsequence(all, (v: Visit) => Selects(site, v.node));
    FilterIsSubsequence(matched, (v: Visit) => Qualifies(site, v));
    MapKeepsSubsequence(matched, all, (v: Visit) => v.path);
    MapKeepsSubsequence(kept, matched, (v: Visit) => v.path);
    PreorderDistinct(doc, [], false);
    SubsequenceKeepsDistinct(VisitPaths(matched), VisitPaths(all));
    SubsequenceKeepsDistinct(VisitPaths(kept), VisitPaths(matched));
  }

  /** An answer inside another answer is reported after it. */
  lemma AnswersAncestorsFirst(site: Site, doc: Element)
    ensures AncestorsFirst(AnswerPaths(FindSiteAnswers(site, doc)))
  {
    var all := DocumentOrder(doc);
    var matched := SelectorMatches(site, doc);
    var kept := Filter(matched, (v: Visit) => Qualifies(site, v));
    assert AnswerPaths(FindSiteAnswers(site, doc)) == VisitPaths(kept);
    AnswersInDocumentOrder(site, doc);
    FilterIsSubsequence(all, (v: Visit) => Selects(site, v.node));
    MapKeepsSubsequence(matched, all, (v: Visit) => v.path);
    PreorderAncestorsFirst(doc, [], false);
    SubsequenceKeepsPairwise(VisitPaths(matched), VisitPaths(all), ComesAfter);
    SubsequenceKeepsPairwise(VisitPaths(kept), VisitPaths(matched), ComesAfter);
  }

  // ---------------------------------------------------------------------------
  // A Claude page with one finished reply (inside data-is-streaming="false") and one
  // reply still being generated: only the finished one is reported.

  const SettledReply := Element("div", {"font-claude-message"}, map[], map[], "done", [])
  const StreamingReply := Element("div", {"font-claude-message"}, map[], map[], "typing", [])
  const ReplyWrapper := Element("div", {}, map["data-is-streaming" := "false"], map[], "", [SettledReply])
  const ClaudePage := Element("main", {}, map[], map[], "", [ReplyWrapper, StreamingReply])

  /** The document order of the example page. */
  lemma ClaudePageOrder()
    ensures DocumentOrder(ClaudePage) == [Visit([], ClaudePage, false), Visit([0], ReplyWrapper, true), Visit([0, 0], SettledReply, true), Visit([1], StreamingReply, false)]
  {
    assert ChildVisits(SettledReply, [0, 0], true, 0) == [];
    assert Preorder(SettledReply, [0, 0], true) == [Visit([0, 0], SettledReply, true)];
    assert ChildVisits(ReplyWrapper, [0], true, 1) == [];
    assert [0] + [0] == [0, 0];
    assert ReplyWrapper.children[0] == SettledReply;
    assert ChildVisits(ReplyWrapper, [0], true, 0) == [Visit([0, 0], SettledReply, true)];
    assert Preorder(ReplyWrapper, [0], false) == [Visit([0], ReplyWrapper, true), Visit([0, 0], SettledReply, true)];
    assert ChildVisits(StreamingReply, [1], false, 0) == [];
    assert Preorder(StreamingReply, [1], false) == [Visit([1], StreamingReply, false)];
    assert ChildVisits(ClaudePage, [], false, 2) == [];
    assert [] + [1] == [1] && [] + [0] == [0];
    assert ClaudePage.children[1] == StreamingReply && ClaudePage.children[0] == ReplyWrapper;
    assert ChildVisits(ClaudePage, [], false, 1) == [Visit([1], StreamingReply, false)];
    assert !IsNotStreaming(ClaudePage);
    assert ChildVisits(ClaudePage, [], false, 0) == Preorder(ReplyWrapper, [0], false) + [Visit([1], StreamingReply, false)];
    assert Preorder(ClaudePage, [], false) == [Visit([], ClaudePage, false)] + ChildVisits(ClaudePage, [], false, 0);
  }

  lemma ClaudeSkipsStreamingAnswer()
    ensures FindAnswerElements("claude.ai", ClaudePage) == [Answer([0, 0], "done", Claude)]
  {
    DetectRegisteredHosts();
    ClaudePageOrder();
    var all := DocumentOrder(ClaudePage);
    var sel := (v: Visit) => Selects(Claude, v.node);
    assert !sel(all[0]) && !sel(all[1]) && sel(all[2]) && sel(all[3]);
    assert all[1..][1..][1..][1..] == [];
    assert Filter(all[1..][1..][1..], sel) == [all[3]];
    assert Filter(all[1..][1..], sel) == [all[2], all[3]];
    assert Filter(all[1..], sel) == [all[2], all[3]];
    assert Filter(all, sel) == [all[2], all[3]];
    var m := SelectorMatches(Claude, ClaudePage);
    assert m == [Visit([0, 0], SettledReply, true), Visit([1], StreamingReply, false)];
    assert !HasMarkedDescendant(SettledReply);
    var q := (v: Visit) => Qualifies(Claude, v);
    assert q(m[0]) && !q(m[1]);
    assert m[1..][1..] == [];
    assert Filter(m[1..][1..], q) == [];
    assert Filter(m[1..], q) == [];
    assert Filter(m, q) == [m[0]];
    var k := Filter(m, (v: Visit) => Qualifies(Claude, v));
    assert k == [Visit([0, 0], SettledReply, true)];
  }
}
