/**
 * The PDF button of a controls block: its label and disabled flag, how a click, the export's
 * settlement and the two-second reset timer change them, and what a run shows when the
 * button drives the export manager's PDF path.
 */
module PdfButton {
  import opened Dom
  import opened Settings
  import opened ExportManager
  import opened ContentScript
  import opened WebsiteDetector
  import opened Types

  datatype Label = DownloadPdf | Generating | Downloaded | Failed

  function LabelText(l: Label): string {
    match l
    case DownloadPdf => DownloadPdfText
    case Generating => "\U{23F3} Generating..."
    case Downloaded => "\U{2705} Downloaded!"
    case Failed => "\U{274C} Failed"
  }

  /**
   * Each label has its own text, and the text of the idle label is the one the PDF button of
   * a controls block is created with.
   */
  lemma LabelTexts()
    ensures forall a: Label, b: Label :: LabelText(a) == LabelText(b) ==> a == b
    ensures LabelText(DownloadPdf) == PdfButtonElement.text
  {
  }

  datatype Button = Button(shows: Label, disabled: bool)

  /** The button as created: its text is the one the controls block is built with. */
  const Idle: Button := Button(DownloadPdf, false)

  const ResetDelayMs: nat := 2000

  /** What reaches the button: a click, the settlement of the awaited export, or the reset timer. */
  datatype Event = Click | Settled(outcome: Settlement) | ResetFired

  /** What the handler starts: the export, the reset timer, or nothing. */
  datatype Effect = StartExport | ScheduleReset(delayMs: nat) | NoEffect

  datatype Step = Step(button: Button, effect: Effect)

  /**
   * The click handler split at its `await`. A disabled button receives no click. A click shows
   * "Generating..." and disables the button before the export starts; resolution shows
   * "Downloaded!", rejection "Failed", and either schedules the reset, which shows the
   * original text and enables the button again.
   */
  function OnEvent(b: Button, ev: Event): (r: Step)
    ensures ev == Click && b.disabled ==> r == Step(b, NoEffect)
    ensures r.effect == StartExport <==> ev == Click && !b.disabled
    ensures r.effect == StartExport ==> r.button == Button(Generating, true)
    ensures ev.Settled? ==>
      && r.effect == ScheduleReset(ResetDelayMs)
      && r.button.disabled == b.disabled
      && (r.button.shows == Failed <==> ev.outcome == Rejected)
      && (r.button.shows == Downloaded <==> ev.outcome == Resolved)
    ensures ev == ResetFired ==> r == Step(Idle, NoEffect)
  {
    match ev
    case Click =>
      if b.disabled then Step(b, NoEffect) else Step(Button(Generating, true), StartExport)
    case Settled(outcome) =>
      Step(b.(shows := if outcome == Resolved then Downloaded else Failed), ScheduleReset(ResetDelayMs))
    case ResetFired =>
      Step(Idle, NoEffect)
  }

  /**
   * The controls block as the page shows it at some moment: the PDF button carries the
   * button's text, its disabled flag and whatever background the hover handlers last set.
   */
  function ShownBlock(b: Button, pdfBackground: string): Element {
    var pdf := PdfButtonElement.(
      text := LabelText(b.shows),
      attrs := if b.disabled then map["disabled" := ""] else map[],
      style := ButtonStyle(pdfBackground));
    Controls.(children := [pdf, PrintButtonElement])
  }

  /** The block an answer gained, in any state the page shows it, is dropped by the export copy. */
  lemma ShownBlockDropped(before: Element, now: Element, s: ExportSettings, b: Button, pdfBackground: string)
    requires Decorated(before, now) && !HasMarkedDescendant(before)
    requires |now.children| == |before.children| + 1
    ensures var shown := now.(children := now.children[|now.children| - 1 := ShownBlock(b, pdfBackground)]);
      ProcessContentForExport(shown, s) == ProcessContentForExport(before, s)
  {
    var shown := now.(children := now.children[|now.children| - 1 := ShownBlock(b, pdfBackground)]);
    BlockEditedDecorated(before, now, |now.children| - 1, ShownBlock(b, pdfBackground));
    StripDecorated(before, shown);
    StripKeepsUnmarked(before);
    ProcessSeesOnlyStripped(shown, before, s);
  }

  /**
   * Whatever the PDF button shows when the export reads the answer (after the click has set
   * "Generating..." and disabled it, or the hover has recoloured it), the exported copy is the
   * answer as it was before the pass added the controls.
   */
  lemma ClickedAnswerExportsAsBefore(attempts: nat, hostname: string, page: Element, s: ExportSettings, b: Button, pdfBackground: string)
    ensures forall a :: a in FindAnswerElements(hostname, page) ==>
      var now := NodeAt(InjectExportButtons(attempts, hostname, page).page, a.element);
      && NodeAt(page, a.element).Some?
      && now.Some?
      && |now.value.children| > 0
      && var shown := now.value.(children := now.value.children[|now.value.children| - 1 := ShownBlock(b, pdfBackground)]);
         ProcessContentForExport(shown, s) == ProcessContentForExport(NodeAt(page, a.element).value, s)
  {
    var r := InjectExportButtons(attempts, hostname, page).page;
    InjectionAddsOneBlockEach(attempts, hostname, page);
    InjectionAttachesToAnswers(attempts, hostname, page);
    if DetectWebsite(hostname).Some? {
      AnswersSound(DetectWebsite(hostname).value, page);
    }
    forall a | a in FindAnswerElements(hostname, page)
      ensures var now := NodeAt(r, a.element).value;
        var shown := now.(children := now.children[|now.children| - 1 := ShownBlock(b, pdfBackground)]);
        ProcessContentForExport(shown, s) == ProcessContentForExport(NodeAt(page, a.element).value, s)
    {
      var before := NodeAt(page, a.element).value;
      var now := NodeAt(r, a.element).value;
      assert ControlsAddedOnce(page, r, a.element);
      GrownNodeAt(page, r, a.element);
      GrownDecorated(before, now);
      ShownBlockDropped(before, now, s, b, pdfBackground);
    }
  }

  // ---------------------------------------------------------------------------
  // The button driving the PDF export

  /** Everything the PDF path reads besides the converter's fate. */
  datatype ExportContext = ExportContext(content: Element, store: Store, readFails: bool, now: nat)

  /** The button with the export and the reset timer it may have started. */
  datatype Session = Session(button: Button, exporting: bool, resetPending: bool)

  const Start: Session := Session(Idle, false, false)

  /** What can happen next: a click, the started export finishing, the reset timer firing. */
  datatype Occurrence = UserClick | ExportFinishes(converts: bool) | TimerFires

  /** How the awaited export settles: as written, or reporting failure by rejecting. */
  function Settles(ctx: ExportContext, converts: bool, reporting: bool): Settlement {
    if reporting then ExportToPdfReporting(ctx.content, ctx.store, ctx.readFails, ctx.now, converts).settles
    else ExportToPdf(ctx.content, ctx.store, ctx.readFails, ctx.now, converts).settles
  }

  /** One occurrence; an export finishing or a timer firing that was never started changes nothing. */
  function Advance(s: Session, o: Occurrence, ctx: ExportContext, reporting: bool): Session {
    match o
    case UserClick =>
      var st := OnEvent(s.button, Click);
      Session(st.button, s.exporting || st.effect == StartExport, s.resetPending)
    case ExportFinishes(converts) =>
      if s.exporting then Session(OnEvent(s.button, Settled(Settles(ctx, converts, reporting))).button, false, true)
      else s
    case TimerFires =>
      if s.resetPending then Session(OnEvent(s.button, ResetFired).button, s.exporting, false) else s
  }

  function Run(s: Session, trace: seq<Occurrence>, ctx: ExportContext, reporting: bool): Session
    decreases |trace|
  {
    if |trace| == 0 then s else Run(Advance(s, trace[0], ctx, reporting), trace[1..], ctx, reporting)
  }

  /**
   * The label and the flags agree: the button is disabled exactly when it does not offer the
   * download, an export is running exactly while "Generating..." shows, and a reset is
   * pending exactly while an outcome shows.
   */
  predicate Coherent(s: Session) {
    && (s.button.disabled <==> s.button.shows != DownloadPdf)
    && (s.exporting <==> s.button.shows == Generating)
    && (s.resetPending <==> s.button.shows == Downloaded || s.button.shows == Failed)
  }

  lemma AdvanceKeepsCoherent(s: Session, o: Occurrence, ctx: ExportContext, reporting: bool)
    requires Coherent(s)
    ensures Coherent(Advance(s, o, ctx, reporting))
  {
  }

  /** Every session a run reaches from the start is coherent. */
  lemma {:induction false} RunKeepsCoherent(s: Session, trace: seq<Occurrence>, ctx: ExportContext, reporting: bool)
    requires Coherent(s)
    ensures Coherent(Run(s, trace, ctx, reporting))
    decreases |trace|
  {
    if |trace| > 0 {
      AdvanceKeepsCoherent(s, trace[0], ctx, reporting);
      RunKeepsCoherent(Advance(s, trace[0], ctx, reporting), trace[1..], ctx, reporting);
    }
  }

  /** While an export runs the button is disabled, so a click starts no second export. */
  lemma NoOverlappingExports(s: Session, ctx: ExportContext, reporting: bool)
    requires Coherent(s) && s.exporting
    ensures Advance(s, UserClick, ctx, reporting) == s
  {
  }

  /** As written, the finished export always resolves, so the button shows "Downloaded!" whatever happened. */
  lemma AsWrittenShowsDownloaded(s: Session, converts: bool, ctx: ExportContext)
    requires s.exporting
    ensures Advance(s, ExportFinishes(converts), ctx, false).button.shows == Downloaded
  {
  }

  /** As written, no run from a coherent session that does not show "Failed" ever shows it. */
  lemma {:induction false} AsWrittenNeverFails(s: Session, trace: seq<Occurrence>, ctx: ExportContext)
    requires Coherent(s) && s.button.shows != Failed
    ensures Run(s, trace, ctx, false).button.shows != Failed
    decreases |trace|
  {
    if |trace| > 0 {
      var next := Advance(s, trace[0], ctx, false);
      AdvanceKeepsCoherent(s, trace[0], ctx, false);
      AsWrittenNeverFails(next, trace[1..], ctx);
    }
  }

  /**
   * The discrepancy on a concrete run: a click and a failing conversion leave the user with an
   * alert from the export manager and "Downloaded!" on the button.
   */
  lemma FailedConversionShowsDownloaded(ctx: ExportContext)
    ensures ExportToPdf(ctx.content, ctx.store, ctx.readFails, ctx.now, false).outcome == PdfAlert(PdfFailureMessage)
    ensures Run(Start, [UserClick, ExportFinishes(false)], ctx, false).button.shows == Downloaded
  {
    assert [UserClick, ExportFinishes(false)][1..] == [ExportFinishes(false)];
  }

  /**
   * With the export that rejects on failure, the outcome the button shows after the export
   * finishes is "Failed" exactly when the conversion failed.
   */
  lemma ReportingShowsOutcome(s: Session, converts: bool, ctx: ExportContext)
    requires s.exporting
    ensures Advance(s, ExportFinishes(converts), ctx, true).button.shows == (if converts then Downloaded else Failed)
  {
  }

  /**
   * With the export that rejects on failure, "Failed" shows after an occurrence exactly when
   * that occurrence is a running export failing, or "Failed" already showed and the reset
   * timer has not fired.
   */
  lemma ReportingFailedStep(s: Session, o: Occurrence, ctx: ExportContext)
    requires Coherent(s)
    ensures Advance(s, o, ctx, true).button.shows == Failed <==>
      (s.exporting && o == ExportFinishes(false)) || (s.button.shows == Failed && o != TimerFires)
  {
  }

  /** With the export that rejects on failure, a run shows "Failed" only after a conversion failed in it. */
  lemma {:induction false} ReportingFailsOnlyAfterFailure(s: Session, trace: seq<Occurrence>, ctx: ExportContext)
    requires Coherent(s) && s.button.shows != Failed
    requires Run(s, trace, ctx, true).button.shows == Failed
    ensures ExportFinishes(false) in trace
    decreases |trace|
  {
    var next := Advance(s, trace[0], ctx, true);
    AdvanceKeepsCoherent(s, trace[0], ctx, true);
    if next.button.shows == Failed {
      ReportingFailedStep(s, trace[0], ctx);
    } else {
      ReportingFailsOnlyAfterFailure(next, trace[1..], ctx);
    }
  }
}
