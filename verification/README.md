# AI Answer Exporter — a Dafny model of its core

AI Answer Exporter is a browser extension. On ChatGPT, Claude and Perplexity pages it adds
two buttons to each AI answer. "Download PDF" turns the answer into a PDF file and "Print"
opens the print dialog. Both export paths render a normalised copy of the answer: any
controls the extension injected are removed, and the user's typography settings and page
palette (light or dark) are applied inline. The settings live in synced browser storage and
fall back to defaults field by field.

This project models that core as pure functions over immutable values and proves what it
promises:

- **Host detection** (`WebsiteDetector`). This covers which site a hostname names. It also
  covers which elements of a page count as answers: the site's selector group, no controls
  inside and, on Claude, a finished (`data-is-streaming="false"`) ancestor. Answers are
  reported in document order.
- **Page model** (`Dom`). A page is a tree of elements. An element is referred to by its path
  of child indices from the root. `querySelectorAll` is modelled as a preorder traversal that
  carries the `closest` flag down, and it is proved sound, complete and duplicate-free.
- **Export renderer** (`ExportManager`). This covers the normalising copy
  (`processContentForExport`), the print stylesheet (`getExportStyles`) and the PDF
  converter's option record. It also covers which branch `exportToPDF` and `printContent`
  take (alerts included), given whether the converter succeeds, whether the popup opens and
  whether writing the document throws.
- **Settings** (`Settings`). `getSettings`, `setSettings` and `resetSettings` as spread
  merges over a store value, where each read or write may fail.
- **Constants** (`Types`). The defaults, the font families, the font sizes, the page formats
  and the margins.
- **Content script** (`ContentScript`, `PdfButton`). This covers the controls block and the
  guarded append to each answer. It covers the injection pass and its retry counter, which
  is bounded by ten calls. It also covers the PDF button's label and disabled-flag state
  machine, composed with the PDF export.

Browser effects become parameters: the hostname, `Date.now()`, storage failures, whether the
converter succeeds, whether `window.open` returns a window, and whether writing the document
throws. Each effect is a plain argument of the function that needs it.

## Model

| member | source | states |
|---|---|---|
| `WebsiteDetector.DetectWebsite` | src/utils/websiteDetector.ts:4-16 | The site is ChatGPT exactly when the hostname contains "chat.openai.com". It is Claude exactly when it contains "claude.ai" and not the first, and Perplexity exactly when it contains "perplexity.ai" and neither earlier text. Otherwise there is no site. |
| `WebsiteDetector.DetectRegisteredHosts` | src/utils/websiteDetector.ts:7-10 | "chat.openai.com" is ChatGPT and "claude.ai" is Claude. |
| `WebsiteDetector.DetectPerplexityHost` | src/utils/websiteDetector.ts:11-12 | "www.perplexity.ai", the host the script is registered for, is Perplexity. |
| `WebsiteDetector.PerplexityHostContainsDomain` | src/utils/websiteDetector.ts:11 | "www.perplexity.ai" contains "perplexity.ai". |
| `WebsiteDetector.DetectOtherHost` | src/utils/websiteDetector.ts:15 | An unrelated host ("example.com") names no site. |
| `WebsiteDetector.FindAnswerElements` | src/utils/websiteDetector.ts:18-32 | An unrecognised host yields no answers. Every answer carries the detected site. |
| `WebsiteDetector.AnswersSound` | src/utils/websiteDetector.ts:34-107 | Every reported answer names an element of the page that the site's selector group matches and that contains no `.ai-export-buttons`. On Claude that element also has an inclusive ancestor with `data-is-streaming="false"`. Its content is that element's text. |
| `WebsiteDetector.AnswersComplete` | src/utils/websiteDetector.ts:34-107 | Every element meeting those conditions is reported. |
| `WebsiteDetector.AnswersExactly` | src/utils/websiteDetector.ts:44-53 | An element is reported if and only if it meets those conditions. |
| `WebsiteDetector.AnswersInDocumentOrder` | src/utils/websiteDetector.ts:44-53 | The reported elements are a duplicate-free subsequence of the selector group's matches in document order. |
| `WebsiteDetector.AnswersAncestorsFirst` | src/utils/websiteDetector.ts:44-53 | An answer nested inside another answer is reported after it. |
| `WebsiteDetector.ClaudeSkipsStreamingAnswer` | src/utils/websiteDetector.ts:72 | On a Claude page with one finished and one streaming reply, only the finished reply is reported. |
| `Dom.MarkedDescendantAt` | src/utils/websiteDetector.ts:46 | `querySelector('.ai-export-buttons')` finds something if and only if some proper descendant carries the class. |
| `Dom.PreorderSound` | src/utils/websiteDetector.ts:72 | Each visited element is the element at its path. Its flag is true exactly when it or an ancestor is not streaming, as `closest` decides. |
| `Dom.PreorderComplete` | src/utils/websiteDetector.ts:36-41 | The traversal behind `querySelectorAll` reaches every element of the page. |
| `Dom.PreorderDistinct` | src/utils/websiteDetector.ts:36-41 | The traversal visits no element twice. |
| `Dom.PreorderAncestorsFirst` | src/utils/websiteDetector.ts:36-41 | The traversal visits every element after all of its ancestors. |
| `Types.SiteNamesDistinct` | src/types/index.ts:12 | The three site names `'chatgpt'`, `'claude'` and `'perplexity'` are pairwise different, so a name identifies its site. |
| `Types.DefaultsAsDeclared` | src/types/index.ts:15-21 | The defaults are Arial, medium, A4, normal margins, light mode. |
| `Types.DefaultFontIsOffered` | src/types/index.ts:23-30 | The default font family is the first of the offered families. |
| `Types.FontSizesIncreasing` | src/types/index.ts:32-36 | Every size has an entry. They read as 12, 14 and 16 pixels. |
| `Types.MarginsUniform` | src/types/index.ts:44-48 | Every profile is four equal sides. Narrow < normal < wide. |
| `Types.PageFormatsPortrait` | src/types/index.ts:38-42 | Every format has an entry, and each is taller than it is wide. |
| `Settings.Overlay` | src/utils/settings.ts:7 | The object spread: a field present in the partial record wins, and every other field keeps the base value. |
| `Settings.OverlayUnits` | src/utils/settings.ts:17 | Spreading nothing keeps the base. Spreading a complete record yields that record. |
| `Settings.OverlayIdempotent` | src/utils/settings.ts:17 | Spreading the same partial record twice equals spreading it once. |
| `Settings.GetSettings` | src/utils/settings.ts:4-12 | The result is the stored fields over the defaults. It is the defaults alone when the read fails or nothing is stored. |
| `Settings.MissingFieldsReadAsDefaults` | src/utils/settings.ts:7 | A field the store lacks reads as its default. |
| `Settings.SetSettings` | src/utils/settings.ts:14-22 | The partial record is merged into the current settings and the complete result is written. A failed write leaves the store unchanged. |
| `Settings.ResetSettings` | src/utils/settings.ts:24-30 | Writes the defaults. A failed write leaves the store unchanged. |
| `Settings.SetThenGet` | src/utils/settings.ts:14-18 | After a successful set, a read returns the given fields and every other field as before. |
| `Settings.SetFontSizeOnly` | src/utils/settings.ts:14-18 | Setting only the font size changes nothing else. |
| `Settings.SetNothingKeepsSettings` | src/utils/settings.ts:14-22 | When the read inside the set succeeds, setting an empty record leaves the effective settings unchanged, whether or not the write fails. (When that read fails, the defaults are stored instead: see `Settings.SetAfterFailedRead`.) |
| `Settings.SetIdempotent` | src/utils/settings.ts:14-18 | When every read and write succeeds, setting the same record twice leaves the same store as setting it once. |
| `Settings.ResetThenGet` | src/utils/settings.ts:24-27 | After a successful reset, a read returns the defaults. |
| `Settings.SetAfterFailedRead` | src/utils/settings.ts:8-17 | When the read inside a set fails, every field outside the given record reverts to its default. |
| `Decimal.DecimalRoundTrip` | src/utils/exportManager.ts:14 | The decimal text of a timestamp reads back as that timestamp. |
| `ExportManager.StripMarkers` | src/utils/exportManager.ts:77-81 | The clone keeps the element's own tag, classes, attributes, style and text. Only children are dropped. |
| `ExportManager.StyleSubtree` | src/utils/exportManager.ts:99-141 | Styling changes only styles and keeps every element's number of children. |
| `ExportManager.StripRemovesMarkers` | src/utils/exportManager.ts:79-81 | After the removal no proper descendant carries the marker class. |
| `ExportManager.StripKeepsUnmarked` | src/utils/exportManager.ts:77-81 | A subtree without markers is cloned unchanged. |
| `ExportManager.StyleKeepsMarkers` | src/utils/exportManager.ts:99-141 | Styling neither adds nor removes marked descendants. |
| `ExportManager.StyleSubtreeAt` | src/utils/exportManager.ts:119-132 | The element at a path of a styled subtree is the original element there, styled with "inside a table" set by the tables above it. |
| `ExportManager.StyleIdempotent` | src/utils/exportManager.ts:99-141 | Styling twice equals styling once. |
| `ExportManager.NormalizedAt` | src/utils/exportManager.ts:75-143 | Below the root, the copy has an element exactly where the marker-free clone has one, and it is that element styled. |
| `ExportManager.RootStyled` | src/utils/exportManager.ts:83-97 | The copy's root keeps its identity and gets the chosen font family and size, line height 1.6, max-width 100%, margin 0 and padding 20px. It gets the dark palette (background #1a1a1a, text #ffffff) or the light one (background #ffffff, text #000000). Its other style properties are kept. |
| `ExportManager.MarkersRemoved` | src/utils/exportManager.ts:79-81 | The copy contains no export controls. Its root is never removed. |
| `ExportManager.DescendantStyle` | src/utils/exportManager.ts:99-141 | An element below the root keeps its tag, classes, attributes and text. Its style is its old style plus the overlay for its tag. |
| `ExportManager.OverlayOfTag` | src/utils/exportManager.ts:99-141 | pre/code, ul/ol, table, td/th inside a table, and h1-h6 each get their own overlay. Every other tag gets none. |
| `ExportManager.CodeBlocksStyled` | src/utils/exportManager.ts:99-108 | Every pre/code below the root gets "Courier New, monospace", the dark (#2d2d2d) or light (#f5f5f5) code background, and 10px padding. |
| `ExportManager.ListsStyled` | src/utils/exportManager.ts:110-116 | Every ul/ol below the root gets 20px left padding and a 10px bottom margin. |
| `ExportManager.TablesStyled` | src/utils/exportManager.ts:118-124 | Every table below the root gets collapsed borders and 100% width. |
| `ExportManager.TableCellsStyled` | src/utils/exportManager.ts:126-131 | Every td/th inside such a table gets a 1px solid #ccc border and 8px padding. |
| `ExportManager.HeadingsStyled` | src/utils/exportManager.ts:134-141 | Every h1-h6 below the root gets margins of 20px on top and 10px below, and bold weight. |
| `ExportManager.OtherElementsUntouched` | src/utils/exportManager.ts:99-143 | Every other element below the root keeps its style, including a td/th outside any table. |
| `ExportManager.UnmarkedInputKeepsShape` | src/utils/exportManager.ts:76-81 | An answer without controls loses no element. |
| `ExportManager.NormalizeIdempotent` | src/utils/exportManager.ts:75-143 | Normalising the normalised copy again with the same settings changes nothing. |
| `ExportManager.BodyRuleMirrorsRoot` | src/utils/exportManager.ts:148-156 | The stylesheet's body rule is the root's inline style without max-width. |
| `ExportManager.CodeRuleMirrorsInline` | src/utils/exportManager.ts:158-164 | The pre/code rule is the inline code style with the font name quoted. |
| `ExportManager.BlockRulesMirrorInline` | src/utils/exportManager.ts:166-186 | The list, table, cell and heading rules are exactly their inline overlays, for the same tags. |
| `ExportManager.PrintPaletteMatchesInline` | src/utils/exportManager.ts:154-155 | The printed body's colours are the copy's inline colours. |
| `ExportManager.PdfOptionsFollowSettings` | src/utils/exportManager.ts:12-26 | The margins are the chosen profile's four equal sides. The format is the chosen page format, in millimetres, portrait, at canvas scale 2. |
| `ExportManager.PdfFileNameEncodesTime` | src/utils/exportManager.ts:14 | The file name is `ai-answer-<timestamp>.pdf`, and the timestamp can be read back from it. |
| `ExportManager.ExportToPdf` | src/utils/exportManager.ts:5-33 | The settings are read and the answer normalised. The file is saved with the matching options exactly when the converter succeeds; otherwise the user is alerted "Failed to export PDF. Please try again.". Either way the promise resolves. |
| `ExportManager.ExportToPdfReporting` | src/utils/exportManager.ts:29-32 | Corrected: the same outcome, but the promise rejects exactly when the conversion fails. |
| `ExportManager.PrintMatchesPdf` | src/utils/exportManager.ts:5-73 | When the popup opens and the write succeeds, the print body is the same document the PDF path saves, and the printed body rule carries the copy's inline root style. |
| `ExportManager.PrintContent` | src/utils/exportManager.ts:35-73 | A blocked popup alerts "Please allow popups for this site to use the print feature.". A failing write alerts "Failed to open print dialog. Please try again.". Otherwise the job is titled "AI Answer Export", carries the settings' stylesheet and the normalised answer, and prints after 500 ms. |
| `ContentScript.ControlsNeverSelected` | src/entrypoints/content.ts:36-45 | No site's selector group matches the controls container or its buttons. |
| `ContentScript.AppendGrows` | src/entrypoints/content.ts:139 | Appending the controls only grows the page: nothing is changed or reordered. |
| `ContentScript.AppendMarks` | src/entrypoints/content.ts:139 | The answer gains exactly one child, the controls block, as its last child. It then contains controls. |
| `ContentScript.AppendElsewhere` | src/entrypoints/content.ts:139 | No other element gains a child. |
| `ContentScript.AppendKeepsOthers` | src/entrypoints/content.ts:139 | Every element other than the answer and its ancestors is left exactly as it was. |
| `ContentScript.GrownDecorated` | src/entrypoints/content.ts:139 | Appending controls blocks as built is one case of decorating an element: old children kept in order, every added child marked. |
| `ContentScript.BlockEditedDecorated` | src/entrypoints/content.ts:78-79 | Changing an added block in any way that keeps its marker class (relabelling, disabling or recolouring its buttons) keeps the element decorated. |
| `ContentScript.StripDecorated` | src/utils/exportManager.ts:77-81 | The export copy of a decorated element is the export copy of the element before: removing `.ai-export-buttons` drops exactly the added blocks, whatever they hold by then. |
| `ContentScript.StripGrown` | src/utils/exportManager.ts:77-81 | The same for blocks still exactly as built. |
| `ContentScript.GrownNodeAt` | src/entrypoints/content.ts:139 | Every element of the page survives growth, itself grown. |
| `ContentScript.GrownKeepsMarks` | src/entrypoints/content.ts:25 | Controls once present stay present. |
| `ContentScript.GrownKeepsSettled` | src/utils/websiteDetector.ts:72 | Growth does not change whether an element sits under a finished response. |
| `ContentScript.GrownNewNodes` | src/entrypoints/content.ts:36-47 | Every element growth adds is part of a controls block. |
| `ContentScript.AttachAllGrows` | src/entrypoints/content.ts:24-28 | The attach loop only grows the page. |
| `ContentScript.AttachAllMarks` | src/entrypoints/content.ts:24-28 | After the loop, every answer contains controls. |
| `ContentScript.AttachAllOnlyAnswers` | src/entrypoints/content.ts:24-28 | Only answers gain children, at most one each. |
| `ContentScript.AttachAllKeepsNode` | src/entrypoints/content.ts:24-28 | The loop leaves an element exactly as it was when no answer is that element or lies below it. |
| `ContentScript.FirstAnswerKeepsBlock` | src/entrypoints/content.ts:24-28 | The block given to the first answer stays its last and only new child through the rest of the loop, when no later answer is that element or an ancestor of it. |
| `ContentScript.AttachAllExact` | src/entrypoints/content.ts:24-28 | When the answers come ancestors first and none holds controls, each answer keeps its children in order and gains exactly one controls block, as its last child. |
| `ContentScript.InjectExportButtons` | src/entrypoints/content.ts:17-34 | Each call is counted. A retry in 1000 ms is scheduled exactly when no answer was found and fewer than 10 calls have been made. A call that finds nothing leaves the page unchanged. |
| `ContentScript.InjectionAttachesToAnswers` | src/entrypoints/content.ts:17-28 | One pass leaves every answer with controls. Only controls are added, only to answers, at most one block each. |
| `ContentScript.InjectionAddsOneBlockEach` | src/entrypoints/content.ts:24-28 | After one pass every answer has exactly one `ai-export-buttons` container among its own children (its last child; a nested answer adds another further down), holding the PDF button and then the print button. |
| `ContentScript.InjectedAnswerExportsAsBefore` | src/entrypoints/content.ts:81 | The pass decorates every answer it finds. An answer decorated in any way, including a block whose buttons have since changed, is exported as it was before the pass: its copy drops exactly the added blocks, and the processed export is the same. |
| `ContentScript.NestedPageAnswers` | src/utils/websiteDetector.ts:34-41 | On a ChatGPT page where a `conversation-turn-` element wraps an assistant message, both elements are answers. |
| `ContentScript.NestedAnswersGetTwoBlocks` | src/entrypoints/content.ts:24-28 | After one pass on that page the turn contains two `ai-export-buttons` containers: its own last child and the one appended to the message inside it. |
| `ContentScript.GrownAnswers` | src/entrypoints/content.ts:24-28 | On a page grown by controls, only elements that already were answers can be answers. |
| `ContentScript.InjectionIdempotent` | src/entrypoints/content.ts:25-27 | After a pass, a second pass finds no answers and leaves the page unchanged. |
| `ContentScript.RetryCallsWithoutAnswers` | src/entrypoints/content.ts:14-33 | On a page that never shows an answer, the retries stop when ten calls have been made in all. |
| `ContentScript.RetriesTenTimes` | src/entrypoints/content.ts:14-33 | From a fresh start on such a page, there are exactly ten calls. |
| `ContentScript.AnswersStopRetries` | src/entrypoints/content.ts:31 | A call that finds an answer schedules no retry. |
| `PdfButton.LabelTexts` | src/entrypoints/content.ts:49-92 | The four button texts ("Download PDF", "Generating...", "Downloaded!", "Failed") are pairwise different, and the idle one is the text the button is created with. |
| `PdfButton.ShownBlockDropped` | src/entrypoints/content.ts:78-81 | A block whose PDF button shows any label, disabled flag or background is dropped by the export copy, leaving the answer as it was. |
| `PdfButton.ClickedAnswerExportsAsBefore` | src/entrypoints/content.ts:73-81 | When the click handler exports its answer, with its PDF button already showing "Generating..." and disabled (or recoloured by hover), the processed export is that of the answer before the pass. |
| `PdfButton.OnEvent` | src/entrypoints/content.ts:73-96 | A disabled button ignores clicks. A click disables the button, shows "Generating..." and starts the export. Resolution shows "Downloaded!" and rejection shows "Failed"; either schedules a 2000 ms reset, which restores "Download PDF" and enables the button. |
| `PdfButton.AdvanceKeepsCoherent` | src/entrypoints/content.ts:73-96 | The button is disabled exactly when it does not offer the download. An export runs exactly while "Generating..." shows. A reset is pending exactly while an outcome shows. Every step keeps these facts. |
| `PdfButton.RunKeepsCoherent` | src/entrypoints/content.ts:73-96 | Those facts hold throughout every run. |
| `PdfButton.NoOverlappingExports` | src/entrypoints/content.ts:78-79 | A click during an export starts no second one. |
| `PdfButton.AsWrittenShowsDownloaded` | src/entrypoints/content.ts:81-83 | As written, a finished export always shows "Downloaded!". |
| `PdfButton.AsWrittenNeverFails` | src/entrypoints/content.ts:88-95 | As written, no run ever shows "Failed". |
| `PdfButton.FailedConversionShowsDownloaded` | src/entrypoints/content.ts:77-90 | A click followed by a failed conversion alerts the failure but shows "Downloaded!". |
| `PdfButton.ReportingShowsOutcome` | src/entrypoints/content.ts:81-95 | With the corrected export, the button shows "Failed" after the export exactly when the conversion failed. |
| `PdfButton.ReportingFailedStep` | src/entrypoints/content.ts:88-95 | With the corrected export, "Failed" shows exactly when a running export just failed, or when "Failed" already showed and the reset has not fired. |
| `PdfButton.ReportingFailsOnlyAfterFailure` | src/entrypoints/content.ts:88-95 | With the corrected export, a run shows "Failed" only after a conversion failed in it. |

## Left out

- `ContentScript.InjectionAddsOneBlockEach`: "exactly one container" holds among an answer's own children, not in its whole subtree. The source attaches to every element its selector group matches, and one answer can contain another. On ChatGPT, for example, a `conversation-turn-` element can wrap an assistant message. The outer answer then contains two containers, its own and the inner answer's (`ContentScript.NestedAnswersGetTwoBlocks`). The model keeps the source's behaviour here and does not guess which of the two answers the source means to skip.
- The MutationObserver, the initial one-second timer, the observer's 500 ms re-run and the `beforeunload` disconnect are not modelled as a scheduler. Each call is one `InjectExportButtons`, and the attempt counter they share is its argument.
- The hover handlers (`onmouseover`/`onmouseout`) only recolour a button and are not modelled as events. A recoloured button is covered by `PdfButton.ShownBlock`'s background parameter. Neither are `preventDefault` and `stopPropagation`.
- The print button's handler holds no state. `printContent` always resolves, so its catch branch only logs and is not modelled.
- The HTML-to-PDF library's rendering and saving are not modelled: they are one boolean, "the converter succeeds". The same goes for its dynamic import.
- The JPEG quality 0.98 is left out of `PdfOptions`: floating point.
- `window.open`, `document.write`, `focus`, `print` and `close` are not modelled. They are the booleans "a window opens" and "writing succeeds", and the 500 ms delay is a field of the print job.
- Alerts and console messages are not side effects here. An alert is a value of the outcome, and logging is dropped.
- The stylesheet is a list of rules, not CSS text. The print document is a record, not HTML text, so `outerHTML` serialisation is not modelled.
- CSS shorthand expansion is not modelled: `margin` does not set `margin-top`. An inline style is a map from property names to values.
- `innerText` is not modelled: each element's rendered text is a given field, not derived from its children. The controls container's own text is empty in the model.
- Elements are values, so "the clone leaves the original untouched" holds by construction. The `cloneNode` step has no separate statement.
- Selector matching covers only the selectors the source uses: class, attribute equality, attribute prefix and tag.
- The registered host patterns of the manifest are not modelled. Detection is defined for every hostname.
- `PAGE_FORMATS` is stated and checked (`Types.PageFormatsPortrait`). The export hands the converter the format's name and never reads this table.
- Storage is a single value: concurrent writers and the storage change events are not modelled. The background script, the popup and the options page are not part of this model.

## Findings

| source | as written | input that shows it | evidently intended | confidence | as-written member | corrected member |
|---|---|---|---|---|---|---|
| src/utils/exportManager.ts:29-32 | `exportToPDF` catches every failure, alerts, and resolves. The PDF button's catch branch (src/entrypoints/content.ts:88-95, "❌ Failed") can therefore never run. | Click "Download PDF" while the converter fails to load or to save: the user sees the failure alert, then "✅ Downloaded!" on the button. | The export reports the failure to its caller, so the button shows "Failed" exactly when the conversion failed (proved as `PdfButton.ReportingShowsOutcome`). | not executed | `PdfButton.FailedConversionShowsDownloaded` | `ExportManager.ExportToPdfReporting` |
