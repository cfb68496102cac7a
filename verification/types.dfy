/** The settings record, its defaults and the constant tables of the extension's shared types. */
module Types {
  import opened Wrappers
  import opened Decimal

  /** The three sites the extension recognises (the `website` union of an answer). */
  datatype Site = ChatGpt | Claude | Perplexity

  datatype FontSize = Small | Medium | Large

  datatype PageFormat = A4 | Letter | Legal

  datatype MarginProfile = Narrow | Normal | Wide

  /** The user's formatting preferences. */
  datatype ExportSettings = ExportSettings(
    fontFamily: string,
    fontSize: FontSize,
    pageFormat: PageFormat,
    margins: MarginProfile,
    darkMode: bool)

  const DefaultSettings: ExportSettings := ExportSettings("Arial", Medium, A4, Normal, false)

  /** The font families the options page offers. */
  const FontFamilies: seq<string> :=
    ["Arial", "Times New Roman", "Roboto", "Helvetica", "Georgia", "Courier New"]

  /** CSS font-size text for each size choice. */
  const FontSizes: map<FontSize, string> :=
    map[Small := "12px", Medium := "14px", Large := "16px"]

  /** Page width and height in millimetres. */
  const PageFormats: map<PageFormat, (nat, nat)> :=
    map[A4 := (210, 297), Letter := (216, 279), Legal := (216, 356)]

  /** Page margins in millimetres, as the quadruple handed to the PDF converter. */
  const Margins: map<MarginProfile, seq<nat>> :=
    map[Narrow := [10, 10, 10, 10], Normal := [20, 20, 20, 20], Wide := [30, 30, 30, 30]]

  /** The string the source uses for a site. */
  function SiteName(site: Site): string {
    match site
    case ChatGpt => "chatgpt"
    case Claude => "claude"
    case Perplexity => "perplexity"
  }

  /** Each site has its own name, so the source's string results tell the sites apart. */
  lemma SiteNamesDistinct()
    ensures forall a: Site, b: Site :: SiteName(a) == SiteName(b) ==> a == b
  {
  }

  /** The string the source uses for a page format (also the PDF converter's `format`). */
  function PageFormatName(f: PageFormat): string {
    match f
    case A4 => "a4"
    case Letter => "letter"
    case Legal => "legal"
  }

  lemma DefaultsAsDeclared()
    ensures DefaultSettings.fontFamily == "Arial"
    ensures DefaultSettings.fontSize == Medium
    ensures DefaultSettings.pageFormat == A4
    ensures DefaultSettings.margins == Normal
    ensures !DefaultSettings.darkMode
  {
  }

  /** The default font family is one the options page offers. */
  lemma DefaultFontIsOffered()
    ensures DefaultSettings.fontFamily in FontFamilies
    ensures FontFamilies[0] == DefaultSettings.fontFamily
  {
  }

  /** Every size has a font-size entry: 12, 14 and 16 pixels, strictly increasing. */
  lemma FontSizesIncreasing()
    ensures forall f :: f in FontSizes
    ensures CssPixels(FontSizes[Small]) == Some(12)
    ensures CssPixels(FontSizes[Medium]) == Some(14)
    ensures CssPixels(FontSizes[Large]) == Some(16)
  {
    forall f ensures f in FontSizes {
      match f
      case Small =>
      case Medium =>
      case Large =>
    }
    assert FontSizes[Small][..2] == "12" && FontSizes[Small][2..] == "px";
    assert "12"[..1] == "1";
    assert FontSizes[Medium][..2] == "14" && FontSizes[Medium][2..] == "px";
    assert "14"[..1] == "1";
    assert FontSizes[Large][..2] == "16" && FontSizes[Large][2..] == "px";
    assert "16"[..1] == "1";
  }

  /** Every margin profile is four equal sides, and narrow < normal < wide. */
  lemma MarginsUniform()
    ensures forall m :: m in Margins
    ensures forall m :: |Margins[m]| == 4
    ensures forall m, i :: 0 <= i < |Margins[m]| ==> Margins[m][i] == Margins[m][0]
    ensures Margins[Narrow][0] < Margins[Normal][0] < Margins[Wide][0]
  {
    forall m ensures m in Margins {
      match m
      case Narrow =>
      case Normal =>
      case Wide =>
    }
  }

  /** Every page format has a table entry, and each is taller than it is wide. */
  lemma PageFormatsPortrait()
    ensures forall f :: f in PageFormats
    ensures forall f :: PageFormats[f].0 < PageFormats[f].1
  {
    forall f ensures f in PageFormats {
      match f
      case A4 =>
      case Letter =>
      case Legal =>
    }
  }
}
