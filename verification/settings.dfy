/**
 * The settings store: one record under the key `exportSettings` of the synced storage area.
 * A read overlays the stored fields on the defaults, a write merges a partial record into
 * what a read returns, and a reset writes the defaults. Storage failures are parameters:
 * a failing read yields the defaults, a failing write changes nothing; neither is reported.
 */
module Settings {
  import opened Wrappers
  import opened Types

  /** A record with any subset of the settings fields (`Partial<ExportSettings>`). */
  datatype PartialSettings = PartialSettings(
    fontFamily: Option<string>,
    fontSize: Option<FontSize>,
    pageFormat: Option<PageFormat>,
    margins: Option<MarginProfile>,
    darkMode: Option<bool>)

  /** The empty partial record `{}`. */
  const NoFields: PartialSettings := PartialSettings(None, None, None, None, None)

  /** A complete record seen as a partial one. */
  function AllFields(s: ExportSettings): PartialSettings {
    PartialSettings(Some(s.fontFamily), Some(s.fontSize), Some(s.pageFormat), Some(s.margins), Some(s.darkMode))
  }

  /** The object spread `{ ...base, ...p }`: each field present in `p` replaces the one in `base`. */
  function Overlay(base: ExportSettings, p: PartialSettings): (r: ExportSettings)
    ensures p.fontFamily.Some? ==> r.fontFamily == p.fontFamily.value
    ensures p.fontFamily.None? ==> r.fontFamily == base.fontFamily
    ensures p.fontSize.Some? ==> r.fontSize == p.fontSize.value
    ensures p.fontSize.None? ==> r.fontSize == base.fontSize
    ensures p.pageFormat.Some? ==> r.pageFormat == p.pageFormat.value
    ensures p.pageFormat.None? ==> r.pageFormat == base.pageFormat
    ensures p.margins.Some? ==> r.margins == p.margins.value
    ensures p.margins.None? ==> r.margins == base.margins
    ensures p.darkMode.Some? ==> r.darkMode == p.darkMode.value
    ensures p.darkMode.None? ==> r.darkMode == base.darkMode
  {
    ExportSettings(
      p.fontFamily.GetOr(base.fontFamily),
      p.fontSize.GetOr(base.fontSize),
      p.pageFormat.GetOr(base.pageFormat),
      p.margins.GetOr(base.margins),
      p.darkMode.GetOr(base.darkMode))
  }

  /** Overlaying nothing changes nothing; overlaying a complete record replaces everything. */
  lemma OverlayUnits(base: ExportSettings, s: ExportSettings)
    ensures Overlay(base, NoFields) == base
    ensures Overlay(base, AllFields(s)) == s
  {
  }

  /** Overlaying the same partial record twice is overlaying it once. */
  lemma OverlayIdempotent(base: ExportSettings, p: PartialSettings)
    ensures Overlay(Overlay(base, p), p) == Overlay(base, p)
  {
  }

  /** The synced storage area, as far as the key `exportSettings` goes; `None` when never written. */
  datatype Store = Store(exportSettings: Option<PartialSettings>)

  /**
   * getSettings: the defaults overlaid by the stored fields; exactly the defaults when the
   * read fails or nothing is stored.
   */
  function GetSettings(store: Store, readFails: bool): (r: ExportSettings)
    ensures readFails ==> r == DefaultSettings
    ensures store.exportSettings.None? ==> r == DefaultSettings
    ensures !readFails && store.exportSettings.Some? ==>
      r == Overlay(DefaultSettings, store.exportSettings.value)
  {
    if readFails then DefaultSettings
    else
      match store.exportSettings
      case None => DefaultSettings
      case Some(saved) => Overlay(DefaultSettings, saved)
  }

  /** A field the store lacks reads as its default. */
  lemma MissingFieldsReadAsDefaults(store: Store, readFails: bool)
    ensures (store.exportSettings.None? || store.exportSettings.value.fontFamily.None?) ==>
      GetSettings(store, readFails).fontFamily == DefaultSettings.fontFamily
    ensures (store.exportSettings.None? || store.exportSettings.value.fontSize.None?) ==>
      GetSettings(store, readFails).fontSize == DefaultSettings.fontSize
    ensures (store.exportSettings.None? || store.exportSettings.value.pageFormat.None?) ==>
      GetSettings(store, readFails).pageFormat == DefaultSettings.pageFormat
    ensures (store.exportSettings.None? || store.exportSettings.value.margins.None?) ==>
      GetSettings(store, readFails).margins == DefaultSettings.margins
    ensures (store.exportSettings.None? || store.exportSettings.value.darkMode.None?) ==>
      GetSettings(store, readFails).darkMode == DefaultSettings.darkMode
  {
  }

  /**
   * setSettings: reads the current settings (the defaults, should that read fail), merges `p`
   * into them and writes the complete result. A failing write leaves the store as it was.
   */
  function SetSettings(store: Store, p: PartialSettings, readFails: bool, writeFails: bool): (r: Store)
    ensures writeFails ==> r == store
    ensures !writeFails ==> r.exportSettings == Some(AllFields(Overlay(GetSettings(store, readFails), p)))
  {
    if writeFails then store
    else Store(Some(AllFields(Overlay(GetSettings(store, readFails), p))))
  }

  /** resetSettings: writes the defaults; a failing write leaves the store as it was. */
  function ResetSettings(store: Store, writeFails: bool): (r: Store)
    ensures writeFails ==> r == store
    ensures !writeFails ==> r.exportSettings == Some(AllFields(DefaultSettings))
  {
    if writeFails then store else Store(Some(AllFields(DefaultSettings)))
  }

  /**
   * After a successful `setSettings(p)`, a read returns p's fields with p's values and every
   * other field as it read before.
   */
  lemma SetThenGet(store: Store, p: PartialSettings)
    ensures GetSettings(SetSettings(store, p, false, false), false) == Overlay(GetSettings(store, false), p)
  {
    OverlayUnits(DefaultSettings, Overlay(GetSettings(store, false), p));
  }

  /** `setSettings({ fontSize: 'large' })` changes the font size and nothing else. */
  lemma SetFontSizeOnly(store: Store)
    ensures var before := GetSettings(store, false);
      GetSettings(SetSettings(store, NoFields.(fontSize := Some(Large)), false, false), false)
        == before.(fontSize := Large)
  {
    SetThenGet(store, NoFields.(fontSize := Some(Large)));
  }

  /**
   * When its inner read succeeds, `setSettings({})` leaves the effective settings as they
   * were, whether or not the write fails (a failed inner read stores the defaults instead,
   * see SetAfterFailedRead).
   */
  lemma SetNothingKeepsSettings(store: Store, writeFails: bool)
    ensures GetSettings(SetSettings(store, NoFields, false, writeFails), false) == GetSettings(store, false)
  {
    if !writeFails {
      SetThenGet(store, NoFields);
    }
  }

  /**
   * With every read and write succeeding, applying the same `setSettings(p)` twice leaves the
   * store as applying it once.
   */
  lemma SetIdempotent(store: Store, p: PartialSettings)
    ensures SetSettings(SetSettings(store, p, false, false), p, false, false) == SetSettings(store, p, false, false)
  {
    SetThenGet(store, p);
  }

  /** After a successful reset, a read returns exactly the defaults. */
  lemma ResetThenGet(store: Store)
    ensures GetSettings(ResetSettings(store, false), false) == DefaultSettings
  {
    OverlayUnits(DefaultSettings, DefaultSettings);
  }

  /**
   * When the read inside `setSettings(p)` fails, the write that follows stores p merged into
   * the defaults: every field outside `p` reverts to its default.
   */
  lemma SetAfterFailedRead(store: Store, p: PartialSettings)
    ensures GetSettings(SetSettings(store, p, true, false), false) == Overlay(DefaultSettings, p)
  {
    OverlayUnits(DefaultSettings, Overlay(DefaultSettings, p));
  }
}
