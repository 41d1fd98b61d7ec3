/** The settings dialog (components/SettingsModal.tsx) and the way its partial
    updates are merged into the session settings. */
module SettingsModal {
  import opened Wrappers
  import opened Types

  /** A partial settings object: each field may be absent. */
  datatype SettingsPatch = SettingsPatch(language: Option<UiLanguage>, isRTL: Option<bool>)

  /** `{ ...prev, ...patch }`: the fields the patch carries override, the others are kept. */
  function MergeSettings(prev: AppSettings, patch: SettingsPatch): (s: AppSettings)
    ensures patch.language.Some? ==> s.language == patch.language.value
    ensures patch.language.None? ==> s.language == prev.language
    ensures patch.isRTL.Some? ==> s.isRTL == patch.isRTL.value
    ensures patch.isRTL.None? ==> s.isRTL == prev.isRTL
  {
    AppSettings(patch.language.GetOr(prev.language), patch.isRTL.GetOr(prev.isRTL))
  }

  /** The payload of the English and the Arabic button. */
  function LanguagePayload(lang: UiLanguage): SettingsPatch {
    match lang
    case En => SettingsPatch(Some(En), Some(false))
    case Ar => SettingsPatch(Some(Ar), Some(true))
  }

  /** Interface direction follows interface language: right-to-left exactly for Arabic. */
  predicate Coupled(s: AppSettings) {
    s.isRTL == (s.language == Ar)
  }

  /** Choosing a language: both fields are set, so the result does not depend
      on the previous settings and is always coupled. */
  function ChooseLanguage(prev: AppSettings, lang: UiLanguage): (s: AppSettings)
    ensures s == AppSettings(lang, lang == Ar)
    ensures Coupled(s)
  {
    MergeSettings(prev, LanguagePayload(lang))
  }

  /** Choosing the language already in effect leaves coupled settings unchanged. */
  lemma ChooseActiveLanguage(s: AppSettings)
    requires Coupled(s)
    ensures ChooseLanguage(s, s.language) == s
  {
  }
}
