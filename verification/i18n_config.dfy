/** The application's translation configuration, `src/lib/i18n/config.ts`:
    English by default, English and French loaders, no explicit direction. */
module I18nConfig {
  import opened Wrappers
  import opened I18n

  const APP_CONFIG: Config := Config("en", [Loader("en", None), Loader("fr", None)])

  /** The default locale is one of the loader locales, so falling back to
      it always lands on a supported locale, and after normalisation
      every locale reads left to right. */
  lemma AppConfigFacts()
    ensures Locales(APP_CONFIG) == ["en", "fr"]
    ensures APP_CONFIG.defaultLocale in Locales(APP_CONFIG)
    ensures IsLocaleSupported(APP_CONFIG, "en") && IsLocaleSupported(APP_CONFIG, "fr")
    ensures forall i :: 0 <= i < |NormalizeConfig(APP_CONFIG).loaders| ==> NormalizeConfig(APP_CONFIG).loaders[i].dir == Some(Ltr)
  {
    assert Locales(APP_CONFIG)[0] == "en";
  }
}
