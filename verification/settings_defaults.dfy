/** The application's settings (`src/config.rs`) and
    `set_default_settings`, which fills every empty text setting with a
    fixed default and leaves everything else as it is. */
module SettingsDefaults {
  import opened Results

  datatype GeneralSettings = GeneralSettings(
    showStackOnPush: bool,
    showStackOnPop: bool,
    showStackOnBookmark: bool)

  datatype FormatSettings = FormatSettings(
    stackSeparator: string,
    bookmarksSeparator: string,
    alignSeparators: bool)

  /** The style descriptors; `bookmarksSeperator` keeps the source's spelling. */
  datatype StyleSettings = StyleSettings(
    stackNumber: string,
    stackSeparator: string,
    stackPath: string,
    bookmarksName: string,
    bookmarksSeperator: string,
    bookmarksPath: string)

  datatype Settings = Settings(general: GeneralSettings, format: FormatSettings, styles: StyleSettings)

  const DefaultSeparator: string := " - "
  const DefaultNumberColor: string := "default"
  const DefaultSeparatorColor: string := "cyan"
  const DefaultPathColor: string := "default"

  /** The setting, or the default when the setting is empty. */
  function OrDefault(s: string, default: string): (r: string)
    ensures |s| > 0 ==> r == s
    ensures |s| == 0 ==> r == default
  {
    if |s| == 0 then default else s
  }

  /** Every text setting is non-empty. */
  predicate Filled(s: Settings) {
    && |s.format.stackSeparator| > 0
    && |s.format.bookmarksSeparator| > 0
    && |s.styles.stackNumber| > 0
    && |s.styles.stackSeparator| > 0
    && |s.styles.stackPath| > 0
    && |s.styles.bookmarksName| > 0
    && |s.styles.bookmarksSeperator| > 0
    && |s.styles.bookmarksPath| > 0
  }

  /** `set_default_settings`: always `Ok`; afterwards every text setting is
      filled, `general` and `align_separators` are as before. */
  function SetDefaultSettings(s: Settings): (r: Result<Settings>)
    ensures r.Ok? && Filled(r.value)
    ensures r.value.general == s.general
    ensures r.value.format.alignSeparators == s.format.alignSeparators
  {
    var f := s.format;
    var st := s.styles;
    Ok(Settings(
      s.general,
      FormatSettings(
        OrDefault(f.stackSeparator, DefaultSeparator),
        OrDefault(f.bookmarksSeparator, DefaultSeparator),
        f.alignSeparators),
      StyleSettings(
        OrDefault(st.stackNumber, DefaultNumberColor),
        OrDefault(st.stackSeparator, DefaultSeparatorColor),
        OrDefault(st.stackPath, DefaultPathColor),
        OrDefault(st.bookmarksName, DefaultNumberColor),
        OrDefault(st.bookmarksSeperator, DefaultSeparatorColor),
        OrDefault(st.bookmarksPath, DefaultPathColor))))
  }

  /** Settings that are already filled are left exactly as they are. */
  lemma FilledIsFixpoint(s: Settings)
    requires Filled(s)
    ensures SetDefaultSettings(s) == Ok(s)
  {
  }

  /** Applying the defaults twice is applying them once. */
  lemma Idempotent(s: Settings)
    ensures SetDefaultSettings(SetDefaultSettings(s).value) == SetDefaultSettings(s)
  {
    FilledIsFixpoint(SetDefaultSettings(s).value);
  }

  /** A setting changes only when it was empty, and then to its default. */
  lemma OnlyEmptyChange(s: Settings)
    ensures var r := SetDefaultSettings(s).value;
            && (r.format.stackSeparator != s.format.stackSeparator ==>
                  s.format.stackSeparator == "" && r.format.stackSeparator == DefaultSeparator)
            && (r.format.bookmarksSeparator != s.format.bookmarksSeparator ==>
                  s.format.bookmarksSeparator == "" && r.format.bookmarksSeparator == DefaultSeparator)
            && (r.styles.stackNumber != s.styles.stackNumber ==>
                  s.styles.stackNumber == "" && r.styles.stackNumber == DefaultNumberColor)
            && (r.styles.stackSeparator != s.styles.stackSeparator ==>
                  s.styles.stackSeparator == "" && r.styles.stackSeparator == DefaultSeparatorColor)
            && (r.styles.stackPath != s.styles.stackPath ==>
                  s.styles.stackPath == "" && r.styles.stackPath == DefaultPathColor)
            && (r.styles.bookmarksName != s.styles.bookmarksName ==>
                  s.styles.bookmarksName == "" && r.styles.bookmarksName == DefaultNumberColor)
            && (r.styles.bookmarksSeperator != s.styles.bookmarksSeperator ==>
                  s.styles.bookmarksSeperator == "" && r.styles.bookmarksSeperator == DefaultSeparatorColor)
            && (r.styles.bookmarksPath != s.styles.bookmarksPath ==>
                  s.styles.bookmarksPath == "" && r.styles.bookmarksPath == DefaultPathColor)
  {
  }

  /** The settings `Config::new` starts from: everything empty or `false`. */
  const Blank: Settings := Settings(
    GeneralSettings(false, false, false),
    FormatSettings("", "", false),
    StyleSettings("", "", "", "", "", ""))

  /** Without a configuration file every text setting takes its default. */
  lemma DefaultsOfBlank()
    ensures SetDefaultSettings(Blank) == Ok(Settings(
              GeneralSettings(false, false, false),
              FormatSettings(DefaultSeparator, DefaultSeparator, false),
              StyleSettings(DefaultNumberColor, DefaultSeparatorColor, DefaultPathColor,
                            DefaultNumberColor, DefaultSeparatorColor, DefaultPathColor)))
  {
  }
}
