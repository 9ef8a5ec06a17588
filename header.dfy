/** `app-header`: the site header with a theme switch cycling through
    three themes, kept in the document's `data-theme` attribute and in
    local storage. */
module Header {
  import opened Seqs

  /** The themes of the cycle. */
  predicate Known(t: string)
  {
    t == "light" || t == "dark" || t == "spring"
  }

  /** `cycle[theme] ?? 'light'`: light to dark, dark to spring, spring to
      light, and anything else, an unset theme included, to light. */
  function NextTheme(theme: Option<string>): (r: string)
    ensures Known(r)
    ensures theme == Some("light") ==> r == "dark"
    ensures theme == Some("dark") ==> r == "spring"
    ensures theme == Some("spring") ==> r == "light"
    ensures theme.None? || !Known(theme.value) ==> r == "light"
  {
    if theme == Some("light") then "dark"
    else if theme == Some("dark") then "spring"
    else if theme == Some("spring") then "light"
    else "light"
  }

  /** The initial theme: the saved one if any, else dark when the system
      prefers dark, else light. */
  function InitialTheme(saved: Option<string>, systemDark: bool): (r: string)
    ensures saved.Some? ==> r == saved.value
    ensures saved.None? ==> r == (if systemDark then "dark" else "light") && Known(r)
  {
    if saved.Some? then saved.value else if systemDark then "dark" else "light"
  }

  class Switch {
    /** `_theme`, unset until connected. */
    var theme: Option<string>
    /** The document element's `data-theme` attribute. */
    var dataTheme: Option<string>
    /** The `theme` entry of local storage. */
    var stored: Option<string>

    constructor (storage: Option<string>, attribute: Option<string>)
      ensures theme.None? && stored == storage && dataTheme == attribute
    {
      theme := None;
      stored := storage;
      dataTheme := attribute;
    }

    /** `connectedCallback`: the theme is read from storage, falling back
        to the system preference. */
    method Connect(systemDark: bool)
      modifies this`theme
      ensures theme == Some(InitialTheme(stored, systemDark))
    {
      theme := Some(InitialTheme(stored, systemDark));
    }

    /** `_toggle`: the next theme of the cycle becomes the theme, the
        attribute and the stored value. */
    method Toggle()
      modifies this
      ensures theme == Some(NextTheme(old(theme)))
      ensures dataTheme == theme && stored == theme
      ensures Known(theme.value)
    {
      var next := NextTheme(theme);
      theme := Some(next);
      dataTheme := Some(next);
      stored := Some(next);
    }
  }

  /** Three toggles from a theme of the cycle come back to it, and two
      toggles never do. */
  lemma ThreeToggles(t: string)
    requires Known(t)
    ensures NextTheme(Some(NextTheme(Some(NextTheme(Some(t)))))) == t
    ensures NextTheme(Some(t)) != t && NextTheme(Some(NextTheme(Some(t)))) != t
  {
  }

  /** From an unknown or unset theme one toggle reaches light, after which
      the cycle is the usual one. */
  lemma UnknownEntersAtLight(theme: Option<string>)
    requires theme.None? || !Known(theme.value)
    ensures NextTheme(theme) == "light"
    ensures NextTheme(Some(NextTheme(theme))) == "dark"
  {
  }

  /** After one toggle the theme, the attribute and the storage agree, and
      a reload then picks the same theme whatever the system prefers. */
  lemma ToggleSurvivesReload(theme: Option<string>, systemDark: bool)
    ensures InitialTheme(Some(NextTheme(theme)), systemDark) == NextTheme(theme)
  {
  }
}
