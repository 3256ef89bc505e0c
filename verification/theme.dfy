/** The colour theme: read once from the browser's storage at start-up, flipped by the theme
    button. The stored value can be any text, so a theme is a string. */
module Theme {
  import opened Wrappers

  const Light: string := "light"
  const Dark: string := "dark"

  /** `localStorage.getItem('theme') || 'light'`: a missing or empty stored value falls back to
      the light theme; anything else is taken as it is. */
  function InitialTheme(stored: Option<string>): (r: string)
    ensures r != ""
    ensures stored.Some? && stored.value != "" ==> r == stored.value
    ensures stored.None? || stored.value == "" ==> r == Light
  {
    match stored
    case Some(t) => if t != "" then t else Light
    case None => Light
  }

  /** The expression in `toggleTheme`: light becomes dark, and anything else becomes light. */
  function Toggled(theme: string): (r: string)
    ensures r == Light || r == Dark
    ensures r != theme
    ensures r == Dark <==> theme == Light
  {
    if theme == Light then Dark else Light
  }

  /** Toggling twice gives back the theme exactly when it is one of the two known ones: an
      unknown stored theme is replaced by light at the first toggle. */
  lemma ToggleTwice(theme: string)
    ensures Toggled(Toggled(theme)) == theme <==> theme == Light || theme == Dark
  {
  }

  /** `updateThemeIcon`: the sun on the light theme, the moon on any other. */
  function Icon(theme: string): (r: char)
    ensures r == '\U{1F31E}' <==> theme == Light
    ensures r == '\U{1F31E}' || r == '\U{1F319}'
  {
    if theme == Light then '\U{1F31E}' else '\U{1F319}'
  }

  /** Each toggle changes the icon. */
  lemma ToggleChangesIcon(theme: string)
    requires theme == Light || theme == Dark
    ensures Icon(Toggled(theme)) != Icon(theme)
  {
  }
}
