/** Theme and colour-mode handling of `src/lib/theming/index.svelte.ts`.
    The document attributes and the preference request are side effects;
    the model returns the values that are applied and posted, and takes
    the `prefers-color-scheme: dark` media query as a parameter. */
module Theming {
  import opened Wrappers

  const THEMES: seq<string> := ["material", "vercel", "sleek-black", "claude"]
  const MODES: seq<string> := ["light", "dark", "system"]
  const DEFAULT_THEME := "material"
  const DEFAULT_MODE := "system"

  /** `getTheme(wantedTheme)`: a known theme is kept, anything else,
      `null`, `undefined` and `''` included, becomes `material`. */
  function GetTheme(wanted: Option<string>): (r: string)
    ensures r in THEMES
    ensures wanted.Some? && wanted.value in THEMES ==> r == wanted.value
    ensures !(wanted.Some? && wanted.value in THEMES) ==> r == DEFAULT_THEME
  {
    if wanted.Some? && wanted.value != "" && wanted.value in THEMES then wanted.value else THEMES[0]
  }

  /** `getMode(wantedMode)`: a known mode is kept, anything else becomes `system`. */
  function GetMode(wanted: Option<string>): (r: string)
    ensures r in MODES
    ensures wanted.Some? && wanted.value in MODES ==> r == wanted.value
    ensures !(wanted.Some? && wanted.value in MODES) ==> r == DEFAULT_MODE
  {
    if wanted.Some? && wanted.value != "" && wanted.value in MODES then wanted.value else DEFAULT_MODE
  }

  /** Coercing twice is coercing once. */
  lemma CoercionIdempotent(wanted: Option<string>)
    ensures GetTheme(Some(GetTheme(wanted))) == GetTheme(wanted)
    ensures GetMode(Some(GetMode(wanted))) == GetMode(wanted)
  {
  }

  /** What `applyMode` returns: the mode recorded and the one in effect. */
  datatype AppliedMode = AppliedMode(mode: string, effective: string)

  /** `applyMode(mode)`: an unknown mode is treated as `system`; the
      effective mode is the mode itself for light and dark, and follows
      the colour-scheme preference for system. */
  function ApplyMode(mode: string, prefersDark: bool): (r: AppliedMode)
    ensures r.mode in MODES
    ensures mode in MODES ==> r.mode == mode
    ensures mode !in MODES ==> r.mode == DEFAULT_MODE
    ensures r.effective == "light" || r.effective == "dark"
    ensures r.mode != DEFAULT_MODE ==> r.effective == r.mode
    ensures r.mode == DEFAULT_MODE ==> (r.effective == "dark" <==> prefersDark)
  {
    var m := if mode in MODES then mode else DEFAULT_MODE;
    if m == "light" || m == "dark" then AppliedMode(m, m)
    else AppliedMode(m, if prefersDark then "dark" else "light")
  }

  /** The body posted to `/api/preferences/theming` by `saveAndApply`. */
  datatype Preference = Preference(mode: AppliedMode, theme: string)

  datatype State = State(theme: string, mode: string)

  /** A new `ThemingClass`: the first theme, system mode. */
  const INITIAL: State := State(THEMES[0], DEFAULT_MODE)

  /** `setTheme(theme, mode?)`: sets only the theme, and applies it with
      the given mode or, without one, the current mode. */
  function SetTheme(st: State, theme: string, mode: Option<string>, prefersDark: bool): (r: (State, Preference))
    ensures r.0 == st.(theme := theme)
    ensures r.1.theme == theme
    ensures mode.None? ==> r.1.mode == ApplyMode(st.mode, prefersDark)
    ensures mode.Some? ==> r.1.mode == ApplyMode(mode.value, prefersDark)
  {
    (st.(theme := theme), Preference(ApplyMode(mode.GetOr(st.mode), prefersDark), theme))
  }

  /** `setMode(mode, theme?)`: sets only the mode, and applies it with
      the given theme or, without one, the current theme. */
  function SetMode(st: State, mode: string, theme: Option<string>, prefersDark: bool): (r: (State, Preference))
    ensures r.0 == st.(mode := mode)
    ensures theme.None? ==> r.1.theme == st.theme
    ensures theme.Some? ==> r.1.theme == theme.value
    ensures r.1.mode == ApplyMode(mode, prefersDark)
  {
    (st.(mode := mode), Preference(ApplyMode(mode, prefersDark), theme.GetOr(st.theme)))
  }

  /** The two setters compose: after `setMode(m)`, `setTheme(t)` keeps
      `m`, so the state is exactly the pair chosen and the posted
      preference applies `m`. */
  lemma ModeThenTheme(st: State, mode: string, theme: string, prefersDark: bool)
    ensures var afterMode := SetMode(st, mode, None, prefersDark).0;
            var (next, pref) := SetTheme(afterMode, theme, None, prefersDark);
            next == State(theme, mode) && pref == Preference(ApplyMode(mode, prefersDark), theme)
  {
  }
}
