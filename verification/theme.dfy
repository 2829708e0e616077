/** The theme manager of js/theme.js: `currentTheme`, the `theme` entry of
    local storage, the `light-mode` class on the body and the `themeChanged`
    events dispatched. Each operation is a function from the old state to
    the new one; the class `ThemeManager` performs it in place and is proved
    against that function. The system colour scheme (`mediaQuery.matches`)
    is a parameter. */
module Theme {
  import opened JsBuiltins

  const Light := "light"
  const Dark := "dark"

  /** The two values `setTheme` accepts. */
  predicate IsTheme(t: string) { t == Light || t == Dark }

  /** `stored` is the parsed `theme` entry (None when there is none);
      `lightMode` is the body's `light-mode` class; `changes` lists the
      details of the `themeChanged` events, in order. */
  datatype ThemeState = ThemeState(currentTheme: string, stored: Option<string>, lightMode: bool, changes: seq<string>)

  /** The body class agrees with the current theme. */
  predicate Applied(s: ThemeState) { s.lightMode <==> s.currentTheme == Light }

  /** `storage.get('theme', 'dark')`. */
  function LoadedTheme(saved: Option<string>): string {
    if saved.Some? then saved.value else Dark
  }

  /** The constructor and `init()`: the loaded theme, applied only when the
      toggle button exists (otherwise `bindElements` throws first). */
  function Initial(saved: Option<string>, hasToggle: bool): ThemeState {
    var t := LoadedTheme(saved);
    ThemeState(t, saved, hasToggle && t == Light, [])
  }

  /** `setTheme(theme)`: anything but "light" or "dark" throws and changes
      nothing; otherwise set, apply, save and dispatch. */
  function SetThemeOn(s: ThemeState, theme: string): ThemeState {
    if !IsTheme(theme) then s
    else ThemeState(theme, Some(theme), theme == Light, s.changes + [theme])
  }

  /** `toggleTheme()`. */
  function Toggled(s: ThemeState): ThemeState {
    SetThemeOn(s, if s.currentTheme == Light then Dark else Light)
  }

  /** `saveTheme(theme)`: only the stored value. */
  function Saved(s: ThemeState, theme: string): ThemeState {
    s.(stored := Some(theme))
  }

  /** `e.matches ? 'dark' : 'light'`, also `getSystemTheme()`. */
  function SystemTheme(prefersDark: bool): string {
    if prefersDark then Dark else Light
  }

  /** `handleSystemThemeChange(e)` as written: with no stored preference it
      calls `setTheme`, which stores the system theme as a preference. */
  function SystemChangeAsWritten(s: ThemeState, prefersDark: bool): ThemeState {
    if s.stored.None? then SetThemeOn(s, SystemTheme(prefersDark)) else s
  }

  /** `handleSystemThemeChange(e)` as its comment intends: with no stored
      preference the system theme is applied and dispatched, not saved. */
  function SystemChange(s: ThemeState, prefersDark: bool): ThemeState {
    if s.stored.None? then
      var t := SystemTheme(prefersDark);
      s.(currentTheme := t, lightMode := t == Light, changes := s.changes + [t])
    else s
  }

  /** `resetToSystemTheme()`: set the system theme, then remove the entry. */
  function ResetToSystem(s: ThemeState, prefersDark: bool): ThemeState {
    SetThemeOn(s, SystemTheme(prefersDark)).(stored := None)
  }

  /** `isDarkMode()`. */
  predicate DarkMode(s: ThemeState) { s.currentTheme == Dark }

  /** `isLightMode()`. */
  predicate LightMode(s: ThemeState) { s.currentTheme == Light }

  // ---------------------------------------------------------------------
  // Properties

  /** An invalid theme leaves everything as it was, the stored value
      included; a valid one becomes current and stored, is applied and
      is announced once. */
  lemma SetThemeCases(s: ThemeState, theme: string)
    ensures !IsTheme(theme) ==> SetThemeOn(s, theme) == s
    ensures IsTheme(theme) ==>
      var r := SetThemeOn(s, theme);
      r.currentTheme == theme && r.stored == Some(theme) && Applied(r) && r.changes == s.changes + [theme]
  {
  }

  /** "light" toggles to "dark"; anything else, an invalid loaded value
      included, toggles to "light". */
  lemma ToggleTarget(s: ThemeState)
    ensures s.currentTheme == Light ==> Toggled(s).currentTheme == Dark
    ensures s.currentTheme != Light ==> Toggled(s).currentTheme == Light
    ensures Applied(Toggled(s)) && Toggled(s).stored == Some(Toggled(s).currentTheme)
  {
  }

  /** Toggling twice restores a valid theme, and an invalid one does not
      come back. */
  lemma ToggleTwice(s: ThemeState)
    ensures IsTheme(s.currentTheme) <==> Toggled(Toggled(s)).currentTheme == s.currentTheme
  {
  }

  /** Dark and light mode are never both reported; neither is exactly when
      the current value is invalid, which only loading can cause. */
  lemma ModesExclusive(s: ThemeState)
    ensures !(DarkMode(s) && LightMode(s))
    ensures !DarkMode(s) && !LightMode(s) <==> !IsTheme(s.currentTheme)
  {
  }

  lemma InitialModes(saved: Option<string>, hasToggle: bool)
    ensures !IsTheme(Initial(saved, hasToggle).currentTheme) <==> saved.Some? && !IsTheme(saved.value)
    ensures hasToggle ==> Applied(Initial(saved, hasToggle))
  {
  }

  /** Every operation that sets a valid theme leaves the body class in
      agreement with it. */
  lemma OperationsApply(s: ThemeState, theme: string, prefersDark: bool)
    requires Applied(s)
    ensures Applied(SetThemeOn(s, theme)) && Applied(Toggled(s))
    ensures Applied(SystemChange(s, prefersDark)) && Applied(ResetToSystem(s, prefersDark))
  {
  }

  /** A system change is ignored once a preference is stored; without one
      it becomes the current theme and still no preference is stored. */
  lemma SystemChangeCases(s: ThemeState, prefersDark: bool)
    ensures s.stored.Some? ==> SystemChange(s, prefersDark) == s
    ensures s.stored.None? ==>
      SystemChange(s, prefersDark).currentTheme == SystemTheme(prefersDark) && SystemChange(s, prefersDark).stored == None
  {
  }

  /** Without a preference, the theme follows every system change, not
      only the first. */
  lemma {:induction false} FollowsSystem(s: ThemeState, changes: seq<bool>)
    requires s.stored.None? && changes != []
    ensures FollowAll(s, changes).currentTheme == SystemTheme(changes[|changes| - 1])
    ensures FollowAll(s, changes).stored == None
    decreases |changes|
  {
    if |changes| > 1 {
      FollowsSystem(SystemChange(s, changes[0]), changes[1..]);
      assert changes[1..][|changes[1..]| - 1] == changes[|changes| - 1];
    }
  }

  /** A run of system changes, in order. */
  function FollowAll(s: ThemeState, changes: seq<bool>): ThemeState
    decreases |changes|
  {
    if changes == [] then s else FollowAll(SystemChange(s, changes[0]), changes[1..])
  }

  /** As written, the first system change stores itself as a preference, so
      a second, opposite change is ignored. */
  lemma AsWrittenIgnoresSecondChange()
    ensures var s := ThemeState(Dark, None, false, []);
      var once := SystemChangeAsWritten(s, false);
      && once.currentTheme == Light && once.stored == Some(Light)
      && SystemChangeAsWritten(once, true).currentTheme == Light
      && SystemTheme(true) == Dark
  {
  }

  /** Resetting ends at the system theme with no preference stored, so the
      next system change applies. */
  lemma ResetCases(s: ThemeState, prefersDark: bool, next: bool)
    ensures ResetToSystem(s, prefersDark).currentTheme == SystemTheme(prefersDark)
    ensures ResetToSystem(s, prefersDark).stored == None
    ensures SystemChange(ResetToSystem(s, prefersDark), next).currentTheme == SystemTheme(next)
  {
  }

  class ThemeManager {
    var currentTheme: string
    var stored: Option<string>
    var lightMode: bool
    var changes: seq<string>

    function State(): ThemeState
      reads this
    {
      ThemeState(currentTheme, stored, lightMode, changes)
    }

    /** `new ThemeManager()` with `saved` in local storage. */
    constructor (saved: Option<string>, hasToggle: bool)
      ensures State() == Initial(saved, hasToggle)
    {
      var theme := LoadedTheme(saved);
      currentTheme := theme;
      stored := saved;
      changes := [];
      lightMode := false;
      if hasToggle {
        lightMode := theme == Light;
      }
    }

    method SetTheme(theme: string)
      modifies this
      ensures State() == SetThemeOn(old(State()), theme)
    {
      if theme != Light && theme != Dark {
        return;
      }
      currentTheme := theme;
      lightMode := theme == Light;
      SaveTheme(theme);
      changes := changes + [theme];
    }

    method ToggleTheme()
      modifies this
      ensures State() == Toggled(old(State()))
    {
      var newTheme := if currentTheme == Light then Dark else Light;
      SetTheme(newTheme);
    }

    method SaveTheme(theme: string)
      modifies this`stored
      ensures State() == Saved(old(State()), theme)
    {
      stored := Some(theme);
    }

    method HandleSystemThemeChange(prefersDark: bool)
      modifies this
      ensures State() == SystemChange(old(State()), prefersDark)
    {
      var hasManualPreference := stored.Some?;
      if !hasManualPreference {
        var systemTheme := SystemTheme(prefersDark);
        currentTheme := systemTheme;
        lightMode := systemTheme == Light;
        changes := changes + [systemTheme];
      }
    }

    predicate IsDarkMode()
      reads this
    {
      DarkMode(State())
    }

    predicate IsLightMode()
      reads this
    {
      LightMode(State())
    }

    method ResetToSystemTheme(prefersDark: bool)
      modifies this
      ensures State() == ResetToSystem(old(State()), prefersDark)
    {
      SetTheme(SystemTheme(prefersDark));
      stored := None;
    }
  }
}
