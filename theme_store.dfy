/**
  The colour-theme store: a mode chosen by the user (light, dark, or follow
  the system), the system's current preference, the theme actually shown,
  and the mode persisted in local storage.
 */
module ThemeStore {
  import opened Wrappers
  import Text

  datatype ThemeMode = Light | Dark | System
  /** The theme applied to the page: never "system". */
  datatype Resolved = ResolvedLight | ResolvedDark

  const StorageKey := "theme-mode"

  function ModeName(m: ThemeMode): string {
    match m
    case Light => "light"
    case Dark => "dark"
    case System => "system"
  }

  function ResolvedName(r: Resolved): string {
    if r == ResolvedLight then "light" else "dark"
  }

  /** A stored value names a mode only when it is one of the three names exactly. */
  function ParseMode(stored: Option<string>): (m: Option<ThemeMode>)
    ensures m.Some? ==> stored == Some(ModeName(m.value))
  {
    if stored == Some("light") then Some(Light)
    else if stored == Some("dark") then Some(Dark)
    else if stored == Some("system") then Some(System)
    else None
  }

  /** Every mode reads back from its own name. */
  lemma ParseModeName(m: ThemeMode)
    ensures ParseMode(Some(ModeName(m))) == Some(m)
  {
  }

  /**
    `loadMode`: the stored mode when it is one of the three, otherwise
    `system`; always `system` when there is no window.
   */
  function LoadMode(hasWindow: bool, stored: Option<string>): (m: ThemeMode)
    ensures !hasWindow ==> m == System
    ensures hasWindow && ParseMode(stored).Some? ==> m == ParseMode(stored).value
    ensures hasWindow && ParseMode(stored).None? ==> m == System
  {
    if !hasWindow then System
    else
      var parsed := ParseMode(stored);
      if parsed.Some? then parsed.value else System
  }

  /** `getSystemTheme`: light without a window, else what the media query says. */
  function SystemTheme(hasWindow: bool, prefersDark: bool): (r: Resolved)
    ensures !hasWindow ==> r == ResolvedLight
    ensures hasWindow ==> (r == ResolvedDark <==> prefersDark)
  {
    if hasWindow && prefersDark then ResolvedDark else ResolvedLight
  }

  /** The derived theme: the system's when the mode is `system`, else the mode itself. */
  function Resolve(mode: ThemeMode, systemTheme: Resolved): Resolved {
    match mode
    case Light => ResolvedLight
    case Dark => ResolvedDark
    case System => systemTheme
  }

  /**
    The theme shown has the mode's own name unless the mode is `system`,
    and then the system's; it is never named "system".
   */
  lemma ResolveSpec(mode: ThemeMode, systemTheme: Resolved)
    ensures mode != System ==> ResolvedName(Resolve(mode, systemTheme)) == ModeName(mode)
    ensures mode == System ==> Resolve(mode, systemTheme) == systemTheme
    ensures ResolvedName(Resolve(mode, systemTheme)) != ModeName(System)
  {
  }

  /** The cycle `toggle` walks. */
  const ToggleOrder: seq<ThemeMode> := [Light, System, Dark]

  /** `order[(order.indexOf(mode) + 1) % order.length]`. */
  function Next(m: ThemeMode): ThemeMode {
    ToggleOrder[(Text.IndexOf(ToggleOrder, m) + 1) % |ToggleOrder|]
  }

  /** `toggle` goes light → system → dark → light, so three toggles come back to the start. */
  lemma NextCycles(m: ThemeMode)
    ensures Next(Light) == System && Next(System) == Dark && Next(Dark) == Light
    ensures Next(Next(Next(m))) == m
    ensures Next(m) != m
  {
    assert Text.IndexOf(ToggleOrder, Light) == 0;
    assert Text.IndexOf(ToggleOrder, System) == 1;
    assert Text.IndexOf(ToggleOrder, Dark) == 2;
  }

  class Theme {
    var mode: ThemeMode
    var systemTheme: Resolved
    /** Local storage, as a map from key to value. */
    var storage: map<string, string>
    /** Whether a window (and a document) exists: false while rendering on the server. */
    const hasWindow: bool

    /** The effect has run: in a browser, storage holds the mode's name, not the resolved theme's. */
    ghost predicate Persisted()
      reads this
    {
      hasWindow ==> StorageKey in storage && storage[StorageKey] == ModeName(mode)
    }

    function ResolvedTheme(): Resolved
      reads this
    {
      Resolve(mode, systemTheme)
    }

    /** `createThemeStore()`, then the first run of the effect. */
    constructor (hasWindow: bool, stored: map<string, string>, prefersDark: bool)
      ensures this.hasWindow == hasWindow
      ensures mode == LoadMode(hasWindow, if StorageKey in stored then Some(stored[StorageKey]) else None)
      ensures systemTheme == SystemTheme(hasWindow, prefersDark)
      ensures storage == if hasWindow then stored[StorageKey := ModeName(mode)] else stored
      ensures Persisted()
    {
      this.hasWindow := hasWindow;
      var m := LoadMode(hasWindow, if StorageKey in stored then Some(stored[StorageKey]) else None);
      mode := m;
      systemTheme := SystemTheme(hasWindow, prefersDark);
      storage := if hasWindow then stored[StorageKey := ModeName(m)] else stored;
    }

    /** The effect re-run after a change: it persists the mode. */
    method Persist()
      modifies this`storage
      ensures storage == if hasWindow then old(storage)[StorageKey := ModeName(mode)] else old(storage)
      ensures Persisted()
    {
      if hasWindow {
        storage := storage[StorageKey := ModeName(mode)];
      }
    }

    /** `setMode(m)`. */
    method SetMode(m: ThemeMode)
      modifies this`mode, this`storage
      ensures mode == m && Persisted()
      ensures storage == if hasWindow then old(storage)[StorageKey := ModeName(m)] else old(storage)
    {
      mode := m;
      Persist();
    }

    /** `toggle()`: the next mode of the cycle. */
    method Toggle()
      modifies this`mode, this`storage
      ensures mode == Next(old(mode)) && Persisted()
      ensures storage == if hasWindow then old(storage)[StorageKey := ModeName(mode)] else old(storage)
    {
      mode := Next(mode);
      Persist();
    }

    /** The media-query listener, registered only in a browser: the system preference changed. */
    method SystemChanged(matches: bool)
      requires hasWindow && Persisted()
      modifies this`systemTheme, this`storage
      ensures systemTheme == (if matches then ResolvedDark else ResolvedLight)
      ensures Persisted() && storage == old(storage)
    {
      systemTheme := if matches then ResolvedDark else ResolvedLight;
      Persist();
    }
  }
}
