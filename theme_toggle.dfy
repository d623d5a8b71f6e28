/**
 * The theme button: each theme names the one a click switches to, and a
 * click applies that theme through the store.
 */
module ThemeToggle {
  import opened AppStore

  /** One row of the button's table: the label (caption) shown and the theme a click switches to. */
  datatype ThemeEntry = ThemeEntry(caption: string, next: Theme)

  function Config(t: Theme): ThemeEntry {
    match t
    case Light => ThemeEntry("Mode clair", Dark)
    case Dark => ThemeEntry("Mode sombre", System)
    case System => ThemeEntry("Mode système", Light)
  }

  function Next(t: Theme): Theme {
    Config(t).next
  }

  /** light goes to dark, dark to system, system back to light. */
  lemma NextSteps()
    ensures Next(Light) == Dark && Next(Dark) == System && Next(System) == Light
  {
  }

  /** A click always changes the theme, and three clicks come back to where they started. */
  lemma NextCycles(t: Theme)
    ensures Next(t) != t
    ensures Next(Next(t)) != t
    ensures Next(Next(Next(t))) == t
  {
  }

  /** From any theme, clicking reaches every theme. */
  lemma NextReachesAll(t: Theme, u: Theme)
    ensures u == t || u == Next(t) || u == Next(Next(t))
  {
  }

  /** `handleToggle`: `setTheme(themeConfig[theme].next)`. */
  method HandleToggle(store: Store, prefersDark: bool)
    modifies store
    ensures store.theme == Next(old(store.theme))
    ensures store.darkClass == DarkClass(store.theme, prefersDark)
    ensures store.isSidebarOpen == old(store.isSidebarOpen) && store.isGlobalLoading == old(store.isGlobalLoading)
    ensures store.notifications == old(store.notifications)
  {
    store.SetTheme(Config(store.theme).next, prefersDark);
  }

  /** Three clicks restore the theme and, under the same system preference, the document. */
  method ToggleThrice(store: Store, prefersDark: bool)
    modifies store
    ensures store.theme == old(store.theme)
    ensures store.darkClass == DarkClass(old(store.theme), prefersDark)
  {
    HandleToggle(store, prefersDark);
    HandleToggle(store, prefersDark);
    HandleToggle(store, prefersDark);
    NextCycles(old(store.theme));
  }
}
