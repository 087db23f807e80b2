/** The light/dark theme of frontend/src/context/ThemeContext.jsx: a theme
    name in component state, read from `localStorage` on mount, toggled by
    `toggleTheme`, and applied by an effect that sets the root element's class
    and stores the theme. */
module ThemeContext {
  import opened Wrappers
  import opened Browser

  const THEME_KEY := "theme"
  const LIGHT := "light"
  const DARK := "dark"

  /** `localStorage.getItem('theme') || 'light'`. */
  function InitialTheme(stored: Option<string>): (t: string)
    ensures t != ""
    ensures Truthy(stored) ==> t == stored.value
    ensures !Truthy(stored) ==> t == LIGHT
  {
    if Truthy(stored) then stored.value else LIGHT
  }

  /** The updater passed to `setTheme` by `toggleTheme`. */
  function Toggled(current: string): (r: string)
    ensures r == LIGHT || r == DARK
    ensures r != current
    ensures current != LIGHT ==> r == LIGHT
  {
    if current == LIGHT then DARK else LIGHT
  }

  /** Toggling always lands on one of the two themes and always changes the
      theme; on those two themes, toggling twice gives the theme back. */
  lemma ToggleSwaps(t: string)
    ensures Toggled(t) == LIGHT || Toggled(t) == DARK
    ensures Toggled(t) != t
    ensures (t == LIGHT || t == DARK) ==> Toggled(Toggled(t)) == t
  {
  }

  /** The root classes once the effect has run for `theme`. */
  function AppliedClasses(classes: set<string>, theme: string): (r: set<string>)
    ensures theme in r
    ensures LIGHT in r <==> theme == LIGHT
    ensures DARK in r <==> theme == DARK
    ensures forall c :: c != LIGHT && c != DARK && c != theme ==> (c in r <==> c in classes)
  {
    (classes - {LIGHT, DARK}) + {theme}
  }

  class ThemeProvider {
    const storage: LocalStorage
    const root: ClassList
    var theme: string

    /** Mounting the provider. */
    constructor(storage: LocalStorage, root: ClassList)
      ensures this.storage == storage && this.root == root
      ensures theme == InitialTheme(storage.Lookup(THEME_KEY))
    {
      this.storage := storage;
      this.root := root;
      var stored := storage.GetItem(THEME_KEY);
      theme := InitialTheme(stored);
    }

    /** `toggleTheme()`. */
    method ToggleTheme()
      modifies this
      ensures theme == Toggled(old(theme))
    {
      theme := Toggled(theme);
    }

    /** The effect that runs whenever `theme` changes. `classList.add` throws
        for a theme that is not a valid class token (possible only for a
        value read from storage), and then nothing is stored. */
    method ApplyTheme() returns (r: Outcome)
      modifies root, storage
      ensures r.Pass? <==> ValidToken(theme)
      ensures r.Pass? ==> root.tokens == AppliedClasses(old(root.tokens), theme)
      ensures r.Pass? ==> storage.items == old(storage.items)[THEME_KEY := theme]
      ensures r.Fail? ==> root.tokens == old(root.tokens) - {LIGHT, DARK}
      ensures r.Fail? ==> storage.items == old(storage.items)
    {
      root.Remove(LIGHT, DARK);
      r := root.Add(theme);
      if r.Pass? {
        storage.SetItem(THEME_KEY, theme);
      }
    }
  }
}
