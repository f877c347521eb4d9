/** The theme controller (assets/main.js, lines 14-27): the document root carries a
    `data-theme` attribute, initialised from browser storage under the key
    `comic-theme`; a toggle button flips the theme, writes it back to storage and
    briefly marks itself `active`. Storage is a field here, not a store. */
module Theme {
  import opened Util

  const DefaultTheme := "dark"
  const Light := "light"
  /** Class the toggle button carries while it acknowledges a click. */
  const ActiveClass := "active"

  /** `saved || DEFAULT_THEME`: a missing entry (null) and the empty string are the
      two falsy values storage can hand back; any other string is used verbatim. */
  function InitialTheme(saved: Option<string>): (t: string)
    ensures t != ""
    ensures saved.Some? && saved.value != "" ==> t == saved.value
    ensures saved.None? || saved.value == "" ==> t == DefaultTheme
  {
    match saved
    case Some(v) => if v != "" then v else DefaultTheme
    case None => DefaultTheme
  }

  /** The theme a click switches to: `"dark"` becomes `"light"`, anything else `"dark"`. */
  function NextTheme(current: string): (t: string)
    ensures t == DefaultTheme || t == Light
    ensures t == Light <==> current == DefaultTheme
  {
    if current == DefaultTheme then Light else DefaultTheme
  }

  /** Toggling twice restores the theme exactly when it started as one of the two
      known themes; an unknown saved theme is replaced for good by the first click. */
  lemma ToggleTwiceRestores(t: string)
    ensures NextTheme(NextTheme(t)) == t <==> t == DefaultTheme || t == Light
  {
  }

  /** The theme after `n` clicks starting from `t`. */
  function ThemeAfterToggles(t: string, n: nat): string
  {
    if n == 0 then t else NextTheme(ThemeAfterToggles(t, n - 1))
  }

  /** After at least one click the theme alternates: odd counts give `NextTheme(t)`,
      even counts give `NextTheme(NextTheme(t))`, and both are known themes. */
  lemma {:induction false} ThemeAfterTogglesAlternates(t: string, n: nat)
    requires n >= 1
    ensures ThemeAfterToggles(t, n) == DefaultTheme || ThemeAfterToggles(t, n) == Light
    ensures ThemeAfterToggles(t, n) == if n % 2 == 1 then NextTheme(t) else NextTheme(NextTheme(t))
  {
    if n > 1 {
      ThemeAfterTogglesAlternates(t, n - 1);
      ToggleTwiceRestores(NextTheme(t));
    }
  }

  /** From a known theme, every even number of clicks returns to it. */
  lemma {:induction false} EvenTogglesRestore(t: string, n: nat)
    requires t == DefaultTheme || t == Light
    ensures ThemeAfterToggles(t, 2 * n) == t
  {
    if n > 0 {
      ThemeAfterTogglesAlternates(t, 2 * n);
      ToggleTwiceRestores(t);
    }
  }

  class ThemeController {
    /** The `data-theme` attribute of the document root. */
    var theme: string
    /** The storage entry under the key `comic-theme`; `None` when nothing was ever stored. */
    var stored: Option<string>
    /** The class list of the toggle button. */
    var buttonClasses: set<string>
    /** The storage entry found at page load, and the number of clicks since. */
    ghost var saved: Option<string>
    ghost var toggles: nat
    /** The acknowledgement timers that clicks have set and that have not yet fired. */
    ghost var pending: nat

    /** Before any click storage still holds what was found at load (it is only read
        then); after a click it always equals the document attribute. */
    ghost predicate Valid()
      reads this
    {
      && theme == ThemeAfterToggles(InitialTheme(saved), toggles)
      && theme != ""
      && (toggles == 0 ==> stored == saved)
      && (toggles > 0 ==> stored == Some(theme))
      && pending <= toggles
    }

    /** Page load: read storage and apply `saved || "dark"` to the document root. */
    constructor (saved: Option<string>, buttonClasses: set<string>)
      ensures Valid()
      ensures theme == InitialTheme(saved) && stored == saved
      ensures this.buttonClasses == buttonClasses
      ensures this.saved == saved && toggles == 0 && pending == 0
    {
      theme := InitialTheme(saved);
      stored := saved;
      this.buttonClasses := buttonClasses;
      this.saved := saved;
      toggles := 0;
      pending := 0;
    }

    /** The click handler: flip the attribute, persist it, mark the button active and
        set the timer that will end the acknowledgement. */
    method Toggle()
      requires Valid()
      modifies this
      ensures Valid()
      ensures theme == NextTheme(old(theme))
      ensures stored == Some(theme)
      ensures buttonClasses == old(buttonClasses) + {ActiveClass}
      ensures saved == old(saved) && toggles == old(toggles) + 1 && pending == old(pending) + 1
    {
      var next := NextTheme(theme);
      theme := next;
      stored := Some(next);
      buttonClasses := buttonClasses + {ActiveClass};
      toggles := toggles + 1;
      pending := pending + 1;
    }

    /** The delayed callback a click schedules: one pending timer fires and removes
        the acknowledgement class. With several clicks in quick succession the first
        timer to fire already removes it. */
    method EndAcknowledgement()
      requires Valid() && pending > 0
      modifies this`buttonClasses, this`pending
      ensures Valid()
      ensures buttonClasses == old(buttonClasses) - {ActiveClass}
      ensures pending == old(pending) - 1
    {
      buttonClasses := buttonClasses - {ActiveClass};
      pending := pending - 1;
    }
  }
}
