/** ThemeManager: the colour theme, cycled auto -> light -> dark -> auto by
    the theme button. */
module Theme {
  import opened Basics

  /** The themes in the order toggleTheme steps through them. */
  const Themes: seq<string> := ["auto", "light", "dark"]

  /** `theme || 'auto'`: an unset or empty theme counts as auto. */
  function OrAuto(theme: Option<string>): string
  {
    if theme.Some? && theme.value != "" then theme.value else "auto"
  }

  /** The theme toggleTheme moves to from the current one. */
  function NextTheme(current: Option<string>): string
  {
    Themes[(IndexOf(Themes, OrAuto(current)) + 1) % |Themes|]
  }

  /** The data-theme attribute setTheme leaves on the document root: set for
      light and dark, removed (None) for auto and anything else. */
  function DataTheme(theme: string): Option<string>
  {
    if theme == "light" || theme == "dark" then Some(theme) else None
  }

  /** Every step lands on one of the three themes: auto goes to light, light
      to dark, dark to auto; an unset or empty theme counts as auto, and any
      other value is not found (index -1) and goes to auto. */
  lemma NextThemeCycle(current: Option<string>)
    ensures NextTheme(current) in Themes
    ensures OrAuto(current) == "auto" ==> NextTheme(current) == "light"
    ensures OrAuto(current) == "light" ==> NextTheme(current) == "dark"
    ensures OrAuto(current) == "dark" ==> NextTheme(current) == "auto"
    ensures OrAuto(current) !in Themes ==> NextTheme(current) == "auto"
  {
    var t := OrAuto(current);
    if t == "auto" {
      assert Themes[0] == t;
    } else if t == "light" {
      assert Themes[0] != t && Themes[1] == t;
    } else if t == "dark" {
      assert Themes[0] != t && Themes[1] != t && Themes[2] == t;
    }
  }

  /** Three presses bring any of the three themes back to itself. */
  lemma ThreeStepsReturn(theme: string)
    requires theme in Themes
    ensures NextTheme(Some(NextTheme(Some(NextTheme(Some(theme)))))) == theme
  {
    var a := NextTheme(Some(theme));
    NextThemeCycle(Some(theme));
    var b := NextTheme(Some(a));
    NextThemeCycle(Some(a));
    NextThemeCycle(Some(b));
  }

  class ThemeManager {
    /** this.currentTheme; None until setTheme first runs. */
    var currentTheme: Option<string>
    /** The document root's data-theme attribute. */
    var dataTheme: Option<string>

    /** The attribute always reflects the current theme. */
    predicate Valid()
      reads this
    {
      dataTheme == (if currentTheme.None? then None else DataTheme(currentTheme.value))
    }

    /** A fresh page: no theme set yet. */
    constructor ()
      ensures Valid() && currentTheme == None && dataTheme == None
    {
      currentTheme := None;
      dataTheme := None;
    }

    method SetTheme(theme: string)
      modifies this
      ensures Valid()
      ensures currentTheme == Some(theme) && dataTheme == DataTheme(theme)
    {
      if theme == "light" {
        dataTheme := Some("light");
      } else if theme == "dark" {
        dataTheme := Some("dark");
      } else {
        dataTheme := None;
      }
      currentTheme := Some(theme);
    }

    /** init, given what storage holds under 'theme' (None when nothing):
        a saved non-empty theme is restored, otherwise auto. */
    method Init(savedTheme: Option<string>)
      modifies this
      ensures Valid()
      ensures currentTheme == Some(OrAuto(savedTheme))
    {
      if savedTheme.Some? && savedTheme.value != "" {
        SetTheme(savedTheme.value);
      } else {
        SetTheme("auto");
      }
    }

    method ToggleTheme()
      modifies this
      ensures Valid()
      ensures currentTheme == Some(NextTheme(old(currentTheme)))
    {
      var themes := Themes;
      var currentIndex := IndexOf(themes, OrAuto(currentTheme));
      var nextIndex := (currentIndex + 1) % |themes|;
      SetTheme(themes[nextIndex]);
    }
  }

  /** Pressing the theme button three times returns to the theme it started
      from, whenever that is one of the three. */
  method ToggleThreeTimes(m: ThemeManager)
    requires m.currentTheme.Some? && m.currentTheme.value in Themes
    modifies m
    ensures m.Valid() && m.currentTheme == old(m.currentTheme)
  {
    ghost var start := m.currentTheme.value;
    m.ToggleTheme();
    m.ToggleTheme();
    m.ToggleTheme();
    ThreeStepsReturn(start);
  }
}
