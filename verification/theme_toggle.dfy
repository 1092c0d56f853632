/** The light/dark toggle: the decision taken on mount from the stored
    preference and the hour of day, the effect that stores the choice and
    sets the root class, and the toggle. The clock's hour and local storage
    are inputs. */
module ThemeToggle {
  import opened Wrappers

  /** The hour of day as `Date.getHours` returns it. */
  type Hour = h: int | 0 <= h < 24

  /** Night runs from 19:00 to 06:59. */
  predicate IsNight(hour: Hour) {
    hour >= 19 || hour < 7
  }

  /** The mount decision. A non-empty stored value decides alone (`"dark"`
      is dark, anything else light); with nothing stored (or `""`) it is
      dark at night and light by day. */
  function InitialDark(stored: Option<string>, hour: Hour): (dark: bool)
    ensures stored.Some? && stored.value != "" ==> (dark <==> stored.value == "dark")
    ensures stored.None? || stored.value == "" ==> (dark <==> IsNight(hour))
  {
    if stored.Some? && stored.value != "" then stored.value == "dark" else IsNight(hour)
  }

  /** With no preference, 07:00-18:59 is light and every other hour dark. */
  lemma DayBoundaries(hour: Hour)
    ensures InitialDark(None, hour) <==> !(7 <= hour <= 18)
    ensures !InitialDark(None, 7) && !InitialDark(None, 18)
    ensures InitialDark(None, 19) && InitialDark(None, 6) && InitialDark(None, 0) && InitialDark(None, 23)
  {
  }

  /** The toggle's state: the flag, the stored preference and whether the
      root element has the dark-mode class. */
  datatype Theme = Theme(isDark: bool, stored: Option<string>, darkClass: bool)

  /** The value the effect stores for a flag. */
  function Stored(isDark: bool): (s: string)
    ensures s == "dark" <==> isDark
    ensures s != ""
  {
    if isDark then "dark" else "light"
  }

  /** What the effect guarantees after every change. */
  predicate Consistent(t: Theme) {
    t.stored == Some(Stored(t.isDark)) && t.darkClass == t.isDark
  }

  /** The effect: store `"dark"`/`"light"` and set or clear the class. */
  function Persist(isDark: bool): (t: Theme)
    ensures Consistent(t) && t.isDark == isDark
  {
    Theme(isDark, Some(Stored(isDark)), isDark)
  }

  /** The state once mounting has settled. */
  function Mount(stored: Option<string>, hour: Hour): (t: Theme)
    ensures Consistent(t) && t.isDark == InitialDark(stored, hour)
  {
    Persist(InitialDark(stored, hour))
  }

  /** `toggleTheme` followed by the effect. */
  function Toggle(t: Theme): (r: Theme)
    ensures Consistent(r) && r.isDark == !t.isDark
  {
    Persist(!t.isDark)
  }

  /** Two toggles bring a settled state back. */
  lemma ToggleTwice(t: Theme)
    requires Consistent(t)
    ensures Toggle(Toggle(t)) == t
  {
  }

  /** Running the mount decision again on what was stored reproduces the
      current theme, whatever the hour: a reload keeps the user's choice. */
  lemma ReloadKeepsTheme(t: Theme, hour: Hour)
    requires Consistent(t)
    ensures Mount(t.stored, hour) == t
  {
  }
}
