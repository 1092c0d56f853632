/** The accessibility menu: three independent flags, the toggle and reset
    actions, the reset button's visibility, and the effect that persists
    the flags and mirrors them as classes on the root element. Local
    storage and the class list become fields of the menu state. */
module Accessibility {
  import opened Wrappers

  datatype Options = Options(colorblindMode: bool, highContrast: bool, dyslexicFont: bool)

  /** The three keys of `AccessibilityOptions`. */
  datatype Flag = ColorblindMode | HighContrast | DyslexicFont

  const Defaults := Options(false, false, false)

  function Get(o: Options, k: Flag): bool {
    match k
    case ColorblindMode => o.colorblindMode
    case HighContrast => o.highContrast
    case DyslexicFont => o.dyslexicFont
  }

  /** The root-element class each flag controls. */
  function ClassOf(k: Flag): string {
    match k
    case ColorblindMode => "colorblind-mode"
    case HighContrast => "high-contrast"
    case DyslexicFont => "dyslexic-font"
  }

  /** `toggleOption(k)`: flips flag `k`, leaves the other two. */
  function Toggle(o: Options, k: Flag): (r: Options)
    ensures Get(r, k) == !Get(o, k)
    ensures forall j :: j != k ==> Get(r, j) == Get(o, j)
  {
    match k
    case ColorblindMode => o.(colorblindMode := !o.colorblindMode)
    case HighContrast => o.(highContrast := !o.highContrast)
    case DyslexicFont => o.(dyslexicFont := !o.dyslexicFont)
  }

  /** Two toggles of the same flag cancel out. */
  lemma ToggleTwice(o: Options, k: Flag)
    ensures Toggle(Toggle(o, k), k) == o
  {
  }

  /** `resetOptions`: every flag off. */
  function Reset(o: Options): (r: Options)
    ensures forall k :: !Get(r, k)
  {
    Defaults
  }

  /** The "normal mode" button is rendered iff some flag is on. */
  predicate ShowsResetButton(o: Options) {
    o.colorblindMode || o.highContrast || o.dyslexicFont
  }

  lemma ResetButtonIffSomeFlag(o: Options)
    ensures ShowsResetButton(o) <==> exists k :: Get(o, k)
    ensures !ShowsResetButton(Reset(o))
  {
    if ShowsResetButton(o) {
      if o.colorblindMode {
        assert Get(o, ColorblindMode);
      } else if o.highContrast {
        assert Get(o, HighContrast);
      } else {
        assert Get(o, DyslexicFont);
      }
    }
  }

  /** The three classes the menu controls. */
  const Managed: set<string> := {ClassOf(ColorblindMode), ClassOf(HighContrast), ClassOf(DyslexicFont)}

  /** The class-list half of the effect: each of the three classes is added
      or removed according to its flag; every other class is untouched. */
  function ApplyClasses(classes: set<string>, o: Options): (r: set<string>)
    ensures forall k :: ClassOf(k) in r <==> Get(o, k)
    ensures forall c :: c !in Managed ==> (c in r <==> c in classes)
  {
    var managed := Managed;
    var on := set k | Get(o, k) :: ClassOf(k);
    var r := (classes - managed) + on;
    assert forall k :: ClassOf(k) in on <==> Get(o, k) by {
      forall k
        ensures ClassOf(k) in on <==> Get(o, k)
      {
        if ClassOf(k) in on {
          var j :| Get(o, j) && ClassOf(j) == ClassOf(k);
          assert j == k;
        }
      }
    }
    r
  }

  /** The menu state: the flags, the stored preference and the root
      element's classes. */
  datatype Menu = Menu(options: Options, stored: Option<Options>, classes: set<string>)

  /** The effect run after every change of the flags: store them, then
      mirror them as classes. */
  function Commit(m: Menu): (r: Menu)
    ensures Consistent(r) && r.options == m.options
  {
    Menu(m.options, Some(m.options), ApplyClasses(m.classes, m.options))
  }

  /** What the effect guarantees: the stored preference is the current
      flags, and each managed class is present iff its flag is on. */
  predicate Consistent(m: Menu) {
    && m.stored == Some(m.options)
    && forall k :: ClassOf(k) in m.classes <==> Get(m.options, k)
  }

  /** Mounting: stored flags if there are any (an absent or empty entry
      reads as none), the defaults otherwise. */
  function Mount(stored: Option<Options>, classes: set<string>): (r: Menu)
    ensures Consistent(r)
    ensures stored.None? ==> r.options == Defaults
    ensures stored.Some? ==> r.options == stored.value
  {
    Commit(Menu(stored.GetOr(Defaults), stored, classes))
  }

  function ToggleEvent(m: Menu, k: Flag): (r: Menu)
    ensures Consistent(r)
    ensures r.options == Toggle(m.options, k)
  {
    Commit(m.(options := Toggle(m.options, k)))
  }

  function ResetEvent(m: Menu): (r: Menu)
    ensures Consistent(r) && r.options == Defaults && r.stored == Some(Defaults)
  {
    Commit(m.(options := Reset(m.options)))
  }

  /** Toggling a flag twice through the menu leaves the flags, the stored
      preference and the classes as they were after the last commit. */
  lemma ToggleEventTwice(m: Menu, k: Flag)
    requires Consistent(m)
    ensures ToggleEvent(ToggleEvent(m, k), k).options == m.options
    ensures ToggleEvent(ToggleEvent(m, k), k).stored == m.stored
    ensures forall j :: ClassOf(j) in ToggleEvent(ToggleEvent(m, k), k).classes <==> ClassOf(j) in m.classes
  {
    ToggleTwice(m.options, k);
  }

  /** Reloading the page restores what was stored. */
  lemma ReloadRestores(m: Menu, classes: set<string>)
    requires Consistent(m)
    ensures Mount(m.stored, classes).options == m.options
  {
  }
}
