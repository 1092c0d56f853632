/** The language menu: the two-letter code shown on the button, the
    language change, and which menu item carries the "current" marker. The
    i18n library is reduced to the current language tag it reports. */
module LanguageSelector {
  import opened Text

  datatype Language = Language(code: string, name: string)

  /** The offered languages, in menu order. */
  const Languages: seq<Language> := [
    Language("en", "English"),
    Language("fr", "Français"),
    Language("es", "Español"),
    Language("de", "Deutsch")
  ]

  /** `tag.toUpperCase().substring(0, 2)`: the first two characters,
      upper-cased, or the whole tag when it is shorter. */
  function DisplayCode(tag: string): (r: string)
    ensures |r| == if |tag| < 2 then |tag| else 2
    ensures forall i :: 0 <= i < |r| ==> r[i] == UpperChar(tag[i])
  {
    Prefix(ToUpper(tag), 2)
  }

  /** The selector's state: the language the library reports and the code
      on the button. */
  datatype Selector = Selector(language: string, shown: string)

  /** The initial state, and the state after the effect that re-reads the
      library's language. */
  function Sync(language: string): (s: Selector)
    ensures s.language == language && s.shown == DisplayCode(language)
  {
    Selector(language, DisplayCode(language))
  }

  /** `handleLanguageChange`: switch the library to `code` and show its
      display code. */
  function Select(s: Selector, code: string): (r: Selector)
    ensures r.language == code
    ensures |r.shown| == if |code| < 2 then |code| else 2
    ensures forall i :: 0 <= i < |r.shown| ==> r.shown[i] == UpperChar(code[i])
  {
    Selector(code, DisplayCode(code))
  }

  /** The effect re-reading the library right after a change shows the
      same code. */
  lemma SelectThenSyncAgree(s: Selector, code: string)
    ensures Sync(Select(s, code).language) == Select(s, code)
  {
  }

  /** An item is marked when the shown code is its display code. */
  predicate Marked(s: Selector, i: nat)
    requires i < |Languages|
  {
    s.shown == DisplayCode(Languages[i].code)
  }

  /** A regional tag shows the same code as its two-letter base. */
  lemma RegionalTagShowsBase(base: string, region: string)
    requires |base| == 2
    ensures DisplayCode(base + "-" + region) == DisplayCode(base)
  {
    var a := DisplayCode(base + "-" + region);
    var b := DisplayCode(base);
    assert |a| == 2 && |b| == 2;
    assert a[0] == b[0] && a[1] == b[1];
  }

  /** The four offered codes show as four different codes. */
  lemma OfferedCodesDistinct()
    ensures forall i, j :: 0 <= i < j < |Languages| ==>
      DisplayCode(Languages[i].code) != DisplayCode(Languages[j].code)
  {
    assert DisplayCode("en") == "EN";
    assert DisplayCode("fr") == "FR";
    assert DisplayCode("es") == "ES";
    assert DisplayCode("de") == "DE";
  }

  /** Right after choosing item `i`, item `i` and no other carries the
      marker. */
  lemma SelectMarksExactlyOne(s: Selector, i: nat)
    requires i < |Languages|
    ensures forall j :: 0 <= j < |Languages| ==> (Marked(Select(s, Languages[i].code), j) <==> j == i)
  {
    OfferedCodesDistinct();
  }

  /** Starting in a regional variant of an offered language marks that
      language's item. */
  lemma RegionalStartMarksBase(i: nat, region: string)
    requires i < |Languages|
    ensures Marked(Sync(Languages[i].code + "-" + region), i)
  {
    assert |Languages[i].code| == 2;
    RegionalTagShowsBase(Languages[i].code, region);
  }
}
