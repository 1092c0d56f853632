/** The secret CMS dashboard: its in-memory project list (add, edit,
    delete, save, the featured count and the technologies text field), the
    theme colours converted by `hexToRgb`, and the session flag that guards
    the page. The list lives only in component state; nothing here reaches
    the store. */
module SuperAdmin {
  import opened Wrappers
  import opened Text
  import opened Tables
  import ProjectForm

  // ------------------------------------------------------------ hex colours

  predicate IsHexDigit(c: char) {
    ('0' <= c <= '9') || ('a' <= c <= 'f') || ('A' <= c <= 'F')
  }

  predicate AllHex(s: string) {
    forall i :: 0 <= i < |s| ==> IsHexDigit(s[i])
  }

  /** `#RRGGBB` or `RRGGBB`, both letter cases allowed. */
  predicate ValidHexColour(s: string) {
    (|s| == 7 && s[0] == '#' && AllHex(s[1..])) || (|s| == 6 && AllHex(s))
  }

  function HexDigitValue(c: char): (v: nat)
    requires IsHexDigit(c)
    ensures v < 16
  {
    if '0' <= c <= '9' then c as int - '0' as int
    else if 'a' <= c <= 'f' then c as int - 'a' as int + 10
    else c as int - 'A' as int + 10
  }

  /** `parseInt(pair, 16)` on two hex digits. */
  function HexPair(hi: char, lo: char): (v: nat)
    requires IsHexDigit(hi) && IsHexDigit(lo)
    ensures v < 256
  {
    16 * HexDigitValue(hi) + HexDigitValue(lo)
  }

  function LowerHexDigit(d: nat): (c: char)
    requires d < 16
    ensures IsHexDigit(c) && HexDigitValue(c) == d
  {
    if d < 10 then ('0' as int + d) as char else ('a' as int + d - 10) as char
  }

  /** Two lowercase hex digits for a byte: the inverse of `HexPair`. */
  function ToHex2(n: nat): (r: string)
    requires n < 256
    ensures |r| == 2 && AllHex(r)
  {
    [LowerHexDigit(n / 16), LowerHexDigit(n % 16)]
  }

  /** Reading back the two digits of a byte gives the byte. */
  lemma HexPairOfToHex2(n: nat)
    requires n < 256
    ensures HexPair(ToHex2(n)[0], ToHex2(n)[1]) == n
  {
  }

  /** `s.replace(c, "")` with a string pattern: only the first occurrence
      goes. */
  function RemoveFirst(s: string, c: char): (r: string)
    ensures c !in s ==> r == s
    ensures |s| > 0 && s[0] == c ==> r == s[1..]
    decreases |s|
  {
    if |s| == 0 then s
    else if s[0] == c then s[1..]
    else [s[0]] + RemoveFirst(s[1..], c)
  }

  /** The six hex digits of a valid colour: the colour without its `#`,
      or the colour itself when it has none. */
  function HexDigits(hex: string): (h: string)
    requires ValidHexColour(hex)
    ensures |h| == 6 && AllHex(h)
    ensures h == if |hex| == 7 then hex[1..] else hex
  {
    assert !IsHexDigit('#');
    RemoveFirst(hex, '#')
  }

  // ------------------------------------------------------ decimal rendering

  function DigitChar(d: nat): (c: char)
    requires d < 10
    ensures '0' <= c <= '9'
  {
    ('0' as int + d) as char
  }

  predicate IsDecimal(s: string) {
    |s| >= 1 && forall i :: 0 <= i < |s| ==> '0' <= s[i] <= '9'
  }

  /** A number as a template literal prints it: decimal, no leading zero. */
  function Decimal(n: nat): (r: string)
    ensures IsDecimal(r)
    ensures |r| > 1 ==> r[0] != '0'
    decreases n
  {
    if n < 10 then [DigitChar(n)] else Decimal(n / 10) + [DigitChar(n % 10)]
  }

  /** The value of a string of decimal digits, the inverse of `Decimal`. */
  function DecimalValue(s: string): nat
    requires forall i :: 0 <= i < |s| ==> '0' <= s[i] <= '9'
    decreases |s|
  {
    if |s| == 0 then 0
    else 10 * DecimalValue(s[..|s| - 1]) + (s[|s| - 1] as int - '0' as int)
  }

  lemma {:induction false} DecimalRoundTrip(n: nat)
    ensures DecimalValue(Decimal(n)) == n
    decreases n
  {
    if n >= 10 {
      DecimalRoundTrip(n / 10);
      var s := Decimal(n / 10) + [DigitChar(n % 10)];
      assert s[..|s| - 1] == Decimal(n / 10);
    }
  }

  /** The channel encoded at digits `2k` and `2k+1` of a valid colour. */
  function Channel(hex: string, k: nat): (v: nat)
    requires ValidHexColour(hex) && k < 3
    ensures v < 256
  {
    var h := HexDigits(hex);
    HexPair(h[2 * k], h[2 * k + 1])
  }

  /** Three numbers printed in decimal with one space between them. */
  function RgbText(r: nat, g: nat, b: nat): string {
    Decimal(r) + " " + Decimal(g) + " " + Decimal(b)
  }

  /** `hexToRgb`: drop the `#`, read the three digit pairs in base 16 and
      print them in decimal separated by single spaces. The output splits
      on spaces into exactly three decimal numbers, each the value of its
      digit pair and so below 256. */
  function HexToRgb(hex: string): (r: string)
    requires ValidHexColour(hex)
    ensures var parts := Split(r, ' ');
      && |parts| == 3
      && IsDecimal(parts[0]) && IsDecimal(parts[1]) && IsDecimal(parts[2])
      && DecimalValue(parts[0]) == Channel(hex, 0) < 256
      && DecimalValue(parts[1]) == Channel(hex, 1) < 256
      && DecimalValue(parts[2]) == Channel(hex, 2) < 256
  {
    var h := HexDigits(hex);
    var red, green, blue := HexPair(h[0], h[1]), HexPair(h[2], h[3]), HexPair(h[4], h[5]);
    RgbTextReadsBack(red, green, blue);
    RgbText(red, green, blue)
  }

  /** Printed numbers split back on spaces into the three numbers. */
  lemma RgbTextSplits(r: nat, g: nat, b: nat)
    ensures Split(RgbText(r, g, b), ' ') == [Decimal(r), Decimal(g), Decimal(b)]
  {
    var x, y, z := Decimal(r), Decimal(g), Decimal(b);
    NoSpaceInDecimal(x);
    NoSpaceInDecimal(y);
    NoSpaceInDecimal(z);
    assert RgbText(r, g, b) == x + [' '] + (y + [' '] + z);
    SplitAfterPiece(x, ' ', y + [' '] + z);
    SplitAfterPiece(y, ' ', z);
    SplitNoSep(z, ' ');
  }

  /** Three numbers printed by `RgbText` read back, split on spaces, as
      exactly those three numbers. */
  lemma RgbTextReadsBack(a: nat, b: nat, c: nat)
    ensures var parts := Split(RgbText(a, b, c), ' ');
      && |parts| == 3
      && IsDecimal(parts[0]) && IsDecimal(parts[1]) && IsDecimal(parts[2])
      && DecimalValue(parts[0]) == a && DecimalValue(parts[1]) == b && DecimalValue(parts[2]) == c
  {
    RgbTextSplits(a, b, c);
    DecimalRoundTrip(a);
    DecimalRoundTrip(b);
    DecimalRoundTrip(c);
  }

  lemma NoSpaceInDecimal(s: string)
    requires IsDecimal(s)
    ensures ' ' !in s
  {
  }

  /** With and without the `#` the same colour is printed. */
  lemma HashIsOptional(h: string)
    requires |h| == 6 && AllHex(h)
    ensures ValidHexColour("#" + h) && ValidHexColour(h)
    ensures HexToRgb("#" + h) == HexToRgb(h)
  {
    assert ("#" + h)[1..] == h;
  }

  datatype Theme = Theme(name: string, primary: string, secondary: string, accent: string)

  /** The four built-in themes. */
  const ThemeOptions: seq<Theme> := [
    Theme("Black & White", "#000000", "#f5f5f5", "#333333"),
    Theme("Dark Mode", "#121212", "#2d2d2d", "#bb86fc"),
    Theme("Nord", "#3b4252", "#e5e9f0", "#88c0d0"),
    Theme("Minimal", "#ffffff", "#f0f0f0", "#000000")
  ]

  predicate ValidTheme(t: Theme) {
    ValidHexColour(t.primary) && ValidHexColour(t.secondary) && ValidHexColour(t.accent)
  }

  /** Every built-in colour is a valid `#RRGGBB`, so the preview never
      feeds `hexToRgb` anything else. */
  lemma ThemeColoursAreValid()
    ensures forall i :: 0 <= i < |ThemeOptions| ==> ValidTheme(ThemeOptions[i])
  {
    forall i | 0 <= i < |ThemeOptions|
      ensures ValidTheme(ThemeOptions[i])
    {
      ThemeValid(ThemeOptions[i]);
    }
  }

  lemma ThemeValid(t: Theme)
    requires t in ThemeOptions
    ensures ValidTheme(t)
  {
    ColourValid(t.primary);
    ColourValid(t.secondary);
    ColourValid(t.accent);
  }

  /** The colour strings the built-in themes use. */
  const ThemeColours: set<string> := {
    "#000000", "#f5f5f5", "#333333", "#121212", "#2d2d2d", "#bb86fc",
    "#3b4252", "#e5e9f0", "#88c0d0", "#ffffff", "#f0f0f0"
  }

  lemma ColourValid(c: string)
    requires c in ThemeColours
    ensures ValidHexColour(c)
  {
    HashColour(c[1..]);
    assert c == "#" + c[1..];
  }

  lemma HashColour(h: string)
    requires |h| == 6 && AllHex(h)
    ensures ValidHexColour("#" + h)
  {
    assert ("#" + h)[1..] == h;
  }

  /** The Dark Mode accent `#bb86fc` prints as `187 134 252`. */
  lemma DarkModeAccentExample()
    ensures HexToRgb("#bb86fc") == "187 134 252"
  {
    AccentChannels();
    assert Decimal(187) == "187";
    assert Decimal(134) == "134";
    assert Decimal(252) == "252";
  }

  lemma AccentChannels()
    ensures ValidHexColour("#bb86fc")
    ensures Channel("#bb86fc", 0) == 187
    ensures Channel("#bb86fc", 1) == 134
    ensures Channel("#bb86fc", 2) == 252
  {
    assert HexDigits("#bb86fc") == "bb86fc";
  }

  // ------------------------------------------------------------ project list

  /** A project of the CMS list; `technologies` is always an array here. */
  datatype CmsProject = CmsProject(
    id: int,
    title: string,
    description: string,
    category: string,
    imageUrl: string,
    technologies: seq<string>,
    featured: bool)

  function CmsId(p: CmsProject): int { p.id }

  function IsFeatured(p: CmsProject): bool { p.featured }

  function CmsIdIsNot(id: int): CmsProject -> bool {
    (p: CmsProject) => p.id != id
  }

  function CmsIdIs(id: int): CmsProject -> bool {
    (p: CmsProject) => p.id == id
  }

  /** The list and the draft being edited, if any. */
  datatype Cms = Cms(projects: seq<CmsProject>, editing: Option<CmsProject>)

  /** The three sample projects the page starts with. */
  const InitialProjects: seq<CmsProject> := [
    CmsProject(1, "Portfolio Website", "Responsive portfolio with dark mode and accessibility features",
      "web", "https://images.unsplash.com/photo-1618005182384-a83a8bd57fbe?auto=format&fit=crop&w=1200&h=1200&q=80",
      ["React", "TailwindCSS", "Node.js"], true),
    CmsProject(2, "Mobile App UI Kit", "Comprehensive UI kit for mobile applications",
      "design", "https://images.unsplash.com/photo-1543069190-4dd17733f9ff?auto=format&fit=crop&w=1200&h=1200&q=80",
      ["Figma", "Sketch", "Adobe XD"], false),
    CmsProject(3, "E-commerce Platform", "Full-stack e-commerce solution with admin panel",
      "web", "https://images.unsplash.com/photo-1572177191856-3cde618dee1f?auto=format&fit=crop&w=1200&h=1200&q=80",
      ["React", "Node.js", "MongoDB"], true)
  ]

  const InitialCms := Cms(InitialProjects, None)

  /** The dashboard's "featured projects" card: how many projects are
      featured, never more than the total shown beside it. */
  function FeaturedCount(projects: seq<CmsProject>): (n: nat)
    ensures n <= |projects|
    ensures n == 0 <==> forall i :: 0 <= i < |projects| ==> !projects[i].featured
    ensures n == |projects| <==> forall i :: 0 <= i < |projects| ==> projects[i].featured
  {
    Count(projects, IsFeatured)
  }

  /** Appending a project raises the featured count by one exactly when it
      is featured. */
  lemma FeaturedCountAppend(projects: seq<CmsProject>, p: CmsProject)
    ensures FeaturedCount(projects + [p]) == FeaturedCount(projects) + (if p.featured then 1 else 0)
  {
    FilterAppend(projects, p, IsFeatured);
  }

  /** The initial list has distinct ids, two featured projects out of three. */
  lemma InitialListFacts()
    ensures UniqueKeys(InitialProjects, CmsId)
    ensures FeaturedCount(InitialProjects) == 2 && |InitialProjects| == 3
  {
    var s := InitialProjects;
    assert s == [s[0]] + [s[1]] + [s[2]];
    FilterAppend([s[0]] + [s[1]], s[2], IsFeatured);
    FilterAppend([s[0]], s[1], IsFeatured);
    FilterAppend([], s[0], IsFeatured);
    assert [] + [s[0]] == [s[0]];
  }

  /** The empty draft `handleAddProject` opens: category web, not featured,
      no technologies, under the id the caller supplies (the clock reading
      in the source). */
  function NewDraft(id: int): (d: CmsProject)
    ensures d.id == id && d.category == "web" && !d.featured
    ensures d.title == "" && d.description == "" && d.imageUrl == "" && d.technologies == []
  {
    CmsProject(id, "", "", "web", "", [], false)
  }

  /** `handleAddProject`: opens a new draft; the list is untouched. */
  function HandleAddProject(c: Cms, id: int): (r: Cms)
    ensures r.projects == c.projects
    ensures r.editing == Some(NewDraft(id))
  {
    c.(editing := Some(NewDraft(id)))
  }

  /** `handleEditProject`: opens a copy of `p` as the draft. */
  function HandleEditProject(c: Cms, p: CmsProject): (r: Cms)
    ensures r.projects == c.projects && r.editing == Some(p)
  {
    c.(editing := Some(p))
  }

  /** The cancel button: drops the draft, keeps the list. */
  function CancelEdit(c: Cms): (r: Cms)
    ensures r.projects == c.projects && r.editing.None?
  {
    c.(editing := None)
  }

  /** `handleDeleteProject`: every project with the id goes, the others stay
      in their order; distinct ids stay distinct; the draft is untouched. */
  function HandleDeleteProject(c: Cms, id: int): (r: Cms)
    ensures forall p :: p in r.projects <==> p in c.projects && p.id != id
    ensures !HasKey(r.projects, CmsId, id)
    ensures IsSubsequence(r.projects, c.projects)
    ensures UniqueKeys(c.projects, CmsId) ==> UniqueKeys(r.projects, CmsId)
    ensures r.editing == c.editing
  {
    var projects := Filter(c.projects, CmsIdIsNot(id));
    assert forall i :: 0 <= i < |projects| ==> projects[i] in projects;
    FilterUniqueWhen(c.projects, CmsIdIsNot(id));
    c.(projects := projects)
  }

  lemma FilterUniqueWhen(s: seq<CmsProject>, f: CmsProject -> bool)
    ensures UniqueKeys(s, CmsId) ==> UniqueKeys(Filter(s, f), CmsId)
  {
    if UniqueKeys(s, CmsId) {
      FilterUnique(s, f, CmsId);
    }
  }

  /** `handleSaveProject`: without a draft nothing happens. With one, a
      project already carrying the draft's id is replaced in place (same
      length, same order), otherwise the draft is appended; the draft is
      then cleared. Distinct ids stay distinct. */
  function HandleSaveProject(c: Cms): (r: Cms)
    ensures c.editing.None? ==> r == c
    ensures c.editing.Some? ==> r.editing.None?
    ensures c.editing.Some? && HasKey(c.projects, CmsId, c.editing.value.id) ==>
      && |r.projects| == |c.projects|
      && (forall i :: 0 <= i < |c.projects| && c.projects[i].id == c.editing.value.id ==>
            r.projects[i] == c.editing.value)
      && (forall i :: 0 <= i < |c.projects| && c.projects[i].id != c.editing.value.id ==>
            r.projects[i] == c.projects[i])
    ensures c.editing.Some? && !HasKey(c.projects, CmsId, c.editing.value.id) ==>
      r.projects == c.projects + [c.editing.value]
    ensures UniqueKeys(c.projects, CmsId) ==> UniqueKeys(r.projects, CmsId)
  {
    match c.editing
    case None => c
    case Some(d) =>
      if Find(c.projects, CmsId, d.id).Some? then
        var projects := ReplaceWhere(c.projects, CmsIdIs(d.id), _ => d);
        assert forall i :: 0 <= i < |projects| ==> projects[i].id == c.projects[i].id;
        Cms(projects, None)
      else
        Cms(c.projects + [d], None)
  }

  /** After saving, the draft is the one project the list holds under its
      id. */
  lemma SaveThenFind(c: Cms)
    requires c.editing.Some? && UniqueKeys(c.projects, CmsId)
    ensures Find(HandleSaveProject(c).projects, CmsId, c.editing.value.id) == Some(c.editing.value)
  {
    var d := c.editing.value;
    var r := HandleSaveProject(c).projects;
    if HasKey(c.projects, CmsId, d.id) {
      var i :| 0 <= i < |c.projects| && c.projects[i].id == d.id;
      FindUnique(r, CmsId, i);
    } else {
      FindUnique(r, CmsId, |r| - 1);
    }
  }

  /** Opening a listed project and saving it without edits leaves the list
      as it was. */
  lemma EditThenSaveUnchanged(c: Cms, i: nat)
    requires i < |c.projects| && UniqueKeys(c.projects, CmsId)
    ensures HandleSaveProject(HandleEditProject(c, c.projects[i])).projects == c.projects
  {
    var r := HandleSaveProject(HandleEditProject(c, c.projects[i])).projects;
    assert HasKey(c.projects, CmsId, c.projects[i].id);
    forall j | 0 <= j < |c.projects|
      ensures r[j] == c.projects[j]
    {
      if j != i {
        assert c.projects[j].id != c.projects[i].id by {
          if j < i { } else { }
        }
      }
    }
  }

  /** Saving a brand-new draft raises the featured count by one exactly
      when the draft is featured. */
  lemma SaveNewDraftCount(c: Cms)
    requires c.editing.Some? && !HasKey(c.projects, CmsId, c.editing.value.id)
    ensures FeaturedCount(HandleSaveProject(c).projects)
         == FeaturedCount(c.projects) + (if c.editing.value.featured then 1 else 0)
  {
    FeaturedCountAppend(c.projects, c.editing.value);
  }

  // ------------------------------------------------------ technologies field

  /** What the technologies input shows: the array joined with `", "`. */
  function TechnologiesText(technologies: seq<string>): string {
    Join(technologies, ", ")
  }

  /** What typing into the technologies input stores: the text split on
      commas and each piece trimmed, empty pieces kept. There is one entry
      more than there are commas, each one trimmed and comma-free. */
  function ParseTechnologies(text: string): (r: seq<string>)
    ensures |r| == Occurrences(text, ',') + 1
    ensures ProjectForm.CommaFreeTrimmed(r)
  {
    var pieces := Split(text, ',');
    SplitCount(text, ',');
    forall k | 0 <= k < |pieces|
      ensures ',' !in Trim(pieces[k])
    {
      TrimChars(pieces[k]);
    }
    TrimAll(pieces)
  }

  /** A non-empty list of trimmed, comma-free entries survives being shown
      and typed back, empty entries included. */
  lemma TechnologiesRoundTrip(technologies: seq<string>)
    requires |technologies| >= 1 && ProjectForm.CommaFreeTrimmed(technologies)
    ensures ParseTechnologies(TechnologiesText(technologies)) == technologies
  {
    ProjectForm.TrimmedPiecesOfJoin(technologies);
  }

  /** Unlike the admin form's parser, this one keeps blanks: an emptied
      field stores one empty technology, and the admin form's parse is this
      one with the empty entries dropped. */
  lemma ParsersDifferOnBlanks(text: string)
    ensures ParseTechnologies("") == [""]
    ensures ProjectForm.StringToArray(text) == Filter(ParseTechnologies(text), ProjectForm.NonEmptyText)
  {
    assert Split("", ',') == [""];
  }

  // ------------------------------------------------------------ session flag

  /** The redirect check: only the exact value `"true"` lets the user stay. */
  predicate IsAuthorized(flag: Option<string>) {
    flag == Some("true")
  }

  /** The render guard: any non-empty stored value renders the page. */
  predicate PassesRenderGuard(flag: Option<string>) {
    flag.Some? && flag.value != ""
  }

  /** Where the redirect effect sends the user, if anywhere. */
  function RedirectOnMount(flag: Option<string>): (r: Option<string>)
    ensures r.None? <==> IsAuthorized(flag)
    ensures r.Some? ==> r.value == "/"
  {
    if IsAuthorized(flag) then None else Some("/")
  }

  /** `handleLogout`: removes the flag and goes home; the page can no longer
      be rendered or kept open. */
  function Logout(flag: Option<string>): (r: (Option<string>, string))
    ensures r.0.None? && r.1 == "/"
    ensures !IsAuthorized(r.0) && !PassesRenderGuard(r.0)
  {
    (None, "/")
  }

  /** The two checks differ: an authorized flag always renders, but a
      non-empty flag other than `"true"` renders while being redirected. */
  lemma GuardsDiffer(flag: Option<string>)
    ensures IsAuthorized(flag) ==> PassesRenderGuard(flag)
    ensures PassesRenderGuard(Some("yes")) && !IsAuthorized(Some("yes"))
  {
  }
}
