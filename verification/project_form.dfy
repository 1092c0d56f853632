/** The admin project form: the comma-separated text codec for the three
    list fields (`stringToArray` / `arrayToString`), the initial form values
    for adding or editing, and the transform applied on submit. */
module ProjectForm {
  import opened Wrappers
  import opened Text
  import opened Tables
  import opened Schema

  function NonEmptyText(s: string): bool {
    |s| > 0
  }

  /** A list the text codec can carry unchanged: no empty entry, no blank
      at either end of an entry, no comma inside one. */
  predicate CleanList(a: seq<string>) {
    forall k :: 0 <= k < |a| ==> |a[k]| > 0 && Trimmed(a[k]) && ',' !in a[k]
  }

  /** Entries that are trimmed and comma-free, empty ones allowed. */
  predicate CommaFreeTrimmed(a: seq<string>) {
    forall k :: 0 <= k < |a| ==> Trimmed(a[k]) && ',' !in a[k]
  }

  /** `stringToArray`: split on commas, trim each piece, drop the empty
      ones. The result is always a clean list, and text made only of commas
      and blanks (the empty string included) gives the empty list. */
  function StringToArray(value: string): (r: seq<string>)
    ensures CleanList(r)
    ensures (forall i :: 0 <= i < |value| ==> value[i] == ',' || IsSpace(value[i])) ==> r == []
  {
    var pieces := TrimAll(Split(value, ','));
    var r := Filter(pieces, NonEmptyText);
    assert forall k :: 0 <= k < |r| ==> r[k] in pieces;
    forall k | 0 <= k < |pieces|
      ensures ',' !in pieces[k]
    {
      TrimChars(Split(value, ',')[k]);
    }
    OnlySeparatorsGiveBlankPieces(value);
    r
  }

  lemma OnlySeparatorsGiveBlankPieces(value: string)
    ensures (forall i :: 0 <= i < |value| ==> value[i] == ',' || IsSpace(value[i])) ==>
      Filter(TrimAll(Split(value, ',')), NonEmptyText) == []
  {
    var pieces := Split(value, ',');
    var trimmed := TrimAll(pieces);
    if forall i :: 0 <= i < |value| ==> value[i] == ',' || IsSpace(value[i]) {
      forall k | 0 <= k < |pieces|
        ensures !NonEmptyText(trimmed[k])
      {
        SplitPieceChars(value, ',', k);
        BlankPiece(value, pieces[k]);
      }
      CountBounds(trimmed, NonEmptyText);
    }
  }

  lemma BlankPiece(value: string, piece: string)
    requires forall i :: 0 <= i < |value| ==> value[i] == ',' || IsSpace(value[i])
    requires ',' !in piece
    requires forall c :: c in piece ==> c in value
    ensures Trim(piece) == []
  {
    forall i | 0 <= i < |piece|
      ensures IsSpace(piece[i])
    {
      assert piece[i] in piece;
    }
  }

  /** `arrayToString`: `""` for an absent list, the entries joined with
      `", "` otherwise. */
  function ArrayToString(arr: Option<seq<string>>): (r: string)
    ensures arr.None? ==> r == ""
    ensures arr.Some? && |arr.value| == 1 ==> r == arr.value[0]
  {
    if arr.Some? then Join(arr.value, ", ") else ""
  }

  /** Splitting a `", "`-joined list on commas and trimming the pieces
      gives the list back, empty entries included, as long as no entry has a
      comma or an outer blank. */
  lemma {:induction false} TrimmedPiecesOfJoin(a: seq<string>)
    requires |a| >= 1 && CommaFreeTrimmed(a)
    ensures TrimAll(Split(Join(a, ", "), ',')) == a
    decreases |a|
  {
    if |a| == 1 {
      SplitNoSep(a[0], ',');
    } else {
      var j := Join(a[1..], ", ");
      TrimmedPiecesOfJoin(a[1..]);
      assert Join(a, ", ") == a[0] + [','] + ([' '] + j);
      SplitAfterPiece(a[0], ',', [' '] + j);
      SpacedPiecesTrimAlike(j);
      TrimAllCons(a[0], Split([' '] + j, ','));
      assert [a[0]] + a[1..] == a;
    }
  }

  /** A blank in front of the text only pads its first piece, which
      trimming undoes. */
  lemma SpacedPiecesTrimAlike(j: string)
    ensures TrimAll(Split([' '] + j, ',')) == TrimAll(Split(j, ','))
  {
    var inner := Split(j, ',');
    var spaced := Split([' '] + j, ',');
    SplitCons(' ', j, ',');
    TrimLeadingSpace(' ', inner[0]);
    forall k | 0 <= k < |inner|
      ensures Trim(spaced[k]) == Trim(inner[k])
    {
      if k > 0 {
        assert spaced[k] == inner[k];
      }
    }
    TrimAllPointwise(spaced, inner);
  }

  lemma TrimAllCons(x: string, xs: seq<string>)
    requires Trimmed(x)
    ensures TrimAll([x] + xs) == [x] + TrimAll(xs)
  {
    assert forall k :: 1 <= k < |xs| + 1 ==> ([x] + xs)[k] == xs[k - 1];
  }

  /** Round trip: a clean list written to the text field and parsed back is
      the same list. */
  lemma RoundTrip(a: seq<string>)
    requires CleanList(a)
    ensures StringToArray(ArrayToString(Some(a))) == a
  {
    if |a| == 0 {
      assert Split("", ',') == [""];
      assert TrimAll([""]) == [""];
    } else {
      TrimmedPiecesOfJoin(a);
      FilterKeepsAll(a, NonEmptyText);
    }
  }

  /** Normalising is idempotent: parsing, writing back and parsing again
      gives what the first parse gave. */
  lemma NormaliseIdempotent(s: string)
    ensures StringToArray(ArrayToString(Some(StringToArray(s)))) == StringToArray(s)
  {
    RoundTrip(StringToArray(s));
  }

  /** The values the form holds: the three lists as text, the URL as text
      (never null) and `featured` as stored. */
  datatype FormValues = FormValues(
    title: string,
    description: string,
    category: string,
    imageUrl: string,
    technologies: string,
    challenges: string,
    solutions: string,
    projectUrl: string,
    featured: Option<bool>)

  /** What `handleSubmit` passes on: the form values with the three lists
      parsed. */
  datatype SubmittedProject = SubmittedProject(
    title: string,
    description: string,
    category: string,
    imageUrl: string,
    technologies: seq<string>,
    challenges: seq<string>,
    solutions: seq<string>,
    projectUrl: string,
    featured: Option<bool>)

  /** `defaultValues`: for a new project, empty text, category `web` and
      not featured; for an existing one, its columns, the lists written as
      comma text and a null URL shown as `""`. */
  function DefaultValues(project: Option<Project>): (v: FormValues)
    ensures project.None? ==>
      && v.title == "" && v.description == "" && v.imageUrl == ""
      && v.technologies == "" && v.challenges == "" && v.solutions == ""
      && v.projectUrl == "" && v.category == "web" && v.featured == Some(false)
    ensures project.Some? ==>
      && v.title == project.value.title
      && v.description == project.value.description
      && v.category == project.value.category
      && v.imageUrl == project.value.imageUrl
      && v.featured == project.value.featured
      && (project.value.projectUrl.None? ==> v.projectUrl == "")
      && (project.value.projectUrl.Some? ==> v.projectUrl == project.value.projectUrl.value)
      && v.technologies == ArrayToString(project.value.technologies)
      && v.challenges == ArrayToString(project.value.challenges)
      && v.solutions == ArrayToString(project.value.solutions)
      && (project.value.technologies.None? ==> v.technologies == "")
  {
    match project
    case None => FormValues("", "", "web", "", "", "", "", "", Some(false))
    case Some(p) =>
      FormValues(p.title, p.description, p.category, p.imageUrl,
                 ArrayToString(p.technologies), ArrayToString(p.challenges),
                 ArrayToString(p.solutions), p.projectUrl.GetOr(""), p.featured)
  }

  /** `handleSubmit`: the three list fields are replaced by their parsed
      lists, which are clean; every other field passes through unchanged. */
  function HandleSubmit(v: FormValues): (r: SubmittedProject)
    ensures r.title == v.title && r.description == v.description
    ensures r.category == v.category && r.imageUrl == v.imageUrl
    ensures r.projectUrl == v.projectUrl && r.featured == v.featured
    ensures CleanList(r.technologies) && CleanList(r.challenges) && CleanList(r.solutions)
    ensures r.technologies == StringToArray(v.technologies)
    ensures r.challenges == StringToArray(v.challenges)
    ensures r.solutions == StringToArray(v.solutions)
  {
    SubmittedProject(v.title, v.description, v.category, v.imageUrl,
                     StringToArray(v.technologies), StringToArray(v.challenges),
                     StringToArray(v.solutions), v.projectUrl, v.featured)
  }

  /** Opening a project in the form and submitting without edits sends its
      clean lists back unchanged; a null list comes back as `[]` and a null
      URL as `""`. */
  lemma EditWithoutChangesResubmits(p: Project)
    requires p.technologies.Some? ==> CleanList(p.technologies.value)
    requires p.challenges.Some? ==> CleanList(p.challenges.value)
    requires p.solutions.Some? ==> CleanList(p.solutions.value)
    ensures var r := HandleSubmit(DefaultValues(Some(p)));
      && r.technologies == p.technologies.GetOr([])
      && r.challenges == p.challenges.GetOr([])
      && r.solutions == p.solutions.GetOr([])
      && r.projectUrl == p.projectUrl.GetOr("")
      && r.title == p.title && r.featured == p.featured
  {
    ListFieldRoundTrip(p.technologies);
    ListFieldRoundTrip(p.challenges);
    ListFieldRoundTrip(p.solutions);
  }

  lemma ListFieldRoundTrip(arr: Option<seq<string>>)
    requires arr.Some? ==> CleanList(arr.value)
    ensures StringToArray(ArrayToString(arr)) == arr.GetOr([])
  {
    if arr.Some? {
      RoundTrip(arr.value);
    } else {
      assert Split("", ',') == [""];
      assert TrimAll([""]) == [""];
    }
  }
}
