/** `DatabaseStorage` as pure transitions over an immutable store.

    The store holds the three tables and the two `serial` counters that hand
    out project and message ids. Every operation takes the store (and, where
    the database would call `now()`, the clock reading) and returns the new
    store together with the operation's result; reads return only the
    result. `Valid` collects the table constraints — primary keys, the unique
    user email, ids below their counter — and every transition keeps it. */
module Storage {
  import opened Wrappers
  import opened Tables
  import opened Schema

  /** The only failure the model can reach: an upsert whose resulting email
      is already used by another user violates `users.email UNIQUE`. */
  datatype DbError = UniqueEmailViolation

  datatype Store = Store(
    users: seq<User>,
    projects: seq<Project>,
    messages: seq<Message>,
    nextProjectId: int,
    nextMessageId: int)

  /** No two users share a present email (NULLs never conflict). */
  predicate UniqueEmails(users: seq<User>) {
    forall i, j :: 0 <= i < j < |users| && users[i].email.Some? ==> users[i].email != users[j].email
  }

  /** The constraints the database enforces on every state. */
  predicate Valid(st: Store) {
    && UniqueKeys(st.users, UserId)
    && UniqueEmails(st.users)
    && UniqueKeys(st.projects, ProjectId)
    && UniqueKeys(st.messages, MessageId)
    && 1 <= st.nextProjectId && 1 <= st.nextMessageId
    && (forall i :: 0 <= i < |st.projects| ==> 1 <= st.projects[i].id < st.nextProjectId)
    && (forall i :: 0 <= i < |st.messages| ==> 1 <= st.messages[i].id < st.nextMessageId)
  }

  /** A fresh database: empty tables, both serials at 1. */
  function Empty(): (st: Store)
    ensures Valid(st)
    ensures st.users == [] && st.projects == [] && st.messages == []
  {
    Store([], [], [], 1, 1)
  }

  // ---------------------------------------------------------------- users

  /** `getUser`: the user with that id, or `None` — absence is not an error. */
  function GetUser(st: Store, id: string): (r: Option<User>)
    ensures r.Some? <==> exists i :: 0 <= i < |st.users| && st.users[i].id == id
    ensures r.Some? ==> r.value in st.users && r.value.id == id
  {
    Find(st.users, UserId, id)
  }

  /** Some user other than `id` already has the present email `e`. */
  predicate EmailTakenByOther(users: seq<User>, id: string, e: Option<string>) {
    e.Some? && exists i :: 0 <= i < |users| && users[i].id != id && users[i].email == e
  }

  function IsUser(id: string): User -> bool {
    (u: User) => u.id == id
  }

  /** The row an upsert of `u` would leave behind: the stored row
      overwritten if one has that id, a new row otherwise. */
  function UpsertedRow(st: Store, u: UpsertUser, now: int): (r: User)
    ensures r.id == u.id
  {
    match GetUser(st, u.id)
    case Some(prev) => OverwriteUser(prev, u, now)
    case None => NewUser(u, now)
  }

  /** `upsertUser`: insert, or on an id conflict overwrite the supplied
      columns and refresh `updatedAt`. Afterwards exactly one user has the
      id, and it is the row returned. Fails, changing nothing, when the
      resulting email belongs to another user. */
  function UpsertUser(st: Store, u: UpsertUser, now: int): (r: (Store, Result<User, DbError>))
    requires Valid(st)
    ensures Valid(r.0)
    ensures r.1.Failure? <==> EmailTakenByOther(st.users, u.id, UpsertedRow(st, u, now).email)
    ensures r.1.Failure? ==> r.0 == st
    ensures r.1.Success? ==>
      && r.1.value == UpsertedRow(st, u, now)
      && r.1.value in r.0.users
      && (forall i :: 0 <= i < |r.0.users| && r.0.users[i].id == u.id ==> r.0.users[i] == r.1.value)
      && (forall w :: w in r.0.users && w.id != u.id <==> w in st.users && w.id != u.id)
      && r.0.projects == st.projects && r.0.messages == st.messages
  {
    var row := UpsertedRow(st, u, now);
    if EmailTakenByOther(st.users, u.id, row.email) then
      (st, Failure(UniqueEmailViolation))
    else if GetUser(st, u.id).Some? then
      var users := ReplaceWhere(st.users, IsUser(u.id), _ => row);
      ReplaceKeepsUsersValid(st, u.id, row, users);
      (st.(users := users), Success(row))
    else
      var users := st.users + [row];
      AppendKeepsUsersValid(st, row, users);
      (st.(users := users), Success(row))
  }

  lemma ReplaceKeepsUsersValid(st: Store, id: string, row: User, users: seq<User>)
    requires Valid(st) && row.id == id
    requires !EmailTakenByOther(st.users, id, row.email)
    requires users == ReplaceWhere(st.users, IsUser(id), _ => row)
    requires GetUser(st, id).Some?
    ensures Valid(st.(users := users))
    ensures row in users
    ensures forall i :: 0 <= i < |users| && users[i].id == id ==> users[i] == row
    ensures forall w :: w in users && w.id != id <==> w in st.users && w.id != id
  {
    var k :| 0 <= k < |st.users| && st.users[k].id == id;
    assert users[k] == row;
    forall w | w in st.users && w.id != id
      ensures w in users
    {
      var i :| 0 <= i < |st.users| && st.users[i] == w;
      assert users[i] == w;
    }
  }

  lemma AppendKeepsUsersValid(st: Store, row: User, users: seq<User>)
    requires Valid(st)
    requires !EmailTakenByOther(st.users, row.id, row.email)
    requires GetUser(st, row.id).None?
    requires users == st.users + [row]
    ensures Valid(st.(users := users))
  {
  }

  /** Upserting the same id twice leaves one row for it, carrying the
      second call's supplied columns. */
  lemma UpsertTwiceKeepsOneRow(st: Store, u1: UpsertUser, u2: UpsertUser, t1: int, t2: int)
    requires Valid(st) && u1.id == u2.id
    requires UpsertUser(st, u1, t1).1.Success?
    requires UpsertUser(UpsertUser(st, u1, t1).0, u2, t2).1.Success?
    ensures var st2 := UpsertUser(UpsertUser(st, u1, t1).0, u2, t2).0;
      && GetUser(st2, u2.id) == Some(UpsertUser(UpsertUser(st, u1, t1).0, u2, t2).1.value)
      && (u2.email.Given? ==> GetUser(st2, u2.id).value.email == u2.email.value)
  {
    var st1 := UpsertUser(st, u1, t1).0;
    var r2 := UpsertUser(st1, u2, t2);
    var g := GetUser(r2.0, u2.id);
    var i :| 0 <= i < |r2.0.users| && r2.0.users[i] == g.value;
  }

  // ------------------------------------------------------------- projects

  function InCategory(category: string): Project -> bool {
    (p: Project) => p.category == category
  }

  function ProjectIdIsNot(id: int): Project -> bool {
    (p: Project) => p.id != id
  }

  function IsProject(id: int): Project -> bool {
    (p: Project) => p.id == id
  }

  /** `getProjects`: every stored project exactly once, newest first. */
  function GetProjects(st: Store): (r: seq<Project>)
    ensures multiset(r) == multiset(st.projects)
    ensures SortedDesc(r, ProjectCreated)
  {
    SortDesc(st.projects, ProjectCreated)
  }

  /** `getProjectsByCategory`: exactly the projects whose category equals
      `category` (case-sensitive), each once, newest first. */
  function GetProjectsByCategory(st: Store, category: string): (r: seq<Project>)
    ensures forall p :: p in r <==> p in st.projects && p.category == category
    ensures multiset(r) == multiset(Filter(st.projects, InCategory(category)))
    ensures SortedDesc(r, ProjectCreated)
  {
    var matching := Filter(st.projects, InCategory(category));
    var r := SortDesc(matching, ProjectCreated);
    SameMembers(r, matching);
    r
  }

  /** Two permutations of a table hold the same rows. */
  lemma SameMembers<T>(a: seq<T>, b: seq<T>)
    requires multiset(a) == multiset(b)
    ensures forall x :: x in a <==> x in b
  {
    forall x
      ensures x in a <==> x in b
    {
      assert x in a <==> x in multiset(a);
      assert x in b <==> x in multiset(b);
    }
  }

  /** The category listing holds the same rows as filtering the full
      listing, so the two endpoints never disagree about membership or
      multiplicity. */
  lemma CategoryListingMatchesFullListing(st: Store, category: string)
    ensures multiset(GetProjectsByCategory(st, category))
         == multiset(Filter(GetProjects(st), InCategory(category)))
  {
    FilterPermutation(st.projects, GetProjects(st), InCategory(category));
  }

  /** Filtering two permutations of a table gives permutations. */
  lemma FilterPermutation<T(!new)>(a: seq<T>, b: seq<T>, f: T -> bool)
    requires multiset(a) == multiset(b)
    ensures multiset(Filter(a, f)) == multiset(Filter(b, f))
  {
    forall x
      ensures multiset(Filter(a, f))[x] == multiset(Filter(b, f))[x]
    {
      FilterMultiplicity(a, f, x);
      FilterMultiplicity(b, f, x);
    }
  }

  lemma {:induction false} FilterMultiplicity<T(!new)>(s: seq<T>, f: T -> bool, x: T)
    ensures multiset(Filter(s, f))[x] == if f(x) then multiset(s)[x] else 0
    decreases |s|
  {
    if |s| > 0 {
      FilterMultiplicity(s[1..], f, x);
      assert s == [s[0]] + s[1..];
    }
  }

  /** `getProjectById`: the project with that id, or `None`. */
  function GetProjectById(st: Store, id: int): (r: Option<Project>)
    ensures r.Some? <==> exists i :: 0 <= i < |st.projects| && st.projects[i].id == id
    ensures r.Some? ==> r.value in st.projects && r.value.id == id
  {
    Find(st.projects, ProjectId, id)
  }

  /** `createProject`: appends exactly one row, under an id no row had,
      carrying the payload with both timestamps `now`; the existing rows and
      the other tables are untouched. */
  function CreateProject(st: Store, data: InsertProject, now: int): (r: (Store, Project))
    requires Valid(st)
    ensures Valid(r.0)
    ensures r.0.projects == st.projects + [r.1]
    ensures r.0.users == st.users && r.0.messages == st.messages
    ensures r.1.id >= 1 && !HasKey(st.projects, ProjectId, r.1.id)
    ensures CarriesInsert(r.1, data) && r.1.createdAt == now && r.1.updatedAt == now
    ensures data.featured.Omitted? ==> r.1.featured == Some(false)
  {
    var p := NewProject(data, st.nextProjectId, now);
    (st.(projects := st.projects + [p], nextProjectId := st.nextProjectId + 1), p)
  }

  /** Reading back a created project returns the row `createProject`
      returned: the input plus the assigned id and timestamps. */
  lemma CreateThenGetProject(st: Store, data: InsertProject, now: int)
    requires Valid(st)
    ensures var (st1, p) := CreateProject(st, data, now);
      GetProjectById(st1, p.id) == Some(p) && CarriesInsert(p, data)
  {
    var (st1, p) := CreateProject(st, data, now);
    FindUnique(st1.projects, ProjectId, |st1.projects| - 1);
  }

  /** `updateProject`: on a missing id returns `None` and changes nothing;
      otherwise rewrites that one row with the patch and `updatedAt = now`,
      in place, and returns it. */
  function UpdateProject(st: Store, id: int, patch: ProjectPatch, now: int): (r: (Store, Option<Project>))
    requires Valid(st)
    ensures Valid(r.0)
    ensures r.1.None? <==> !HasKey(st.projects, ProjectId, id)
    ensures r.1.None? ==> r.0 == st
    ensures r.1.Some? ==>
      && r.1.value == ApplyPatch(GetProjectById(st, id).value, patch, now)
      && |r.0.projects| == |st.projects|
      && (forall i :: 0 <= i < |st.projects| && st.projects[i].id != id ==> r.0.projects[i] == st.projects[i])
      && (forall i :: 0 <= i < |st.projects| && st.projects[i].id == id ==> r.0.projects[i] == r.1.value)
      && r.0.users == st.users && r.0.messages == st.messages
      && r.0.nextProjectId == st.nextProjectId
  {
    match GetProjectById(st, id)
    case None => (st, None)
    case Some(prev) =>
      var row := ApplyPatch(prev, patch, now);
      var projects := ReplaceWhere(st.projects, IsProject(id), _ => row);
      assert forall i :: 0 <= i < |projects| ==> projects[i].id == st.projects[i].id;
      (st.(projects := projects), Some(row))
  }

  /** After a successful update, reading the project back returns the
      patched row. */
  lemma UpdateThenGetProject(st: Store, id: int, patch: ProjectPatch, now: int)
    requires Valid(st) && HasKey(st.projects, ProjectId, id)
    ensures var (st1, r) := UpdateProject(st, id, patch, now);
      r.Some? && GetProjectById(st1, id) == r
  {
    var (st1, r) := UpdateProject(st, id, patch, now);
    var i :| 0 <= i < |st.projects| && st.projects[i].id == id;
    FindUnique(st1.projects, ProjectId, i);
  }

  /** `deleteProject`: `true` iff a row had the id. Afterwards no row has
      it, every other row is still there in the same order, and nothing
      else changed. */
  function DeleteProject(st: Store, id: int): (r: (Store, bool))
    requires Valid(st)
    ensures Valid(r.0)
    ensures r.1 <==> HasKey(st.projects, ProjectId, id)
    ensures !HasKey(r.0.projects, ProjectId, id)
    ensures forall p :: p in r.0.projects <==> p in st.projects && p.id != id
    ensures IsSubsequence(r.0.projects, st.projects)
    ensures !r.1 ==> r.0 == st
    ensures r.0.users == st.users && r.0.messages == st.messages
    ensures r.0.nextProjectId == st.nextProjectId && r.0.nextMessageId == st.nextMessageId
  {
    var existed := GetProjectById(st, id).Some?;
    var projects := Filter(st.projects, ProjectIdIsNot(id));
    FilterUnique(st.projects, ProjectIdIsNot(id), ProjectId);
    assert forall i :: 0 <= i < |projects| ==> projects[i] in st.projects;
    FilterAbsentProject(st.projects, id);
    (st.(projects := projects), existed)
  }

  lemma FilterAbsentProject(s: seq<Project>, id: int)
    ensures !HasKey(s, ProjectId, id) ==> Filter(s, ProjectIdIsNot(id)) == s
  {
    if !HasKey(s, ProjectId, id) {
      FilterKeepsAll(s, ProjectIdIsNot(id));
    }
  }

  /** Deleting twice: the second call reports `false` and changes nothing. */
  lemma DeleteProjectTwice(st: Store, id: int)
    requires Valid(st)
    ensures var st1 := DeleteProject(st, id).0;
      DeleteProject(st1, id) == (st1, false)
      && GetProjectById(st1, id).None?
  {
  }

  // ------------------------------------------------------------- messages

  function MessageIdIsNot(id: int): Message -> bool {
    (m: Message) => m.id != id
  }

  function IsMessage(id: int): Message -> bool {
    (m: Message) => m.id == id
  }

  function MarkRead(m: Message): Message {
    m.(read := Some(true))
  }

  /** `getMessages`: every stored message exactly once, newest first. */
  function GetMessages(st: Store): (r: seq<Message>)
    ensures multiset(r) == multiset(st.messages)
    ensures SortedDesc(r, MessageCreated)
  {
    SortDesc(st.messages, MessageCreated)
  }

  /** `getMessageById`: the message with that id, or `None`. */
  function GetMessageById(st: Store, id: int): (r: Option<Message>)
    ensures r.Some? <==> exists i :: 0 <= i < |st.messages| && st.messages[i].id == id
    ensures r.Some? ==> r.value in st.messages && r.value.id == id
  {
    Find(st.messages, MessageId, id)
  }

  /** `createMessage`: appends exactly one unread row under a fresh id;
      the existing rows and the other tables are untouched. */
  function CreateMessage(st: Store, data: InsertMessage, now: int): (r: (Store, Message))
    requires Valid(st)
    ensures Valid(r.0)
    ensures r.0.messages == st.messages + [r.1]
    ensures r.0.users == st.users && r.0.projects == st.projects
    ensures r.1.id >= 1 && !HasKey(st.messages, MessageId, r.1.id)
    ensures r.1.read == Some(false) && r.1.createdAt == now
    ensures r.1.name == data.name && r.1.email == data.email
    ensures r.1.subject == data.subject && r.1.message == data.message
  {
    var m := NewMessage(data, st.nextMessageId, now);
    (st.(messages := st.messages + [m], nextMessageId := st.nextMessageId + 1), m)
  }

  /** Reading back a created message returns the row `createMessage`
      returned. */
  lemma CreateThenGetMessage(st: Store, data: InsertMessage, now: int)
    requires Valid(st)
    ensures var (st1, m) := CreateMessage(st, data, now);
      GetMessageById(st1, m.id) == Some(m) && m.read == Some(false)
  {
    var (st1, m) := CreateMessage(st, data, now);
    FindUnique(st1.messages, MessageId, |st1.messages| - 1);
  }

  /** `markMessageAsRead`: `true` iff the message exists; it then has
      `read = true` and every other column and row is unchanged. */
  function MarkMessageAsRead(st: Store, id: int): (r: (Store, bool))
    requires Valid(st)
    ensures Valid(r.0)
    ensures r.1 <==> HasKey(st.messages, MessageId, id)
    ensures !r.1 ==> r.0 == st
    ensures |r.0.messages| == |st.messages|
    ensures forall i :: 0 <= i < |st.messages| && st.messages[i].id != id ==> r.0.messages[i] == st.messages[i]
    ensures forall i :: 0 <= i < |st.messages| && st.messages[i].id == id ==>
      r.0.messages[i] == st.messages[i].(read := Some(true))
    ensures r.0.users == st.users && r.0.projects == st.projects
  {
    var messages := ReplaceWhere(st.messages, IsMessage(id), MarkRead);
    assert forall i :: 0 <= i < |messages| ==> messages[i].id == st.messages[i].id;
    assert !HasKey(st.messages, MessageId, id) ==> messages == st.messages;
    (st.(messages := messages), HasKey(st.messages, MessageId, id))
  }

  /** Marking twice: the second call reports `true` again and leaves the
      state the first call produced. */
  lemma MarkMessageAsReadIdempotent(st: Store, id: int)
    requires Valid(st)
    ensures var (st1, b1) := MarkMessageAsRead(st, id);
      MarkMessageAsRead(st1, id) == (st1, b1)
  {
    var (st1, b1) := MarkMessageAsRead(st, id);
    var (st2, b2) := MarkMessageAsRead(st1, id);
    if b1 {
      var k :| 0 <= k < |st.messages| && st.messages[k].id == id;
      assert st1.messages[k].id == id;
    }
    assert st2.messages == st1.messages;
  }

  lemma FilterAbsentMessage(s: seq<Message>, id: int)
    ensures !HasKey(s, MessageId, id) ==> Filter(s, MessageIdIsNot(id)) == s
  {
    if !HasKey(s, MessageId, id) {
      FilterKeepsAll(s, MessageIdIsNot(id));
    }
  }

  /** `deleteMessage`: `true` iff a row had the id. Afterwards no row has
      it, every other row is still there in the same order, and nothing
      else changed. */
  function DeleteMessage(st: Store, id: int): (r: (Store, bool))
    requires Valid(st)
    ensures Valid(r.0)
    ensures r.1 <==> HasKey(st.messages, MessageId, id)
    ensures !HasKey(r.0.messages, MessageId, id)
    ensures forall m :: m in r.0.messages <==> m in st.messages && m.id != id
    ensures IsSubsequence(r.0.messages, st.messages)
    ensures !r.1 ==> r.0 == st
    ensures r.0.users == st.users && r.0.projects == st.projects
    ensures r.0.nextProjectId == st.nextProjectId && r.0.nextMessageId == st.nextMessageId
  {
    var existed := GetMessageById(st, id).Some?;
    var messages := Filter(st.messages, MessageIdIsNot(id));
    FilterUnique(st.messages, MessageIdIsNot(id), MessageId);
    assert forall i :: 0 <= i < |messages| ==> messages[i] in st.messages;
    FilterAbsentMessage(st.messages, id);
    (st.(messages := messages), existed)
  }

  /** Deleting twice: the second call reports `false` and changes nothing. */
  lemma DeleteMessageTwice(st: Store, id: int)
    requires Valid(st)
    ensures var st1 := DeleteMessage(st, id).0;
      DeleteMessage(st1, id) == (st1, false)
      && GetMessageById(st1, id).None?
  {
  }
}
