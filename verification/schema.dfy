/** The three persisted record types (users, projects, messages), the shapes
    callers may insert, and how the store fills in what an insert leaves out.

    Nullable columns are `Option`s. The boolean columns `isAdmin`, `featured`
    and `read` are nullable with default `false`, so they are `Option<bool>`
    and the default is `Some(false)`. An input field that a caller may leave
    out is `Supplied<T>`: `Omitted` is the JavaScript `undefined`, which is not
    the same as supplying `null` (`Given(None)`). */
module Schema {
  import opened Wrappers

  /** A field of an insert or update payload: left out, or given a value. */
  datatype Supplied<T> = Omitted | Given(value: T) {

    /** The given value, or `fallback` when the field was left out. */
    function Or(fallback: T): (r: T)
      ensures Given? ==> r == value
      ensures Omitted? ==> r == fallback
    {
      if Given? then value else fallback
    }
  }

  /** A row of `users`. The id comes from the identity provider; a present
      email is unique among users. */
  datatype User = User(
    id: string,
    email: Option<string>,
    firstName: Option<string>,
    lastName: Option<string>,
    profileImageUrl: Option<string>,
    isAdmin: Option<bool>,
    createdAt: int,
    updatedAt: int)

  /** `UpsertUser`: the id is required, every other column may be left out. */
  datatype UpsertUser = UpsertUser(
    id: string,
    email: Supplied<Option<string>>,
    firstName: Supplied<Option<string>>,
    lastName: Supplied<Option<string>>,
    profileImageUrl: Supplied<Option<string>>,
    isAdmin: Supplied<Option<bool>>)

  /** A row of `projects`. Title, description, category and image URL are
      required; the three lists and the project URL may be null. */
  datatype Project = Project(
    id: int,
    title: string,
    description: string,
    category: string,
    imageUrl: string,
    technologies: Option<seq<string>>,
    challenges: Option<seq<string>>,
    solutions: Option<seq<string>>,
    projectUrl: Option<string>,
    featured: Option<bool>,
    createdAt: int,
    updatedAt: int)

  /** `InsertProject`: a project without `id`, `createdAt` and `updatedAt`,
      which the store assigns. A null list or URL is the same as leaving it
      out (no column default), so those fields are plain `Option`s; only
      `featured` has a default and distinguishes "left out" from "null". */
  datatype InsertProject = InsertProject(
    title: string,
    description: string,
    category: string,
    imageUrl: string,
    technologies: Option<seq<string>>,
    challenges: Option<seq<string>>,
    solutions: Option<seq<string>>,
    projectUrl: Option<string>,
    featured: Supplied<Option<bool>>)

  /** `Partial<InsertProject>`: any subset of the insertable columns. */
  datatype ProjectPatch = ProjectPatch(
    title: Supplied<string>,
    description: Supplied<string>,
    category: Supplied<string>,
    imageUrl: Supplied<string>,
    technologies: Supplied<Option<seq<string>>>,
    challenges: Supplied<Option<seq<string>>>,
    solutions: Supplied<Option<seq<string>>>,
    projectUrl: Supplied<Option<string>>,
    featured: Supplied<Option<bool>>)

  /** A row of `messages`. Every text column is required. */
  datatype Message = Message(
    id: int,
    name: string,
    email: string,
    subject: string,
    message: string,
    read: Option<bool>,
    createdAt: int)

  /** `InsertMessage`: no `id`, no `createdAt` and no `read` — a visitor
      cannot submit a message that is already read. */
  datatype InsertMessage = InsertMessage(
    name: string,
    email: string,
    subject: string,
    message: string)

  /** Key and timestamp accessors, for the generic table operations. */
  function UserId(u: User): string { u.id }
  function ProjectId(p: Project): int { p.id }
  function ProjectCreated(p: Project): int { p.createdAt }
  function MessageId(m: Message): int { m.id }
  function MessageCreated(m: Message): int { m.createdAt }

  /** `!message.read`: a message whose `read` is null or false is unread. */
  function IsUnread(m: Message): bool {
    m.read != Some(true)
  }

  /** The user row an upsert inserts when no row has its id: what was
      supplied, null for the rest, `isAdmin` false by default, both
      timestamps `now`. */
  function NewUser(u: UpsertUser, now: int): (r: User)
    ensures r.id == u.id
    ensures u.email.Given? ==> r.email == u.email.value
    ensures u.email.Omitted? ==> r.email.None?
    ensures u.firstName.Given? ==> r.firstName == u.firstName.value
    ensures u.firstName.Omitted? ==> r.firstName.None?
    ensures u.lastName.Given? ==> r.lastName == u.lastName.value
    ensures u.lastName.Omitted? ==> r.lastName.None?
    ensures u.profileImageUrl.Given? ==> r.profileImageUrl == u.profileImageUrl.value
    ensures u.profileImageUrl.Omitted? ==> r.profileImageUrl.None?
    ensures u.isAdmin.Given? ==> r.isAdmin == u.isAdmin.value
    ensures u.isAdmin.Omitted? ==> r.isAdmin == Some(false)
    ensures r.createdAt == now && r.updatedAt == now
  {
    User(u.id, u.email.Or(None), u.firstName.Or(None), u.lastName.Or(None),
         u.profileImageUrl.Or(None), u.isAdmin.Or(Some(false)), now, now)
  }

  /** The conflict branch of an upsert: supplied columns overwrite, the
      others keep their stored value, `updatedAt` is refreshed and the id and
      creation time stay. */
  function OverwriteUser(prev: User, u: UpsertUser, now: int): (r: User)
    requires prev.id == u.id
    ensures r.id == prev.id && r.createdAt == prev.createdAt && r.updatedAt == now
    ensures u.email.Given? ==> r.email == u.email.value
    ensures u.email.Omitted? ==> r.email == prev.email
    ensures u.firstName.Given? ==> r.firstName == u.firstName.value
    ensures u.firstName.Omitted? ==> r.firstName == prev.firstName
    ensures u.lastName.Given? ==> r.lastName == u.lastName.value
    ensures u.lastName.Omitted? ==> r.lastName == prev.lastName
    ensures u.profileImageUrl.Given? ==> r.profileImageUrl == u.profileImageUrl.value
    ensures u.profileImageUrl.Omitted? ==> r.profileImageUrl == prev.profileImageUrl
    ensures u.isAdmin.Given? ==> r.isAdmin == u.isAdmin.value
    ensures u.isAdmin.Omitted? ==> r.isAdmin == prev.isAdmin
  {
    prev.(email := u.email.Or(prev.email),
         firstName := u.firstName.Or(prev.firstName),
         lastName := u.lastName.Or(prev.lastName),
         profileImageUrl := u.profileImageUrl.Or(prev.profileImageUrl),
         isAdmin := u.isAdmin.Or(prev.isAdmin),
         updatedAt := now)
  }

  /** Every column of `data` appears unchanged in `p`; `featured` falls
      back to its default. */
  predicate CarriesInsert(p: Project, data: InsertProject) {
    && p.title == data.title
    && p.description == data.description
    && p.category == data.category
    && p.imageUrl == data.imageUrl
    && p.technologies == data.technologies
    && p.challenges == data.challenges
    && p.solutions == data.solutions
    && p.projectUrl == data.projectUrl
    && p.featured == data.featured.Or(Some(false))
  }

  /** The row `INSERT INTO projects` produces: the payload, the store's id
      and `now` for both timestamps. */
  function NewProject(data: InsertProject, id: int, now: int): (p: Project)
    ensures p.id == id && p.createdAt == now && p.updatedAt == now
    ensures CarriesInsert(p, data)
    ensures data.featured.Omitted? ==> p.featured == Some(false)
  {
    Project(id, data.title, data.description, data.category, data.imageUrl,
            data.technologies, data.challenges, data.solutions, data.projectUrl,
            data.featured.Or(Some(false)), now, now)
  }

  /** The patch that supplies nothing. */
  const NoChange := ProjectPatch(Omitted, Omitted, Omitted, Omitted, Omitted,
                                 Omitted, Omitted, Omitted, Omitted)

  /** `UPDATE projects SET ...patch, updatedAt = now`: supplied columns are
      overwritten, the rest keep their value, the id and creation time stay
      and `updatedAt` becomes `now`. */
  function ApplyPatch(p: Project, patch: ProjectPatch, now: int): (r: Project)
    ensures r.id == p.id && r.createdAt == p.createdAt && r.updatedAt == now
    ensures patch.title.Given? ==> r.title == patch.title.value
    ensures patch.title.Omitted? ==> r.title == p.title
    ensures patch.description.Given? ==> r.description == patch.description.value
    ensures patch.description.Omitted? ==> r.description == p.description
    ensures patch.category.Given? ==> r.category == patch.category.value
    ensures patch.category.Omitted? ==> r.category == p.category
    ensures patch.imageUrl.Given? ==> r.imageUrl == patch.imageUrl.value
    ensures patch.imageUrl.Omitted? ==> r.imageUrl == p.imageUrl
    ensures patch.technologies.Given? ==> r.technologies == patch.technologies.value
    ensures patch.technologies.Omitted? ==> r.technologies == p.technologies
    ensures patch.challenges.Given? ==> r.challenges == patch.challenges.value
    ensures patch.challenges.Omitted? ==> r.challenges == p.challenges
    ensures patch.solutions.Given? ==> r.solutions == patch.solutions.value
    ensures patch.solutions.Omitted? ==> r.solutions == p.solutions
    ensures patch.projectUrl.Given? ==> r.projectUrl == patch.projectUrl.value
    ensures patch.projectUrl.Omitted? ==> r.projectUrl == p.projectUrl
    ensures patch.featured.Given? ==> r.featured == patch.featured.value
    ensures patch.featured.Omitted? ==> r.featured == p.featured
  {
    p.(title := patch.title.Or(p.title),
       description := patch.description.Or(p.description),
       category := patch.category.Or(p.category),
       imageUrl := patch.imageUrl.Or(p.imageUrl),
       technologies := patch.technologies.Or(p.technologies),
       challenges := patch.challenges.Or(p.challenges),
       solutions := patch.solutions.Or(p.solutions),
       projectUrl := patch.projectUrl.Or(p.projectUrl),
       featured := patch.featured.Or(p.featured),
       updatedAt := now)
  }

  /** An empty patch only moves `updatedAt`. */
  lemma EmptyPatchTouchesOnlyUpdatedAt(p: Project, now: int)
    ensures ApplyPatch(p, NoChange, now) == p.(updatedAt := now)
  {
  }

  /** The row `INSERT INTO messages` produces: the payload, the store's id,
      `now`, and always unread. */
  function NewMessage(data: InsertMessage, id: int, now: int): (m: Message)
    ensures m.id == id && m.createdAt == now
    ensures m.name == data.name && m.email == data.email
    ensures m.subject == data.subject && m.message == data.message
    ensures m.read == Some(false)
  {
    Message(id, data.name, data.email, data.subject, data.message, Some(false), now)
  }
}
