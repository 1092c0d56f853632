# L-VS portfolio — a Dafny model of its core

L-VS is a personal portfolio site with an admin area. Its server keeps three
tables in PostgreSQL: users, projects and contact messages. Its React client
has a public project grid and a protected admin area for projects and messages.
It also has a hidden CMS, opened by typing `lvs` and passing a hard-coded login,
and small widgets for theme, accessibility and language.

This project models that core as pure Dafny values and transitions:

- **Store.** The storage layer is an immutable `Store`: one sequence per table
  and serial counters for the ids. Every database operation is a function
  that returns the new store and the result. The clock is a parameter (`now`).
- **Admin forms.** The admin project form is modelled as its comma-list text
  codec, its initial values and its submit transform.
- **Project grid.** The grid is its case-insensitive category filter.
- **Secret CMS.** The hidden CMS is its in-memory project list (add, edit,
  delete, save, the featured count). Also modelled:
  - the `hexToRgb` colour conversion;
  - the technologies text field;
  - the `admin-auth` session flag, together with the key-sequence listener and
    the login form that write it.
- **Admin pages.** Each admin page is a state machine. A user action is an
  event. An event returns the next state and the network request it sends,
  if any. Each request's outcome comes back as its own event.
- **Widgets.** The theme toggle, the accessibility menu and the language
  selector are modelled as their state plus the effect that mirrors it into
  storage and the document's classes. Local storage, session storage, the
  hour of day and the i18n library's current tag are inputs or fields.

Module layout:

| module | file | models |
|---|---|---|
| `Wrappers` | wrappers.dfy | `Option`, `Result` |
| `Text` | text.dfy | `trim`, `split`, `join`, `toLowerCase`, `toUpperCase`, `substring(0, n)` on ASCII |
| `Tables` | tables.dfy | generic row-sequence helpers: find, filter, count, replace, newest-first sort |
| `Schema` | schema.dfy | the rows and insert shapes of `shared/schema.ts` |
| `Storage` | storage.dfy | `DatabaseStorage` in `storage.ts` |
| `ProjectForm` | project_form.dfy | `ProjectForm.tsx` |
| `ProjectGrid` | project_grid.dfy | `ProjectGrid.tsx` |
| `SuperAdmin` | super_admin.dfy | `SuperAdminDashboard.tsx` |
| `SecretKeys` | secret_keys.dfy | `SecretKeyHandler.tsx` |
| `SecretAdmin` | secret_admin.dfy | `SecretAdmin.tsx` |
| `Accessibility` | accessibility.dfy | `AccessibilityMenu.tsx` |
| `ThemeToggle` | theme_toggle.dfy | `ThemeToggle.tsx` |
| `LanguageSelector` | language_selector.dfy | `LanguageSelector.tsx` |
| `AdminDashboard` | admin_dashboard.dfy | `AdminDashboard.tsx` |
| `ProjectManager` | project_manager.dfy | `ProjectManager.tsx` |
| `MessagesManager` | messages_manager.dfy | `MessagesManager.tsx` |

## Model

| member | source | states |
|---|---|---|
| Schema.NewUser | shared/schema.ts:26-35 | A new user row carries what was supplied, null for every omitted column, `isAdmin` false when omitted, and `now` as both timestamps. |
| Schema.OverwriteUser | storage.ts:44-57 | On an id conflict the supplied columns overwrite the stored row, omitted ones keep their stored value, the id and `createdAt` stay, and `updatedAt` becomes `now`. |
| Schema.NewProject | shared/schema.ts:38-50 | An inserted project carries every column of the payload unchanged, the serial id and `now` for both timestamps, with `featured` defaulting to false. |
| Schema.ApplyPatch | storage.ts:85-95 | A partial update overwrites exactly the supplied columns, keeps the others, and keeps the id and `createdAt`, with `updatedAt` set to `now`. |
| Schema.EmptyPatchTouchesOnlyUpdatedAt | storage.ts:85-95 | An update that supplies no column changes only `updatedAt`. |
| Schema.NewMessage | shared/schema.ts:71-75 | A stored message carries the four visitor fields, the serial id and `now`, and is always unread, because the insert schema omits `read`. |
| Storage.Empty | shared/schema.ts:38-62 | A fresh database has empty tables and satisfies the store invariant: unique ids, unique non-null emails, counters beyond every id. |
| Storage.GetUser | storage.ts:39-42 | Returns a user with that id if and only if one is stored. |
| Storage.UpsertUser | storage.ts:44-57 | Insert-or-overwrite keeps the store valid. Afterwards exactly one row has the id and it is the returned row. Other users and the other tables are untouched. It fails, changing nothing, exactly when the resulting email belongs to another user (the unique constraint of shared/schema.ts:28). |
| Storage.ReplaceKeepsUsersValid | storage.ts:48-55 | The conflict branch keeps ids and emails unique and keeps every other user row. |
| Storage.UpsertTwiceKeepsOneRow | storage.ts:44-57 | Two upserts of the same id leave one row for it, carrying the second call's email when one was supplied. |
| Storage.GetProjects | storage.ts:60-62 | Every stored project exactly once (a permutation), newest `createdAt` first. |
| Storage.GetProjectsByCategory | storage.ts:64-70 | Exactly the projects whose category equals the argument, case-sensitively and each once, newest first. |
| Storage.CategoryListingMatchesFullListing | storage.ts:60-70 | The category listing and the full listing filtered by category hold the same rows with the same multiplicities. |
| Storage.FilterPermutation | storage.ts:64-70 | Filtering two permutations of a table yields permutations of each other. |
| Storage.GetProjectById | storage.ts:72-75 | Returns a project with that id if and only if one is stored; absence is `None`, not an error. |
| Storage.CreateProject | storage.ts:77-83 | Appends exactly one row under an id no row had, carrying the payload and `now`. Every other row and table is untouched. |
| Storage.CreateThenGetProject | storage.ts:72-83 | Reading back a created project by its id returns the row `createProject` returned. |
| Storage.UpdateProject | storage.ts:85-95 | A missing id gives `None` and no change. Otherwise that one row is patched in place, every other row keeps its position and value, and the patched row is returned. |
| Storage.UpdateThenGetProject | storage.ts:72-95 | After a successful update, reading the project back returns the returned row. |
| Storage.DeleteProject | storage.ts:97-103 | Returns true if and only if a row had the id. Afterwards none has it, the others keep their order, and nothing else changes. |
| Storage.DeleteProjectTwice | storage.ts:97-103 | A second delete of the same id reports false and changes nothing. |
| Storage.GetMessages | storage.ts:106-108 | Every stored message exactly once, newest first. |
| Storage.GetMessageById | storage.ts:110-113 | Returns a message with that id if and only if one is stored. |
| Storage.CreateMessage | storage.ts:115-121 | Appends exactly one unread message under a fresh id. Every other row and table is untouched. |
| Storage.CreateThenGetMessage | storage.ts:110-121 | Reading back a created message returns the row `createMessage` returned, unread. |
| Storage.MarkMessageAsRead | storage.ts:123-130 | Returns true if and only if the message exists. It then has `read = true` and every other column and row is unchanged; otherwise nothing changes. |
| Storage.MarkMessageAsReadIdempotent | storage.ts:123-130 | Marking the same message twice gives the state and answer of marking it once. |
| Storage.DeleteMessage | storage.ts:132-138 | Returns true if and only if a row had the id. Afterwards none has it, the other messages keep their order, and nothing else changes. |
| Storage.DeleteMessageTwice | storage.ts:132-138 | A second delete of the same id reports false and changes nothing. |
| ProjectForm.StringToArray | client/src/components/ProjectForm.tsx:29-31 | The parsed list never holds an empty, untrimmed or comma-containing entry. Text made only of commas and blanks gives `[]`. |
| ProjectForm.ArrayToString | client/src/components/ProjectForm.tsx:33-35 | An absent list shows as `""`; a one-entry list shows as that entry. |
| ProjectForm.RoundTrip | client/src/components/ProjectForm.tsx:29-35 | A clean list written with `arrayToString` and parsed with `stringToArray` is the same list. |
| ProjectForm.NormaliseIdempotent | client/src/components/ProjectForm.tsx:29-35 | Parsing, writing back and parsing again gives what the first parse gave. |
| ProjectForm.TrimmedPiecesOfJoin | client/src/components/ProjectForm.tsx:29-35 | Splitting a `", "`-joined list of trimmed comma-free entries on commas and trimming gives the list back, empty entries included. |
| ProjectForm.DefaultValues | client/src/components/ProjectForm.tsx:59-81 | A new project starts empty, in category `web` and not featured. An existing one shows its columns, its lists as comma text and a null URL as `""`. |
| ProjectForm.HandleSubmit | client/src/components/ProjectForm.tsx:88-98 | Only the three list fields change: each becomes its clean parsed list. Every other field passes through. |
| ProjectForm.EditWithoutChangesResubmits | client/src/components/ProjectForm.tsx:59-98 | Opening a project and submitting without edits sends its clean lists back unchanged, a null list as `[]` and a null URL as `""`. |
| ProjectGrid.FilterProjects | client/src/components/ProjectGrid.tsx:20-25 | No data gives `[]`. Exactly `all` gives the list unchanged. Any other filter keeps, in order, exactly the projects whose category equals it ignoring case. |
| ProjectGrid.FilterProjectsIdempotent | client/src/components/ProjectGrid.tsx:20-25 | Filtering the filtered list again changes nothing. |
| ProjectGrid.FilterIgnoresCase | client/src/components/ProjectGrid.tsx:20-25 | Two filters that differ only in letter case select the same projects, except for the literal `all`. |
| ProjectGrid.UpperCaseAllIsACategory | client/src/components/ProjectGrid.tsx:22-24 | `ALL` is compared as a category, so it selects nothing from `web` projects while `all` selects them all. |
| ProjectGrid.ServerCategoryPassesGridFilter | storage.ts:64-70 | Every project the server lists under a category passes the grid's filter for that category. |
| ProjectGrid.ExactlyOneButtonActive | client/src/components/ProjectGrid.tsx:38-64 | The initial filter is one of the buttons, and any button's value marks exactly one button active. |
| SuperAdmin.HexDigits | client/src/pages/SuperAdminDashboard.tsx:138 | A valid colour with its `#` loses exactly that first character; one without a `#` is unchanged. Either way six hex digits remain. |
| SuperAdmin.RemoveFirst | client/src/pages/SuperAdminDashboard.tsx:138 | A string pattern in `replace` removes only the first occurrence: text without it is unchanged, and a leading one is dropped. |
| SuperAdmin.HexPairOfToHex2 | client/src/pages/SuperAdminDashboard.tsx:141-143 | Reading two hex digits in base 16 inverts writing a byte as two hex digits. |
| SuperAdmin.DecimalRoundTrip | client/src/pages/SuperAdminDashboard.tsx:145 | A channel printed in decimal reads back as the same number. |
| SuperAdmin.HexToRgb | client/src/pages/SuperAdminDashboard.tsx:136-146 | The output splits on spaces into exactly three decimal numbers, each the base-16 value of its digit pair and so below 256. |
| SuperAdmin.HashIsOptional | client/src/pages/SuperAdminDashboard.tsx:136-146 | A colour converts the same with or without its leading `#`. |
| SuperAdmin.ThemeColoursAreValid | client/src/pages/SuperAdminDashboard.tsx:82-87 | Every colour of the four built-in themes is a valid `#RRGGBB`, so the preview never feeds `hexToRgb` anything else. |
| SuperAdmin.DarkModeAccentExample | client/src/pages/SuperAdminDashboard.tsx:84 | The Dark Mode accent `#bb86fc` converts to `187 134 252`. |
| SuperAdmin.FeaturedCount | client/src/pages/SuperAdminDashboard.tsx:301 | The featured card never exceeds the total card. It is 0 exactly when no project is featured and the total exactly when all are. |
| SuperAdmin.FeaturedCountAppend | client/src/pages/SuperAdminDashboard.tsx:301 | Appending a project raises the featured count by one exactly when it is featured. |
| SuperAdmin.InitialListFacts | client/src/pages/SuperAdminDashboard.tsx:51-79 | The sample list has three projects with distinct ids, two of them featured. |
| SuperAdmin.NewDraft | client/src/pages/SuperAdminDashboard.tsx:149-157 | A new draft is empty, in category `web`, not featured and without technologies. |
| SuperAdmin.HandleAddProject | client/src/pages/SuperAdminDashboard.tsx:148-158 | Adding opens a fresh draft and leaves the list alone. |
| SuperAdmin.HandleEditProject | client/src/pages/SuperAdminDashboard.tsx:160-162 | Editing opens a copy of the project as the draft and leaves the list alone. |
| SuperAdmin.CancelEdit | client/src/pages/SuperAdminDashboard.tsx:411 | Cancelling drops the draft and keeps the list. |
| SuperAdmin.HandleDeleteProject | client/src/pages/SuperAdminDashboard.tsx:164-166 | Every project with the id goes and the others stay in order. Distinct ids stay distinct and the draft is untouched. |
| SuperAdmin.HandleSaveProject | client/src/pages/SuperAdminDashboard.tsx:168-178 | Without a draft nothing happens. A project already under the draft's id is replaced in place; otherwise the draft is appended. The draft is cleared and ids stay distinct. |
| SuperAdmin.SaveThenFind | client/src/pages/SuperAdminDashboard.tsx:168-178 | After saving, the draft is the project the list holds under its id. |
| SuperAdmin.EditThenSaveUnchanged | client/src/pages/SuperAdminDashboard.tsx:160-178 | Opening a listed project and saving it unedited leaves the list as it was. |
| SuperAdmin.SaveNewDraftCount | client/src/pages/SuperAdminDashboard.tsx:168-178 | Saving a new draft raises the featured count by one exactly when the draft is featured. |
| SuperAdmin.ParseTechnologies | client/src/pages/SuperAdminDashboard.tsx:396 | Typing into the technologies field stores one trimmed, comma-free entry per comma-separated piece, empty ones included. |
| SuperAdmin.TechnologiesRoundTrip | client/src/pages/SuperAdminDashboard.tsx:393-397 | A non-empty list of trimmed comma-free entries survives being shown and typed back. |
| SuperAdmin.ParsersDifferOnBlanks | client/src/pages/SuperAdminDashboard.tsx:396 | An emptied technologies field stores `[""]`. The admin form's parser (client/src/components/ProjectForm.tsx:29-31) is this one with the empty entries dropped. |
| SuperAdmin.RedirectOnMount | client/src/pages/SuperAdminDashboard.tsx:102-107 | The dashboard sends the user home unless the session flag is exactly `"true"`. |
| SuperAdmin.Logout | client/src/pages/SuperAdminDashboard.tsx:191-194 | Logging out removes the flag and goes home. The flag then passes neither the redirect check nor the render guard. |
| SuperAdmin.GuardsDiffer | client/src/pages/SuperAdminDashboard.tsx:102-199 | An authorized flag always renders, but a non-empty flag other than `"true"` passes the render guard while being redirected. |
| SecretKeys.LastN | client/src/components/SecretKeyHandler.tsx:19-21 | The window keeps the last three entries, or all of them when there are fewer. |
| SecretKeys.Press | client/src/components/SecretKeyHandler.tsx:14-30 | A key press appends the lower-cased key and keeps at most the last three. It navigates to `/lvs-secret-access` exactly when the joined window spells `lvs`. |
| SecretKeys.RunIsLastThree | client/src/components/SecretKeyHandler.tsx:14-30 | After any run of presses, the window is exactly the last three keys, lower-cased and in order. |
| SecretKeys.FiresIffLastThreeSpell | client/src/components/SecretKeyHandler.tsx:14-30 | A press navigates exactly when the last three keys, lower-cased and joined, spell `lvs`. |
| SecretKeys.OlderKeysIrrelevant | client/src/components/SecretKeyHandler.tsx:19-24 | Keys typed before the last three change neither the window nor whether the last press navigates. |
| SecretKeys.MatchKeepsWindow | client/src/components/SecretKeyHandler.tsx:24-29 | A match does not clear the window: typing the code navigates whatever came before and leaves exactly the code in the window. |
| SecretKeys.SingleCharacterKeys | client/src/components/SecretKeyHandler.tsx:14-30 | For one-character keys, the page opens exactly when the last three keys are l, v and s in either letter case. |
| SecretAdmin.Submit | client/src/components/SecretAdmin.tsx:32-45 | The login succeeds exactly when both fields equal the constants, case-sensitively. Success stores `"true"` and navigates to the dashboard. Failure shows the error and shakes, storing nothing. |
| SecretAdmin.ShakeEnds | client/src/components/SecretAdmin.tsx:43 | The shake timer's expiry stops the animation and changes nothing else. |
| SecretAdmin.LoginOpensDashboard | client/src/components/SecretAdmin.tsx:35-39 | A successful login writes exactly what the dashboard's redirect check and render guard accept, and logging out revokes it. |
| SecretAdmin.FailureKeepsAuthorization | client/src/components/SecretAdmin.tsx:40-44 | A failed login neither grants nor revokes dashboard access. |
| SecretAdmin.UsernameIsCaseSensitive | client/src/components/SecretAdmin.tsx:12-35 | With the right password, any username that differs from the secret one only in letter case is rejected with the error message. |
| Accessibility.Toggle | client/src/components/AccessibilityMenu.tsx:71-76 | Toggling flips the one flag and leaves the other two. |
| Accessibility.ToggleTwice | client/src/components/AccessibilityMenu.tsx:71-76 | Toggling the same flag twice restores the options. |
| Accessibility.Reset | client/src/components/AccessibilityMenu.tsx:79-81 | Reset turns all three flags off. |
| Accessibility.ResetButtonIffSomeFlag | client/src/components/AccessibilityMenu.tsx:138 | The reset button shows exactly when some flag is on, and never right after a reset. |
| Accessibility.ApplyClasses | client/src/components/AccessibilityMenu.tsx:45-67 | Each managed class is on the root element exactly when its flag is on. Every other class is untouched. |
| Accessibility.Commit | client/src/components/AccessibilityMenu.tsx:41-68 | After the effect, storage holds the current flags and the classes mirror them. |
| Accessibility.Mount | client/src/components/AccessibilityMenu.tsx:21-38 | Mounting uses the stored flags when there are any and the all-off defaults otherwise, then settles consistently. |
| Accessibility.ToggleEvent | client/src/components/AccessibilityMenu.tsx:41-76 | A toggle through the menu settles with storage and classes matching the toggled flags. |
| Accessibility.ResetEvent | client/src/components/AccessibilityMenu.tsx:41-81 | A reset through the menu stores and applies the defaults. |
| Accessibility.ToggleEventTwice | client/src/components/AccessibilityMenu.tsx:41-76 | Toggling a flag twice through the menu restores the flags, the stored preference and the managed classes. |
| Accessibility.ReloadRestores | client/src/components/AccessibilityMenu.tsx:33-43 | Reloading the page restores the flags that were stored. |
| ThemeToggle.InitialDark | client/src/components/ThemeToggle.tsx:10-28 | A non-empty stored theme decides alone (`dark` is dark). Otherwise it is dark at night, from 19:00 to 06:59. |
| ThemeToggle.DayBoundaries | client/src/components/ThemeToggle.tsx:18-19 | Without a preference, 07:00-18:59 is light and every other hour is dark. |
| ThemeToggle.Stored | client/src/components/ThemeToggle.tsx:31-39 | The stored value is `dark` exactly for dark mode, and is never empty. |
| ThemeToggle.Persist | client/src/components/ThemeToggle.tsx:31-39 | The effect stores the flag and sets the dark-mode class exactly when dark. |
| ThemeToggle.Mount | client/src/components/ThemeToggle.tsx:10-39 | Mounting settles on the initial decision, stored and applied. |
| ThemeToggle.Toggle | client/src/components/ThemeToggle.tsx:41-43 | Toggling flips the mode and settles consistently. |
| ThemeToggle.ToggleTwice | client/src/components/ThemeToggle.tsx:41-43 | Two toggles restore a settled state. |
| ThemeToggle.ReloadKeepsTheme | client/src/components/ThemeToggle.tsx:10-39 | After a reload at any hour the stored choice is restored. |
| LanguageSelector.DisplayCode | client/src/components/LanguageSelector.tsx:15 | The button shows the first two characters of the tag upper-cased, or the whole tag when it is shorter. |
| LanguageSelector.Sync | client/src/components/LanguageSelector.tsx:29-31 | The effect shows the display code of the library's current tag. |
| LanguageSelector.Select | client/src/components/LanguageSelector.tsx:24-27 | Choosing a language switches to its code and shows that code upper-cased, at most two characters long. |
| LanguageSelector.SelectThenSyncAgree | client/src/components/LanguageSelector.tsx:24-31 | The effect re-reading the library right after a change shows the same code. |
| LanguageSelector.RegionalTagShowsBase | client/src/components/LanguageSelector.tsx:15 | A regional tag such as `fr-CA` shows the same code as its base `fr`. |
| LanguageSelector.OfferedCodesDistinct | client/src/components/LanguageSelector.tsx:17-22 | The four offered languages show four different codes. |
| LanguageSelector.SelectMarksExactlyOne | client/src/components/LanguageSelector.tsx:42-50 | Right after choosing an item, that item and no other carries the marker. |
| LanguageSelector.RegionalStartMarksBase | client/src/components/LanguageSelector.tsx:15-49 | Starting in a regional variant of an offered language marks that language. |
| AdminDashboard.UnreadCount | client/src/pages/AdminDashboard.tsx:40 | With no data the count is 0. Otherwise it is at most the number of messages, 0 exactly when all are read, and the total exactly when none is read. |
| AdminDashboard.ProjectCount | client/src/pages/AdminDashboard.tsx:71 | The project card shows the list's length, or 0 with no data. |
| AdminDashboard.ProjectLabel | client/src/pages/AdminDashboard.tsx:73 | The label is singular exactly for one project; no data reads as plural. |
| AdminDashboard.UnreadLabel | client/src/pages/AdminDashboard.tsx:88 | The label is singular exactly for one unread message. |
| AdminDashboard.Render | client/src/pages/AdminDashboard.tsx:25-40 | The page shows a full-page spinner exactly while the session loads, and redirects to login exactly when there is no session. The counters appear exactly when signed in and nothing is loading. |
| AdminDashboard.MarkReadLowersUnread | storage.ts:123-130 | Marking a message read in the store lowers the unread counter (client/src/pages/AdminDashboard.tsx:40) by one if it was unread, and otherwise leaves it alone. |
| ProjectManager.Step | client/src/pages/ProjectManager.tsx:56-283 | Each handler and mutation outcome moves the page as the source does. Submit sends a create from the add form and an update of the selected id from the edit form, and nothing otherwise. Confirm sends a delete exactly when a project is pending and always closes the dialog. Only a successful save closes the form. |
| ProjectManager.StepKeepsInv | client/src/pages/ProjectManager.tsx:136-167 | Every event keeps "an edit form has its project, an add form has none". |
| ProjectManager.SubmitOpenFormSends | client/src/pages/ProjectManager.tsx:161-167 | On a reachable page, submitting an open form always sends a request, so the selection guard never drops a submit. |
| ProjectManager.DeleteFlow | client/src/pages/ProjectManager.tsx:99-283 | Choosing delete only opens the dialog. Confirming deletes exactly that project and closes the dialog. It stays closed whatever the outcome, and a second confirm sends nothing. |
| ProjectManager.SaveClosesForm | client/src/pages/ProjectManager.tsx:56-181 | A successful save from either form returns to the list, with the add button showing and nothing submitting. |
| ProjectManager.FailedSaveKeepsForm | client/src/pages/ProjectManager.tsx:56-97 | A failed save keeps the form open on the same project. |
| MessagesManager.Step | client/src/pages/MessagesManager.tsx:37-162 | Marking sends a request exactly for an unread message. Choosing delete only records the message. Confirm deletes exactly the pending message, or nothing, and clears it. Dismissal clears it. A successful delete clears the pending message and a failed one leaves it as it is. |
| MessagesManager.DeleteNeedsConfirmation | client/src/pages/MessagesManager.tsx:99-147 | Nothing is deleted until the dialog is confirmed. Confirming deletes the chosen message, and dismissing sends nothing and closes the dialog. |
| MessagesManager.DeleteOutcome | client/src/pages/MessagesManager.tsx:57-162 | Confirming sends the delete of the pending message and closes the dialog. It stays closed whatever the outcome, and a second confirm sends nothing, so a retry means choosing the message again. |
| MessagesManager.MarkReadOnce | client/src/pages/MessagesManager.tsx:93-97 | Once the store has marked a message read (storage.ts:123-130), clicking its refreshed copy sends nothing. |

## Left out

- Database I/O is not modelled: Drizzle, PostgreSQL, sessions, Replit authentication and the Express routes. The store is a value, and the clock reading the database uses for `defaultNow()` is a parameter.
- Storage.GetProjects: rows with equal `createdAt` are not given a particular order, because the source's `ORDER BY` leaves ties to the database.
- Storage.UpsertUser: caller-supplied `createdAt`/`updatedAt` in the upsert payload are ignored; the store always stamps `now`.
- Ids come from per-table serial counters starting at 1. The CMS list's `Date.now()` ids are a parameter of `SuperAdmin.HandleAddProject`.
- Text: only ASCII blanks count as whitespace for `trim`, and only A–Z/a–z change case. Unicode whitespace and case mapping are left out.
- SuperAdmin.HexToRgb: defined only on valid `#RRGGBB`/`RRGGBB` input. The source never receives anything else from the built-in themes. The `NaN` output `parseInt` gives for other text is not modelled.
- SuperAdmin: a `technologies` value that is not an array shows as `""` in the source. The model's CMS projects always carry a list.
- JSON parsing of local storage is not modelled. `Accessibility.Mount` takes the already-parsed options, or `None` for a missing or empty entry; malformed JSON, which throws in the source, is left out.
- The mount effects' interim writes are not modelled. On mount, `ThemeToggle` first stores the initial `light` state and `AccessibilityMenu` first stores the defaults, each before the loaded value replaces it. The model states the settled result of the two effects.
- SecretKeys: multi-character `event.key` values (such as `Shift`) enter the window as whole strings, as in the source. `SingleCharacterKeys` covers one-character keys only. A key like `lv` could also complete the spelling, and no lemma enumerates that case.
- Translations (`t(...)`), toasts, animations, query caching and invalidation, and all rendering beyond the values that decide what is shown are left out.
- The mutation-pending flags of the messages page are not modelled, because that page never reads them.
- The hidden CMS's save, delete and theme choice stay in component state. Nothing reaches the store, so nothing relates them to `Storage`.
- The window listener's registration and removal are left out, along with the timer behind `SecretAdmin.ShakeEnds`, which appears as its own event.
