# NotesHub core, modelled in Dafny

NotesHub is a student productivity application: a REST server keeps notes
(with tags) and lecture recordings for each user, and a single-page client
holds the signed-in user in a small store and derives the lists its pages
show. This project models the decision logic of that core and proves what
it promises.

- **Note handlers** (`notes.dfy`, module `NotesController`). The note table is
  a `map` from id to row inside the class `NoteDb`, beside a tag table (a
  `seq` of names, where a tag's id is its position) and the next id to issue.
  Listing and lookup are functions. Create, update and delete are methods that
  change the tables in place. The `for (const tagName of tags)` loop is a
  `while` loop that finds or creates one tag per turn and connects it to the
  note. It is proved against the functions `AddNames` (the tag table after
  the loop) and `Connected` (the tags connected). Lemmas prove that every
  given name ends up with a tag of that name attached, that every attached
  tag carries a given name, and that no tag is created for a name already in
  the table.
- **Lecture-recording handlers** (`lectures.dfy`, module `LecturesController`):
  the same structure over one table, with owner-only visibility, a
  two-key sort order and the update merge as the pure function `MergeLecture`.
- **Authentication store** (`auth_store.dfy`, module `AuthStore`): a class with
  the fields `user`, `isAuthenticated`, `isLoading` and `error`. Each action is
  a method that sets them step by step, with the invariant that the store is
  never authenticated without a user.
- **Dashboard and notes-page derivations** (`dashboard.dfy`, `notes_page.dfy`,
  `client_records.dfy`): the week's upcoming tasks, the three most recent
  notes and lectures, the case-insensitive search, the 100-character preview
  and the empty-state hint, all as pure functions.
- **Shared pieces**: `js.dfy` (JavaScript truthiness, `||` on strings,
  ASCII `toLowerCase`, `includes`), `seqs.dfy` (`filter`, a stable sort,
  `slice(0, k)`, top-k), `tables.dfy` (rows of a keyed table, the HTTP
  `Response` datatype).

The ORM is replaced by its effect on the in-memory tables. Whatever a handler
cannot compute itself is a parameter: the request time `now`, the date
parser `parseDate` standing for `new Date(...)`, the service outcomes of the
store's actions, and the token check of `checkAuth`. Every note and lecture
route except the public listing sits behind the authentication middleware, so
the requester is always a plain user id.

## Model

| member | source | states |
|---|---|---|
| NotesController.NoteDb.GetNotes | server/src/controllers/notes.ts:7-17 | exactly the requester's rows, each once, ordered by `updatedAt` descending |
| NotesController.NoteDb.GetPublicNotes | server/src/controllers/notes.ts:29-45 | exactly the rows with `isPublic` true, whoever owns them, each once, never a private one, ordered by `updatedAt` descending |
| NotesController.NoteDb.GetNoteById | server/src/controllers/notes.ts:59-77 | 404 iff the id is absent; otherwise 403 iff the requester is neither owner nor the note public; otherwise 200 with the row |
| NotesController.MergeNote | server/src/controllers/notes.ts:185-187 | a falsy title or content keeps the old one; `isPublic` keeps the old value only when absent, so an explicit `false` applies; id, owner, creation time and tags are kept; the update time is the request's |
| NotesController.MergeNoteEmptyBody | server/src/controllers/notes.ts:185-187 | an update with no fields changes nothing but the update time |
| NotesController.MergeNoteIdempotent | server/src/controllers/notes.ts:185-187 | applying the same update twice equals applying it once |
| NotesController.IndexOf | server/src/controllers/notes.ts:108-112 | `findFirst` by name gives the earliest tag with that name |
| NotesController.IndexOfPrefix | server/src/controllers/notes.ts:108-121 | creating tags never changes which tag `findFirst` returns for a name already present |
| NotesController.FindOrCreate | server/src/controllers/notes.ts:108-121 | a present name reuses its tag and leaves the table alone; a missing one is appended; either way the id is that of the first tag with the name |
| NotesController.AddNames | server/src/controllers/notes.ts:106-121 | the tag table after the loop extends the old one and contains every given name |
| NotesController.AddNamesCreatesOnlyMissing | server/src/controllers/notes.ts:106-121 | every tag created carries a given name that was not yet in the table, so a duplicate-free tag table stays duplicate-free |
| NotesController.ConnectedNames | server/src/controllers/notes.ts:106-135 | every connected tag carries a given name, and every given name has its (first) tag connected |
| NotesController.NoteDb.FindOrCreateTag | server/src/controllers/notes.ts:108-121 | one turn of the loop changes the tag table exactly as `FindOrCreate` says |
| NotesController.NoteDb.ConnectTag | server/src/controllers/notes.ts:123-133 | `connect` adds one tag to one note's tag set and changes no other row |
| NotesController.NoteDb.AttachTags | server/src/controllers/notes.ts:106-135 | the loop leaves the tag table as `AddNames` says and adds exactly the `Connected` tags to that note only |
| NotesController.TagsAttached | server/src/controllers/notes.ts:104-135 | after the loop, every given name has a tag of that name among the connected ones, every connected tag carries a given name, and a duplicate-free tag table stays duplicate-free |
| NotesController.NoteDb.InsertNote | server/src/controllers/notes.ts:94-136 | a new row under the next id, with no other row changed, owned by the requester, with the tag table as `AddNames` says and exactly the `Connected` tags |
| NotesController.NoteDb.CreateNote | server/src/controllers/notes.ts:85-151 | 400 iff title or content is falsy, and then no table changes; otherwise a new row owned by the requester, `isPublic` false unless `true` is given, every given name attached and only given names attached, a duplicate-free tag table kept duplicate-free, and the row readable by its owner afterwards |
| NotesController.NoteDb.ApplyUpdate | server/src/controllers/notes.ts:179-236 | the row becomes `MergeNote` of the old row, its tags replaced by exactly the `Connected` tags only for a non-empty list; no other row changes and no id is issued |
| NotesController.NoteDb.UpdateNote | server/src/controllers/notes.ts:159-251 | 404 for a missing id, then 403 for a non-owner, both leaving notes and tags unchanged; 200 iff the note exists and the requester owns it, with the merged row, tags replaced only for a non-empty list, with the list's names exactly attached |
| NotesController.NoteDb.DeleteNote | server/src/controllers/notes.ts:259-285 | 404, then 403, both leaving the table unchanged; the owner's delete removes exactly that row; tags untouched |
| NotesController.DeleteTwice | server/src/controllers/notes.ts:270-285 | after a successful delete the same delete answers 404 |
| LecturesController.RecentFirstIsPreorder | server/src/controllers/lectures.ts:11-18 | the two-key order (recording time, then creation time, both descending) is a valid sort order |
| LecturesController.LectureDb.GetLectureRecordings | server/src/controllers/lectures.ts:7-19 | exactly the requester's rows, each once, ordered by `recordedAt` descending with `createdAt` descending among equals |
| LecturesController.LectureDb.GetLectureRecordingsByModule | server/src/controllers/lectures.ts:33-41 | exactly the rows that are the requester's and whose module is the one named, ordered by `recordedAt` descending |
| LecturesController.LectureDb.GetLectureRecordingById | server/src/controllers/lectures.ts:55-70 | 404 iff absent; otherwise 403 iff the requester is not the owner (no public exception); otherwise the row |
| LecturesController.StoredDescription | server/src/controllers/lectures.ts:95 | a description is stored iff one is given, as given, the empty string included |
| LecturesController.MergeLecture | server/src/controllers/lectures.ts:138-142 | module, title and URL keep their old values when falsy; the recording time keeps its old value when falsy and is otherwise the parsed date; the description keeps its old value only when absent, so `null` clears it and `""` overwrites it |
| LecturesController.MergeLectureEmptyBody | server/src/controllers/lectures.ts:138-142 | an update with no fields leaves the row as it was |
| LecturesController.MergeLectureIdempotent | server/src/controllers/lectures.ts:138-142 | applying the same update twice equals applying it once |
| LecturesController.EmptyDescriptionOverwrites | server/src/controllers/lectures.ts:139-141 | an empty description overwrites the old one while an empty title does not |
| LecturesController.LectureDb.CreateLectureRecording | server/src/controllers/lectures.ts:80-104 | 400 iff any of module name, title, recording URL or recorded date is falsy, with no write; otherwise a new row owned by the requester with the given fields, an optional description, and the row readable afterwards |
| LecturesController.LectureDb.UpdateLectureRecording | server/src/controllers/lectures.ts:114-149 | 404, then 403, both leaving the table unchanged; 200 iff the row exists and the requester owns it, and then the row becomes `MergeLecture` of the old row and no other row changes |
| LecturesController.LectureDb.DeleteLectureRecording | server/src/controllers/lectures.ts:159-183 | 404, then 403, both leaving the table unchanged; the owner's delete removes exactly that row, and it is gone afterwards |
| AuthStore.Store.constructor | client/src/store/authStore.ts:22-26 | no user, not authenticated, loading, no error |
| AuthStore.Store.SignIn | client/src/store/authStore.ts:29-38 | success: the returned user, authenticated, not loading, no error; failure: the server's message or the fallback, not authenticated, not loading, user untouched |
| AuthStore.Store.Login | client/src/store/authStore.ts:28-40 | as `SignIn`, with the fallback message "Failed to login" |
| AuthStore.Store.Register | client/src/store/authStore.ts:42-54 | as `SignIn`, with the fallback message "Failed to register" |
| AuthStore.Store.Logout | client/src/store/authStore.ts:56-59 | no user, not authenticated; loading and error unchanged |
| AuthStore.Store.CheckAuth | client/src/store/authStore.ts:61-80 | always ends not loading with the error unchanged; authenticated iff the token check passes and a current user is returned, and then that user; otherwise no user |
| AuthStore.Store.ClearError | client/src/store/authStore.ts:82 | the error becomes null and nothing else changes |
| AuthStore.LoginTwice | client/src/store/authStore.ts:28-40 | a failed login after a successful one keeps the user, drops authentication, and keeps the invariant |
| Dashboard.WeekWindow | client/src/pages/Dashboard.tsx:47-51 | a task is kept iff it is due between now and a week from now, both ends inclusive; nothing is added; when every task is in the window, all are kept in order |
| Dashboard.UpcomingTasks | client/src/pages/Dashboard.tsx:42-53 | exactly `min(5, size of the week's window)` tasks, all drawn from `tasks`, each due between now and a week from now with both ends inclusive, earliest first; no in-window task due earlier than an included one is left out; fewer than five means every in-window task is included |
| Dashboard.WindowIsInclusive | client/src/pages/Dashboard.tsx:43-50 | tasks due exactly now and exactly a week from now are both upcoming, in that order |
| Dashboard.RecentNotes | client/src/pages/Dashboard.tsx:55-58 | at most three notes (fewer only when there are fewer), drawn from `notes`, latest update first, none left out for an older one |
| Dashboard.RecentLectures | client/src/pages/Dashboard.tsx:60-63 | at most three lectures (fewer only when there are fewer), drawn from `lectures`, latest recording first, none left out for an older one |
| Seqs.TopK | client/src/pages/Dashboard.tsx:52-58 | sort then `slice(0, k)` gives `min(k, n)` elements in comparator order, a sub-multiset of the input, and the whole input when it has at most `k` |
| Seqs.TakeSortedIsTopK | client/src/pages/Dashboard.tsx:52-53 | the first `k` of a sorted copy leave out no element that strictly precedes one kept |
| NotesPage.FilteredNotes | client/src/pages/NotesPage.tsx:24-27 | a note is listed iff its lowercased title or content contains the lowercased term; the list is an order-preserving subsequence of the notes; an empty term lists every note |
| Js.Includes | client/src/pages/NotesPage.tsx:25-26 | `includes` is true iff the needle occurs at some position |
| NotesPage.Preview | client/src/pages/NotesPage.tsx:79-80 | content of at most 100 characters is shown whole; longer content shows its first 100 characters followed by "..." |
| NotesPage.PreviewKeepsPrefix | client/src/pages/NotesPage.tsx:79-80 | a preview is at most 103 characters and starts with the first `min(100, length)` characters of the content |
| NotesPage.EmptyStateHint | client/src/pages/NotesPage.tsx:108 | "Try a different search term" iff the term is non-empty, otherwise "Get started by creating your first note" |
| NotesPage.EmptyListWithoutTerm | client/src/pages/NotesPage.tsx:68-108 | with no search term nothing is listed only when there are no notes |

## Left out

- Server errors: the 500 responses of every `catch` are not modelled; each handler is atomic.
- Partial failure inside the tag loop: a failure after some tags were connected, which leaves the note half-tagged, is not modelled because nothing in the code says when it happens.
- Row ids: the database's generated ids are modelled as a counter, and ids are naturals rather than strings.
- Timestamps: `createdAt` and `updatedAt` are the single request time `now`; lecture rows carry no `updatedAt` because no handler reads it.
- NotesController.IndexOf: `findFirst` without `orderBy` is modelled as the lowest-id tag with the name; the database promises no such order, which matters only when a name is already stored twice, and a duplicate-free tag table stays duplicate-free under the model.
- Seqs.Sort: the insertion sort is stable, but no contract states stability, so at a tie on the last kept place of `UpcomingTasks`, `RecentNotes` or `RecentLectures` the contracts leave open which of the equal elements is shown, where JavaScript's stable `sort` shows the one earlier in the input.
- Sort ties: rows with equal sort keys appear in the order of a stable insertion sort, not in an order the database chooses.
- Response shapes: the `include: { tags: true }` objects are tag ids, the `user { id, name }` selection on public notes is not modelled, and the `message` texts of success bodies are not modelled.
- Body typing: body fields are strings, booleans or lists of strings. A non-boolean `isPublic`, a JSON `null` `isPublic`, a non-array `tags` or an invalid date is passed to the database or `new Date` unchecked, and these cases are not modelled.
- Date parsing: `new Date(recordedAt)` is the parameter `parseDate`; its result on malformed text is not modelled.
- Authentication middleware, `req.user?.id` being undefined, and the routing table are not part of this model.
- The store's service layer: `authService.logout()`, which removes the stored token in `logout` and in `checkAuth`, is not modelled.
- Interleaving: each store action runs to completion; another action running while one is awaiting a service call is not modelled. `checkAuth`'s `catch` branch is not modelled separately. The only call it awaits, `getCurrentUser`, catches its own errors; the synchronous token check `isAuthenticated` reads storage outside any `try` and may throw into that `catch`, which sets exactly what a failed token check sets, so the `tokenValid = false` path covers it.
- Dashboard loading: `Promise.all` over the three fetches, the loading flag and the rendering are not modelled.
- Calendar arithmetic: `setDate(today.getDate() + 7)` is modelled as adding seven times 86 400 000 ms, which differs across a daylight-saving change.
- NotesPage.Preview: length and cut count Unicode scalar values, not UTF-16 code units, so content with characters outside the Basic Multilingual Plane is cut later than on the page (and never inside a surrogate pair).
- Case folding: `toLowerCase` is modelled on ASCII letters only; `toLocaleDateString` is not modelled.
- Other files: `server/src/index.ts`, `server/src/routes/auth.ts`, `server/src/controllers/authController.ts`, `client/src/services/auth.ts`, `client/src/services/tasks.ts` and `client/src/pages/DevLoginPage.tsx` are plumbing, HTTP wrappers or UI and are not part of this model.
