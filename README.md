# Bookmark list reconciliation — a Dafny model

This project models the client and server logic of a small bookmark application.
Each signed-in user keeps a list of bookmarks (`id`, `url`, `title`, `created_at`,
`user_id`) in a `bookmarks` table. Two list components show that list and keep it
current from INSERT/DELETE events that a realtime channel pushes:

- `BookmarkManager` also inserts the row its own add form gets back from the store. Its own comment gives the reason: the channel does not echo a writer's inserts back to it.
- `BookmarkList` has no local insert. The separate add form beside it only calls the server action, and the component ignores the initial list that is re-sent afterwards. So it shows an add only when its filtered channel delivers it.

The model covers the rules that keep the list consistent:

- **Reconciler** (`Bookmarks`): the list is a `seq<Bookmark>` keyed by `id`.
  - An insert prepends a bookmark whose id is new and ignores one whose id is already listed.
  - A delete filters out every entry with the given id.
  - The code does not sort by `created_at`; the model does not either.
  - `Render` gives the empty state and the count label.
- **`BookmarkManager` component** (`BookmarkManager.Manager`): it listens on an unfiltered channel.
  - It applies an INSERT only when the row's `user_id` is the viewer's.
  - It applies a DELETE when the old row's `user_id` is absent, empty or the viewer's.
  - `handleAdd` trims the title and normalises the URL, then writes to the store. It inserts the returned row itself, or records the error. It is modelled in its three phases: `BeginAdd` resets the banners, `ClientDraft` is the row sent, and `FinishAdd` applies the store's reply.
  - `handleOptimisticRemove` drops an id from the list at once.
- **`BookmarkList` component** (`BookmarkList.ListView`): its channel is filtered by the server, so it applies every delivered event without an owner check.
- **Server actions** (`DashboardActions`):
  - `addBookmark` checks authentication, then checks that `url` and `title` are present and non-empty. It normalises the URL and stores `title.trim()` under the user's id.
  - `deleteBookmark` removes only the rows whose `id` and `user_id` both match.
  - Every failure is a thrown `Error` carrying its message.
- **String primitives** (`Text`, `Urls`):
  - `String.prototype.trim`, with the whitespace set of ECMA-262 sections 12.2 and 12.3.
  - `startsWith`.
  - The decimal rendering of the count.
  - The case-sensitive `http://`/`https://` prefix heuristic.

The backing store and the realtime channel are external. Each store reply is a
method parameter: the inserted row, the assigned id and timestamp, or an error
message. The channel is a sequence of `ChangeEvent`s,
`Insert(row) | Delete(oldId?, oldOwner?)`.

Behaviour that the code has and a reader might not expect:

- The presence check in `addBookmark` runs on the untrimmed values. A title made only of whitespace passes and is stored as `""` (`DashboardActions.BlankTitleStoredEmpty`). A check after trimming may have been intended; the model follows the code.
- Inserts always go to the head of the list, whatever their `created_at`. The list is not kept sorted by `created_at`; only the initial list, as the page query returns it, is.
- A DELETE payload without an id filters on `b.id !== undefined`, so it removes nothing.
- The scheme test is case-sensitive: `HTTP://x` becomes `https://HTTP://x` (`Urls.UnrecognisedSchemeIsPrefixed`).

## Model

| member | source | states |
|---|---|---|
| Bookmarks.HasId | src/components/BookmarkManager.tsx:53 | `some(b => b.id === id)` holds exactly when some index carries the id |
| Bookmarks.PrependUnlessPresent | src/components/BookmarkList.tsx:39-43 | afterwards the id is listed; a known id leaves the list unchanged; a fresh one puts the bookmark at index 0 with the old list after it, regardless of `created_at` |
| Bookmarks.RemoveId | src/components/BookmarkList.tsx:55 | afterwards the id is absent; an entry survives iff it was present and has another id; absent id is a no-op; a present id shortens the list |
| Bookmarks.PrependUnlessPresentKeepsUnique | src/components/BookmarkManager.tsx:51-55 | an insert keeps ids unique |
| Bookmarks.RemoveIdKeepsUnique | src/components/BookmarkManager.tsx:68 | a delete keeps ids unique |
| Bookmarks.RemoveIdCounts | src/components/BookmarkList.tsx:55 | delete removes every copy of the entries with the id and keeps the multiplicity of every other entry |
| Bookmarks.RemoveIdConcat | src/components/BookmarkManager.tsx:128 | delete distributes over concatenation, so survivors keep their relative order |
| Bookmarks.RemoveUniqueIsExcision | src/components/BookmarkManager.tsx:68 | on a list with unique ids, deleting the id at index k yields the list with exactly index k cut out |
| Bookmarks.ApplyEvent | src/components/BookmarkList.tsx:37-56 | an INSERT leaves its id listed, changes nothing for a known id and puts a fresh row in front of the whole old list; a DELETE with an id is `RemoveId`; a DELETE with an id leaves that id absent and keeps exactly the other entries; a DELETE without an id changes nothing; no entry appears that was not listed or inserted |
| Bookmarks.Replay | src/components/BookmarkList.tsx:37-56 | after a stream of events the list grows by at most one entry per event, and every entry was listed at the start or carried by an INSERT of the stream |
| Bookmarks.ReplayConcat | src/components/BookmarkList.tsx:37-56 | events are applied in delivery order: replaying `a + b` is replaying `b` from where replaying `a` left off |
| Bookmarks.ApplyEventKeepsUnique | src/components/BookmarkList.tsx:37-56 | each delivered INSERT or DELETE keeps ids unique |
| Bookmarks.ReplayKeepsUnique | src/components/BookmarkList.tsx:37-56 | from an initial list with unique ids, any sequence of events keeps ids unique |
| Bookmarks.InsertIdempotent | src/components/BookmarkList.tsx:41 | duplicate delivery of an INSERT changes nothing |
| Bookmarks.DeleteThenInsertReadds | src/components/BookmarkList.tsx:41-55 | deletes leave no tombstone: delete then insert of the same id puts it back at the head |
| Bookmarks.Noun | src/components/BookmarkList.tsx:89 | the noun is "bookmark" or "bookmarks", and "bookmark" iff the count is 1 |
| Bookmarks.CountLabel | src/components/BookmarkManager.tsx:229 | the label reads back as the count in decimal, then a space, then exactly the noun for that count |
| Bookmarks.Render | src/components/BookmarkList.tsx:65-89 | the empty state is shown iff the list is empty; otherwise the whole list is shown in order under its count label |
| BookmarkManager.ManagerStep | src/components/BookmarkManager.tsx:47-69 | the INSERT guard rejects exactly rows whose owner differs from the viewer, and the DELETE guard rejects exactly old rows whose owner is present, non-empty and not the viewer; rejected events change nothing, while an own INSERT and an ownerless, empty-owner or own DELETE are applied |
| BookmarkManager.ManagerReplay | src/components/BookmarkManager.tsx:47-69 | after a stream of events the list grows by at most one entry per event, and every entry was listed at the start or is the viewer's row carried by an INSERT of the stream |
| BookmarkManager.Filter | src/components/BookmarkManager.tsx:50-67 | an event is kept iff it was delivered and passes the owner check |
| BookmarkManager.FilterConcat | src/components/BookmarkManager.tsx:50-67 | the owner check keeps delivery order: filtering `a + b` is filtering `a`, then `b` |
| BookmarkManager.ManagerReplayIsFilteredReplay | src/components/BookmarkManager.tsx:47-69 | the manager's list after any stream equals the unfiltered reconciler run on the accepted events |
| BookmarkManager.ManagerReplayKeepsScope | src/components/BookmarkManager.tsx:50 | a list of the viewer's rows stays a list of the viewer's rows under any stream |
| BookmarkManager.ManagerReplayKeepsUnique | src/components/BookmarkManager.tsx:51-68 | any stream keeps ids unique |
| BookmarkManager.EchoSuppressed | src/components/BookmarkManager.tsx:109-114 | after a local add, an INSERT with the same id, whoever owns it, leaves the manager's list unchanged; if ids were unique before the add, the id is listed exactly once |
| BookmarkManager.Manager.constructor | src/components/BookmarkManager.tsx:20-24 | the state starts as the initial list, not pending, no error, no success |
| BookmarkManager.Manager.OnInsert | src/components/BookmarkManager.tsx:47-56 | the list becomes its owner-checked insert step; unique ids stay unique |
| BookmarkManager.Manager.OnDelete | src/components/BookmarkManager.tsx:65-69 | the list becomes its owner-checked delete step; unique ids stay unique |
| BookmarkManager.ClientDraft | src/components/BookmarkManager.tsx:90-96 | the row sent carries the viewer's id, the typed title trimmed, so with no whitespace at either end and "" exactly when the typed title is blank, and the typed URL kept when it has a scheme and otherwise behind `https://` |
| BookmarkManager.AddedRowIsListed | src/components/BookmarkManager.tsx:101-114 | the store's row for the sent draft, under an id not yet listed, lands at the head of the whole list, and a list of the viewer's own rows stays one |
| BookmarkManager.Manager.BeginAdd | src/components/BookmarkManager.tsx:86-88 | before the store call, both banners are cleared and the form is pending |
| BookmarkManager.Manager.FinishAdd | src/components/BookmarkManager.tsx:98-123 | after the store call: when an `Error` is thrown the list is unchanged and the error is its message; when another value is thrown the error is "Failed to add bookmark"; on success the returned row is inserted unless its id is listed, and unique ids stay unique; never pending afterwards |
| BookmarkManager.Manager.HandleOptimisticRemove | src/components/BookmarkManager.tsx:127-129 | the list loses exactly the entries with the id; unique ids stay unique |
| BookmarkList.ListView.constructor | src/components/BookmarkList.tsx:20-21 | the list starts as the initial list |
| BookmarkList.ListView.OnInsert | src/components/BookmarkList.tsx:37-43 | with no owner check: a known id changes nothing, a fresh one is prepended; unique ids stay unique |
| BookmarkList.ListView.OnDelete | src/components/BookmarkList.tsx:54-56 | with no owner check: every entry with `payload.old.id` goes, a missing id removes nothing; unique ids stay unique |
| Text.TrimStart | src/app/dashboard/actions.ts:30 | the result is a suffix, everything cut is whitespace, and it does not start with whitespace |
| Text.TrimEnd | src/app/dashboard/actions.ts:30 | the result is a prefix, everything cut is whitespace, and it does not end with whitespace |
| Text.Trim | src/components/BookmarkManager.tsx:92 | the result has whitespace at neither end and is no longer than the input; `TrimIsInfix` adds that only whitespace at the two ends is cut |
| Text.TrimIdempotent | src/app/dashboard/actions.ts:30 | trimming is the identity exactly on strings with no whitespace at either end, so it is idempotent |
| Text.TrimEmptyIffBlank | src/app/dashboard/actions.ts:30 | trimming yields "" exactly when every character is whitespace |
| Text.Decimal | src/components/BookmarkList.tsx:89 | the count renders as a non-empty string of digits with no leading zero, so 0 is "0" |
| Text.TrimIsInfix | src/components/BookmarkManager.tsx:92 | the trimmed string is a slice of the input with only whitespace before and after it |
| Text.DecimalRoundTrip | src/components/BookmarkManager.tsx:229 | reading the rendered digits back yields the count |
| Urls.NormalizeUrl | src/app/dashboard/actions.ts:22-24 | the result starts with `http://` or `https://`; input with either prefix is kept; otherwise `https://` is put in front; the input is always a suffix |
| Urls.NormalizeIdempotent | src/components/BookmarkManager.tsx:94-96 | normalising twice equals normalising once |
| Urls.UnrecognisedSchemeIsPrefixed | src/components/BookmarkManager.tsx:94-96 | the prefix test is case-sensitive: any input not starting with a lower-case `h`, a bare host or `HTTP://…` alike, gets `https://` in front |
| DashboardActions.PrepareAdd | src/app/dashboard/actions.ts:6-30 | no user fails with "Not authenticated"; otherwise a missing or empty url or title fails with "URL and title are required"; otherwise the row has the normalised URL, the trimmed title and the user's id |
| DashboardActions.BlankTitleStoredEmpty | src/app/dashboard/actions.ts:17-30 | a whitespace-only title passes the check and is stored as "" |
| DashboardActions.StoredUrlKeepsInput | src/app/dashboard/actions.ts:22-24 | the stored URL has a scheme and ends with the URL as typed, never trimmed |
| DashboardActions.DeleteScoped | src/app/dashboard/actions.ts:49-53 | a row survives iff it was present and does not match both id and user |
| DashboardActions.DeleteScopedCounts | src/app/dashboard/actions.ts:49-53 | exactly the id-and-user matches are removed; other rows, another user's same-id rows included, keep their multiplicity |
| DashboardActions.BookmarkTable.AddBookmark | src/app/dashboard/actions.ts:6-39 | a failed check or a store error throws its message and leaves the table unchanged; success appends exactly one row with the store's id and timestamp, the normalised URL, the trimmed title and the user's id |
| DashboardActions.BookmarkTable.DeleteBookmark | src/app/dashboard/actions.ts:41-60 | no user throws "Not authenticated"; a store error throws its message; both leave the table unchanged; success removes exactly the id-and-user matches |

## Left out

- The realtime subscription plumbing is not modelled. That covers client creation, `getSession`/`setAuth` ordering, channel set-up, `subscribe` and `removeChannel`. All of it is asynchronous library code about event delivery. The channel is modelled only as the sequence of events it delivers.
- The server-side channel filter `user_id=eq.<userId>` used by `BookmarkList` is not modelled. The store applies it, so `ListView` takes whatever is delivered.
- The store's own behaviour is not modelled. Assigning ids and timestamps, enforcing keys, and its row order are the database's. Store replies are parameters, and the table is a sequence whose order means nothing.
- `revalidatePath` cache invalidation is not modelled. It is a framework call.
- The success-banner timer (`setTimeout`) and `form.reset()` are not modelled. They are presentation.
- JSX markup, CSS, and the hostname and date formatting in the item view are not modelled. They are presentation or foreign library calls.
- DashboardActions.PrepareAdd: takes each form value as a string or absent. A `File` value passes the presence check at `!url || !title`, and then `url.startsWith` or `title.trim()` throws a TypeError. The model does not cover that.
- BookmarkManager.ClientDraft: takes both form fields as strings. If a field is missing or not a string, `.trim()` or `.startsWith` throws before the `try` block. Then no `catch` runs and `error` stays null. `finally` does not run either, so `isPending` stays true. `FinishAdd` is never reached in that case, so "never pending afterwards" holds only when both fields are strings.
- BookmarkManager.Manager.FinishAdd: the `await` on the store splits `handleAdd` into `BeginAdd` and `FinishAdd`, and the store's reply is a parameter. `InsertFailed(message)` covers any `Error` thrown inside the `try`: the store's error rethrown, or `createClient` failing. Its own message becomes `error`. `ThrewNonError` covers a thrown value that is not an `Error`; only that case shows "Failed to add bookmark". Only `FinishAdd` touches the list, so channel events delivered while the store call runs are `OnInsert`/`OnDelete` calls between the two phases.
- The wiring of `handleOptimisticRemove` is not modelled. It is passed as a prop that the item component never accepts, so it is modelled as an available transition, not as what the delete button does.
- A failed delete is not rolled back. No code does this.
- Text.Trim: works on Unicode code points. JavaScript strings are UTF-16, but every character `trim` strips lies in the Basic Multilingual Plane, so the result is the same.
