# Our Library — a verified model of the reading-log page

"Our Library" is a two-reader reading log: two people share a list of books,
each records the page they have reached, and they talk about a book page by
page. The whole application is one React component, `app/page.tsx`, over three
Firestore collections (books, progress records, messages). This project models
that component's logic in Dafny and proves what it promises.

Layers, one module per file:

- `Options` — `null`/`undefined` versus a value.
- `Collections` — the array built-ins the component is written with: `filter`,
  `map`, `find`, a stable `sort` with a numeric comparator, and `[...new Set(xs)]`.
- `JsText` — `String.prototype.trim` and `parseInt` without a radix, as a real
  decimal reader: it skips leading white space, reads an optional sign and then
  the longest run of digits. The result is a number or NaN (`JsInt`).
- `Reconciler` — the view state derived from the three collections and the
  signed-in user:
  - the book snapshot, newest first;
  - my progress and my partner's;
  - the reading, completed and trash shelves (`filteredBooks`, a loop that
    pushes onto two lists, written as a method with loop invariants);
  - the progress bars;
  - a book's topic list (`currentTopics`);
  - the thread of one topic.
- `Commands` — what each handler writes, as functions of its inputs:
  - the book a filled-in add form produces;
  - the page the progress form and the topic form let through;
  - the book table after a trash, a restore or a permanent delete;
  - the progress table keyed by the (book, user) pair, which stands in for
    the `${bookId}_${uid}` document id.
- `Store` — the component as a class, `Library`:
  - fields: the three collections, kept in memory, and the component state
    (view, selected book, active topic, form fields, swiped card);
  - one method per handler and UI action, each stating the whole new state;
  - the invariant `Valid()`: book ids are unique, no book has zero pages,
    every record sits under its own key, every numeric page on record is no
    greater than its book's page count, and the selected copy agrees with the table on the page count.

Inputs the component takes from outside become parameters:

- `Date.now()` is `now`;
- `user?.uid` is `uid: Option<string>`, None while nobody is signed in;
- the id Firestore assigns to a new book is `id`, required to be fresh;
- the `window.confirm` answer is `confirmed`.

Every write is applied at once and succeeds; a handler that throws before its
write (reading `user.uid` with nobody signed in) changes nothing.

Behaviours of the code that the model keeps as written:

- The progress guard only rejects a page above the page count. Negative pages
  and NaN (an emptied field) are stored.
- A book whose page count parses to 0 or NaN gets one page (`|| 1`).
- The partner is the first progress record on the book whose user is not the
  signed-in one, in feed order.
- The chat of a topic opens only while `activeTopicPage` is truthy, so a topic
  on page 0 can be created but its chat never opens (`Library.ChatOpen`).
- The topic guard has no lower bound either: a negative page, such as "-3" on a
  ten-page book, opens a topic.
- Deleting a book leaves its progress records and messages in place.

## Model

| member | source | states |
|---|---|---|
| `Collections.Find` | app/page.tsx:80-81 | `find` returns the first element, in array order, that satisfies the test, and returns nothing exactly when no element does |
| `Collections.FindIgnoresOrder` | app/page.tsx:80-81 | when every element satisfying the test is the same value, reordering the array does not change what `find` returns |
| `Collections.Distinct` | app/page.tsx:77 | `[...new Set(xs)]` holds no value twice and holds exactly the values of `xs` |
| `Collections.SortBySorted` | app/page.tsx:77 | sorting with `(a, b) => key(a) - key(b)` yields a sequence in non-decreasing key order (and `SortBy` keeps the multiset) |
| `Collections.SortByKeepsNoDuplicates` | app/page.tsx:77 | sorting a duplicate-free array leaves it duplicate-free |
| `JsText.TrimEmptyIffBlank` | app/page.tsx:166 | `!s.trim()` holds exactly when `s` is made only of white space, the empty string included |
| `JsText.ParseIntRoundTrip` | app/page.tsx:182 | `parseInt` reads back the decimal form of any integer, whatever non-digit text follows it |
| `JsText.ParseIntNoDigits` | app/page.tsx:182 | text with no decimal digit parses to NaN |
| `Reconciler.BookSnapshotIsNewestFirst` | app/page.tsx:57 | the book snapshot holds the same books as the feed, ordered by `createdAt`, newest first |
| `Reconciler.FilteredBooks` | app/page.tsx:84-101 | the `forEach` that pushes each live book onto `completed` or `reading`, plus the trash filter, computes exactly the three shelves of `Partition` |
| `Reconciler.ActiveShelf` | app/page.tsx:85-97 | dropping the deleted books first leaves the reading and the completed shelves unchanged |
| `Reconciler.TrashShelfIsDeleted` | app/page.tsx:100 | the trash shelf is exactly `books.filter(b => b.isDeleted)`, in order |
| `Reconciler.PartitionIsExact` | app/page.tsx:84-101 | every book is on exactly one shelf; the trash holds exactly the deleted books; a live book is on the completed shelf exactly when both readers are at or past its last page, and otherwise on the reading shelf |
| `Reconciler.ShelvesAreNewestFirst` | app/page.tsx:57 | each shelf keeps the newest-first order of the snapshot |
| `Reconciler.MyPageIsFirstOwnRecord` | app/page.tsx:80 | `getMyProg` gives the page of the first record of the signed-in user on the book, in feed order, and page 0 when there is none |
| `Reconciler.PartnerPageIsFirstOtherRecord` | app/page.tsx:81 | `getPartnerProg` (with the default at line 91) gives the page of the first record on the book whose user is not the signed-in one, in feed order, and page 0 when there is none |
| `Reconciler.CompletedIffBothAtEnd` | app/page.tsx:89-93 | over the feed itself: a book is completed exactly when the first record of mine on it and the first record on it of another reader both hold a number at or past its last page; a side with no record passes only a book of at most zero pages, and NaN never passes |
| `Reconciler.CompletedMeansBothFinished` | app/page.tsx:90-93 | a completed book of positive length has a record of mine and a record of another reader, both at or past the last page |
| `Reconciler.NoPartnerNeverCompleted` | app/page.tsx:80-81 | a missing partner record counts as page 0, so a book of positive length with only my records stays on the reading shelf |
| `Reconciler.EveryoneFinishedIsCompleted` | app/page.tsx:89-93 | when both sides have a record on the book and every record has reached its end, the book is completed |
| `Reconciler.NonPositiveTotalCompletedAtOnce` | app/page.tsx:89-93 | with no record at all, the defaults of page 0 make a book of zero or negative length completed |
| `Reconciler.CompletionIgnoresFeedOrder` | app/page.tsx:81 | with one record per (book, user) and at most one other reader, the order of the progress feed does not change whether a book is completed |
| `Reconciler.Percent` | app/page.tsx:336-337 | a progress bar never exceeds 100 |
| `Reconciler.PercentBounds` | app/page.tsx:336-337 | the bar is 0 at page 0, 100 at the last page, and within [0, 100] in between |
| `Reconciler.PercentMonotone` | app/page.tsx:336-337 | a later page never shows a shorter bar |
| `Reconciler.PagesOf` | app/page.tsx:75-77 | the pages listed are exactly the pages of the messages on the book |
| `Reconciler.TopicsAreDistinctPagesAscending` | app/page.tsx:74-78 | no selected book gives no topics; otherwise the topics are strictly ascending and are exactly the pages that messages on the selected book carry |
| `Reconciler.TopicsAfterPost` | app/page.tsx:179-196 | after a message is posted on a book, its topics are the old ones plus the message's page, one longer exactly when the page was new, and that page is listed exactly once |
| `Reconciler.TopicsIgnoreOtherBooks` | app/page.tsx:74-78 | a message on another book leaves this book's topics unchanged |
| `Reconciler.ThreadIsTopicOldestFirst` | app/page.tsx:580-582 | a thread holds each message of its (book, page) exactly as often as the feed does and no other message, in non-decreasing `createdAt` order |
| `Commands.TotalPagesFrom` | app/page.tsx:109 | the parsed page count, with its fallback of one page, is never 0 |
| `Commands.TotalPagesRoundTrip` | app/page.tsx:109 | a page count typed in decimal is stored as typed, except that 0 becomes 1 |
| `Commands.TotalPagesWithoutDigits` | app/page.tsx:109 | a field with no digit, the empty one included, gives a one-page book |
| `Commands.NewBook` | app/page.tsx:106-112 | the new book document keeps the form's title and author, has a page count that is never 0, records the creator and the creation time, and starts live with no deletion time |
| `Commands.AcceptedPage` | app/page.tsx:122-123 | a numeric page the progress guard passes is at most the page count |
| `Commands.AcceptedPageIsParsed` | app/page.tsx:122-123 | the progress guard passes the parsed page itself, NaN included, and rejects exactly a number above the page count |
| `Commands.AcceptedPageRoundTrip` | app/page.tsx:122-123 | a page typed in decimal is accepted as itself exactly when it is at most the page count |
| `Commands.AcceptedPageWithoutDigits` | app/page.tsx:122-123 | an emptied or digit-free progress field is accepted and stores NaN |
| `Commands.TopicGuardAsWritten` | app/page.tsx:181-183 | as written, an empty topic field is rejected, and of the parsed pages only numbers above the page count are rejected |
| `Commands.TopicGuardAdmitsNaN` | app/page.tsx:181-183 | as written, the field value ".0" opens a topic on page NaN |
| `Commands.TopicPage` | app/page.tsx:181-183 | the corrected topic guard rejects an empty field, and a page it passes is at most the page count |
| `Commands.TopicPageIsParsed` | app/page.tsx:181-183 | the corrected guard passes the parsed number itself, and rejects exactly an empty field, NaN or a number above the page count |
| `Commands.TopicPageRefinesGuard` | app/page.tsx:181-183 | the corrected guard agrees with the guard as written on every input except those parsing to NaN |
| `Commands.TopicPageRoundTrip` | app/page.tsx:181-183 | a page typed in decimal opens exactly that topic when it is no greater than the page count (a negative page included), and nothing otherwise |
| `Commands.TopicOpeningNamesPage` | app/page.tsx:186-192 | the system message that opens a topic begins with its page number, so reading it back gives the page, and once posted it shows in the thread of that page of the book |
| `Commands.TableAfterDelete` | app/page.tsx:160 | after a permanent delete the table holds exactly the other books |
| `Commands.DeletionKeepsIds` | app/page.tsx:138-155 | setting a book's two deletion fields, as a move to the trash or a restore does, keeps the table's ids, in order, and so keeps them unique |
| `Commands.DeletionKeepsPageCounts` | app/page.tsx:138-155 | setting the deletion fields, as a move to the trash or a restore does, changes no book's page count |
| `Commands.TrashedBookIsInTrash` | app/page.tsx:138-146 | after a move to the trash the book is on the trash shelf and on no other; every other book is on the reading, completed or trash shelf afterwards exactly when it was before |
| `Commands.TrashedMembers` | app/page.tsx:138-146 | a move to the trash keeps every other book as it was, and the book with that id is then marked deleted |
| `Commands.TrashThenRestore` | app/page.tsx:138-155 | trashing a live book and then restoring it gives back every shelf, book by book and in order |
| `Commands.AppendKeepsUniqueIds` | app/page.tsx:107 | a book under a new id keeps the ids unique |
| `Commands.RemoveKeepsUniqueIds` | app/page.tsx:160 | a permanent delete keeps the ids unique |
| `Commands.Upsert` | app/page.tsx:127-132 | `setDoc` under the (book, user) key adds exactly that key, and every record stays under its own key |
| `Commands.MyProgressIsKeyed` | app/page.tsx:125 | whatever order the feed lists the progress table in, my record on a book is the one stored under the (book, me) key |
| `Commands.UpsertReadsBack` | app/page.tsx:127-132 | after `setDoc` on the (book, user) key, the feed shows the new record as that user's, and every other key keeps its record |
| `Store.AddKeepsConsistent` | app/page.tsx:104-117 | adding a book under a fresh id keeps the store's invariant |
| `Store.UpsertKeepsConsistent` | app/page.tsx:119-136 | writing a page the guard accepted keeps the invariant, including every numeric page being no greater than its book's page count |
| `Store.DeletionKeepsConsistent` | app/page.tsx:138-155 | setting a book's deletion fields, as a move to the trash or a restore does, keeps the invariant |
| `Store.RemoveKeepsConsistent` | app/page.tsx:157-162 | a permanent delete keeps the invariant |
| `Store.ProgressAfterUpdate` | app/page.tsx:119-136 | right after a progress update, my page on the book is the page written, and with at most one other reader the partner's record is the one shown before |
| `Store.Library.constructor` | app/page.tsx:21-33 | the app starts on the home view with empty collections, nothing selected and empty fields |
| `Store.Library.AddBook` | app/page.tsx:104-117 | with a user, exactly one live book built from the form, created by that user, is appended, and the view goes home with an empty form; without one nothing changes; progress and messages are never touched |
| `Store.Library.UpdateProgress` | app/page.tsx:119-136 | when the guard accepts the page and a user is signed in, the (book, user) record is created or replaced with that page and time, and the view goes home with no book selected; otherwise nothing changes; books and messages are never touched |
| `Store.Library.MoveToTrash` | app/page.tsx:138-146 | the book is marked deleted at `now` and the swiped card closes; a missing book changes nothing |
| `Store.Library.RestoreBook` | app/page.tsx:148-155 | the book is live again with `deletedAt` null; nothing else changes |
| `Store.Library.PermanentDelete` | app/page.tsx:157-162 | once confirmed, the book leaves the table and its progress and messages stay; unconfirmed, nothing changes |
| `Store.Library.SendMessage` | app/page.tsx:164-177 | a blank message writes nothing; otherwise exactly one message with the typed text is appended on the active topic, and the field is cleared |
| `Reconciler.PostedMessageInThread` | app/page.tsx:580-582 | a message just appended on a (book, page) is shown in that topic's thread |
| `Store.Library.CreateTopic` | app/page.tsx:179-196 | with the corrected guard: an empty field, NaN or a page above the count writes nothing; otherwise exactly one system message naming the page is appended, the topic becomes active, the field is cleared, and the chat opens unless the page is 0 |
| `Store.Library.ChatOpen` | app/page.tsx:512 | the thread and the chat input show only while a topic is active, and never for a topic on page 0, since 0 is falsy |
| `Store.Library.ClickCard` | app/page.tsx:232-235 | clicking a swiped card closes it; clicking any other card opens its book in the edit view |
| `Store.Library.OpenBook` | app/page.tsx:403 | clicking a completed book opens it in the edit view |
| `Store.Library.GoHome` | app/page.tsx:284 | the back button goes home and clears the selected book and the active topic |
| `Store.Library.Navigate` | app/page.tsx:273-304 | the header buttons switch to the trash, the add form or the completed shelf and change nothing else |
| `Store.Library.SetActiveTopic` | app/page.tsx:542 | a topic tab (or the back-to-list button, with None) sets the active topic and nothing else |
| `Store.Library.EditForm` | app/page.tsx:460-472 | each add-form input replaces the form and nothing else |
| `Store.Library.EditChat` | app/page.tsx:605 | the chat input sets the chat text and nothing else |
| `Store.Library.EditTopicPage` | app/page.tsx:530 | the topic input sets the topic field and nothing else |

## Left out

- Firebase initialisation, authentication and the `onSnapshot` subscriptions (app/page.tsx:11-15, 36-72). They are foreign SDK calls and asynchronous I/O. The collections are in-memory state, and each write shows at once.
- A failing write and the `console.error` in each `catch`. Every write succeeds, except an `updateDoc` on a missing book, which changes nothing.
- Firestore document ids. A new book's id is a parameter, required to be fresh. A progress record's string id is the (book, user) pair, so a collision between `"a_b" + "_" + "c"` and `"a" + "_" + "b_c"` is not modelled. Message ids are not modelled at all.
- `window.confirm` in the permanent delete. It becomes the `confirmed` parameter.
- `Reconciler.Percent`: it uses exact rationals for `Math.round` and floating-point division. IEEE rounding and `Infinity` are not modelled (a zero page count cannot occur, since the store keeps every count non-zero).
- `JsText.ParseInt`: the `0x` prefix and numbers too large for a double are not modelled. A number field never yields the prefix, and every integer is exact here.
- `Collections.SortBy`: stability is built into the definition (equal keys keep their order), but no lemma states it. Nothing in the component depends on the order of equal keys.
- `Store.Library.SendMessage`: its contract states the appended message but not the thread it then shows in. `Reconciler.PostedMessageInThread` proves that the message is in the thread of its topic.
- `Store.Library.CreateTopic`: it runs the corrected guard `Commands.TopicPage`, not the guard as written. As written, a field that parses to NaN (".0", ".5") posts a message on page NaN and makes `activeTopicPage` NaN. Message pages and `activeTopicPage` are integers here, so that state cannot arise; `Reconciler.TopicsAreDistinctPagesAscending`, `Reconciler.ThreadIsTopicOldestFirst` and `Reconciler.TopicsAfterPost` therefore hold only for feeds with no NaN page, where the `a - b` comparator is a real order. The as-written guard is kept in `Commands.TopicGuardAsWritten` (see Findings).
- `Store.Library.CreateTopic`: its contract states the appended message but not the resulting topic list. `Reconciler.TopicsAfterPost` proves that the page is then listed exactly once.
- The `SwipeableCard` touch handlers that set `swipedBookId` (app/page.tsx:203-216), the loading screen, all rendering and styles. These are presentation only. The model keeps `swipedBookId` only where a handler resets or reads it.
- The browser's own form checks (`required`, `min`, `max`) before a submit. The handlers do not rely on them, so the model does not assume them.
- app/layout.tsx and next.config.js: markup and build configuration with no logic.

## Findings

| source | as written | input that shows it | evidently intended | confidence | as-written member | corrected member |
|---|---|---|---|---|---|---|
| app/page.tsx:181-183 | `createTopic` rejects an empty field, then only a parsed page greater than the page count. `NaN > total` is false, so NaN passes. A message on page NaN is posted and `activeTopicPage` becomes NaN, which is falsy, so the chat of that topic never opens. | topic field ".0": a valid number-input value (zero, within the default step), for which `parseInt(".0")` is NaN | only a numeric page no greater than the page count opens a topic (the guard has no lower bound, and the correction adds none) | not executed | `Commands.TopicGuardAdmitsNaN` | `Commands.TopicPage` |
