# Reading tracker data layer, modelled in Dafny

This project models the client-side data layer of a small reading tracker.
Users keep books in three lists: currently reading, want to read and have read.
Each list has an order, and the want-to-read list also has three "Up Next" slots.
Users show up to five books on a public shelf, connect with others in a circle through invites, and send each other recommendations and recommendation requests.

The modules follow the source files:

- `types.dfy` (`Types`): the `Book` record and the `books` table row (`DbBook`), with the two converters between them. A `Partial<DbBook>` payload is a map from the columns it sets to their values, and `ApplyPatch` is the store's update of one row.
- `books.dfy` (`BookList`): the book list hook. The class `BooksHook` holds the hook's local `books` list and the store's `books` table (every user's rows). Each method performs the store writes the hook makes and the local update it applies. A pure function defines each local update, and lemmas relate those functions.
- `reading_board.dfy` (`ReadingBoard`): the drag-and-drop handler of the board. It records which hook calls one drop makes, and the splice that turns a same-list drop into the id list passed to `reorderBooks`.
- `shelf.dfy` (`PublicShelf`): the public shelf hook (`ShelfHook`) over the `public_shelf` table.
- `shelf_manager.dfy` (`ShelfManager`): the shelf editor. It builds the five slots from the shelf items and lists the books offered for an empty slot. It also makes the call that follows picking one of them.
- `circle.dfy` (`Circle`): invites and connections, and the circle hook (`CircleHook`).
- `recommendations.dfy` (`Recommendations`): recommendations, requests, who sees which request, and the hook (`RecommendationsHook`).
- `profile_setup.dfy` (`ProfileSetup`): the username format check, the sanitiser the username input applies, the error shown once the availability check answers, and the submit guard.
- `sorting.dfy` (`Sorting`): a stable sort by an integer key. It stands for the position ordering of `getBooksByStatus` (JavaScript's `sort` is stable) and of the `order('position')` fetches.
- `wrappers.dfy` (`Wrappers`): `Option`.

The outside world becomes parameters:

- The store is an in-memory sequence of rows per table.
- Every store write takes its outcome (`true` when the store accepted it) as a boolean parameter.
- The id the store gives an inserted row is a parameter (`newId`).
- The current time is a parameter (`now`).
- The availability check's answer is a parameter (`available`).

A hook's "fetch" is the function that derives its state from the store.
A hook whose methods refetch keeps the predicate `Synced()`, which ties its state to that function.

JavaScript's value semantics are kept where they decide a branch:

- `priority` is `undefined`, `null` or any number, and `!priority` is also true for `0`.
- `note || null` turns an empty note into `null`.
- `trim()` removes exactly the ECMAScript white-space and line-terminator characters.
- String `<` is lexicographic comparison.

## Model

| member | source | states |
|---|---|---|
| Types.ColumnValue | src/types/index.ts:39-56 | each column's value has that column's type; nullable columns may be null |
| Types.ColumnsDetermineRow | src/types/index.ts:39-56 | two rows that agree on every column are the same row |
| Types.ApplyPatch | src/types/index.ts:79-97 | an empty payload leaves the row unchanged |
| Types.ApplyPatchSets | src/types/index.ts:79-97 | after an update, each column the payload sets (with a value of its type) takes that value, and every other column keeps its old value |
| Types.DbBookToBook | src/types/index.ts:58-77 | every field is copied from its column, including `createdAt` and `updatedAt`: id, user, title, author, status, position, the public flag, notes, recommender, completion stamp and the three format fields; a null `priority` stays `null` and a number passes through unchecked, never `undefined` |
| Types.BookToDbBook | src/types/index.ts:79-97 | a column is emitted exactly when its field is defined, with that field's value and of the column's type; `id`, `created_at` and `updated_at` are never emitted; an empty input gives an empty payload |
| Types.RoundTrip | src/types/index.ts:58-97 | converting a row to a book and back emits the row's own value for every column it emits; it omits exactly the id, the two timestamps and the null nullable columns, except a null priority, which is emitted as an explicit null |
| Types.WriteBackIsIdentity | src/types/index.ts:58-97 | writing a fetched book back over its own row leaves the row unchanged |
| Sorting.InsertBy | src/hooks/useBooksSupabase.ts:285-287 | inserting into a sorted list gives a sorted permutation of the list plus the element |
| Sorting.LowerBound | src/hooks/useBooksSupabase.ts:285-287 | a head smaller than the inserted key stays a lower bound of the permuted tail |
| Sorting.SortBy | src/hooks/useBooksSupabase.ts:285-287 | the result is sorted by the key and is a permutation of the input |
| Sorting.InsertByStable | src/hooks/useBooksSupabase.ts:285-287 | the inserted element comes before every element of the list with the same key |
| Sorting.SortByStable | src/hooks/useBooksSupabase.ts:285-287 | the sort is stable: for every key, the elements with that key come out in input order |
| BookList.OfStatus | src/hooks/useBooksSupabase.ts:286 | exactly the books of that status |
| BookList.Ids | src/components/ReadingBoard.tsx:72 | the ids of the books, index by index |
| BookList.Find | src/hooks/useBooksSupabase.ts:155 | `None` exactly when no book has the id; otherwise the first book with the id |
| BookList.MaxPosition | src/hooks/useBooksSupabase.ts:69 | an upper bound of the positions that one of the books attains |
| BookList.NextPosition | src/hooks/useBooksSupabase.ts:65-72 | 0 for an empty bucket; otherwise strictly above every position in the bucket and exactly one above the largest |
| BookList.ByStatus | src/hooks/useBooksSupabase.ts:283-290 | the bucket of that status, sorted by position, as a permutation of the bucket |
| BookList.LastInSlot | src/hooks/useBooksSupabase.ts:292-302 | `None` exactly when no want-to-read book holds the slot; otherwise a holder that no later book of the list overwrites |
| BookList.LastInSlotStep | src/hooks/useBooksSupabase.ts:296-300 | one more book takes the slot it holds and leaves the others as they were |
| BookList.SlotHolderIsUnique | src/hooks/useBooksSupabase.ts:292-302 | when slots are exclusive, the slot shows the one book that holds it |
| BookList.ReplaceById | src/hooks/useBooksSupabase.ts:128 | books with the id are replaced by the new book; every other book and the order are kept |
| BookList.Without | src/hooks/useBooksSupabase.ts:144 | exactly the books whose id differs |
| BookList.WithoutConcat | src/hooks/useBooksSupabase.ts:144 | the filter distributes over concatenation, so the remaining books keep their order |
| BookList.WithoutAbsent | src/hooks/useBooksSupabase.ts:144 | deleting an id no book has changes nothing |
| BookList.Moved | src/hooks/useBooksSupabase.ts:180-192 | same length; every book with another id is unchanged; the book with the id takes the new status and position, keeps its priority only when it goes to want-to-read (otherwise `undefined`), takes the completion stamp when one is given (otherwise keeps its own), and keeps every other field |
| BookList.WithPriority | src/hooks/useBooksSupabase.ts:226-237 | with a slot, the book with the id takes it, any other book that held it becomes `undefined`, and every other book is unchanged, so a book holds the slot exactly when it has the id; with `null`, only the book with the id changes, to priority `null` |
| BookList.WithPriorityKeepsSlotsExclusive | src/hooks/useBooksSupabase.ts:226-237 | with unique ids, every slot is still held by at most one book |
| BookList.IndexOf | src/hooks/useBooksSupabase.ts:266 | -1 exactly when the id is absent; otherwise its first index |
| BookList.Reordered | src/hooks/useBooksSupabase.ts:264-272 | a listed book of the given status takes its list index as position; every other book is unchanged |
| BookList.ReorderedKeepsBucketIds | src/hooks/useBooksSupabase.ts:264-272 | reordering moves no book into or out of a bucket and keeps the bucket's order |
| BookList.ReorderedBucket | src/hooks/useBooksSupabase.ts:264-272 | after reordering, the bucket has one book per listed id, each at that id's index |
| BookList.BucketListed | src/hooks/useBooksSupabase.ts:264-272 | when the ids are a permutation of the bucket's ids, every book of the bucket is listed |
| BookList.ReorderedPositions | src/hooks/useBooksSupabase.ts:264-272 | each listed book of the bucket sits at its index in the id list |
| BookList.SortedKeepsIdsDistinct | src/hooks/useBooksSupabase.ts:285-287 | sorting keeps ids distinct |
| BookList.StrictlyIncreasing | src/hooks/useBooksSupabase.ts:264-287 | sorted books with distinct ids, each at its id's index, have strictly increasing positions |
| BookList.IndexOfInjective | src/hooks/useBooksSupabase.ts:266 | two different listed ids have different indices |
| BookList.ConsecutivePositions | src/hooks/useBooksSupabase.ts:264-287 | strictly increasing positions within `[0, n)` are exactly 0, 1, 2, ... |
| BookList.IdsFromPositions | src/hooks/useBooksSupabase.ts:264-287 | books at positions 0, 1, 2, ..., each at its id's index, carry the ids in order |
| BookList.SortedAtIndices | src/hooks/useBooksSupabase.ts:264-287 | sorted books, each at its id's index, list the ids in order at positions 0, 1, 2, ... |
| BookList.ReorderThenList | src/hooks/useBooksSupabase.ts:248-290 | when the ids list each book of the bucket once, `getBooksByStatus` after `reorderBooks` returns those ids in that order at positions 0, 1, 2, ... |
| BookList.AddPayload | src/hooks/useBooksSupabase.ts:79-84 | the insert sets the position given; it sets `completed_at` to now for `have_read` and to null otherwise, whatever the form said; it sets the user, status, title and author, and never the id or timestamps; every other column is set exactly when the converted form sets it, to the same value, and no other key is set |
| BookList.UpdatePayload | src/hooks/useBooksSupabase.ts:108-116 | `completed_at` is set to now exactly when the edit sets `have_read` and the local book (if any) is not already read; otherwise the payload is the converted edit; in both cases every other column the edit sets carries the converted edit's value |
| BookList.MovePayload | src/hooks/useBooksSupabase.ts:158-171 | status and position are set; priority is cleared exactly when leaving `want_to_read`; `completed_at` is set to now exactly when entering `have_read`; no column other than these four is set |
| BookList.MovePriorityDivergence | src/hooks/useBooksSupabase.ts:163-166 | on a move to another list, the local priority always becomes `undefined`, but the store clears it only when the book leaves `want_to_read` |
| BookList.OtherHolder | src/hooks/useBooksSupabase.ts:208-210 | the first other book holding the priority, or `None` when there is none |
| BookList.SetPriorityStoreClearsOnlyFirstHolder | src/hooks/useBooksSupabase.ts:208-234 | with two other holders of a slot, the store write clears the first only, while the local update clears both |
| BookList.UpdateWhereId | src/hooks/useBooksSupabase.ts:118-121 | every row with the id gets the payload; every other row is unchanged |
| BookList.DeleteWhereId | src/hooks/useBooksSupabase.ts:140 | exactly the rows whose id differs |
| BookList.FindRow | src/hooks/useBooksSupabase.ts:122-123 | a row with the id, or `None` when no row has it |
| BookList.InsertedBook | src/hooks/useBooksSupabase.ts:79-94 | the inserted book has the new id, the user, the form's title, author and status, the next position, and a completion stamp exactly for `have_read` |
| BookList.InsertedBookNotes | src/hooks/useBooksSupabase.ts:79-94 | the inserted book carries the form's notes and recommender as entered (absent ones stay null) and is not public |
| BookList.InsertedBookPriority | src/hooks/useBooksSupabase.ts:79-94 | the inserted book carries the form's priority, and an unset priority reads back as null |
| BookList.InsertedBookFormat | src/hooks/useBooksSupabase.ts:79-94 | the inserted book carries the form's consumption type, listening platform and reading format as entered |
| BookList.UpdatedBook | src/hooks/useBooksSupabase.ts:108-127 | the updated book keeps its id and, on entering `have_read`, carries the stamp |
| BookList.PositionWrites | src/hooks/useBooksSupabase.ts:257-262 | the position writes keep the number of rows |
| BookList.SetPositionOnly | src/hooks/useBooksSupabase.ts:260 | a position-only update changes the position and nothing else |
| BookList.PositionWritesSetIndex | src/hooks/useBooksSupabase.ts:252-262 | when every write succeeds and the ids are distinct, each row whose id is listed gets its index as position whatever its status, and every other row is unchanged |
| BookList.OwnedBy | src/hooks/useBooksSupabase.ts:40-45 | exactly the user's rows |
| BookList.BooksHook.constructor | src/hooks/useBooksSupabase.ts:34-63 | mounting loads the user's rows, sorted by position and converted |
| BookList.Fetched | src/hooks/useBooksSupabase.ts:34-63 | nothing without a user; otherwise sorted by position, as many books as the user has rows, every row of the user appears converted, and every book is the conversion of one of the user's rows |
| BookList.BooksHook.GetPriorityBooks | src/hooks/useBooksSupabase.ts:292-302 | three slots; slot `k` is the last want-to-read book holding priority `k+1`, or `None` |
| BookList.BooksHook.AddBook | src/hooks/useBooksSupabase.ts:74-103 | with no user or a failed insert nothing changes; otherwise the row is appended to the store and the book to the end of the list, at the next position, stamped exactly for `have_read` |
| BookList.BooksHook.UpdateBook | src/hooks/useBooksSupabase.ts:105-136 | the store updates every row with the id; the call succeeds, and only the local book with the id is replaced, exactly when one row matched; entering `have_read` stamps it |
| BookList.BooksHook.DeleteBook | src/hooks/useBooksSupabase.ts:138-150 | on success, the rows and books with the id are gone and the rest keep their order; on failure nothing changes |
| BookList.BooksHook.MoveBook | src/hooks/useBooksSupabase.ts:152-201 | an id missing locally changes nothing; otherwise only the book changes: status and position as given, priority kept only in `want_to_read`, and `completedAt` set to now exactly on entering `have_read` |
| BookList.BooksHook.SetPriority | src/hooks/useBooksSupabase.ts:203-246 | the store clears the first other holder (an error there is ignored) and writes the priority; locally, book by book, the book with the id takes the slot (or `null`), every other holder of the slot becomes `undefined`, all other books are unchanged, and exclusive slots stay exclusive; a failed write changes nothing locally |
| BookList.BooksHook.ReorderBooks | src/hooks/useBooksSupabase.ts:248-281 | always succeeds; the store receives one position write per listed id, and locally only books of the status move |
| ReadingBoard.SpliceMove | src/components/ReadingBoard.tsx:74-75 | a permutation of the list with the moved element at the drop index, or at the end when the index is past it |
| ReadingBoard.SpliceMoveKeepsOrder | src/components/ReadingBoard.tsx:74-75 | every other element keeps its relative order |
| ReadingBoard.HandleDragEnd | src/components/ReadingBoard.tsx:42-86 | no destination: no call. A slot destination: `setPriority(id, N)` only. Out of a slot: clear the priority, then `moveBook` unless the destination is want-to-read. Same list: `reorderBooks` with the spliced ids of `getBooksByStatus`. Another list: `moveBook(id, list, index)` |
| ReadingBoard.MultisetIds | src/components/ReadingBoard.tsx:71-72 | permuted books have permuted id lists |
| ReadingBoard.ListedIdsDistinct | src/components/ReadingBoard.tsx:71-72 | a bucket with distinct ids lists each of them once |
| ReadingBoard.SpliceKeepsDistinct | src/components/ReadingBoard.tsx:74-75 | splicing keeps an id list free of repeats |
| ReadingBoard.DropWithinListThenList | src/components/ReadingBoard.tsx:69-79 | after a same-list drop, listing the bucket again shows the spliced order, with the dragged book at its drop index |
| ReadingBoard.UnrankedOf | src/components/sections/WantToReadSection.tsx:15 | exactly the books with a falsy priority |
| ReadingBoard.Rendered | src/components/sections/WantToReadSection.tsx:15 | exactly the want-to-read books with a falsy priority, sorted by position |
| ReadingBoard.UnrankedCount | src/components/sections/WantToReadSection.tsx:15 | the filter keeps each unranked book as often as it occurs |
| ReadingBoard.UnrankedKeepsSorted | src/components/sections/WantToReadSection.tsx:15 | filtering a sorted list keeps it sorted |
| ReadingBoard.UnrankedKeepsIdsDistinct | src/components/sections/WantToReadSection.tsx:15 | filtering keeps ids distinct |
| ReadingBoard.RenderedMultiset | src/components/sections/WantToReadSection.tsx:15 | the rendered list is a permutation of the bucket's unranked books |
| ReadingBoard.ReorderedKeepsUnrankedIds | src/hooks/useBooksSupabase.ts:264-272 | reordering changes only positions, so the unranked part of the bucket keeps its ids |
| ReadingBoard.CorrectedWantToReadOrder | src/components/ReadingBoard.tsx:69-79 | a permutation of the rendered ids with the dragged book at the drop index |
| ReadingBoard.ReorderedOrigin | src/hooks/useBooksSupabase.ts:264-272 | each reordered want-to-read book comes from a book with the same id, status and priority |
| ReadingBoard.ShownBookRequested | src/hooks/useBooksSupabase.ts:264-272 | every rendered book after the reorder was requested and took its index |
| ReadingBoard.CorrectedDropThenRender | src/components/ReadingBoard.tsx:69-79 | with the corrected order, the rendered list shows exactly the requested ids at positions 0, 1, 2, ... |
| ReadingBoard.WantToReadDragMovesAnotherBook | src/components/ReadingBoard.tsx:69-79 | when the bucket's book at the drag index holds a slot, the book placed at the drop index is not the dragged one |
| ReadingBoard.SpliceMovesAnother | src/components/ReadingBoard.tsx:74-75 | the element put at the drop index is the element taken from the drag index, and no other |
| PublicShelf.OwnedBy | src/hooks/usePublicShelf.ts:44 | exactly the user's rows |
| PublicShelf.BookById | src/hooks/usePublicShelf.ts:40-53 | a book is joined exactly when the `books` table has a row with the id, and then it is that row converted by `dbBookToBook` |
| PublicShelf.Join | src/hooks/usePublicShelf.ts:49-55 | one item per row, in order, carrying the row and the book joined for the row's book id |
| PublicShelf.Fetched | src/hooks/usePublicShelf.ts:29-64 | the user's rows, sorted by position, as a permutation, each with the book joined for its book id |
| PublicShelf.FetchedRowsAreOwned | src/hooks/usePublicShelf.ts:38-45 | the fetched items carry exactly the user's rows |
| PublicShelf.FetchedChecksMatchStore | src/hooks/usePublicShelf.ts:76-88 | on a fresh fetch, the hook's "position taken" and "book shelved" checks agree with the store |
| PublicShelf.DeleteAt | src/hooks/usePublicShelf.ts:80-84 | exactly the rows not at (user, position) |
| PublicShelf.DeleteBook | src/hooks/usePublicShelf.ts:124-128 | exactly the rows not at (user, book) |
| PublicShelf.MoveTo | src/hooks/usePublicShelf.ts:91-95 | every row is kept, with the user's row for the book at the new position |
| PublicShelf.MoveToKeepsOneRowPerBook | src/hooks/usePublicShelf.ts:91-95 | at most one row per book before the move means at most one after |
| PublicShelf.EvictionClearsPosition | src/hooks/usePublicShelf.ts:76-85 | eviction leaves a well-formed shelf with nothing of the user's at the position, and adds no row |
| PublicShelf.PlacedKeepsWellFormed | src/hooks/usePublicShelf.ts:76-106 | at most one row per position and per book before `addToShelf` means the same after |
| PublicShelf.MovedKeepsWellFormed | src/hooks/usePublicShelf.ts:91-95 | moving a row to a free position keeps the shelf well formed |
| PublicShelf.InsertedKeepsWellFormed | src/hooks/usePublicShelf.ts:100-104 | inserting an unshelved book at a free position keeps the shelf well formed |
| PublicShelf.PlacedPutsBookAtPosition | src/hooks/usePublicShelf.ts:76-106 | for a book not already at the position, afterwards it is there and no other book of the user is |
| PublicShelf.Placed | src/hooks/usePublicShelf.ts:76-106 | the store after `addToShelf` as written; other users' rows are untouched |
| PublicShelf.SelfEvictionRemovesBook | src/hooks/usePublicShelf.ts:76-106 | a book already at the position is taken off the shelf |
| PublicShelf.DeleteOthersAt | src/hooks/usePublicShelf.ts:80-84 | exactly the rows that are not another book of the user's at the position |
| PublicShelf.PlacedCorrected | src/hooks/usePublicShelf.ts:76-106 | the store after `addToShelf` with the corrected eviction; other users' rows are untouched |
| PublicShelf.CorrectedPlacementShelvesBook | src/hooks/usePublicShelf.ts:76-106 | with the corrected eviction, the book always ends at the position, alone there |
| PublicShelf.DeleteBookKeepsWellFormed | src/hooks/usePublicShelf.ts:119-140 | removal keeps the shelf well formed and takes the book off |
| PublicShelf.ShelfHook.constructor | src/hooks/usePublicShelf.ts:29-68 | mounting fetches the shelf |
| PublicShelf.ShelfHook.Refresh | src/hooks/usePublicShelf.ts:29-64 | the items are the fetch of the unchanged store |
| PublicShelf.ShelfHook.AddToShelf | src/hooks/usePublicShelf.ts:70-117 | with no user nothing changes. If the items show the position taken, the user's rows there are deleted (a failed delete is ignored). Then the book's row is moved if the items show it, or else a row is inserted. Success and the refetch follow only from that last write |
| PublicShelf.ShelfHook.RemoveFromShelf | src/hooks/usePublicShelf.ts:119-140 | deletes exactly the user's rows for the book, then refetches; a failure changes nothing |
| PublicShelf.ShelfHook.ReorderShelf | src/hooks/usePublicShelf.ts:142-147 | the same effect as `addToShelf` |
| ShelfManager.FindAt | src/components/PublicShelfManager.tsx:28 | `None` exactly when no item is at the position; otherwise an item at that position, and the list's first item when that one is there |
| ShelfManager.FindAtIsFirst | src/components/PublicShelfManager.tsx:28 | the item found is the earliest one at the position |
| ShelfManager.Slots | src/components/PublicShelfManager.tsx:27-34 | five slots at positions 1 to 5 in order; empty when nothing is at the position; the book and id shown come from an item at that position |
| ShelfManager.SlotAt | src/components/PublicShelfManager.tsx:28-33 | the slot's position; a shown id belongs to an item at that position; nothing is shown when no item is there |
| ShelfManager.SlotShowsFirstItem | src/components/PublicShelfManager.tsx:27-34 | each slot shows the first item's book and id (an empty id shows as null) |
| ShelfManager.SlotShowsSoleBook | src/components/PublicShelfManager.tsx:27-34 | when every item at a position names one book and carries one joined book, the slot shows that id and that book |
| ShelfManager.Available | src/components/PublicShelfManager.tsx:37-39 | a book is offered exactly when it is a want-to-read book not on the shelf |
| ShelfManager.AvailableKeepsOrder | src/components/PublicShelfManager.tsx:37-39 | the filter distributes over concatenation, so it keeps the books' order |
| ShelfManager.EmptyShelfOffersAll | src/components/PublicShelfManager.tsx:37-39 | with an empty shelf every want-to-read book is offered, in order |
| ShelfManager.SelectBook | src/components/PublicShelfManager.tsx:47-53 | no call when no slot is selected; otherwise `onAddToShelf(book, slot)`; afterwards no slot is selected |
| ShelfManager.FetchedItemsAreOwned | src/hooks/usePublicShelf.ts:38-55 | every fetched item carries one of the user's rows |
| ShelfManager.PickedBookFillsSlot | src/components/PublicShelfManager.tsx:47-53 | picking any book that is in the `books` table for a slot and placing it with the corrected eviction makes the refetched slot show the book and its id, and the book is no longer offered |
| ShelfManager.OfferedBookFillsSlot | src/components/PublicShelfManager.tsx:47-53 | picking one of the offered books (one that is in the `books` table) for a slot and placing it as `addToShelf` does makes the refetched slot show the book and its id, and the book is no longer offered |
| Circle.StrLessIrreflexive | src/hooks/useCircle.ts:203 | no string is below itself |
| Circle.StrLessAsymmetric | src/hooks/useCircle.ts:203 | two strings are never each below the other |
| Circle.StrLessTotal | src/hooks/useCircle.ts:203 | of two different strings, one is below the other |
| Circle.CanonicalIgnoresDirection | src/hooks/useCircle.ts:201-205 | the stored pair does not depend on who invited whom, holds the same two users, and has the smaller first |
| Circle.Canonical | src/hooks/useCircle.ts:203-206 | the pair holds the invite's two users, and the second is never below the first |
| Circle.OtherEndpoints | src/hooks/useCircle.ts:47-57 | `v` is listed exactly when a connection joins the user and `v` |
| Circle.OtherEndpointsStep | src/hooks/useCircle.ts:55-57 | one more connection adds its other endpoint |
| Circle.MembershipSymmetric | src/hooks/useCircle.ts:47-57 | `v` is in `u`'s circle exactly when `u` is in `v`'s |
| Circle.MembersOf | src/hooks/useCircle.ts:59-75 | exactly the users with a profile that are other endpoints |
| Circle.Received | src/hooks/useCircle.ts:78-85 | exactly the pending invites addressed to the user |
| Circle.Sent | src/hooks/useCircle.ts:100-107 | exactly the pending invites the user sent |
| Circle.PairInvites | src/hooks/useCircle.ts:146-151 | exactly the invites between the pair, in either direction |
| Circle.Single | src/hooks/useCircle.ts:152 | data exactly when one row matched, and then that row |
| Circle.SingleInviteBlocks | src/hooks/useCircle.ts:146-159 | the check as written blocks a new invite only when a pending invite joins the pair |
| Circle.SingleCheckMissesPendingInvite | src/hooks/useCircle.ts:146-159 | with one pending and one declined invite between the pair, the check lets a second pending invite through |
| Circle.PendingCheckKeepsOnePerPair | src/hooks/useCircle.ts:146-165 | with the intended check, the insert keeps at most one pending invite per pair |
| Circle.SetStatus | src/hooks/useCircle.ts:194-197 | invites with the id take the status; all others are unchanged |
| Circle.WithId | src/hooks/useCircle.ts:185-189 | exactly the invites with the id |
| Circle.RemovePair | src/hooks/useCircle.ts:250-255 | exactly the connections not joining the two users, in either column order |
| Circle.RemovePairDropsExactlyThatMember | src/hooks/useCircle.ts:244-267 | after removal the member has left the user's circle and the user the member's; every other member stays |
| Circle.CircleHook.constructor | src/hooks/useCircle.ts:34-131 | mounting derives members, received and sent invites from the store |
| Circle.CircleHook.Refresh | src/hooks/useCircle.ts:34-127 | the lists are derived again from the unchanged store |
| Circle.CircleHook.SendInvite | src/hooks/useCircle.ts:133-177 | refused with no user or for a member; refused when the single-row lookup succeeds and finds a pending invite, but never when the lookup fails, since its error is not read; otherwise exactly one pending invite from the user is inserted; on refusal nothing changes; connections never change |
| Circle.CircleHook.AcceptInvite | src/hooks/useCircle.ts:179-222 | needs a user and exactly one invite with the id; the invite becomes accepted, then one connection in canonical order is added |
| Circle.CircleHook.DeclineInvite | src/hooks/useCircle.ts:224-242 | the invite becomes declined; no connection is created |
| Circle.CircleHook.RemoveConnection | src/hooks/useCircle.ts:244-267 | deletes exactly the connections joining the user and the member; the member then leaves the list |
| Recommendations.NoteOrNull | src/hooks/useRecommendations.ts:216 | null exactly when the note is missing or empty; otherwise the note |
| Recommendations.IncomingRecommendations | src/hooks/useRecommendations.ts:66-70 | exactly the recommendations addressed to the user, of any status |
| Recommendations.SentRecommendations | src/hooks/useRecommendations.ts:97-101 | exactly the recommendations the user sent |
| Recommendations.DirectRequests | src/hooks/useRecommendations.ts:113-118 | exactly the open requests naming the user, without repeats |
| Recommendations.BroadcastRequests | src/hooks/useRecommendations.ts:122-135 | exactly the open broadcasts from circle members (none for an empty circle), without repeats |
| Recommendations.OpenBroadcastsFrom | src/hooks/useRecommendations.ts:125-131 | the broadcast query: exactly the open requests with no recipient whose sender is listed, without repeats |
| Recommendations.IncomingRequestsExactly | src/hooks/useRecommendations.ts:109-156 | a request is listed exactly when it is open and names the user or is a broadcast from a member; no request is listed twice |
| Recommendations.IncomingRequests | src/hooks/useRecommendations.ts:138 | every listed request is an open request of the store |
| Recommendations.MyRequests | src/hooks/useRecommendations.ts:159-163 | exactly the user's own requests, of any status |
| Recommendations.BroadcastReachesSendersCircle | src/hooks/useRecommendations.ts:109-135 | with the derived member list, a broadcast reaches a user exactly when the user is in the sender's circle |
| Recommendations.SetRecStatus | src/hooks/useRecommendations.ts:235-238 | recommendations with the id take the status whatever it was; the others are unchanged |
| Recommendations.CloseWhereId | src/hooks/useRecommendations.ts:299-302 | requests with the id become closed; the others are unchanged |
| Recommendations.ClosedRequestNotIncoming | src/hooks/useRecommendations.ts:296-314 | a closed request drops out of every incoming list |
| Recommendations.RecommendationsHook.constructor | src/hooks/useRecommendations.ts:52-199 | mounting derives the four lists from the store |
| Recommendations.RecommendationsHook.Refresh | src/hooks/useRecommendations.ts:52-195 | the four lists are derived again from the unchanged store |
| Recommendations.RecommendationsHook.SendRecommendation | src/hooks/useRecommendations.ts:201-230 | with no user or a failed insert neither the store nor the four lists change; otherwise exactly one pending recommendation from the user is added, with an empty note stored as null, and the lists are derived again from the store |
| Recommendations.RecommendationsHook.MarkRecommendationAdded | src/hooks/useRecommendations.ts:232-250 | the recommendations with the id become added, from any status; on success the lists are derived again from the store; a failed update leaves the four lists as they were |
| Recommendations.RecommendationsHook.DismissRecommendation | src/hooks/useRecommendations.ts:252-270 | the recommendations with the id become dismissed, from any status; on success the lists are derived again from the store; a failed update leaves the four lists as they were |
| Recommendations.RecommendationsHook.RequestRecommendation | src/hooks/useRecommendations.ts:272-294 | with no user or a failed insert neither the store nor the four lists change; otherwise exactly one open request is added, to the named user or (with none) to the circle, and the lists are derived again from the store |
| Recommendations.RecommendationsHook.CloseRequest | src/hooks/useRecommendations.ts:296-314 | the requests with the id become closed and no other request changes; on success the lists are derived again from the store; a failed update leaves the four lists as they were |
| ProfileSetup.AllAllowed | src/components/ProfileSetup.tsx:26 | every character is in `[a-z0-9_]` |
| ProfileSetup.ValidateUsername | src/components/ProfileSetup.tsx:23-28 | no error exactly when the length is 3 to 20 and every character is allowed; too short exactly below 3; too long exactly above 20; bad characters exactly otherwise |
| ProfileSetup.LowerChar | src/components/ProfileSetup.tsx:93 | one or two characters; an allowed character is kept |
| ProfileSetup.ToLower | src/components/ProfileSetup.tsx:93 | lowercasing at most doubles the length |
| ProfileSetup.Strip | src/components/ProfileSetup.tsx:93 | only allowed characters, exactly the allowed ones of the input |
| ProfileSetup.Sanitise | src/components/ProfileSetup.tsx:93 | the result has only allowed characters and at most twice the input's length |
| ProfileSetup.LowerFixesAllowed | src/components/ProfileSetup.tsx:93 | lowercasing leaves an allowed string alone |
| ProfileSetup.StripFixesAllowed | src/components/ProfileSetup.tsx:93 | the strip leaves an allowed string alone |
| ProfileSetup.SanitiseFixesExactlyAllowed | src/components/ProfileSetup.tsx:93 | the sanitiser leaves a string alone exactly when it is all allowed characters |
| ProfileSetup.SanitiseIdempotent | src/components/ProfileSetup.tsx:93 | only allowed characters come out, and sanitising twice changes nothing |
| ProfileSetup.SanitiseKeepsLetters | src/components/ProfileSetup.tsx:93 | a name typed in ASCII letters, digits and underscores keeps its length, and each character comes out as its lower case (upper-case letters) or as itself (the rest); nothing is stripped |
| ProfileSetup.SanitisedNeverBadCharacters | src/components/ProfileSetup.tsx:23-28 | a typed username is never rejected for bad characters |
| ProfileSetup.ErrorAfterCheck | src/components/ProfileSetup.tsx:31-46 | a format error is shown as is; no error exactly when the format passes and the name is available; "taken" exactly when the format passes and it is not |
| ProfileSetup.Leading | src/components/ProfileSetup.tsx:50 | the leading whitespace, up to the first other character |
| ProfileSetup.Trailing | src/components/ProfileSetup.tsx:50 | the trailing whitespace, back to the last other character |
| ProfileSetup.Trim | src/components/ProfileSetup.tsx:50 | a contiguous part of the input that starts after the leading whitespace |
| ProfileSetup.TrimRemovesOnlyWhitespace | src/components/ProfileSetup.tsx:50 | empty exactly when the input is all whitespace; otherwise it starts and ends with other characters, and only whitespace follows it |
| ProfileSetup.TrimIdempotent | src/components/ProfileSetup.tsx:50 | trimming twice changes nothing |
| ProfileSetup.Submission | src/components/ProfileSetup.tsx:48-58 | `onComplete` is called exactly when there is no error, the username is non-empty and the display name has a non-whitespace character, with the username and the trimmed, non-empty display name |
| ProfileSetup.ButtonEnabledSubmits | src/components/ProfileSetup.tsx:145-147 | an enabled button means the submit goes through and no check or submit is running |
| ProfileSetup.ButtonEnabled | src/components/ProfileSetup.tsx:147 | enabled exactly when the submit guard passes and no check or submit is running |
| ProfileSetup.SubmittedNameIsValid | src/components/ProfileSetup.tsx:31-58 | once the check has answered, a submission goes out only for a well-formed, available name and a non-blank display name |

## Left out

- Supabase itself is not modelled: the query builder, the network, and the `loading` and `error` state. A failed call is a `false` outcome parameter, and error messages are not modelled.
- Each operation is atomic. Async interleaving, races between concurrent calls, and a stale `books`, `members` or `shelfItems` closure captured before another call finished are not modelled.
- Authentication and the page layout are not modelled: `src/app/page.tsx`, `useProfile`, `useBookSearch` (an HTTP client), `ReadingStats` (it reads the clock), and every presentational component.
- `useOtherUserShelf` (src/hooks/usePublicShelf.ts:161-215) is not part of this model. It is a two-query read of another user's shelf.
- The profile, invite and recommendation row converters are imported from a module that is not part of this model. Invites, connections, recommendations and requests are modelled directly in their record shape. Profile joins (`fromProfile`, `toProfile`) and the id lists built to look them up are left out.
- `created_at` ordering of the recommendation lists is not modelled: lists keep the store's order. Ties in the `order('position')` fetches are resolved by a stable sort over the store's order; SQL leaves them unspecified.
- Every hook's `if (!userId)` also rejects an empty string. The model treats only a missing user (`None`) as signed out, so a user id is assumed non-empty.
- Every fetch is assumed to succeed. The four hook constructors ensure `Synced()` (or, for `BooksHook`, the fetched list), so the mount fetch always loads the store. `CircleHook`, `ShelfHook` and `RecommendationsHook` also ensure `Synced()` after every successful write. In the source, `fetchBooks`, `fetchCircle`, `fetchShelf` and `fetchRecommendations` catch their own errors. A failed mount leaves the state empty and sets `error`; a failed refetch leaves the state stale while the write still returns true.
- `updated_at` triggers and column defaults are not modelled beyond `BlankRow`. Inserted ids come from the store and are parameters.
- Droppable ids are not parsed from strings. A drop target is a datatype (`priority-N` or a status list), so `parseInt` on a malformed id is not modelled.
- `handleRemove` (src/components/PublicShelfManager.tsx:41-45) only forwards to `removeFromShelf` and toggles a busy flag. The forwarded call is `PublicShelf.ShelfHook.RemoveFromShelf`.
- The 500 ms debounce of the availability check, and the cancellation of a pending check when the username changes, are not modelled. `ErrorAfterCheck` is the state once the last check answers, and `checking` and `submitting` are parameters of `ButtonEnabled`.
- `maxLength` on the display name and the length counted in UTF-16 code units are not modelled. Dafny strings are sequences of code points, so a character outside the BMP counts once here and twice in JavaScript.
- ProfileSetup.LowerChar: exact only for the characters whose lower case can survive the strip that follows: A-Z, the Kelvin sign and the capital I with dot above. Every other character is kept, which the strip then removes either way.
- Circle.StrLessTotal: string `<` is compared by code point rather than by UTF-16 code unit; the two orders differ only between characters above U+FFFF and U+E000-U+FFFF.
- BookList.PositionWrites: its contract states only the row count. `reorderBooks` sends the position writes in parallel (`Promise.all`, src/hooks/useBooksSupabase.ts:258-262); the model applies them one after another in list order. The resulting rows are stated by `PositionWritesSetIndex` when every write succeeds and the ids are distinct. With duplicate ids the source does not determine which of the concurrent writes lands last, so no lemma states that case.
- Silently ignored errors are modelled as outcome parameters that do not change the result:
  - the first write of `setPriority` (src/hooks/useBooksSupabase.ts:212-215);
  - the per-row writes of `reorderBooks` (src/hooks/useBooksSupabase.ts:258-262);
  - the eviction delete of `addToShelf` (src/hooks/usePublicShelf.ts:80-84);
  - the existing-invite lookup of `sendInvite` (src/hooks/useCircle.ts:146-152). A failed lookup blocks nothing, so a second pending invite can be inserted even when exactly one is pending (`lookupOk` of `CircleHook.SendInvite`).

Behaviour the model follows from the code, where a plain reading of the design would say otherwise:

- `updateBook` writes a `completedAt` the edit supplies, so an edit can change the completion date.
- `setPriority` accepts a book of any status. Only want-to-read books fill the "Up Next" slots, but a slot taken by a book of another status still clears the other holders.
- `moveBook` writes the given position without shifting other books, so two books of a bucket can share a position.
- Incoming recommendations are not filtered by status.
- A broadcast is shown to a user whose own member list contains the sender. `BroadcastReachesSendersCircle` proves that this is exactly the sender's circle.
- `handleSubmit`'s guard (src/components/ProfileSetup.tsx:50) does not check `checking` or `submitting`, unlike the button's `disabled` (src/components/ProfileSetup.tsx:147). The model states the two guards separately, in `Submission` and `ButtonEnabled`.

## Findings

| source | as written | input that shows it | evidently intended | confidence | as-written member | corrected member |
|---|---|---|---|---|---|---|
| src/components/ReadingBoard.tsx:69-79 | a drop inside the want-to-read list splices the whole bucket from `getBooksByStatus`, but the drag indices count only the unranked books rendered below the "Up Next" slots (src/components/sections/WantToReadSection.tsx:15) | bucket [p (slot 1, position 0), a (position 1), b (position 2)], rendered [a, b]; dragging a from index 0 to index 1 requests [a, p, b], so a stays before b | splice the ids of the rendered list, so the dragged book lands at its drop index | not executed | ReadingBoard.WantToReadDragMovesAnotherBook | ReadingBoard.CorrectedDropThenRender |
| src/hooks/usePublicShelf.ts:76-106 | the eviction deletes every row of the user at the position, including the book's own row when the book already sits there; the move then matches no row | shelf [(book x, position 2)]; `addToShelf(x, 2)` returns true and leaves the shelf empty | placing a book where it already is leaves it there | not executed | PublicShelf.SelfEvictionRemovesBook | PublicShelf.CorrectedPlacementShelvesBook |
| src/hooks/useCircle.ts:146-159 | the existing-invite check uses `.single()`, which yields no data unless exactly one invite joins the pair, so with two invites nothing blocks | invites [u→v pending, v→u declined]; u invites v again and a second pending invite is inserted | any pending invite between the pair blocks a new one | not executed | Circle.SingleCheckMissesPendingInvite | Circle.PendingCheckKeepsOnePerPair |
