/**
 * The public shelf editor: the five slots it draws from the fetched shelf
 * items, the want-to-read books it offers for an empty slot, and the call
 * it makes when one of them is picked.
 */
module ShelfManager {
  import opened Wrappers
  import opened Types
  import opened PublicShelf

  /** One drawn slot: `book` and `bookId` are `null` when nothing sits there. */
  datatype Slot = Slot(position: int, book: Option<Book>, bookId: Option<string>)

  /** `shelfItems.find((i) => i.position === position)`. */
  function FindAt(items: seq<ShelfItem>, position: int): (r: Option<ShelfItem>)
    ensures r.None? <==> !AtPosition(items, position)
    ensures r.Some? ==> r.value in items && r.value.row.position == position
    ensures r.Some? && |items| > 0 && items[0].row.position == position ==> r.value == items[0]
  {
    if items == [] then None
    else if items[0].row.position == position then Some(items[0])
    else FindAt(items[1..], position)
  }

  /** Finding returns the earliest item at the position. */
  lemma {:induction false} FindAtIsFirst(items: seq<ShelfItem>, position: int, k: nat)
    requires k < |items| && items[k].row.position == position
    requires forall j :: 0 <= j < k ==> items[j].row.position != position
    ensures FindAt(items, position) == Some(items[k])
  {
    if k > 0 {
      FindAtIsFirst(items[1..], position, k - 1);
    }
  }

  /** The slot at one position: `item?.book || null` and `item?.bookId || null`. */
  function SlotAt(items: seq<ShelfItem>, position: int): (r: Slot)
    ensures r.position == position
    ensures r.bookId.Some? ==> exists item :: item in items && item.row.position == position && item.row.bookId == r.bookId.value
    ensures !AtPosition(items, position) ==> r.book.None? && r.bookId.None?
  {
    var item := FindAt(items, position);
    Slot(position,
         if item.Some? then item.value.book else None,
         // An empty id is falsy, so it shows as `null` too.
         if item.Some? && item.value.row.bookId != [] then Some(item.value.row.bookId) else None)
  }

  /** `[1, 2, 3, 4, 5].map(...)`: one slot per shelf position, in order. */
  function Slots(items: seq<ShelfItem>): (r: seq<Slot>)
    ensures |r| == 5
    ensures forall k :: 0 <= k < 5 ==> r[k].position == k + 1
    ensures forall k :: 0 <= k < 5 && !AtPosition(items, k + 1) ==> r[k].book == None && r[k].bookId == None
    ensures forall k :: 0 <= k < 5 && r[k].book.Some? ==>
      exists item :: item in items && item.row.position == k + 1 && item.book == r[k].book
    ensures forall k :: 0 <= k < 5 && r[k].bookId.Some? ==>
      exists item :: item in items && item.row.position == k + 1 && item.row.bookId == r[k].bookId.value
  {
    [SlotAt(items, 1), SlotAt(items, 2), SlotAt(items, 3), SlotAt(items, 4), SlotAt(items, 5)]
  }

  /** Each slot shows the book of the earliest item at its position. */
  lemma SlotShowsFirstItem(items: seq<ShelfItem>, position: int, k: nat)
    requires 1 <= position <= 5
    requires k < |items| && items[k].row.position == position
    requires forall j :: 0 <= j < k ==> items[j].row.position != position
    ensures Slots(items)[position - 1].book == items[k].book
    ensures Slots(items)[position - 1].bookId == if items[k].row.bookId == [] then None else Some(items[k].row.bookId)
  {
    FindAtIsFirst(items, position, k);
    assert Slots(items)[position - 1] == SlotAt(items, position);
  }

  /** When every item at a position names the same book, the slot shows that book and its id. */
  lemma SlotShowsSoleBook(items: seq<ShelfItem>, position: int, bookId: string, book: Option<Book>)
    requires 1 <= position <= 5 && bookId != []
    requires AtPosition(items, position)
    requires forall item :: item in items && item.row.position == position ==> item.row.bookId == bookId && item.book == book
    ensures Slots(items)[position - 1].bookId == Some(bookId)
    ensures Slots(items)[position - 1].book == book
  {
    assert Slots(items)[position - 1] == SlotAt(items, position);
  }

  // ---------------------------------------------------------------------
  // The books offered for a slot
  // ---------------------------------------------------------------------

  /** `wantToReadBooks.filter((book) => !shelfItems.some((item) => item.bookId === book.id))`. */
  function Available(books: seq<Book>, items: seq<ShelfItem>): (r: seq<Book>)
    ensures forall b :: b in r <==> b in books && !OnShelf(items, b.id)
    ensures |r| <= |books|
  {
    if books == [] then []
    else (if OnShelf(items, books[0].id) then [] else [books[0]]) + Available(books[1..], items)
  }

  /** The filter keeps the books' order: it distributes over concatenation. */
  lemma {:induction false} AvailableKeepsOrder(s: seq<Book>, t: seq<Book>, items: seq<ShelfItem>)
    ensures Available(s + t, items) == Available(s, items) + Available(t, items)
  {
    if s == [] {
      assert s + t == t;
    } else {
      assert (s + t)[1..] == s[1..] + t;
      AvailableKeepsOrder(s[1..], t, items);
    }
  }

  /** With nothing on the shelf every want-to-read book is offered, in order. */
  lemma {:induction false} EmptyShelfOffersAll(books: seq<Book>)
    ensures Available(books, []) == books
  {
    if books != [] {
      EmptyShelfOffersAll(books[1..]);
      assert books == [books[0]] + books[1..];
    }
  }

  // ---------------------------------------------------------------------
  // Picking a book for the selected slot
  // ---------------------------------------------------------------------

  /** `onAddToShelf(bookId, position)`. */
  datatype AddCall = AddCall(bookId: string, position: int)

  /**
   * `handleSelectBook`: the call it makes, if any, and the slot selected
   * afterwards. With no slot selected it returns at once.
   */
  function SelectBook(selectingForSlot: Option<int>, bookId: string): (r: (Option<AddCall>, Option<int>))
    ensures r.0 == None <==> selectingForSlot == None
    ensures r.0.Some? ==> r.0.value.bookId == bookId && r.0.value.position == selectingForSlot.value
    ensures r.1 == None
  {
    match selectingForSlot
    case None => (None, None)
    case Some(position) => (Some(AddCall(bookId, position)), None)
  }

  /** Every fetched item carries one of the user's rows in the store. */
  lemma FetchedItemsAreOwned(rows: seq<ShelfRow>, books: seq<DbBook>, u: string)
    ensures forall item :: item in Fetched(rows, books, u) ==> item.row in rows && item.row.userId == u
  {
    var items := Fetched(rows, books, u);
    FetchedRowsAreOwned(rows, books, u);
    forall item | item in items
      ensures item.row in Rows(items)
    {
      var j :| 0 <= j < |items| && items[j] == item;
      assert Rows(items)[j] == item.row;
    }
  }

  /**
   * Picking one of the offered books for slot `position` and placing it
   * as `addToShelf` does makes the refetched slot show that book, and the
   * book is no longer offered. An offered book is not on the shelf, so the
   * eviction cannot take it off.
   */
  lemma OfferedBookFillsSlot(rows: seq<ShelfRow>, books: seq<DbBook>, u: string, position: int, picked: Book, newId: string, wantToRead: seq<Book>)
    requires WellFormed(rows, u)
    requires 1 <= position <= 5 && picked.id != []
    requires exists d :: d in books && d.id == picked.id
    requires picked in Available(wantToRead, Fetched(rows, books, u))
    ensures var call := SelectBook(Some(position), picked.id).0;
      call.Some? &&
      var items := Fetched(Placed(rows, u, call.value.bookId, call.value.position, newId), books, u);
      && Slots(items)[position - 1].bookId == Some(picked.id)
      && Slots(items)[position - 1].book.Some? && Slots(items)[position - 1].book.value.id == picked.id
      && picked !in Available(wantToRead, items)
  {
    FetchedChecksMatchStore(rows, books, u, position, picked.id);
    assert !Shelved(rows, u, picked.id);
    var r := Placed(rows, u, picked.id, position, newId);
    var items := Fetched(r, books, u);
    PlacedPutsBookAtPosition(rows, u, picked.id, position, newId);
    FetchedChecksMatchStore(r, books, u, position, picked.id);
    FetchedItemsAreOwned(r, books, u);
    SlotShowsSoleBook(items, position, picked.id, BookById(books, picked.id));
  }

  /**
   * Picking a book for slot `position` and placing it (with the
   * eviction that keeps the shelf's own book) makes the refetched slot
   * show that book, and the book is no longer offered.
   */
  lemma PickedBookFillsSlot(rows: seq<ShelfRow>, books: seq<DbBook>, u: string, position: int, picked: Book, newId: string, wantToRead: seq<Book>)
    requires WellFormed(rows, u)
    requires 1 <= position <= 5 && picked.id != []
    requires exists d :: d in books && d.id == picked.id
    ensures var call := SelectBook(Some(position), picked.id).0;
      call.Some? &&
      var items := Fetched(PlacedCorrected(rows, u, call.value.bookId, call.value.position, newId), books, u);
      && Slots(items)[position - 1].bookId == Some(picked.id)
      && Slots(items)[position - 1].book.Some? && Slots(items)[position - 1].book.value.id == picked.id
      && picked !in Available(wantToRead, items)
  {
    var r := PlacedCorrected(rows, u, picked.id, position, newId);
    var items := Fetched(r, books, u);
    CorrectedPlacementShelvesBook(rows, u, picked.id, position, newId);
    FetchedChecksMatchStore(r, books, u, position, picked.id);
    FetchedItemsAreOwned(r, books, u);
    SlotShowsSoleBook(items, position, picked.id, BookById(books, picked.id));
  }
}
