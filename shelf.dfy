/**
 * The public shelf: up to five books a user shows on their profile, one
 * per position. The store's `public_shelf` table is a sequence of rows;
 * the hook keeps the user's rows, ordered by position, as `shelfItems`.
 */
module PublicShelf {
  import opened Wrappers
  import opened Types
  import opened Sorting

  datatype ShelfRow = ShelfRow(id: string, userId: string, bookId: string, position: int)

  /** A fetched shelf item: the row with its book joined in (absent when the join finds none). */
  datatype ShelfItem = ShelfItem(row: ShelfRow, book: Option<Book>)

  // ---------------------------------------------------------------------
  // Reading the shelf
  // ---------------------------------------------------------------------

  function OwnedBy(rows: seq<ShelfRow>, u: string): (r: seq<ShelfRow>)
    ensures forall x :: x in r <==> x in rows && x.userId == u
  {
    if rows == [] then []
    else (if rows[0].userId == u then [rows[0]] else []) + OwnedBy(rows[1..], u)
  }

  function RowPosition(x: ShelfRow): int { x.position }

  /** The joined book: the `books` row with that id. */
  function BookById(books: seq<DbBook>, id: string): (r: Option<Book>)
    ensures r.Some? <==> exists d :: d in books && d.id == id
    ensures r.Some? ==> r.value.id == id && exists d :: d in books && d.id == id && r.value == DbBookToBook(d)
  {
    if books == [] then None
    else if books[0].id == id then Some(DbBookToBook(books[0]))
    else BookById(books[1..], id)
  }

  function Rows(items: seq<ShelfItem>): (r: seq<ShelfRow>)
    ensures |r| == |items| && forall i :: 0 <= i < |items| ==> r[i] == items[i].row
  {
    seq(|items|, i requires 0 <= i < |items| => items[i].row)
  }

  /** Each row with its book joined in. */
  function Join(rows: seq<ShelfRow>, books: seq<DbBook>): (r: seq<ShelfItem>)
    ensures Rows(r) == rows
    ensures forall item :: item in r ==> item.book == BookById(books, item.row.bookId)
  {
    seq(|rows|, i requires 0 <= i < |rows| => ShelfItem(rows[i], BookById(books, rows[i].bookId)))
  }

  /** `fetchShelf`: exactly the user's rows, ordered by position, each with its book. */
  function Fetched(rows: seq<ShelfRow>, books: seq<DbBook>, u: string): (r: seq<ShelfItem>)
    ensures SortedBy(Rows(r), RowPosition)
    ensures multiset(Rows(r)) == multiset(OwnedBy(rows, u))
    ensures forall item :: item in r ==> item.book == BookById(books, item.row.bookId)
  {
    Join(SortBy(OwnedBy(rows, u), RowPosition), books)
  }

  /** `shelfItems.find((item) => item.position === position)` is found. */
  predicate AtPosition(items: seq<ShelfItem>, position: int) {
    exists item :: item in items && item.row.position == position
  }

  /** `shelfItems.find((item) => item.bookId === bookId)` is found. */
  predicate OnShelf(items: seq<ShelfItem>, bookId: string) {
    exists item :: item in items && item.row.bookId == bookId
  }

  /** The same two checks made against the store's rows of the user. */
  predicate Occupied(rows: seq<ShelfRow>, u: string, position: int) {
    exists x :: x in rows && x.userId == u && x.position == position
  }

  predicate Shelved(rows: seq<ShelfRow>, u: string, bookId: string) {
    exists x :: x in rows && x.userId == u && x.bookId == bookId
  }

  /** The fetched items carry exactly the user's rows. */
  lemma FetchedRowsAreOwned(rows: seq<ShelfRow>, books: seq<DbBook>, u: string)
    ensures forall x :: x in Rows(Fetched(rows, books, u)) <==> x in rows && x.userId == u
  {
    var mine := Rows(Fetched(rows, books, u));
    forall x ensures x in mine <==> x in multiset(OwnedBy(rows, u)) {
      assert x in mine <==> x in multiset(mine);
    }
  }

  /** On a freshly fetched shelf, the hook's checks agree with the store. */
  lemma FetchedChecksMatchStore(rows: seq<ShelfRow>, books: seq<DbBook>, u: string, position: int, bookId: string)
    ensures AtPosition(Fetched(rows, books, u), position) <==> Occupied(rows, u, position)
    ensures OnShelf(Fetched(rows, books, u), bookId) <==> Shelved(rows, u, bookId)
  {
    var items := Fetched(rows, books, u);
    var mine := Rows(items);
    FetchedRowsAreOwned(rows, books, u);
    assert forall item :: item in items ==> item.row in mine;
    assert forall i :: 0 <= i < |mine| ==> items[i] in items;
  }

  /** At most one of the user's rows per position, and at most one per book. */
  predicate WellFormed(rows: seq<ShelfRow>, u: string) {
    forall x, y :: x in rows && y in rows && x != y && x.userId == u && y.userId == u
      ==> x.position != y.position && x.bookId != y.bookId
  }

  // ---------------------------------------------------------------------
  // Store writes
  // ---------------------------------------------------------------------

  /** `delete().eq('user_id', u).eq('position', position)`. */
  function DeleteAt(rows: seq<ShelfRow>, u: string, position: int): (r: seq<ShelfRow>)
    ensures forall x :: x in r <==> x in rows && !(x.userId == u && x.position == position)
  {
    if rows == [] then []
    else (if rows[0].userId == u && rows[0].position == position then [] else [rows[0]])
         + DeleteAt(rows[1..], u, position)
  }

  /** `delete().eq('user_id', u).eq('book_id', bookId)`. */
  function DeleteBook(rows: seq<ShelfRow>, u: string, bookId: string): (r: seq<ShelfRow>)
    ensures forall x :: x in r <==> x in rows && !(x.userId == u && x.bookId == bookId)
  {
    if rows == [] then []
    else (if rows[0].userId == u && rows[0].bookId == bookId then [] else [rows[0]])
         + DeleteBook(rows[1..], u, bookId)
  }

  /** A row after the move: the user's row for the book takes the position. */
  function MoveRow(y: ShelfRow, u: string, bookId: string, position: int): ShelfRow {
    if y.userId == u && y.bookId == bookId then y.(position := position) else y
  }

  /** `update({ position }).eq('user_id', u).eq('book_id', bookId)`. */
  function MoveTo(rows: seq<ShelfRow>, u: string, bookId: string, position: int): (r: seq<ShelfRow>)
    ensures forall x :: x in r ==> exists y :: y in rows && x == MoveRow(y, u, bookId, position)
    ensures forall y :: y in rows ==> MoveRow(y, u, bookId, position) in r
  {
    if rows == [] then []
    else [MoveRow(rows[0], u, bookId, position)] + MoveTo(rows[1..], u, bookId, position)
  }

  /** A shelf with at most one row for the book still has at most one after the move. */
  lemma MoveToKeepsOneRowPerBook(rows: seq<ShelfRow>, u: string, bookId: string, position: int)
    requires forall x, y :: x in rows && y in rows && x.userId == u && y.userId == u && x.bookId == bookId && y.bookId == bookId ==> x == y
    ensures var r := MoveTo(rows, u, bookId, position);
      forall x, y :: x in r && y in r && x.userId == u && y.userId == u && x.bookId == bookId && y.bookId == bookId ==> x == y
  {
    var r := MoveTo(rows, u, bookId, position);
    forall x, y | x in r && y in r && x.userId == u && y.userId == u && x.bookId == bookId && y.bookId == bookId
      ensures x == y
    {
      var x0 :| x0 in rows && x == MoveRow(x0, u, bookId, position);
      var y0 :| y0 in rows && y == MoveRow(y0, u, bookId, position);
    }
  }

  /**
   * The store after a successful `addToShelf` on a shelf the hook has
   * just fetched, as written: every row of the user at the position is
   * deleted, then the book's row is moved there if the book was shelved,
   * else a new row is inserted.
   */
  function Placed(rows: seq<ShelfRow>, u: string, bookId: string, position: int, newId: string): (r: seq<ShelfRow>)
    ensures forall x :: x in r && x.userId != u <==> x in rows && x.userId != u
  {
    var evicted := if Occupied(rows, u, position) then DeleteAt(rows, u, position) else rows;
    if Shelved(rows, u, bookId) then
      var r := MoveTo(evicted, u, bookId, position);
      assert forall x :: x in r && x.userId != u ==> x in evicted by {
        forall x | x in r && x.userId != u ensures x in evicted {
          var y :| y in evicted && x == MoveRow(y, u, bookId, position);
        }
      }
      r
    else evicted + [ShelfRow(newId, u, bookId, position)]
  }

  /** Eviction leaves a well-formed shelf with nothing of the user's at the position. */
  lemma EvictionClearsPosition(rows: seq<ShelfRow>, u: string, position: int)
    requires WellFormed(rows, u)
    ensures var evicted := if Occupied(rows, u, position) then DeleteAt(rows, u, position) else rows;
      && WellFormed(evicted, u)
      && !Occupied(evicted, u, position)
      && forall x :: x in evicted ==> x in rows
  {
  }

  /** `addToShelf` keeps at most one row per position and per book. */
  lemma PlacedKeepsWellFormed(rows: seq<ShelfRow>, u: string, bookId: string, position: int, newId: string)
    requires WellFormed(rows, u)
    ensures WellFormed(Placed(rows, u, bookId, position, newId), u)
  {
    var evicted := if Occupied(rows, u, position) then DeleteAt(rows, u, position) else rows;
    EvictionClearsPosition(rows, u, position);
    if Shelved(rows, u, bookId) {
      MovedKeepsWellFormed(evicted, u, bookId, position);
    } else {
      InsertedKeepsWellFormed(evicted, ShelfRow(newId, u, bookId, position));
    }
  }

  /** Moving the user's row for a book to a free position keeps the shelf well formed. */
  lemma MovedKeepsWellFormed(rows: seq<ShelfRow>, u: string, bookId: string, position: int)
    requires WellFormed(rows, u) && !Occupied(rows, u, position)
    ensures WellFormed(MoveTo(rows, u, bookId, position), u)
  {
    var r := MoveTo(rows, u, bookId, position);
    MoveToKeepsOneRowPerBook(rows, u, bookId, position);
    forall x, y | x in r && y in r && x != y && x.userId == u && y.userId == u
      ensures x.position != y.position && x.bookId != y.bookId
    {
      var x0 :| x0 in rows && x == MoveRow(x0, u, bookId, position);
      var y0 :| y0 in rows && y == MoveRow(y0, u, bookId, position);
    }
  }

  /** Adding a row for a book the user has not shelved, at a free position, keeps the shelf well formed. */
  lemma InsertedKeepsWellFormed(rows: seq<ShelfRow>, row: ShelfRow)
    requires WellFormed(rows, row.userId) && !Occupied(rows, row.userId, row.position)
    requires !Shelved(rows, row.userId, row.bookId)
    ensures WellFormed(rows + [row], row.userId)
  {
    forall x, y | x in rows + [row] && y in rows + [row] && x != y && x.userId == row.userId && y.userId == row.userId
      ensures x.position != y.position && x.bookId != y.bookId
    {
      if x != row && y != row {
        assert x in rows && y in rows;
      } else if x != row {
        assert x in rows;
      } else {
        assert y in rows;
      }
    }
  }

  /**
   * For a book not already at the position, `addToShelf` leaves the book
   * at the position, and no other book of the user there.
   */
  lemma PlacedPutsBookAtPosition(rows: seq<ShelfRow>, u: string, bookId: string, position: int, newId: string)
    requires WellFormed(rows, u)
    requires !(exists x :: x in rows && x.userId == u && x.bookId == bookId && x.position == position)
    ensures var r := Placed(rows, u, bookId, position, newId);
      && (exists x :: x in r && x.userId == u && x.bookId == bookId && x.position == position)
      && forall x :: x in r && x.userId == u && x.position == position ==> x.bookId == bookId
  {
    var evicted := if Occupied(rows, u, position) then DeleteAt(rows, u, position) else rows;
    EvictionClearsPosition(rows, u, position);
    var r := Placed(rows, u, bookId, position, newId);
    if Shelved(rows, u, bookId) {
      var y :| y in rows && y.userId == u && y.bookId == bookId;
      assert y in evicted;
      assert MoveRow(y, u, bookId, position) in r;
      forall x | x in r && x.userId == u && x.position == position ensures x.bookId == bookId {
        var x0 :| x0 in evicted && x == MoveRow(x0, u, bookId, position);
      }
    } else {
      assert r[|r| - 1] == ShelfRow(newId, u, bookId, position);
    }
  }

  /**
   * A book already at the position evicts itself: the delete removes its
   * row, the move then matches nothing, and the book leaves the shelf.
   */
  lemma SelfEvictionRemovesBook(rows: seq<ShelfRow>, u: string, bookId: string, position: int, newId: string)
    requires WellFormed(rows, u)
    requires exists x :: x in rows && x.userId == u && x.bookId == bookId && x.position == position
    ensures !Shelved(Placed(rows, u, bookId, position, newId), u, bookId)
  {
    var y :| y in rows && y.userId == u && y.bookId == bookId && y.position == position;
    var evicted := DeleteAt(rows, u, position);
    assert forall x :: x in evicted ==> !(x.userId == u && x.bookId == bookId);
    var r := MoveTo(evicted, u, bookId, position);
    forall x | x in r ensures !(x.userId == u && x.bookId == bookId) {
      var x0 :| x0 in evicted && x == MoveRow(x0, u, bookId, position);
    }
  }

  /** The eviction evidently intended: only rows at the position holding another book. */
  function DeleteOthersAt(rows: seq<ShelfRow>, u: string, bookId: string, position: int): (r: seq<ShelfRow>)
    ensures forall x :: x in r <==> x in rows && !(x.userId == u && x.position == position && x.bookId != bookId)
  {
    if rows == [] then []
    else (if rows[0].userId == u && rows[0].position == position && rows[0].bookId != bookId then [] else [rows[0]])
         + DeleteOthersAt(rows[1..], u, bookId, position)
  }

  /** `addToShelf` with the book spared by the eviction. */
  function PlacedCorrected(rows: seq<ShelfRow>, u: string, bookId: string, position: int, newId: string): (r: seq<ShelfRow>)
    ensures forall x :: x in r && x.userId != u <==> x in rows && x.userId != u
  {
    var evicted := DeleteOthersAt(rows, u, bookId, position);
    if Shelved(rows, u, bookId) then
      var r := MoveTo(evicted, u, bookId, position);
      assert forall x :: x in r && x.userId != u ==> x in evicted by {
        forall x | x in r && x.userId != u ensures x in evicted {
          var y :| y in evicted && x == MoveRow(y, u, bookId, position);
        }
      }
      r
    else evicted + [ShelfRow(newId, u, bookId, position)]
  }

  /** With the corrected eviction the book always ends up at the position, alone there. */
  lemma CorrectedPlacementShelvesBook(rows: seq<ShelfRow>, u: string, bookId: string, position: int, newId: string)
    requires WellFormed(rows, u)
    ensures var r := PlacedCorrected(rows, u, bookId, position, newId);
      && (exists x :: x in r && x.userId == u && x.bookId == bookId && x.position == position)
      && forall x :: x in r && x.userId == u && x.position == position ==> x.bookId == bookId
  {
    var evicted := DeleteOthersAt(rows, u, bookId, position);
    var r := PlacedCorrected(rows, u, bookId, position, newId);
    if Shelved(rows, u, bookId) {
      var y :| y in rows && y.userId == u && y.bookId == bookId;
      assert y in evicted;
      assert MoveRow(y, u, bookId, position) in r;
      forall x | x in r && x.userId == u && x.position == position ensures x.bookId == bookId {
        var x0 :| x0 in evicted && x == MoveRow(x0, u, bookId, position);
      }
    } else {
      assert r[|r| - 1] == ShelfRow(newId, u, bookId, position);
    }
  }

  /** `removeFromShelf` takes the book off and keeps the shelf well formed. */
  lemma DeleteBookKeepsWellFormed(rows: seq<ShelfRow>, u: string, bookId: string)
    requires WellFormed(rows, u)
    ensures WellFormed(DeleteBook(rows, u, bookId), u)
    ensures !Shelved(DeleteBook(rows, u, bookId), u, bookId)
  {
  }

  // ---------------------------------------------------------------------
  // The hook
  // ---------------------------------------------------------------------

  class ShelfHook {
    /** The signed-in user, if any. */
    const userId: Option<string>
    /** The store's `books` table, read by the join. */
    const books: seq<DbBook>
    /** The store's `public_shelf` table. */
    var rows: seq<ShelfRow>
    /** The hook's state. */
    var shelfItems: seq<ShelfItem>

    predicate Synced()
      reads this
    {
      shelfItems == if userId.None? then [] else Fetched(rows, books, userId.value)
    }

    constructor (userId: Option<string>, books: seq<DbBook>, rows: seq<ShelfRow>)
      ensures this.userId == userId && this.books == books && this.rows == rows
      ensures Synced()
    {
      this.userId := userId;
      this.books := books;
      this.rows := rows;
      this.shelfItems := if userId.None? then [] else Fetched(rows, books, userId.value);
    }

    /** `fetchShelf`. */
    method Refresh()
      modifies this
      ensures rows == old(rows) && Synced()
    {
      shelfItems := if userId.None? then [] else Fetched(rows, books, userId.value);
    }

    /**
     * `addToShelf`: with no user nothing changes. Otherwise, when the
     * hook's items show the position taken, the user's rows there are
     * deleted (a failed delete is ignored); then the book's row is moved
     * there if the items show the book, else a new row is inserted. The
     * shelf is fetched again only when that last write succeeds.
     */
    method AddToShelf(bookId: string, position: int, evictOk: bool, newId: string, writeOk: bool) returns (added: bool)
      modifies this
      ensures added <==> userId.Some? && writeOk
      ensures userId.None? ==> rows == old(rows)
      ensures userId.Some? ==>
        var u := userId.value;
        var evicted := if AtPosition(old(shelfItems), position) && evictOk then DeleteAt(old(rows), u, position) else old(rows);
        rows == if !writeOk then evicted
                else if OnShelf(old(shelfItems), bookId) then MoveTo(evicted, u, bookId, position)
                else evicted + [ShelfRow(newId, u, bookId, position)]
      ensures added ==> Synced()
      ensures !added ==> shelfItems == old(shelfItems)
      ensures old(Synced()) && userId.Some? && evictOk && writeOk ==>
        rows == Placed(old(rows), userId.value, bookId, position, newId)
    {
      if userId.None? {
        return false;
      }
      var u := userId.value;
      FetchedChecksMatchStore(rows, books, u, position, bookId);
      if AtPosition(shelfItems, position) && evictOk {
        rows := DeleteAt(rows, u, position);
      }
      if !writeOk {
        return false;
      }
      if OnShelf(shelfItems, bookId) {
        rows := MoveTo(rows, u, bookId, position);
      } else {
        rows := rows + [ShelfRow(newId, u, bookId, position)];
      }
      Refresh();
      added := true;
    }

    /** `removeFromShelf`: deletes the user's rows for the book and leaves every other row. */
    method RemoveFromShelf(bookId: string, deleteOk: bool) returns (removed: bool)
      modifies this
      ensures removed <==> userId.Some? && deleteOk
      ensures rows == if removed then DeleteBook(old(rows), userId.value, bookId) else old(rows)
      ensures removed ==> Synced()
      ensures !removed ==> shelfItems == old(shelfItems)
    {
      if userId.None? || !deleteOk {
        return false;
      }
      rows := DeleteBook(rows, userId.value, bookId);
      Refresh();
      removed := true;
    }

    /** `reorderShelf` is `addToShelf`. */
    method ReorderShelf(bookId: string, position: int, evictOk: bool, newId: string, writeOk: bool) returns (moved: bool)
      modifies this
      ensures moved <==> userId.Some? && writeOk
      ensures userId.None? ==> rows == old(rows)
      ensures userId.Some? ==>
        var u := userId.value;
        var evicted := if AtPosition(old(shelfItems), position) && evictOk then DeleteAt(old(rows), u, position) else old(rows);
        rows == if !writeOk then evicted
                else if OnShelf(old(shelfItems), bookId) then MoveTo(evicted, u, bookId, position)
                else evicted + [ShelfRow(newId, u, bookId, position)]
      ensures moved ==> Synced()
      ensures !moved ==> shelfItems == old(shelfItems)
    {
      moved := AddToShelf(bookId, position, evictOk, newId, writeOk);
    }
  }
}
