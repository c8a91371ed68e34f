/**
 * The board's drag-and-drop handler: which hook call a drop turns into,
 * and the id list a same-list drop hands to `reorderBooks`.
 */
module ReadingBoard {
  import opened Wrappers
  import opened Types
  import opened Sorting
  import opened BookList

  /** A drop target: one of the three "Up Next" slots (`priority-N`) or a status list. */
  datatype Droppable = PrioritySlot(slot: int) | StatusList(status: BookStatus)

  /** Where a drag started or ended: the target and the index inside it. */
  datatype Location = Location(droppable: Droppable, index: nat)

  /** What the drag-and-drop library reports when a drag ends; no destination means "dropped outside". */
  datatype DropResult = DropResult(draggableId: string, source: Location, destination: Option<Location>)

  /** A call into the books hook, in the order the handler awaits them. */
  datatype Call =
    | SetPriorityCall(id: string, priority: Option<int>)
    | MoveBookCall(id: string, status: BookStatus, position: int)
    | ReorderCall(ids: seq<string>, status: BookStatus)

  function Min(a: int, b: int): int { if a <= b then a else b }

  /**
   * `const [removed] = s.splice(from, 1); s.splice(to, 0, removed)`: the
   * element at `from` is taken out and put back at `to` (the end when `to`
   * is past it). The result is a permutation and the moved element sits
   * at its new index; `SpliceMoveKeepsOrder` adds that every other element
   * keeps its relative order.
   */
  function SpliceMove<T>(s: seq<T>, from: nat, to: nat): (r: seq<T>)
    requires from < |s|
    ensures |r| == |s| && multiset(r) == multiset(s)
    ensures r[Min(to, |s| - 1)] == s[from]
  {
    var rest := s[..from] + s[from + 1..];
    var at := Min(to, |s| - 1);
    RemoveAt(s, from);
    InsertAt(rest, at, s[from]);
    rest[..at] + [s[from]] + rest[at..]
  }

  /** Every element other than the moved one keeps its relative order. */
  lemma SpliceMoveKeepsOrder<T>(s: seq<T>, from: nat, to: nat)
    requires from < |s|
    ensures var r := SpliceMove(s, from, to); var at := Min(to, |s| - 1);
      r[..at] + r[at + 1..] == s[..from] + s[from + 1..]
  {
    InsertAt(s[..from] + s[from + 1..], Min(to, |s| - 1), s[from]);
  }

  /** Taking out the element at index `k`. */
  lemma RemoveAt<T>(s: seq<T>, k: nat)
    requires k < |s|
    ensures multiset(s) == multiset(s[..k] + s[k + 1..]) + multiset{s[k]}
  {
    assert s == s[..k] + [s[k]] + s[k + 1..];
  }

  /** Inserting `x` at index `at` of `rest`. */
  lemma InsertAt<T>(rest: seq<T>, at: nat, x: T)
    requires at <= |rest|
    ensures var r := rest[..at] + [x] + rest[at..];
      && |r| == |rest| + 1 && r[at] == x
      && r[..at] + r[at + 1..] == rest
      && multiset(r) == multiset(rest) + multiset{x}
  {
    var r := rest[..at] + [x] + rest[at..];
    assert r[..at] == rest[..at] && r[at + 1..] == rest[at..];
    assert rest == rest[..at] + rest[at..];
  }

  /** Both ends of the drag are the same status list. */
  predicate SameList(d: DropResult) {
    && d.destination.Some?
    && d.source.droppable.StatusList?
    && d.destination.value.droppable == d.source.droppable
  }

  /**
   * `handleDragEnd`: the hook calls one drop makes. `books` is the hook's
   * list, from which a same-list drop reads `getBooksByStatus`. The
   * library only reports a source index of an item it rendered, so the
   * index is inside that list.
   */
  method HandleDragEnd(result: DropResult, books: seq<Book>) returns (calls: seq<Call>)
    requires SameList(result) ==> result.source.index < |OfStatus(books, result.source.droppable.status)|
    ensures result.destination.None? ==> calls == []
    ensures result.destination.Some? && result.destination.value.droppable.PrioritySlot? ==>
      calls == [SetPriorityCall(result.draggableId, Some(result.destination.value.droppable.slot))]
    ensures result.destination.Some? && result.destination.value.droppable.StatusList? && result.source.droppable.PrioritySlot? ==>
      var dest := result.destination.value;
      calls == [SetPriorityCall(result.draggableId, None)] +
               (if dest.droppable.status != WantToRead then [MoveBookCall(result.draggableId, dest.droppable.status, dest.index)] else [])
    ensures SameList(result) ==>
      var status := result.source.droppable.status;
      calls == [ReorderCall(SpliceMove(Ids(ByStatus(books, status)), result.source.index, result.destination.value.index), status)]
    ensures result.destination.Some? && result.destination.value.droppable.StatusList? && result.source.droppable.StatusList? && !SameList(result) ==>
      calls == [MoveBookCall(result.draggableId, result.destination.value.droppable.status, result.destination.value.index)]
  {
    if result.destination.None? {
      return [];
    }
    var source, dest, id := result.source, result.destination.value, result.draggableId;
    if dest.droppable.PrioritySlot? {
      return [SetPriorityCall(id, Some(dest.droppable.slot))];
    }
    if source.droppable.PrioritySlot? {
      calls := [SetPriorityCall(id, None)];
      if dest.droppable.status != WantToRead {
        calls := calls + [MoveBookCall(id, dest.droppable.status, dest.index)];
      }
      return;
    }
    if source.droppable == dest.droppable {
      var status := source.droppable.status;
      var listed := ByStatus(books, status);
      assert |listed| == |OfStatus(books, status)| by {
        assert |multiset(listed)| == |multiset(OfStatus(books, status))|;
      }
      var bookIds := Ids(listed);
      var removed := bookIds[source.index];
      bookIds := bookIds[..source.index] + bookIds[source.index + 1..];
      var at := if dest.index <= |bookIds| then dest.index else |bookIds|;
      bookIds := bookIds[..at] + [removed] + bookIds[at..];
      return [ReorderCall(bookIds, status)];
    }
    return [MoveBookCall(id, dest.droppable.status, dest.index)];
  }

  /** Taking the book at `k` out of a list takes its id out of the id list. */
  lemma {:induction false} IdsWithout(t: seq<Book>, k: nat)
    requires k < |t|
    ensures multiset(Ids(t)) == multiset(Ids(t[..k] + t[k + 1..])) + multiset{t[k].id}
  {
    assert t == t[..k] + ([t[k]] + t[k + 1..]);
    IdsConcat(t[..k], [t[k]] + t[k + 1..]);
    IdsConcat([t[k]], t[k + 1..]);
    IdsConcat(t[..k], t[k + 1..]);
  }

  lemma {:induction false} MultisetWithout<T>(t: seq<T>, k: nat)
    requires k < |t|
    ensures multiset(t[..k] + t[k + 1..]) == multiset(t) - multiset{t[k]}
  {
    assert t == t[..k] + [t[k]] + t[k + 1..];
  }

  /** Where the first element of a list sits in a permutation of it. */
  lemma {:induction false} Locate<T>(s: seq<T>, t: seq<T>) returns (k: nat)
    requires multiset(s) == multiset(t) && s != []
    ensures k < |t| && t[k] == s[0]
  {
    assert s[0] in multiset(s);
    k :| 0 <= k < |t| && t[k] == s[0];
  }

  /** Two lists of books that are permutations of each other have permuted id lists. */
  lemma {:induction false} MultisetIds(s: seq<Book>, t: seq<Book>)
    requires multiset(s) == multiset(t)
    ensures multiset(Ids(s)) == multiset(Ids(t))
  {
    if s != [] {
      var k := Locate(s, t);
      var t' := t[..k] + t[k + 1..];
      MultisetWithout(t, k);
      assert s == [s[0]] + s[1..];
      assert multiset(s[1..]) == multiset(t');
      MultisetIds(s[1..], t');
      IdsWithout(t, k);
      assert Ids(s) == [s[0].id] + Ids(s[1..]);
    }
  }

  /**
   * A drop inside one status list, listed again after `reorderBooks`,
   * shows the spliced order: the dragged book at its drop index and every
   * other book in its old order.
   */
  lemma {:induction false} DropWithinListThenList(books: seq<Book>, status: BookStatus, from: nat, to: nat)
    requires Distinct(Ids(OfStatus(books, status)))
    requires from < |OfStatus(books, status)|
    ensures var before := ByStatus(books, status);
      var ids := SpliceMove(Ids(before), from, to);
      var after := ByStatus(Reordered(books, ids, status), status);
      && Ids(after) == ids
      && after[Min(to, |ids| - 1)].id == before[from].id
  {
    var before := ByStatus(books, status);
    ListedIdsDistinct(books, status);
    SpliceKeepsDistinct(Ids(before), from, to);
    SpliceIdAtDrop(before, from, to);
    var ids := SpliceMove(Ids(before), from, to);
    ReorderThenList(books, ids, status);
    var after := ByStatus(Reordered(books, ids, status), status);
    assert after[Min(to, |ids| - 1)].id == Ids(after)[Min(to, |ids| - 1)];
  }

  /** The splice puts the dragged book's id at the drop index. */
  lemma SpliceIdAtDrop(before: seq<Book>, from: nat, to: nat)
    requires from < |before|
    ensures SpliceMove(Ids(before), from, to)[Min(to, |before| - 1)] == before[from].id
  {
    var s := Ids(before);
    assert |s| == |before| && s[from] == before[from].id;
  }

  // ---------------------------------------------------------------------
  // The want-to-read list as rendered
  // ---------------------------------------------------------------------

  /** `!book.priority`: no rank, or the rank 0 that JavaScript also treats as false. */
  predicate Unranked(b: Book) {
    !(b.priority.Rank? && b.priority.n != 0)
  }

  /** `books.filter((book) => !book.priority)`. */
  function UnrankedOf(books: seq<Book>): (r: seq<Book>)
    ensures forall b :: b in r <==> b in books && Unranked(b)
    ensures |r| <= |books|
  {
    if books == [] then []
    else (if Unranked(books[0]) then [books[0]] else []) + UnrankedOf(books[1..])
  }

  /** The want-to-read books the section renders below the slots; drag indices count these. */
  function Rendered(books: seq<Book>): (r: seq<Book>)
    ensures forall b :: b in r <==> b in books && b.status == WantToRead && Unranked(b)
    ensures SortedBy(r, Position)
  {
    var listed := ByStatus(books, WantToRead);
    assert forall b :: b in listed <==> b in multiset(OfStatus(books, WantToRead));
    UnrankedKeepsSorted(listed);
    UnrankedOf(listed)
  }

  lemma {:induction false} UnrankedCount(s: seq<Book>)
    ensures forall b :: multiset(UnrankedOf(s))[b] == if Unranked(b) then multiset(s)[b] else 0
  {
    if s != [] {
      UnrankedCount(s[1..]);
      assert s == [s[0]] + s[1..];
    }
  }

  lemma {:induction false} UnrankedKeepsSorted(s: seq<Book>)
    requires SortedBy(s, Position)
    ensures SortedBy(UnrankedOf(s), Position)
  {
    if s != [] {
      assert SortedBy(s[1..], Position);
      UnrankedKeepsSorted(s[1..]);
      var tail := UnrankedOf(s[1..]);
      forall x | x in tail ensures s[0].position <= x.position {
        var j :| 0 <= j < |s[1..]| && s[1..][j] == x;
        assert s[j + 1] == x;
      }
    }
  }

  lemma {:induction false} UnrankedKeepsIdsDistinct(s: seq<Book>)
    requires Distinct(Ids(s))
    ensures Distinct(Ids(UnrankedOf(s)))
  {
    if s != [] {
      DistinctIdsTail(s);
      UnrankedKeepsIdsDistinct(s[1..]);
      var tail := UnrankedOf(s[1..]);
      if Unranked(s[0]) {
        DistinctIdsCons(s[0], tail);
        assert UnrankedOf(s) == [s[0]] + tail;
      } else {
        assert UnrankedOf(s) == tail;
      }
    }
  }

  /** Without its head, a list with distinct ids still has distinct ids, none of them the head's. */
  lemma DistinctIdsTail(s: seq<Book>)
    requires s != [] && Distinct(Ids(s))
    ensures Distinct(Ids(s[1..]))
    ensures forall b :: b in s[1..] ==> b.id != s[0].id
  {
    forall i, j | 0 <= i < j < |s| - 1 ensures Ids(s[1..])[i] != Ids(s[1..])[j] {
      assert Ids(s)[i + 1] != Ids(s)[j + 1];
    }
    forall b | b in s[1..] ensures b.id != s[0].id {
      var k :| 0 <= k < |s[1..]| && s[1..][k] == b;
      assert Ids(s)[k + 1] == b.id && Ids(s)[0] == s[0].id;
    }
  }

  /** A book whose id is not among a list's distinct ids extends it with distinct ids. */
  lemma DistinctIdsCons(x: Book, tail: seq<Book>)
    requires Distinct(Ids(tail))
    requires forall b :: b in tail ==> b.id != x.id
    ensures Distinct(Ids([x] + tail))
  {
    var s := [x] + tail;
    forall i, j | 0 <= i < j < |s| ensures Ids(s)[i] != Ids(s)[j] {
      assert s[j] == tail[j - 1];
      if i > 0 {
        assert s[i] == tail[i - 1];
        assert Ids(tail)[i - 1] != Ids(tail)[j - 1];
      } else {
        assert s[j] in tail;
      }
    }
  }

  /** Rendering sorts then filters; as multisets that is the filter of the bucket. */
  lemma {:induction false} RenderedMultiset(books: seq<Book>)
    ensures multiset(Rendered(books)) == multiset(UnrankedOf(OfStatus(books, WantToRead)))
  {
    var listed := ByStatus(books, WantToRead);
    UnrankedCount(listed);
    UnrankedCount(OfStatus(books, WantToRead));
  }

  /** Two lists that differ at most in positions. */
  predicate Alike(s: seq<Book>, t: seq<Book>) {
    && |s| == |t|
    && forall i :: 0 <= i < |s| ==> s[i].id == t[i].id && s[i].status == t[i].status && s[i].priority == t[i].priority
  }

  lemma {:induction false} AlikeConcat(a: seq<Book>, b: seq<Book>, c: seq<Book>, d: seq<Book>)
    requires Alike(a, b) && Alike(c, d)
    ensures Alike(a + c, b + d)
  {
    forall i | 0 <= i < |a + c| ensures (a + c)[i].id == (b + d)[i].id && (a + c)[i].status == (b + d)[i].status && (a + c)[i].priority == (b + d)[i].priority {
      if i >= |a| {
        assert (a + c)[i] == c[i - |a|] && (b + d)[i] == d[i - |a|];
      }
    }
  }

  lemma {:induction false} AlikeTail(s: seq<Book>, t: seq<Book>)
    requires Alike(s, t) && s != []
    ensures Alike(s[1..], t[1..])
  {
    forall i | 0 <= i < |s| - 1 ensures s[1..][i].id == t[1..][i].id && s[1..][i].status == t[1..][i].status && s[1..][i].priority == t[1..][i].priority {
      assert s[1..][i] == s[i + 1] && t[1..][i] == t[i + 1];
    }
  }

  lemma {:induction false} AlikeOfStatus(s: seq<Book>, t: seq<Book>, status: BookStatus)
    requires Alike(s, t)
    ensures Alike(OfStatus(s, status), OfStatus(t, status))
  {
    if s != [] {
      AlikeTail(s, t);
      AlikeOfStatus(s[1..], t[1..], status);
      var h := if s[0].status == status then [s[0]] else [];
      var h' := if t[0].status == status then [t[0]] else [];
      assert OfStatus(s, status) == h + OfStatus(s[1..], status);
      assert OfStatus(t, status) == h' + OfStatus(t[1..], status);
      AlikeConcat(h, h', OfStatus(s[1..], status), OfStatus(t[1..], status));
    }
  }

  lemma {:induction false} AlikeUnranked(s: seq<Book>, t: seq<Book>)
    requires Alike(s, t)
    ensures Alike(UnrankedOf(s), UnrankedOf(t))
  {
    if s != [] {
      AlikeTail(s, t);
      AlikeUnranked(s[1..], t[1..]);
      var h := if Unranked(s[0]) then [s[0]] else [];
      var h' := if Unranked(t[0]) then [t[0]] else [];
      assert UnrankedOf(s) == h + UnrankedOf(s[1..]);
      assert UnrankedOf(t) == h' + UnrankedOf(t[1..]);
      AlikeConcat(h, h', UnrankedOf(s[1..]), UnrankedOf(t[1..]));
    }
  }

  lemma {:induction false} AlikeIds(s: seq<Book>, t: seq<Book>)
    requires Alike(s, t)
    ensures Ids(s) == Ids(t)
  {
  }

  /** Reordering changes only positions, so the unranked part of the bucket keeps its ids. */
  lemma {:induction false} ReorderedKeepsUnrankedIds(books: seq<Book>, ids: seq<string>, status: BookStatus)
    ensures Ids(UnrankedOf(OfStatus(Reordered(books, ids, status), status))) == Ids(UnrankedOf(OfStatus(books, status)))
  {
    var r := Reordered(books, ids, status);
    assert Alike(r, books);
    AlikeOfStatus(r, books, status);
    AlikeUnranked(OfStatus(r, status), OfStatus(books, status));
    AlikeIds(UnrankedOf(OfStatus(r, status)), UnrankedOf(OfStatus(books, status)));
  }

  /**
   * The order a want-to-read drop should request: the rendered ids with
   * the dragged one moved, so that `from` and `to` index the list they
   * were taken from.
   */
  function CorrectedWantToReadOrder(books: seq<Book>, from: nat, to: nat): (ids: seq<string>)
    requires from < |Rendered(books)|
    ensures multiset(ids) == multiset(Ids(Rendered(books)))
    ensures ids[Min(to, |ids| - 1)] == Rendered(books)[from].id
  {
    SpliceMove(Ids(Rendered(books)), from, to)
  }

  lemma {:induction false} InIds(s: seq<Book>, b: Book)
    requires b in s
    ensures b.id in Ids(s)
  {
    var j :| 0 <= j < |s| && s[j] == b;
    assert Ids(s)[j] == b.id;
  }

  /** The book a reordered one came from, at the same index. */
  lemma {:induction false} ReorderedOrigin(books: seq<Book>, ids: seq<string>, x: Book) returns (k: nat)
    requires x in OfStatus(Reordered(books, ids, WantToRead), WantToRead)
    ensures k < |books| && books[k].status == WantToRead && books[k].id == x.id && books[k].priority == x.priority
    ensures x == if x.id in ids then books[k].(position := IndexOf(ids, x.id)) else books[k]
  {
    var r := Reordered(books, ids, WantToRead);
    assert x in r;
    k :| 0 <= k < |r| && r[k] == x;
  }

  /** A book of the reordered, unranked bucket was requested and took its index in `ids`. */
  lemma {:induction false} ShownBookRequested(books: seq<Book>, ids: seq<string>, x: Book)
    requires multiset(ids) == multiset(Ids(UnrankedOf(OfStatus(books, WantToRead))))
    requires x in UnrankedOf(OfStatus(Reordered(books, ids, WantToRead), WantToRead))
    ensures x.id in ids && x.position == IndexOf(ids, x.id)
  {
    var shown := UnrankedOf(OfStatus(books, WantToRead));
    var k := ReorderedOrigin(books, ids, x);
    var b := books[k];
    assert b in OfStatus(books, WantToRead);
    assert b in shown;
    InIds(shown, b);
    assert b.id in multiset(Ids(shown));
  }

  /**
   * The corrected want-to-read drop does what the user sees: after
   * `reorderBooks`, the rendered list shows exactly the requested order
   * (the dragged book at its drop index, the others as before), at
   * positions 0, 1, 2, ..., whatever the ranked books' positions are.
   */
  lemma {:induction false} CorrectedDropThenRender(books: seq<Book>, from: nat, to: nat)
    requires Distinct(Ids(OfStatus(books, WantToRead)))
    requires from < |Rendered(books)|
    ensures var ids := CorrectedWantToReadOrder(books, from, to);
      var listed := Rendered(Reordered(books, ids, WantToRead));
      && Ids(listed) == ids
      && forall k :: 0 <= k < |listed| ==> listed[k].position == k
  {
    var ids := CorrectedWantToReadOrder(books, from, to);
    var r := Reordered(books, ids, WantToRead);
    var listed := Rendered(r);
    var shown := UnrankedOf(OfStatus(books, WantToRead));
    var shown' := UnrankedOf(OfStatus(r, WantToRead));
    UnrankedKeepsIdsDistinct(OfStatus(books, WantToRead));
    RenderedMultiset(books);
    MultisetIds(Rendered(books), shown);
    assert multiset(ids) == multiset(Ids(shown));
    DistinctByMultiset(Ids(shown), ids);
    RenderedMultiset(r);
    MultisetIds(listed, shown');
    ReorderedKeepsUnrankedIds(books, ids, WantToRead);
    assert multiset(Ids(listed)) == multiset(ids);
    DistinctByMultiset(ids, Ids(listed));
    assert |listed| == |ids| by {
      assert |multiset(Ids(listed))| == |multiset(ids)|;
    }
    UnrankedKeepsSorted(ByStatus(r, WantToRead));
    forall i | 0 <= i < |listed| ensures listed[i].id in ids && listed[i].position == IndexOf(ids, listed[i].id) {
      assert listed[i] in multiset(shown');
      ShownBookRequested(books, ids, listed[i]);
    }
    SortedAtIndices(listed, ids);
  }

  /**
   * The want-to-read drop as written: the indices the library reports
   * count the rendered books, `UnrankedOf(listed)`, but the handler
   * splices the whole bucket `listed` (`ByStatus(books, WantToRead)`, as
   * `HandleDragEnd` states), ranked books included. Whenever the bucket's
   * book at the drag index is ranked, the book put at the drop index is
   * not the one the user dragged. On a bucket [p, a, b] where `p` holds
   * slot 1, dragging `a` from index 0 to index 1 requests [a, p, b].
   */
  lemma WantToReadDragMovesAnotherBook(listed: seq<Book>, from: nat, to: nat)
    requires Distinct(Ids(listed))
    requires from < |UnrankedOf(listed)| && from < |listed|
    requires !Unranked(listed[from])
    ensures var ids := SpliceMove(Ids(listed), from, to);
      ids[Min(to, |ids| - 1)] != UnrankedOf(listed)[from].id
  {
    var dragged := UnrankedOf(listed)[from];
    assert dragged in UnrankedOf(listed);
    var j := IndexIn(listed, dragged);
    assert Unranked(listed[j]);
    assert Ids(listed)[j] != Ids(listed)[from];
    SpliceMovesAnother(Ids(listed), from, to, j, dragged.id);
  }

  /** An index at which an element of a list sits. */
  lemma IndexIn<T>(s: seq<T>, x: T) returns (j: nat)
    requires x in s
    ensures j < |s| && s[j] == x
  {
    j :| 0 <= j < |s| && s[j] == x;
  }

  /** The element spliced to the drop index is not one that differs from the dragged element. */
  lemma SpliceMovesAnother(s: seq<string>, from: nat, to: nat, j: nat, x: string)
    requires from < |s| && j < |s| && s[j] == x && s[j] != s[from]
    ensures var r := SpliceMove(s, from, to); r[Min(to, |r| - 1)] != x
  {
  }

  /** A bucket with distinct ids lists distinct ids. */
  lemma ListedIdsDistinct(books: seq<Book>, status: BookStatus)
    requires Distinct(Ids(OfStatus(books, status)))
    ensures Distinct(Ids(ByStatus(books, status)))
    ensures multiset(Ids(ByStatus(books, status))) == multiset(Ids(OfStatus(books, status)))
    ensures |ByStatus(books, status)| == |OfStatus(books, status)|
  {
    MultisetIds(ByStatus(books, status), OfStatus(books, status));
    DistinctByMultiset(Ids(OfStatus(books, status)), Ids(ByStatus(books, status)));
    assert |Ids(ByStatus(books, status))| == |Ids(OfStatus(books, status))| by {
      assert |multiset(Ids(ByStatus(books, status)))| == |multiset(Ids(OfStatus(books, status)))|;
    }
  }

  /** Splicing a list without repeats leaves it without repeats. */
  lemma SpliceKeepsDistinct(s: seq<string>, from: nat, to: nat)
    requires Distinct(s) && from < |s|
    ensures Distinct(SpliceMove(s, from, to))
  {
    DistinctByMultiset(s, SpliceMove(s, from, to));
  }
}
