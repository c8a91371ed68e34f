/**
 * The book list manager: the hook's local `books` list and the store's
 * `books` table, and the operations that change both.
 *
 * Every store write takes its outcome as a parameter (`true` when the
 * store accepted it); the current time is the parameter `now`, and the id
 * the store gives an inserted row is the parameter `newId`.
 */
module BookList {
  import opened Wrappers
  import opened Types
  import opened Sorting

  // ---------------------------------------------------------------------
  // Queries over the local list
  // ---------------------------------------------------------------------

  /** `books.filter((b) => b.status === status)`. */
  function OfStatus(books: seq<Book>, status: BookStatus): (r: seq<Book>)
    ensures forall b :: b in r <==> b in books && b.status == status
    ensures |r| <= |books|
  {
    if books == [] then []
    else (if books[0].status == status then [books[0]] else []) + OfStatus(books[1..], status)
  }

  function Ids(books: seq<Book>): (r: seq<string>)
    ensures |r| == |books|
    ensures forall i :: 0 <= i < |books| ==> r[i] == books[i].id
  {
    if books == [] then [] else [books[0].id] + Ids(books[1..])
  }

  /** No two books share an id. */
  predicate UniqueIds(books: seq<Book>) {
    forall i, j :: 0 <= i < j < |books| ==> books[i].id != books[j].id
  }

  /** `books.find((b) => b.id === id)`. */
  function Find(books: seq<Book>, id: string): (r: Option<Book>)
    ensures r.None? <==> forall b :: b in books ==> b.id != id
    ensures r.Some? ==> r.value in books && r.value.id == id
    ensures r.Some? ==> exists i :: 0 <= i < |books| && books[i] == r.value && forall j :: 0 <= j < i ==> books[j].id != id
  {
    if books == [] then None
    else if books[0].id == id then Some(books[0])
    else
      var r := Find(books[1..], id);
      assert r.Some? ==> exists i :: 0 <= i < |books[1..]| && books[1..][i] == r.value && forall j :: 0 <= j < i ==> books[1..][j].id != id;
      if r.Some? then
        var i :| 0 <= i < |books[1..]| && books[1..][i] == r.value && forall j :: 0 <= j < i ==> books[1..][j].id != id;
        assert books[i + 1] == r.value && forall j :: 0 <= j < i + 1 ==> books[j].id != id;
        r
      else r
  }

  function MaxPosition(books: seq<Book>): (m: int)
    requires books != []
    ensures forall b :: b in books ==> b.position <= m
    ensures exists b :: b in books && b.position == m
  {
    if |books| == 1 then books[0].position
    else
      var rest := MaxPosition(books[1..]);
      assert forall b :: b in books[1..] ==> b in books;
      if books[0].position > rest then books[0].position else rest
  }

  /**
   * `getNextPosition`: 0 for an empty bucket, otherwise one more than the
   * largest position in the bucket.
   */
  function NextPosition(books: seq<Book>, status: BookStatus): (p: int)
    ensures OfStatus(books, status) == [] ==> p == 0
    ensures forall b :: b in books && b.status == status ==> b.position < p
    ensures OfStatus(books, status) != [] ==> exists b :: b in books && b.status == status && b.position == p - 1
  {
    var bucket := OfStatus(books, status);
    if bucket == [] then 0 else MaxPosition(bucket) + 1
  }

  function Position(b: Book): int { b.position }

  /** `getBooksByStatus`: the bucket, sorted by position (stably). */
  function ByStatus(books: seq<Book>, status: BookStatus): (r: seq<Book>)
    ensures SortedBy(r, Position)
    ensures multiset(r) == multiset(OfStatus(books, status))
  {
    SortBy(OfStatus(books, status), Position)
  }

  /** The book fills "Up Next" slot `k`. */
  predicate HoldsSlot(b: Book, k: int) {
    b.status == WantToRead && b.priority == Rank(k)
  }

  /** The last book of the list that fills slot `k`: later books overwrite earlier ones. */
  function LastInSlot(books: seq<Book>, k: int): (r: Option<Book>)
    ensures r.None? <==> forall b :: b in books ==> !HoldsSlot(b, k)
    ensures r.Some? ==> HoldsSlot(r.value, k)
    ensures r.Some? ==> exists i :: 0 <= i < |books| && books[i] == r.value
                          && forall j :: i < j < |books| ==> !HoldsSlot(books[j], k)
  {
    if books == [] then None
    else if HoldsSlot(books[|books| - 1], k) then Some(books[|books| - 1])
    else
      var init := books[..|books| - 1];
      assert books == init + [books[|books| - 1]];
      var r := LastInSlot(init, k);
      if r.Some? then
        var i :| 0 <= i < |init| && init[i] == r.value && forall j :: i < j < |init| ==> !HoldsSlot(init[j], k);
        assert books[i] == r.value && forall j :: i < j < |books| ==> !HoldsSlot(books[j], k);
        r
      else r
  }

  /** One more book: it takes the slot it holds, and leaves the others as they were. */
  lemma LastInSlotStep(books: seq<Book>, i: nat)
    requires i < |books|
    ensures forall k :: LastInSlot(books[..i + 1], k) == if HoldsSlot(books[i], k) then Some(books[i]) else LastInSlot(books[..i], k)
  {
    assert books[..i + 1][..i] == books[..i];
  }

  /** Every slot 1–3 is held by at most one book (of any status). */
  predicate SlotsExclusive(books: seq<Book>) {
    forall i, j :: 0 <= i < j < |books| && books[i].priority.Rank? && 1 <= books[i].priority.n <= 3
      ==> books[j].priority != books[i].priority
  }

  /** When slots are exclusive, the book in slot `k` is the one and only book filling it. */
  lemma {:induction false} SlotHolderIsUnique(books: seq<Book>, k: int, i: nat)
    requires SlotsExclusive(books) && 1 <= k <= 3
    requires i < |books| && HoldsSlot(books[i], k)
    ensures LastInSlot(books, k) == Some(books[i])
  {
    var r := LastInSlot(books, k);
    var i' :| 0 <= i' < |books| && books[i'] == r.value && forall j :: i' < j < |books| ==> !HoldsSlot(books[j], k);
    var mine, last := books[i], books[i'];
    assert i' < i ==> !HoldsSlot(mine, k);
    assert i < i' ==> last.priority != mine.priority;
  }

  // ---------------------------------------------------------------------
  // Local updates (the functions passed to `setBooks`)
  // ---------------------------------------------------------------------

  /** `prev.map((b) => (b.id === id ? book : b))`. */
  function ReplaceById(books: seq<Book>, id: string, book: Book): (r: seq<Book>)
    ensures |r| == |books|
    ensures forall i :: 0 <= i < |books| ==> r[i] == if books[i].id == id then book else books[i]
  {
    seq(|books|, i requires 0 <= i < |books| => if books[i].id == id then book else books[i])
  }

  /** `prev.filter((b) => b.id !== id)`. */
  function Without(books: seq<Book>, id: string): (r: seq<Book>)
    ensures forall b :: b in r <==> b in books && b.id != id
  {
    if books == [] then []
    else (if books[0].id != id then [books[0]] else []) + Without(books[1..], id)
  }

  /** Removing one id commutes with concatenation: the books that stay keep their order. */
  lemma {:induction false} WithoutConcat(a: seq<Book>, b: seq<Book>, id: string)
    ensures Without(a + b, id) == Without(a, id) + Without(b, id)
  {
    if a == [] {
      assert a + b == b;
    } else {
      assert (a + b)[1..] == a[1..] + b;
      WithoutConcat(a[1..], b, id);
    }
  }

  /** A list without the id is left as it was. */
  lemma {:induction false} WithoutAbsent(books: seq<Book>, id: string)
    requires forall b :: b in books ==> b.id != id
    ensures Without(books, id) == books
  {
    if books != [] {
      WithoutAbsent(books[1..], id);
    }
  }

  /** The local effect of `moveBook` on the book(s) with that id. */
  function Moved(books: seq<Book>, id: string, status: BookStatus, position: int, stamp: Option<string>): (r: seq<Book>)
    ensures |r| == |books|
    ensures forall i :: 0 <= i < |books| && books[i].id != id ==> r[i] == books[i]
    ensures forall i :: 0 <= i < |books| && books[i].id == id ==>
      && r[i].status == status && r[i].position == position
      && r[i].priority == (if status == WantToRead then books[i].priority else Undefined)
      && r[i].completedAt == (if stamp.Some? then stamp else books[i].completedAt)
      && r[i] == books[i].(status := r[i].status, position := r[i].position,
                           priority := r[i].priority, completedAt := r[i].completedAt)
  {
    seq(|books|, i requires 0 <= i < |books| =>
      var b := books[i];
      if b.id == id then
        b.(status := status,
           position := position,
           priority := if status == WantToRead then b.priority else Undefined,
           completedAt := if stamp.Some? then stamp else b.completedAt)
      else b)
  }

  /** The local effect of `setPriority`. */
  function WithPriority(books: seq<Book>, id: string, priority: Option<int>): (r: seq<Book>)
    ensures |r| == |books|
    ensures priority.Some? ==> forall i :: 0 <= i < |r| ==> (r[i].priority == Rank(priority.value) <==> books[i].id == id)
    ensures priority.Some? ==> forall i :: 0 <= i < |r| ==>
      r[i] == if books[i].id == id then books[i].(priority := Rank(priority.value))
              else if books[i].priority == Rank(priority.value) then books[i].(priority := Undefined)
              else books[i]
    ensures priority.None? ==> forall i :: 0 <= i < |r| ==> r[i] == if books[i].id == id then books[i].(priority := Null) else books[i]
  {
    seq(|books|, i requires 0 <= i < |books| =>
      var b := books[i];
      if b.id == id then b.(priority := if priority.Some? then Rank(priority.value) else Null)
      else if priority.Some? && b.priority == Rank(priority.value) then b.(priority := Undefined)
      else b)
  }

  /** With unique ids, `setPriority` keeps every slot held by at most one book. */
  lemma WithPriorityKeepsSlotsExclusive(books: seq<Book>, id: string, priority: Option<int>)
    requires UniqueIds(books) && SlotsExclusive(books)
    requires priority.Some? ==> 1 <= priority.value <= 3
    ensures SlotsExclusive(WithPriority(books, id, priority))
  {
    var r := WithPriority(books, id, priority);
    forall i, j | 0 <= i < j < |r| && r[i].priority.Rank? && 1 <= r[i].priority.n <= 3
      ensures r[j].priority != r[i].priority
    {
      if priority.Some? && r[i].priority == Rank(priority.value) {
        assert books[i].id == id;
        assert books[j].id != id;
      } else if priority.Some? && r[j].priority == Rank(priority.value) {
      } else {
        assert books[i].id != id;
      }
    }
  }

  /** `bookIds.indexOf(x)`: the first index of `x`, or -1. */
  function IndexOf(ids: seq<string>, x: string): (k: int)
    ensures -1 <= k < |ids|
    ensures k == -1 <==> x !in ids
    ensures k >= 0 ==> ids[k] == x && forall j :: 0 <= j < k ==> ids[j] != x
  {
    if ids == [] then -1
    else if ids[0] == x then 0
    else
      var k := IndexOf(ids[1..], x);
      if k == -1 then -1 else k + 1
  }

  /** The local effect of `reorderBooks`: listed books of that status take their list index as position. */
  function Reordered(books: seq<Book>, ids: seq<string>, status: BookStatus): (r: seq<Book>)
    ensures |r| == |books|
    ensures forall i :: 0 <= i < |books| ==>
      r[i] == if books[i].id in ids && books[i].status == status
              then books[i].(position := IndexOf(ids, books[i].id)) else books[i]
  {
    seq(|books|, i requires 0 <= i < |books| =>
      var k := IndexOf(ids, books[i].id);
      if k != -1 && books[i].status == status then books[i].(position := k) else books[i])
  }

  lemma IdsConcat(a: seq<Book>, b: seq<Book>)
    ensures Ids(a + b) == Ids(a) + Ids(b)
  {
    assert forall i :: 0 <= i < |a + b| ==> Ids(a + b)[i] == (Ids(a) + Ids(b))[i];
  }

  /** Reordering moves no book into or out of a bucket and keeps the bucket's order. */
  lemma {:induction false} ReorderedKeepsBucketIds(books: seq<Book>, ids: seq<string>, status: BookStatus)
    ensures Ids(OfStatus(Reordered(books, ids, status), status)) == Ids(OfStatus(books, status))
  {
    if books != [] {
      var r := Reordered(books, ids, status);
      assert r[1..] == Reordered(books[1..], ids, status);
      ReorderedKeepsBucketIds(books[1..], ids, status);
      var head := if r[0].status == status then [r[0]] else [];
      var head' := if books[0].status == status then [books[0]] else [];
      IdsConcat(head, OfStatus(r[1..], status));
      IdsConcat(head', OfStatus(books[1..], status));
      assert Ids(head) == Ids(head');
    }
  }

  lemma {:induction false} AtMostOnce<T>(a: seq<T>, x: T)
    requires Distinct(a)
    ensures multiset(a)[x] <= 1
  {
    if a != [] {
      assert a == [a[0]] + a[1..];
      assert forall j :: 0 <= j < |a[1..]| ==> a[1..][j] == a[j + 1];
      assert a[0] !in a[1..];
      AtMostOnce(a[1..], x);
    }
  }

  lemma TwiceCounted<T>(b: seq<T>, i: nat, j: nat)
    requires i < j < |b| && b[i] == b[j]
    ensures multiset(b)[b[i]] >= 2
  {
    assert b == b[..j] + [b[j]] + b[j + 1..];
    assert b[..j][i] == b[i];
  }

  /** A permutation of a sequence without repetitions has none either. */
  lemma DistinctByMultiset<T>(a: seq<T>, b: seq<T>)
    requires Distinct(a) && multiset(a) == multiset(b)
    ensures Distinct(b)
  {
    forall i, j | 0 <= i < j < |b| ensures b[i] != b[j] {
      if b[i] == b[j] {
        TwiceCounted(b, i, j);
        AtMostOnce(a, b[i]);
      }
    }
  }

  lemma {:induction false} PositionAtLeastIndex(s: seq<Book>, k: nat)
    requires k < |s|
    requires forall i, j :: 0 <= i < j < |s| ==> s[i].position < s[j].position
    requires forall i :: 0 <= i < |s| ==> 0 <= s[i].position
    ensures s[k].position >= k
  {
    if k > 0 {
      PositionAtLeastIndex(s, k - 1);
    }
  }

  lemma {:induction false} PositionAtMostIndex(s: seq<Book>, k: nat)
    requires k < |s|
    requires forall i, j :: 0 <= i < j < |s| ==> s[i].position < s[j].position
    requires forall i :: 0 <= i < |s| ==> s[i].position < |s|
    ensures s[k].position <= k
    decreases |s| - k
  {
    if k + 1 < |s| {
      PositionAtMostIndex(s, k + 1);
    }
  }

  /** After reordering, the bucket has one book per listed id, each at that id's index. */
  lemma ReorderedBucket(books: seq<Book>, ids: seq<string>, status: BookStatus)
    requires Distinct(ids)
    requires multiset(ids) == multiset(Ids(OfStatus(books, status)))
    ensures var after := OfStatus(Reordered(books, ids, status), status);
      && |after| == |ids|
      && Distinct(Ids(after))
      && forall x :: x in after ==> x.id in ids && x.position == IndexOf(ids, x.id)
  {
    var bucket := OfStatus(books, status);
    DistinctByMultiset(ids, Ids(bucket));
    BucketListed(books, ids, status);
    ReorderedKeepsBucketIds(books, ids, status);
    ReorderedPositions(books, ids, status);
    var after := OfStatus(Reordered(books, ids, status), status);
    assert Ids(after) == Ids(bucket);
    assert |Ids(bucket)| == |ids| by {
      assert |multiset(ids)| == |multiset(Ids(bucket))|;
    }
  }

  /** When `ids` is a permutation of the bucket's ids, every book of the bucket is listed. */
  lemma BucketListed(books: seq<Book>, ids: seq<string>, status: BookStatus)
    requires multiset(ids) == multiset(Ids(OfStatus(books, status)))
    ensures forall b :: b in books && b.status == status ==> b.id in ids
  {
    var bucket := OfStatus(books, status);
    forall b | b in books && b.status == status ensures b.id in ids {
      assert b in bucket;
      var j :| 0 <= j < |bucket| && bucket[j] == b;
      assert Ids(bucket)[j] == b.id;
      assert b.id in multiset(Ids(bucket));
    }
  }

  /** After reordering, a listed book of the bucket sits at its index in `ids`. */
  lemma ReorderedPositions(books: seq<Book>, ids: seq<string>, status: BookStatus)
    requires forall b :: b in books && b.status == status ==> b.id in ids
    ensures forall x :: x in OfStatus(Reordered(books, ids, status), status) ==> x.id in ids && x.position == IndexOf(ids, x.id)
  {
    var reordered := Reordered(books, ids, status);
    forall x | x in OfStatus(reordered, status) ensures x.id in ids && x.position == IndexOf(ids, x.id) {
      var i :| 0 <= i < |reordered| && reordered[i] == x;
      assert books[i] in books && books[i].status == status;
    }
  }

  /** Sorting a bucket whose ids are distinct leaves books with distinct ids. */
  lemma SortedKeepsIdsDistinct(after: seq<Book>)
    requires Distinct(Ids(after))
    ensures Distinct(Ids(SortBy(after, Position)))
  {
    var listed := SortBy(after, Position);
    assert Distinct(after) by {
      assert forall i :: 0 <= i < |after| ==> Ids(after)[i] == after[i].id;
    }
    DistinctByMultiset(after, listed);
    forall i, j | 0 <= i < j < |listed| ensures Ids(listed)[i] != Ids(listed)[j] {
      assert listed[i] in multiset(after) && listed[j] in multiset(after);
      var p :| 0 <= p < |after| && after[p] == listed[i];
      var q :| 0 <= q < |after| && after[q] == listed[j];
      assert p != q;
      assert Ids(after)[p] != Ids(after)[q];
    }
  }

  /** Sorted positions that come from distinct ids strictly increase. */
  lemma StrictlyIncreasing(listed: seq<Book>, ids: seq<string>)
    requires SortedBy(listed, Position) && Distinct(Ids(listed))
    requires forall i :: 0 <= i < |listed| ==> listed[i].id in ids && listed[i].position == IndexOf(ids, listed[i].id)
    ensures forall i, j :: 0 <= i < j < |listed| ==> listed[i].position < listed[j].position
  {
    forall i, j | 0 <= i < j < |listed| ensures listed[i].position < listed[j].position {
      assert Position(listed[i]) <= Position(listed[j]);
      assert Ids(listed)[i] != Ids(listed)[j];
      IndexOfInjective(ids, listed[i].id, listed[j].id);
    }
  }

  /** Two ids of the list at the same index are the same id. */
  lemma IndexOfInjective(ids: seq<string>, a: string, b: string)
    requires a in ids && b in ids && a != b
    ensures IndexOf(ids, a) != IndexOf(ids, b)
  {
  }

  /** Strictly increasing positions, all in `[0, |s|)`, are exactly `0, 1, 2, ...`. */
  lemma ConsecutivePositions(s: seq<Book>)
    requires forall i, j :: 0 <= i < j < |s| ==> s[i].position < s[j].position
    requires forall i :: 0 <= i < |s| ==> 0 <= s[i].position < |s|
    ensures forall k :: 0 <= k < |s| ==> s[k].position == k
  {
    forall k | 0 <= k < |s| ensures s[k].position == k {
      PositionAtLeastIndex(s, k);
      PositionAtMostIndex(s, k);
    }
  }

  /** Books at positions `0, 1, 2, ...`, each at its id's index in `ids`, carry `ids` in order. */
  lemma IdsFromPositions(listed: seq<Book>, ids: seq<string>)
    requires |listed| == |ids|
    requires forall k :: 0 <= k < |listed| ==> listed[k].position == k
    requires forall i :: 0 <= i < |listed| ==> listed[i].id in ids && listed[i].position == IndexOf(ids, listed[i].id)
    ensures Ids(listed) == ids
  {
    forall k | 0 <= k < |listed| ensures Ids(listed)[k] == ids[k] {
      assert ids[IndexOf(ids, listed[k].id)] == listed[k].id;
    }
  }

  /** Books sorted by position, with distinct ids, each at its id's index in `ids`, are `ids` in order. */
  lemma SortedAtIndices(listed: seq<Book>, ids: seq<string>)
    requires SortedBy(listed, Position) && Distinct(Ids(listed)) && |listed| == |ids|
    requires forall i :: 0 <= i < |listed| ==> listed[i].id in ids && listed[i].position == IndexOf(ids, listed[i].id)
    ensures Ids(listed) == ids
    ensures forall k :: 0 <= k < |listed| ==> listed[k].position == k
  {
    StrictlyIncreasing(listed, ids);
    assert forall i :: 0 <= i < |listed| ==> 0 <= listed[i].position < |listed|;
    ConsecutivePositions(listed);
    IdsFromPositions(listed, ids);
  }

  /**
   * Reordering a bucket and listing it again gives back the requested
   * order: when `ids` lists every book of the bucket once, the bucket
   * sorted by its new positions has exactly those ids, in that order, at
   * positions 0, 1, 2, ...
   */
  lemma ReorderThenList(books: seq<Book>, ids: seq<string>, status: BookStatus)
    requires Distinct(ids)
    requires multiset(ids) == multiset(Ids(OfStatus(books, status)))
    ensures var listed := ByStatus(Reordered(books, ids, status), status);
      && Ids(listed) == ids
      && forall k :: 0 <= k < |listed| ==> listed[k].position == k
  {
    var after := OfStatus(Reordered(books, ids, status), status);
    var listed := ByStatus(Reordered(books, ids, status), status);
    assert listed == SortBy(after, Position);
    ReorderedBucket(books, ids, status);
    SortedKeepsIdsDistinct(after);
    assert |listed| == |ids| by {
      assert |multiset(listed)| == |multiset(after)|;
    }
    forall i | 0 <= i < |listed| ensures listed[i].id in ids && listed[i].position == IndexOf(ids, listed[i].id) {
      assert listed[i] in multiset(listed);
      assert listed[i] in after;
    }
    SortedAtIndices(listed, ids);
  }

  // ---------------------------------------------------------------------
  // Payloads sent to the store
  // ---------------------------------------------------------------------

  /** The insert payload of `addBook`: the form's columns, then `position` and `completed_at` override. */
  function AddPayload(data: BookFormData, userId: string, position: int, now: string): (p: DbBookPatch)
    ensures PositionCol in p && p[PositionCol] == Number(position)
    ensures CompletedAtCol in p && p[CompletedAtCol] == if data.status == HaveRead then Text(now) else SqlNull
    ensures UserIdCol in p && p[UserIdCol] == Text(userId)
    ensures StatusCol in p && p[StatusCol] == StatusValue(data.status)
    ensures TitleCol in p && p[TitleCol] == Text(data.title)
    ensures AuthorCol in p && p[AuthorCol] == Text(data.author)
    ensures IdCol !in p && CreatedAtCol !in p && UpdatedAtCol !in p
    ensures forall c :: c != PositionCol && c != CompletedAtCol ==>
      && (c in p <==> c in BookToDbBook(FormFields(data, userId)))
      && (c in p ==> p[c] == BookToDbBook(FormFields(data, userId))[c])
  {
    BookToDbBook(FormFields(data, userId))[PositionCol := Number(position)]
      [CompletedAtCol := if data.status == HaveRead then Text(now) else SqlNull]
  }

  /** Whether `updateBook` adds `completed_at`: the edit sets `have_read` and the local book (if any) is not already read. */
  predicate StampsCompletion(books: seq<Book>, id: string, edit: BookFormEdit) {
    edit.status == Some(HaveRead) && (Find(books, id).None? || Find(books, id).value.status != HaveRead)
  }

  /** The update payload of `updateBook`. */
  function UpdatePayload(books: seq<Book>, id: string, edit: BookFormEdit, now: string): (p: DbBookPatch)
    ensures StampsCompletion(books, id, edit) ==> CompletedAtCol in p && p[CompletedAtCol] == Text(now)
    ensures !StampsCompletion(books, id, edit) ==> p == BookToDbBook(EditFields(edit))
    ensures forall c :: c != CompletedAtCol ==> (c in p <==> c in BookToDbBook(EditFields(edit)))
    ensures forall c :: c in p && c != CompletedAtCol ==> p[c] == BookToDbBook(EditFields(edit))[c]
  {
    var updates := BookToDbBook(EditFields(edit));
    if StampsCompletion(books, id, edit) then updates[CompletedAtCol := Text(now)] else updates
  }

  /** `completed_at` is stamped only on the transition into `have_read`. */
  predicate EntersHaveRead(book: Book, status: BookStatus) {
    status == HaveRead && book.status != HaveRead
  }

  /** The update payload of `moveBook` for the book found locally. */
  function MovePayload(book: Book, status: BookStatus, position: int, now: string): (p: DbBookPatch)
    ensures StatusCol in p && p[StatusCol] == StatusValue(status)
    ensures PositionCol in p && p[PositionCol] == Number(position)
    ensures PriorityCol in p <==> book.status == WantToRead && status != WantToRead
    ensures PriorityCol in p ==> p[PriorityCol] == SqlNull
    ensures CompletedAtCol in p <==> EntersHaveRead(book, status)
    ensures CompletedAtCol in p ==> p[CompletedAtCol] == Text(now)
    ensures p.Keys <= {StatusCol, PositionCol, PriorityCol, CompletedAtCol}
  {
    var updates := map[StatusCol := StatusValue(status), PositionCol := Number(position)];
    var updates := if book.status == WantToRead && status != WantToRead then updates[PriorityCol := SqlNull] else updates;
    if EntersHaveRead(book, status) then updates[CompletedAtCol := Text(now)] else updates
  }

  /**
   * Where `moveBook`'s store write and its local update disagree on priority:
   * locally the priority is dropped on every move to another list, in the
   * store only on a move out of `want_to_read`.
   */
  lemma MovePriorityDivergence(books: seq<Book>, i: nat, status: BookStatus, position: int, now: string)
    requires i < |books| && status != WantToRead
    ensures Moved(books, books[i].id, status, position, None)[i].priority == Undefined
    ensures PriorityCol in MovePayload(books[i], status, position, now) <==> books[i].status == WantToRead
  {
  }

  /** The value a priority argument is written as. */
  function PriorityColumnValue(priority: Option<int>): Value {
    if priority.Some? then Number(priority.value) else SqlNull
  }

  /** `books.find((b) => b.priority === priority && b.id !== id)`: the one other holder the store write clears. */
  function OtherHolder(books: seq<Book>, priority: int, id: string): (r: Option<Book>)
    ensures r.Some? ==> r.value in books && r.value.priority == Rank(priority) && r.value.id != id
    ensures r.None? <==> forall b :: b in books ==> b.priority != Rank(priority) || b.id == id
  {
    if books == [] then None
    else if books[0].priority == Rank(priority) && books[0].id != id then Some(books[0])
    else OtherHolder(books[1..], priority, id)
  }

  /**
   * `setPriority` clears one other holder in the store but every other
   * holder locally: with two other books in slot 1, the store write
   * clears only the first, and the local list clears both.
   */
  lemma SetPriorityStoreClearsOnlyFirstHolder(a: Book, b: Book, c: Book)
    requires a.priority == Rank(1) && b.priority == Rank(1)
    requires a.id != c.id && b.id != c.id && a.id != b.id
    ensures OtherHolder([a, b, c], 1, c.id) == Some(a)
    ensures WithPriority([a, b, c], c.id, Some(1))[0].priority == Undefined
    ensures WithPriority([a, b, c], c.id, Some(1))[1].priority == Undefined
  {
  }

  // ---------------------------------------------------------------------
  // The store's `books` table
  // ---------------------------------------------------------------------

  /** `update(p).eq('id', id)`. */
  function UpdateWhereId(rows: seq<DbBook>, id: string, p: DbBookPatch): (r: seq<DbBook>)
    ensures |r| == |rows|
    ensures forall i :: 0 <= i < |rows| ==> r[i] == if rows[i].id == id then ApplyPatch(rows[i], p) else rows[i]
  {
    seq(|rows|, i requires 0 <= i < |rows| => if rows[i].id == id then ApplyPatch(rows[i], p) else rows[i])
  }

  /** `delete().eq('id', id)`. */
  function DeleteWhereId(rows: seq<DbBook>, id: string): (r: seq<DbBook>)
    ensures forall d :: d in r <==> d in rows && d.id != id
  {
    if rows == [] then []
    else (if rows[0].id != id then [rows[0]] else []) + DeleteWhereId(rows[1..], id)
  }

  /** How many rows carry the id: `.single()` fails unless it is exactly one. */
  function CountId(rows: seq<DbBook>, id: string): nat {
    if rows == [] then 0 else (if rows[0].id == id then 1 else 0) + CountId(rows[1..], id)
  }

  /** The row with the id (the first, when `.single()` has checked there is one). */
  function FindRow(rows: seq<DbBook>, id: string): (r: Option<DbBook>)
    ensures r.Some? ==> r.value in rows && r.value.id == id
    ensures r.None? ==> CountId(rows, id) == 0
  {
    if rows == [] then None
    else if rows[0].id == id then Some(rows[0])
    else FindRow(rows[1..], id)
  }

  /** The column defaults the store fills in for an inserted row. */
  function BlankRow(id: string, now: string): DbBook {
    DbBook(id, "", "", "", None, WantToRead, None, None, None, None, None, 0, now, now, None, false)
  }

  /** The row `addBook` inserts, read back: the form's fields, the given id, owner, position and completion stamp. */
  lemma InsertedBook(data: BookFormData, u: string, position: int, newId: string, now: string)
    ensures var b := DbBookToBook(ApplyPatch(BlankRow(newId, now), AddPayload(data, u, position, now)));
      && b.id == newId && b.userId == u
      && b.title == data.title && b.author == data.author
      && b.status == data.status
      && b.position == position
      && b.completedAt == (if data.status == HaveRead then Some(now) else None)
  {
    var payload := AddPayload(data, u, position, now);
    var inserted := ApplyPatch(BlankRow(newId, now), payload);
    assert inserted.id == newId && inserted.userId == u;
    assert inserted.title == data.title && inserted.author == data.author;
    assert inserted.status == data.status && inserted.position == position;
    assert inserted.completedAt == if data.status == HaveRead then Some(now) else None;
  }

  /** A form column of the `addBook` payload: set exactly when the form gives it a value, and to that value. */
  lemma AddPayloadColumn(data: BookFormData, u: string, position: int, now: string, c: Column)
    requires c != PositionCol && c != CompletedAtCol
    ensures var p := AddPayload(data, u, position, now);
      && (c in p <==> FieldValue(FormFields(data, u), c).Some?)
      && (c in p ==> p[c] == FieldValue(FormFields(data, u), c).value)
  {
  }

  /** The free-text fields of the row `addBook` inserts: as entered, and the row is not public. */
  lemma InsertedBookNotes(data: BookFormData, u: string, position: int, newId: string, now: string)
    ensures var b := DbBookToBook(ApplyPatch(BlankRow(newId, now), AddPayload(data, u, position, now)));
      && b.notes == data.notes && b.recommendedBy == data.recommendedBy
      && !b.isPublic
  {
    InsertedNotes(data, u, position, newId, now);
    InsertedRecommendedBy(data, u, position, newId, now);
    AddPayloadColumn(data, u, position, now, IsPublicCol);
  }

  /** One optional form column of the row `addBook` inserts: stored as entered. */
  lemma InsertedNotes(data: BookFormData, u: string, position: int, newId: string, now: string)
    ensures ApplyPatch(BlankRow(newId, now), AddPayload(data, u, position, now)).notes == data.notes
  {
    var p := AddPayload(data, u, position, now);
    AddPayloadColumn(data, u, position, now, NotesCol);
    if data.notes.Some? {
      assert p[NotesCol] == Text(data.notes.value);
    } else {
      assert NotesCol !in p;
    }
  }

  /** One optional form column of the row `addBook` inserts: stored as entered. */
  lemma InsertedRecommendedBy(data: BookFormData, u: string, position: int, newId: string, now: string)
    ensures ApplyPatch(BlankRow(newId, now), AddPayload(data, u, position, now)).recommendedBy == data.recommendedBy
  {
    var p := AddPayload(data, u, position, now);
    AddPayloadColumn(data, u, position, now, RecommendedByCol);
    if data.recommendedBy.Some? {
      assert p[RecommendedByCol] == Text(data.recommendedBy.value);
    } else {
      assert RecommendedByCol !in p;
    }
  }

  /** The priority of the row `addBook` inserts: as entered, an unset one stored as null. */
  lemma InsertedBookPriority(data: BookFormData, u: string, position: int, newId: string, now: string)
    ensures DbBookToBook(ApplyPatch(BlankRow(newId, now), AddPayload(data, u, position, now))).priority
      == if data.priority == Undefined then Null else data.priority
  {
    var p := AddPayload(data, u, position, now);
    var inserted := ApplyPatch(BlankRow(newId, now), p);
    AddPayloadColumn(data, u, position, now, PriorityCol);
    match data.priority
    case Undefined =>
      assert inserted.priority == None;
    case Null =>
      assert p[PriorityCol] == SqlNull;
      assert inserted.priority == None;
    case Rank(n) =>
      assert p[PriorityCol] == Number(n);
      assert inserted.priority == Some(n);
  }

  /** The format fields of the row `addBook` inserts: as entered. */
  lemma InsertedBookFormat(data: BookFormData, u: string, position: int, newId: string, now: string)
    ensures var b := DbBookToBook(ApplyPatch(BlankRow(newId, now), AddPayload(data, u, position, now)));
      && b.consumptionType == data.consumptionType && b.listenPlatform == data.listenPlatform && b.readFormat == data.readFormat
  {
    InsertedConsumptionType(data, u, position, newId, now);
    InsertedListenPlatform(data, u, position, newId, now);
    InsertedReadFormat(data, u, position, newId, now);
  }

  /** One optional form column of the row `addBook` inserts: stored as entered. */
  lemma InsertedConsumptionType(data: BookFormData, u: string, position: int, newId: string, now: string)
    ensures ApplyPatch(BlankRow(newId, now), AddPayload(data, u, position, now)).consumptionType == data.consumptionType
  {
    var p := AddPayload(data, u, position, now);
    AddPayloadColumn(data, u, position, now, ConsumptionTypeCol);
    if data.consumptionType.Some? {
      assert p[ConsumptionTypeCol] == ConsumptionValue(data.consumptionType.value);
    } else {
      assert ConsumptionTypeCol !in p;
    }
  }

  /** One optional form column of the row `addBook` inserts: stored as entered. */
  lemma InsertedListenPlatform(data: BookFormData, u: string, position: int, newId: string, now: string)
    ensures ApplyPatch(BlankRow(newId, now), AddPayload(data, u, position, now)).listenPlatform == data.listenPlatform
  {
    var p := AddPayload(data, u, position, now);
    AddPayloadColumn(data, u, position, now, ListenPlatformCol);
    if data.listenPlatform.Some? {
      assert p[ListenPlatformCol] == PlatformValue(data.listenPlatform.value);
    } else {
      assert ListenPlatformCol !in p;
    }
  }

  /** One optional form column of the row `addBook` inserts: stored as entered. */
  lemma InsertedReadFormat(data: BookFormData, u: string, position: int, newId: string, now: string)
    ensures ApplyPatch(BlankRow(newId, now), AddPayload(data, u, position, now)).readFormat == data.readFormat
  {
    var p := AddPayload(data, u, position, now);
    AddPayloadColumn(data, u, position, now, ReadFormatCol);
    if data.readFormat.Some? {
      assert p[ReadFormatCol] == FormatValue(data.readFormat.value);
    } else {
      assert ReadFormatCol !in p;
    }
  }

  /** The book `updateBook` reads back keeps its id and, on entering `have_read`, carries the stamp. */
  lemma UpdatedBook(row: DbBook, books: seq<Book>, edit: BookFormEdit, now: string)
    ensures var b := DbBookToBook(ApplyPatch(row, UpdatePayload(books, row.id, edit, now)));
      && b.id == row.id
      && (StampsCompletion(books, row.id, edit) ==> b.completedAt == Some(now))
  {
    var payload := UpdatePayload(books, row.id, edit, now);
    var changed := ApplyPatch(row, payload);
    assert IdCol !in payload;
    assert changed.id == row.id;
    if StampsCompletion(books, row.id, edit) {
      assert changed.completedAt == Some(now);
    }
  }

  function RowPosition(d: DbBook): int { d.position }

  /** The store after the first `n` position writes of `reorderBooks`, applied in list order though the source sends them concurrently (a failed write changes nothing). */
  function PositionWrites(rows: seq<DbBook>, ids: seq<string>, oks: seq<bool>, n: nat): (r: seq<DbBook>)
    requires n <= |ids| == |oks|
    ensures |r| == |rows|
  {
    if n == 0 then rows
    else
      var before := PositionWrites(rows, ids, oks, n - 1);
      if oks[n - 1] then UpdateWhereId(before, ids[n - 1], map[PositionCol := Number(n - 1)]) else before
  }

  /** A position-only payload changes the position and nothing else. */
  lemma SetPositionOnly(d: DbBook, k: int)
    ensures ApplyPatch(d, map[PositionCol := Number(k)]) == d.(position := k)
  {
    var p := map[PositionCol := Number(k)];
    ApplyPatchSets(d, p);
    assert forall c :: ColumnValue(ApplyPatch(d, p), c) == ColumnValue(d.(position := k), c);
    ColumnsDetermineRow(ApplyPatch(d, p), d.(position := k));
  }

  /**
   * When every write succeeds and the ids are distinct, `reorderBooks`
   * gives each row whose id is listed its list index as position —
   * whatever the row's status, unlike the local update, which only
   * repositions books of the requested status.
   */
  lemma {:induction false} PositionWritesSetIndex(rows: seq<DbBook>, ids: seq<string>, oks: seq<bool>, n: nat)
    requires n <= |ids| == |oks| && Distinct(ids)
    requires forall k :: 0 <= k < n ==> oks[k]
    ensures forall i :: 0 <= i < |rows| ==>
      PositionWrites(rows, ids, oks, n)[i] ==
        if rows[i].id in ids[..n] then rows[i].(position := IndexOf(ids, rows[i].id)) else rows[i]
  {
    if n > 0 {
      PositionWritesSetIndex(rows, ids, oks, n - 1);
      var before := PositionWrites(rows, ids, oks, n - 1);
      forall i | 0 <= i < |rows|
        ensures PositionWrites(rows, ids, oks, n)[i] ==
          if rows[i].id in ids[..n] then rows[i].(position := IndexOf(ids, rows[i].id)) else rows[i]
      {
        assert ids[..n] == ids[..n - 1] + [ids[n - 1]];
        if rows[i].id == ids[n - 1] {
          assert rows[i].id !in ids[..n - 1];
          SetPositionOnly(before[i], n - 1);
        }
      }
    }
  }

  // ---------------------------------------------------------------------
  // The hook
  // ---------------------------------------------------------------------

  /** What `fetchBooks` loads: the user's rows ordered by position, converted. */
  function Fetched(rows: seq<DbBook>, userId: Option<string>): (r: seq<Book>)
    ensures userId.None? ==> r == []
    ensures userId.Some? ==> SortedBy(r, Position) && forall b :: b in r ==> b.userId == userId.value
    ensures userId.Some? ==> forall d :: d in rows && d.userId == userId.value ==> DbBookToBook(d) in r
    ensures userId.Some? ==> |r| == |OwnedBy(rows, userId.value)|
    ensures userId.Some? ==> forall b :: b in r ==> exists d :: d in rows && d.userId == userId.value && b == DbBookToBook(d)
  {
    if userId.None? then []
    else
      var mine := SortBy(OwnedBy(rows, userId.value), RowPosition);
      var r := Converted(mine);
      ConvertedKeepsRows(rows, userId.value, mine, r);
      r
  }

  /** Every row converted by `dbBookToBook`, in order. */
  function Converted(ds: seq<DbBook>): (r: seq<Book>)
    ensures |r| == |ds| && forall i :: 0 <= i < |ds| ==> r[i] == DbBookToBook(ds[i])
  {
    seq(|ds|, i requires 0 <= i < |ds| => DbBookToBook(ds[i]))
  }

  lemma ConvertedKeepsRows(rows: seq<DbBook>, u: string, mine: seq<DbBook>, r: seq<Book>)
    requires SortedBy(mine, RowPosition) && multiset(mine) == multiset(OwnedBy(rows, u))
    requires |mine| == |OwnedBy(rows, u)|
    requires r == Converted(mine)
    ensures SortedBy(r, Position) && forall b :: b in r ==> b.userId == u
    ensures forall d :: d in rows && d.userId == u ==> DbBookToBook(d) in r
    ensures |r| == |OwnedBy(rows, u)|
    ensures forall b :: b in r ==> exists d :: d in rows && d.userId == u && b == DbBookToBook(d)
  {
    forall b | b in r
      ensures b.userId == u && exists d :: d in rows && d.userId == u && b == DbBookToBook(d)
    {
      var i :| 0 <= i < |r| && r[i] == b;
      assert mine[i] in multiset(OwnedBy(rows, u));
      assert mine[i] in OwnedBy(rows, u);
    }
    forall d | d in rows && d.userId == u
      ensures DbBookToBook(d) in r
    {
      assert d in multiset(mine);
      var i :| 0 <= i < |mine| && mine[i] == d;
      assert r[i] == DbBookToBook(d);
    }
  }

  function OwnedBy(rows: seq<DbBook>, userId: string): (r: seq<DbBook>)
    ensures forall d :: d in r <==> d in rows && d.userId == userId
  {
    if rows == [] then []
    else (if rows[0].userId == userId then [rows[0]] else []) + OwnedBy(rows[1..], userId)
  }

  class BooksHook {
    /** The signed-in user, if any. */
    const userId: Option<string>
    /** The hook's `books` state. */
    var books: seq<Book>
    /** The store's `books` table (every user's rows). */
    var rows: seq<DbBook>

    /** Mounting the hook runs `fetchBooks`. */
    constructor (userId: Option<string>, rows: seq<DbBook>)
      ensures this.userId == userId && this.rows == rows
      ensures books == Fetched(rows, userId)
    {
      this.userId := userId;
      this.rows := rows;
      this.books := Fetched(rows, userId);
    }

    /** `getPriorityBooks`: three slots, each filled by the last want-to-read book holding that priority. */
    method GetPriorityBooks() returns (slots: seq<Option<Book>>)
      ensures |slots| == 3
      ensures forall k :: 0 <= k < 3 ==> slots[k] == LastInSlot(books, k + 1)
      ensures forall k :: 0 <= k < 3 && slots[k].Some? ==> slots[k].value in books && HoldsSlot(slots[k].value, k + 1)
    {
      var a := new Option<Book>[3](_ => None);
      var i := 0;
      while i < |books|
        invariant 0 <= i <= |books|
        invariant forall k :: 1 <= k <= 3 ==> a[k - 1] == LastInSlot(books[..i], k)
      {
        var b := books[i];
        LastInSlotStep(books, i);
        if b.status == WantToRead && b.priority.Rank? && b.priority.n != 0 {
          if 1 <= b.priority.n <= 3 {
            a[b.priority.n - 1] := Some(b);
          }
        }
        i := i + 1;
      }
      assert books[..i] == books;
      slots := a[..];
    }

    /** `addBook`: with no user, or when the insert fails, nothing changes. */
    method AddBook(data: BookFormData, now: string, newId: string, insertOk: bool) returns (added: Option<Book>)
      modifies this
      ensures added.Some? <==> userId.Some? && insertOk
      ensures added.None? ==> books == old(books) && rows == old(rows)
      ensures added.Some? ==>
        var inserted := ApplyPatch(BlankRow(newId, now), AddPayload(data, userId.value, NextPosition(old(books), data.status), now));
        && rows == old(rows) + [inserted]
        && added.value == DbBookToBook(inserted)
        && books == old(books) + [added.value]
      ensures added.Some? ==>
        && added.value.id == newId && added.value.userId == userId.value
        && added.value.title == data.title && added.value.author == data.author
        && added.value.status == data.status
        && added.value.position == NextPosition(old(books), data.status)
        && added.value.completedAt == (if data.status == HaveRead then Some(now) else None)
    {
      if userId.None? {
        return None;
      }
      var position := NextPosition(books, data.status);
      var payload := AddPayload(data, userId.value, position, now);
      if !insertOk {
        return None;
      }
      var inserted := ApplyPatch(BlankRow(newId, now), payload);
      InsertedBook(data, userId.value, position, newId, now);
      rows := rows + [inserted];
      var book := DbBookToBook(inserted);
      books := books + [book];
      added := Some(book);
    }

    /**
     * `updateBook`: the store applies the payload to every row with the id;
     * the call succeeds, and the local book is replaced, only when exactly
     * one row matched.
     */
    method UpdateBook(id: string, edit: BookFormEdit, now: string, writeOk: bool) returns (updated: Option<Book>)
      modifies this
      ensures rows == if writeOk then UpdateWhereId(old(rows), id, UpdatePayload(old(books), id, edit, now)) else old(rows)
      ensures updated.Some? <==> writeOk && CountId(old(rows), id) == 1
      ensures updated.None? ==> books == old(books)
      ensures updated.Some? ==>
        && updated.value == DbBookToBook(ApplyPatch(FindRow(old(rows), id).value, UpdatePayload(old(books), id, edit, now)))
        && updated.value.id == id
        && books == ReplaceById(old(books), id, updated.value)
      ensures updated.Some? && StampsCompletion(old(books), id, edit) ==> updated.value.completedAt == Some(now)
    {
      var updates := UpdatePayload(books, id, edit, now);
      if !writeOk {
        return None;
      }
      var count := CountId(rows, id);
      var row := FindRow(rows, id);
      rows := UpdateWhereId(rows, id, updates);
      if count != 1 {
        return None;
      }
      var changed := ApplyPatch(row.value, updates);
      UpdatedBook(row.value, books, edit, now);
      var book := DbBookToBook(changed);
      books := ReplaceById(books, id, book);
      updated := Some(book);
    }

    /** `deleteBook`: the books with the id leave both lists, the others keep their order. */
    method DeleteBook(id: string, deleteOk: bool) returns (deleted: bool)
      modifies this
      ensures deleted == deleteOk
      ensures rows == if deleteOk then DeleteWhereId(old(rows), id) else old(rows)
      ensures books == if deleteOk then Without(old(books), id) else old(books)
    {
      if !deleteOk {
        return false;
      }
      rows := DeleteWhereId(rows, id);
      books := Without(books, id);
      deleted := true;
    }

    /**
     * `moveBook`: an id missing locally changes nothing; otherwise only the
     * book(s) with the id change: status and position as given, priority
     * kept only in `want_to_read`, `completedAt` stamped on entering `have_read`.
     */
    method MoveBook(id: string, status: BookStatus, position: int, now: string, writeOk: bool) returns (moved: bool)
      modifies this
      ensures Find(old(books), id).None? ==> !moved && books == old(books) && rows == old(rows)
      ensures Find(old(books), id).Some? ==> moved == writeOk
      ensures Find(old(books), id).Some? ==>
        var book := Find(old(books), id).value;
        rows == if writeOk then UpdateWhereId(old(rows), id, MovePayload(book, status, position, now)) else old(rows)
      ensures !moved ==> books == old(books)
      ensures moved ==>
        var book := Find(old(books), id).value;
        && |books| == |old(books)|
        && (forall i :: 0 <= i < |books| && old(books)[i].id != id ==> books[i] == old(books)[i])
        && (forall i :: 0 <= i < |books| && old(books)[i].id == id ==>
              && books[i].status == status
              && books[i].position == position
              && books[i].priority == (if status == WantToRead then old(books)[i].priority else Undefined)
              && books[i].completedAt == (if EntersHaveRead(book, status) then Some(now) else old(books)[i].completedAt)
              && books[i] == old(books)[i].(status := books[i].status, position := books[i].position,
                                            priority := books[i].priority, completedAt := books[i].completedAt))
    {
      var found := Find(books, id);
      if found.None? {
        return false;
      }
      var book := found.value;
      var updates := MovePayload(book, status, position, now);
      if !writeOk {
        return false;
      }
      rows := UpdateWhereId(rows, id, updates);
      var stamp := if CompletedAtCol in updates then Some(now) else None;
      books := Moved(books, id, status, position, stamp);
      moved := true;
    }

    /**
     * `setPriority`: the store first clears the first other holder (an
     * error there is ignored), then writes the priority; locally the book
     * takes the slot and every other holder loses it.
     */
    method SetPriority(id: string, priority: Option<int>, clearOk: bool, writeOk: bool) returns (done: bool)
      requires priority.Some? ==> 1 <= priority.value <= 3
      modifies this
      ensures done == writeOk
      ensures
        var holder := if priority.Some? then OtherHolder(old(books), priority.value, id) else None;
        var cleared := if holder.Some? && clearOk then UpdateWhereId(old(rows), holder.value.id, map[PriorityCol := SqlNull]) else old(rows);
        rows == if writeOk then UpdateWhereId(cleared, id, map[PriorityCol := PriorityColumnValue(priority)]) else cleared
      ensures books == if writeOk then WithPriority(old(books), id, priority) else old(books)
      ensures writeOk ==> |books| == |old(books)| && forall i :: 0 <= i < |books| ==>
        books[i] == if old(books)[i].id == id then old(books)[i].(priority := if priority.Some? then Rank(priority.value) else Null)
                    else if priority.Some? && old(books)[i].priority == Rank(priority.value) then old(books)[i].(priority := Undefined)
                    else old(books)[i]
      ensures writeOk && UniqueIds(old(books)) && SlotsExclusive(old(books)) ==> SlotsExclusive(books)
    {
      if priority.Some? {
        var holder := OtherHolder(books, priority.value, id);
        if holder.Some? && clearOk {
          rows := UpdateWhereId(rows, holder.value.id, map[PriorityCol := SqlNull]);
        }
      }
      if !writeOk {
        return false;
      }
      rows := UpdateWhereId(rows, id, map[PriorityCol := PriorityColumnValue(priority)]);
      if UniqueIds(books) && SlotsExclusive(books) {
        WithPriorityKeepsSlotsExclusive(books, id, priority);
      }
      books := WithPriority(books, id, priority);
      done := true;
    }

    /**
     * `reorderBooks`: one position write per listed id (errors ignored, so
     * the call always succeeds); locally only books of the given status move.
     */
    method ReorderBooks(ids: seq<string>, status: BookStatus, writeOks: seq<bool>) returns (done: bool)
      requires |writeOks| == |ids|
      modifies this
      ensures done
      ensures rows == PositionWrites(old(rows), ids, writeOks, |ids|)
      ensures books == Reordered(old(books), ids, status)
    {
      var i := 0;
      while i < |ids|
        invariant 0 <= i <= |ids|
        invariant rows == PositionWrites(old(rows), ids, writeOks, i)
        invariant books == old(books)
      {
        if writeOks[i] {
          rows := UpdateWhereId(rows, ids[i], map[PositionCol := Number(i)]);
        }
        i := i + 1;
      }
      books := Reordered(books, ids, status);
      done := true;
    }
  }
}
