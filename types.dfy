/**
 * The book record in its two shapes: the client-side `Book` (camelCase,
 * optional fields are `undefined` when absent) and the `books` table row
 * `DbBook` (nullable columns), with the two converters between them.
 *
 * A `Partial<DbBook>` (an update or insert payload) is a map from the
 * columns it sets to their values: a column that is not a key is omitted
 * from the payload, which is different from a key mapped to `SqlNull`.
 */
module Types {
  import opened Wrappers

  datatype BookStatus = CurrentlyReading | HaveRead | WantToRead
  datatype ConsumptionType = Listen | Read
  datatype ListenPlatform = Audible | Libby | Spotify
  datatype ReadFormat = Paper | Digital

  /**
   * The JavaScript value in a book's `priority` field: `undefined`, `null`,
   * or whatever number the store returned (the `as Priority` cast checks no range).
   */
  datatype PriorityValue = Undefined | Null | Rank(n: int)

  /** The client-side book; `None` in an `Option` field is `undefined`. */
  datatype Book = Book(
    id: string,
    userId: string,
    title: string,
    author: string,
    notes: Option<string>,
    status: BookStatus,
    consumptionType: Option<ConsumptionType>,
    listenPlatform: Option<ListenPlatform>,
    readFormat: Option<ReadFormat>,
    recommendedBy: Option<string>,
    priority: PriorityValue,
    position: int,
    createdAt: string,
    updatedAt: string,
    completedAt: Option<string>,
    isPublic: bool)

  /** What the add form submits; `None` is an omitted optional field. */
  datatype BookFormData = BookFormData(
    title: string,
    author: string,
    notes: Option<string>,
    status: BookStatus,
    consumptionType: Option<ConsumptionType>,
    listenPlatform: Option<ListenPlatform>,
    readFormat: Option<ReadFormat>,
    recommendedBy: Option<string>,
    priority: PriorityValue,
    completedAt: Option<string>)

  /** `Partial<BookFormData>`, what an edit submits: every field may be omitted. */
  datatype BookFormEdit = BookFormEdit(
    title: Option<string>,
    author: Option<string>,
    notes: Option<string>,
    status: Option<BookStatus>,
    consumptionType: Option<ConsumptionType>,
    listenPlatform: Option<ListenPlatform>,
    readFormat: Option<ReadFormat>,
    recommendedBy: Option<string>,
    priority: PriorityValue,
    completedAt: Option<string>)

  /** `Partial<Book> & { userId?: string }`, the argument of `bookToDbBook`. */
  datatype BookFields = BookFields(
    id: Option<string>,
    userId: Option<string>,
    title: Option<string>,
    author: Option<string>,
    notes: Option<string>,
    status: Option<BookStatus>,
    consumptionType: Option<ConsumptionType>,
    listenPlatform: Option<ListenPlatform>,
    readFormat: Option<ReadFormat>,
    recommendedBy: Option<string>,
    priority: PriorityValue,
    position: Option<int>,
    createdAt: Option<string>,
    updatedAt: Option<string>,
    completedAt: Option<string>,
    isPublic: Option<bool>)

  /** A row of the `books` table; `None` in an `Option` column is SQL `null`. */
  datatype DbBook = DbBook(
    id: string,
    userId: string,
    title: string,
    author: string,
    notes: Option<string>,
    status: BookStatus,
    consumptionType: Option<ConsumptionType>,
    listenPlatform: Option<ListenPlatform>,
    readFormat: Option<ReadFormat>,
    recommendedBy: Option<string>,
    priority: Option<int>,
    position: int,
    createdAt: string,
    updatedAt: string,
    completedAt: Option<string>,
    isPublic: bool)

  /** The columns of the `books` table, in schema order. */
  datatype Column =
    | IdCol | UserIdCol | TitleCol | AuthorCol | NotesCol | StatusCol
    | ConsumptionTypeCol | ListenPlatformCol | ReadFormatCol | RecommendedByCol
    | PriorityCol | PositionCol | CreatedAtCol | UpdatedAtCol | CompletedAtCol | IsPublicCol

  /** A column value in a payload or a row. */
  datatype Value =
    | SqlNull
    | Text(s: string)
    | Number(n: int)
    | Flag(b: bool)
    | StatusValue(status: BookStatus)
    | ConsumptionValue(consumption: ConsumptionType)
    | PlatformValue(platform: ListenPlatform)
    | FormatValue(format: ReadFormat)

  /** `Partial<DbBook>`: the columns a payload sets. */
  type DbBookPatch = map<Column, Value>

  /** Whether `v` has the type of column `c` (nullable columns also take `SqlNull`). */
  predicate Fits(c: Column, v: Value) {
    match c
    case IdCol | UserIdCol | TitleCol | AuthorCol | CreatedAtCol | UpdatedAtCol => v.Text?
    case NotesCol | RecommendedByCol | CompletedAtCol => v.Text? || v.SqlNull?
    case StatusCol => v.StatusValue?
    case ConsumptionTypeCol => v.ConsumptionValue? || v.SqlNull?
    case ListenPlatformCol => v.PlatformValue? || v.SqlNull?
    case ReadFormatCol => v.FormatValue? || v.SqlNull?
    case PriorityCol => v.Number? || v.SqlNull?
    case PositionCol => v.Number?
    case IsPublicCol => v.Flag?
  }

  function TextOrNull(o: Option<string>): Value {
    if o.Some? then Text(o.value) else SqlNull
  }

  /** The value a row holds in column `c`. */
  function ColumnValue(d: DbBook, c: Column): (v: Value)
    ensures Fits(c, v)
  {
    match c
    case IdCol => Text(d.id)
    case UserIdCol => Text(d.userId)
    case TitleCol => Text(d.title)
    case AuthorCol => Text(d.author)
    case NotesCol => TextOrNull(d.notes)
    case StatusCol => StatusValue(d.status)
    case ConsumptionTypeCol => if d.consumptionType.Some? then ConsumptionValue(d.consumptionType.value) else SqlNull
    case ListenPlatformCol => if d.listenPlatform.Some? then PlatformValue(d.listenPlatform.value) else SqlNull
    case ReadFormatCol => if d.readFormat.Some? then FormatValue(d.readFormat.value) else SqlNull
    case RecommendedByCol => TextOrNull(d.recommendedBy)
    case PriorityCol => if d.priority.Some? then Number(d.priority.value) else SqlNull
    case PositionCol => Number(d.position)
    case CreatedAtCol => Text(d.createdAt)
    case UpdatedAtCol => Text(d.updatedAt)
    case CompletedAtCol => TextOrNull(d.completedAt)
    case IsPublicCol => Flag(d.isPublic)
  }

  /** Two rows that agree on every column are the same row. */
  lemma {:induction false} ColumnsDetermineRow(a: DbBook, b: DbBook)
    requires forall c :: ColumnValue(a, c) == ColumnValue(b, c)
    ensures a == b
  {
    assert a.id == b.id by { assert ColumnValue(a, IdCol) == ColumnValue(b, IdCol); }
    assert a.userId == b.userId by { assert ColumnValue(a, UserIdCol) == ColumnValue(b, UserIdCol); }
    assert a.title == b.title by { assert ColumnValue(a, TitleCol) == ColumnValue(b, TitleCol); }
    assert a.author == b.author by { assert ColumnValue(a, AuthorCol) == ColumnValue(b, AuthorCol); }
    assert a.notes == b.notes by { assert ColumnValue(a, NotesCol) == ColumnValue(b, NotesCol); }
    assert a.status == b.status by { assert ColumnValue(a, StatusCol) == ColumnValue(b, StatusCol); }
    assert a.consumptionType == b.consumptionType by { assert ColumnValue(a, ConsumptionTypeCol) == ColumnValue(b, ConsumptionTypeCol); }
    assert a.listenPlatform == b.listenPlatform by { assert ColumnValue(a, ListenPlatformCol) == ColumnValue(b, ListenPlatformCol); }
    assert a.readFormat == b.readFormat by { assert ColumnValue(a, ReadFormatCol) == ColumnValue(b, ReadFormatCol); }
    assert a.recommendedBy == b.recommendedBy by { assert ColumnValue(a, RecommendedByCol) == ColumnValue(b, RecommendedByCol); }
    assert a.priority == b.priority by { assert ColumnValue(a, PriorityCol) == ColumnValue(b, PriorityCol); }
    assert a.position == b.position by { assert ColumnValue(a, PositionCol) == ColumnValue(b, PositionCol); }
    assert a.createdAt == b.createdAt by { assert ColumnValue(a, CreatedAtCol) == ColumnValue(b, CreatedAtCol); }
    assert a.updatedAt == b.updatedAt by { assert ColumnValue(a, UpdatedAtCol) == ColumnValue(b, UpdatedAtCol); }
    assert a.completedAt == b.completedAt by { assert ColumnValue(a, CompletedAtCol) == ColumnValue(b, CompletedAtCol); }
    assert a.isPublic == b.isPublic by { assert ColumnValue(a, IsPublicCol) == ColumnValue(b, IsPublicCol); }
  }

  // Readers of one payload entry, falling back to the row's current value
  // when the column is not set (or set to a value of the wrong type).

  function TextIn(p: DbBookPatch, c: Column, current: string): string {
    if c in p && p[c].Text? then p[c].s else current
  }

  function NullableTextIn(p: DbBookPatch, c: Column, current: Option<string>): Option<string> {
    if c in p && p[c].Text? then Some(p[c].s)
    else if c in p && p[c].SqlNull? then None
    else current
  }

  /**
   * The row after an `update(p)` (or an insert of `p` over the column
   * defaults `d`): every column the payload sets takes its value.
   */
  function ApplyPatch(d: DbBook, p: DbBookPatch): (r: DbBook)
    ensures p == map[] ==> r == d
  {
    DbBook(
      id := TextIn(p, IdCol, d.id),
      userId := TextIn(p, UserIdCol, d.userId),
      title := TextIn(p, TitleCol, d.title),
      author := TextIn(p, AuthorCol, d.author),
      notes := NullableTextIn(p, NotesCol, d.notes),
      status := if StatusCol in p && p[StatusCol].StatusValue? then p[StatusCol].status else d.status,
      consumptionType :=
        if ConsumptionTypeCol in p && p[ConsumptionTypeCol].ConsumptionValue? then Some(p[ConsumptionTypeCol].consumption)
        else if ConsumptionTypeCol in p && p[ConsumptionTypeCol].SqlNull? then None
        else d.consumptionType,
      listenPlatform :=
        if ListenPlatformCol in p && p[ListenPlatformCol].PlatformValue? then Some(p[ListenPlatformCol].platform)
        else if ListenPlatformCol in p && p[ListenPlatformCol].SqlNull? then None
        else d.listenPlatform,
      readFormat :=
        if ReadFormatCol in p && p[ReadFormatCol].FormatValue? then Some(p[ReadFormatCol].format)
        else if ReadFormatCol in p && p[ReadFormatCol].SqlNull? then None
        else d.readFormat,
      recommendedBy := NullableTextIn(p, RecommendedByCol, d.recommendedBy),
      priority :=
        if PriorityCol in p && p[PriorityCol].Number? then Some(p[PriorityCol].n)
        else if PriorityCol in p && p[PriorityCol].SqlNull? then None
        else d.priority,
      position := if PositionCol in p && p[PositionCol].Number? then p[PositionCol].n else d.position,
      createdAt := TextIn(p, CreatedAtCol, d.createdAt),
      updatedAt := TextIn(p, UpdatedAtCol, d.updatedAt),
      completedAt := NullableTextIn(p, CompletedAtCol, d.completedAt),
      isPublic := if IsPublicCol in p && p[IsPublicCol].Flag? then p[IsPublicCol].b else d.isPublic)
  }

  /** Every column a payload sets to a value of its type takes that value; every other column keeps its value. */
  lemma {:induction false} ApplyPatchSets(d: DbBook, p: DbBookPatch)
    ensures forall c :: ColumnValue(ApplyPatch(d, p), c) == if c in p && Fits(c, p[c]) then p[c] else ColumnValue(d, c)
  {
    forall c ensures ColumnValue(ApplyPatch(d, p), c) == if c in p && Fits(c, p[c]) then p[c] else ColumnValue(d, c) {
      match c {
        case IdCol =>
        case UserIdCol =>
        case TitleCol =>
        case AuthorCol =>
        case NotesCol =>
        case StatusCol =>
        case ConsumptionTypeCol =>
        case ListenPlatformCol =>
        case ReadFormatCol =>
        case RecommendedByCol =>
        case PriorityCol =>
        case PositionCol =>
        case CreatedAtCol =>
        case UpdatedAtCol =>
        case CompletedAtCol =>
        case IsPublicCol =>
      }
    }
  }

  /** `dbBookToBook`: null columns become undefined fields; priority is passed through unchecked. */
  function DbBookToBook(d: DbBook): (b: Book)
    ensures b.id == d.id && b.userId == d.userId && b.status == d.status && b.position == d.position
    ensures b.title == d.title && b.author == d.author && b.isPublic == d.isPublic
    ensures b.createdAt == d.createdAt && b.updatedAt == d.updatedAt
    ensures b.notes == d.notes && b.recommendedBy == d.recommendedBy && b.completedAt == d.completedAt
    ensures b.consumptionType == d.consumptionType && b.listenPlatform == d.listenPlatform && b.readFormat == d.readFormat
    ensures b.priority != Undefined
    ensures b.priority == Null <==> d.priority.None?
    ensures b.priority.Rank? ==> b.priority.n == d.priority.value
    ensures b.completedAt.None? <==> d.completedAt.None?
  {
    Book(
      id := d.id,
      userId := d.userId,
      title := d.title,
      author := d.author,
      notes := d.notes,
      status := d.status,
      consumptionType := d.consumptionType,
      listenPlatform := d.listenPlatform,
      readFormat := d.readFormat,
      recommendedBy := d.recommendedBy,
      priority := if d.priority.Some? then Rank(d.priority.value) else Null,
      position := d.position,
      createdAt := d.createdAt,
      updatedAt := d.updatedAt,
      completedAt := d.completedAt,
      isPublic := d.isPublic)
  }

  /** The column value `bookToDbBook` emits for `c`, or `None` when it omits the column. */
  function FieldValue(f: BookFields, c: Column): Option<Value> {
    match c
    case IdCol => None
    case CreatedAtCol => None
    case UpdatedAtCol => None
    case UserIdCol => if f.userId.Some? then Some(Text(f.userId.value)) else None
    case TitleCol => if f.title.Some? then Some(Text(f.title.value)) else None
    case AuthorCol => if f.author.Some? then Some(Text(f.author.value)) else None
    case NotesCol => if f.notes.Some? then Some(Text(f.notes.value)) else None
    case StatusCol => if f.status.Some? then Some(StatusValue(f.status.value)) else None
    case ConsumptionTypeCol => if f.consumptionType.Some? then Some(ConsumptionValue(f.consumptionType.value)) else None
    case ListenPlatformCol => if f.listenPlatform.Some? then Some(PlatformValue(f.listenPlatform.value)) else None
    case ReadFormatCol => if f.readFormat.Some? then Some(FormatValue(f.readFormat.value)) else None
    case RecommendedByCol => if f.recommendedBy.Some? then Some(Text(f.recommendedBy.value)) else None
    case PriorityCol =>
      (match f.priority
       case Undefined => None
       case Null => Some(SqlNull)
       case Rank(n) => Some(Number(n)))
    case PositionCol => if f.position.Some? then Some(Number(f.position.value)) else None
    case CompletedAtCol => if f.completedAt.Some? then Some(Text(f.completedAt.value)) else None
    case IsPublicCol => if f.isPublic.Some? then Some(Flag(f.isPublic.value)) else None
  }

  /** The empty `Partial<Book>`. */
  function NoFields(): BookFields {
    BookFields(None, None, None, None, None, None, None, None, None, None, Undefined, None, None, None, None, None)
  }

  /** Every column of the table. */
  function AllColumns(): set<Column> {
    {IdCol, UserIdCol, TitleCol, AuthorCol, NotesCol, StatusCol, ConsumptionTypeCol, ListenPlatformCol,
     ReadFormatCol, RecommendedByCol, PriorityCol, PositionCol, CreatedAtCol, UpdatedAtCol, CompletedAtCol, IsPublicCol}
  }

  /**
   * `bookToDbBook`: each field that is defined (`!== undefined`) is emitted
   * as its column, as `FieldValue` states line by line; the others are omitted.
   */
  function BookToDbBook(f: BookFields): (m: DbBookPatch)
    ensures forall c :: c in m <==> FieldValue(f, c).Some?
    ensures forall c :: c in m ==> m[c] == FieldValue(f, c).value && Fits(c, m[c])
    ensures IdCol !in m && CreatedAtCol !in m && UpdatedAtCol !in m
    ensures f == NoFields() ==> m == map[]
  {
    map c | c in AllColumns() && FieldValue(f, c).Some? :: FieldValue(f, c).value
  }

  /** A whole `Book` seen as a `Partial<Book>`: every field it has is defined. */
  function AllFields(b: Book): BookFields {
    BookFields(
      Some(b.id), Some(b.userId), Some(b.title), Some(b.author), b.notes, Some(b.status),
      b.consumptionType, b.listenPlatform, b.readFormat, b.recommendedBy, b.priority,
      Some(b.position), Some(b.createdAt), Some(b.updatedAt), b.completedAt, Some(b.isPublic))
  }

  /** `{ ...data, userId }` as passed to `bookToDbBook` when a book is added. */
  function FormFields(data: BookFormData, userId: string): BookFields {
    BookFields(
      None, Some(userId), Some(data.title), Some(data.author), data.notes, Some(data.status),
      data.consumptionType, data.listenPlatform, data.readFormat, data.recommendedBy, data.priority,
      None, None, None, data.completedAt, None)
  }

  /** An edit's `Partial<BookFormData>` as passed to `bookToDbBook`. */
  function EditFields(e: BookFormEdit): BookFields {
    BookFields(
      None, None, e.title, e.author, e.notes, e.status,
      e.consumptionType, e.listenPlatform, e.readFormat, e.recommendedBy, e.priority,
      None, None, None, e.completedAt, None)
  }

  /**
   * Converting a fetched row to a `Book` and back emits, for every column
   * it emits, the row's own value; it omits exactly the id, the two
   * timestamps the store maintains, and the nullable columns that were
   * null — except `priority`, whose null survives as an explicit null.
   */
  lemma RoundTrip(d: DbBook)
    ensures var m := BookToDbBook(AllFields(DbBookToBook(d)));
      && (forall c :: c in m ==> m[c] == ColumnValue(d, c))
      && (forall c :: c !in m <==> (c == IdCol || c == CreatedAtCol || c == UpdatedAtCol
                                     || (c != PriorityCol && ColumnValue(d, c) == SqlNull)))
  {
  }

  /** Writing a fetched book back over its own row leaves the row unchanged. */
  lemma WriteBackIsIdentity(d: DbBook)
    ensures ApplyPatch(d, BookToDbBook(AllFields(DbBookToBook(d)))) == d
  {
    var m := BookToDbBook(AllFields(DbBookToBook(d)));
    RoundTrip(d);
    ApplyPatchSets(d, m);
    forall c ensures ColumnValue(ApplyPatch(d, m), c) == ColumnValue(d, c) {
    }
    ColumnsDetermineRow(ApplyPatch(d, m), d);
  }
}
