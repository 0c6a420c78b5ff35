/**
 * What each handler writes, as functions of its inputs: the book a new form
 * produces, the page a progress form or a topic form lets through, the book
 * table after a move to the trash, a restore or a permanent delete, and the
 * progress table keyed by (book, user) that replaces the `${bookId}_${uid}`
 * document ids.
 */
module Commands {
  import opened Options
  import opened Collections
  import opened JsText
  import opened Reconciler

  // ---------------------------------------------------------------------------
  // Adding a book

  /** The three controlled fields of the add-book form, as typed. */
  datatype BookForm = BookForm(title: string, author: string, totalPages: string)

  const EmptyForm := BookForm("", "", "")

  /** `parseInt(totalPages) || 1`: NaN and 0 are both falsy and fall back to one page. */
  function TotalPagesFrom(input: string): (r: int)
    ensures r != 0
  {
    match ParseInt(input)
    case NaN => 1
    case Num(n) => if n == 0 then 1 else n
  }

  /** Any non-zero page count typed in decimal is stored as typed; zero becomes one page. */
  lemma TotalPagesRoundTrip(n: int)
    ensures TotalPagesFrom(IntString(n)) == if n == 0 then 1 else n
  {
    ParseIntRoundTrip(n, "");
    assert IntString(n) + "" == IntString(n);
  }

  /** Text without a digit (the empty field among them) gives a one-page book. */
  lemma TotalPagesWithoutDigits(input: string)
    requires forall i :: 0 <= i < |input| ==> !IsDigit(input[i])
    ensures TotalPagesFrom(input) == 1
  {
    ParseIntNoDigits(input);
  }

  /** The document `handleAddBook` writes: the form's fields, the parsed page count, a live book. */
  function NewBook(id: string, form: BookForm, uid: string, now: int): (b: Book)
    ensures b.id == id && b.title == form.title && b.author == form.author
    ensures b.totalPages == TotalPagesFrom(form.totalPages) && b.totalPages != 0
    ensures b.createdAt == now && b.createdBy == uid
    ensures !b.isDeleted && b.deletedAt == Unset
  {
    Book(id, form.title, form.author, TotalPagesFrom(form.totalPages), now, uid, false, Unset)
  }

  // ---------------------------------------------------------------------------
  // The progress form

  /**
   * `handleUpdateProgress`'s guard: the parsed page is rejected (None) only when it is
   * a number above the book's page count; NaN and negative pages get through.
   */
  function AcceptedPage(input: string, total: int): (r: Option<JsInt>)
    ensures r.Some? && r.value.Num? ==> r.value.value <= total
  {
    var page := ParseInt(input);
    if page.Num? && page.value > total then None else Some(page)
  }

  /** The guard passes the parsed page itself, and rejects exactly the numbers above the page count. */
  lemma AcceptedPageIsParsed(input: string, total: int)
    ensures AcceptedPage(input, total).None? <==> ParseInt(input).Num? && ParseInt(input).value > total
    ensures AcceptedPage(input, total).Some? ==> AcceptedPage(input, total).value == ParseInt(input)
  {
  }

  /** A page typed in decimal is accepted as itself exactly when it is at most the page count. */
  lemma AcceptedPageRoundTrip(n: int, total: int)
    ensures AcceptedPage(IntString(n), total) == if n <= total then Some(Num(n)) else None
  {
    ParseIntRoundTrip(n, "");
    assert IntString(n) + "" == IntString(n);
  }

  /** An emptied (or digit-free) field is accepted, and the page it stores is NaN. */
  lemma AcceptedPageWithoutDigits(input: string, total: int)
    requires forall i :: 0 <= i < |input| ==> !IsDigit(input[i])
    ensures AcceptedPage(input, total) == Some(NaN)
  {
    ParseIntNoDigits(input);
  }

  // ---------------------------------------------------------------------------
  // The topic form

  /**
   * `createTopic`'s guard as written: an empty field is rejected, then the parsed page
   * only when it is a number above the page count. NaN gets through.
   */
  function TopicGuardAsWritten(input: string, total: int): (r: Option<JsInt>)
    ensures input == [] ==> r.None?
    ensures r.Some? ==> r.value == ParseInt(input)
    ensures r.Some? && r.value.Num? ==> r.value.value <= total
  {
    if input == [] then None
    else
      var page := ParseInt(input);
      if page.Num? && page.value > total then None else Some(page)
  }

  /**
   * ".0" is a value a number field accepts (a whole number, within any step); `parseInt`
   * reads no digit before the point, and the guard as written opens a topic on page NaN.
   */
  lemma TopicGuardAdmitsNaN(total: int)
    ensures TopicGuardAsWritten(".0", total) == Some(NaN)
  {
    var s := ".0";
    assert s[0] == '.' && !IsWhiteSpace(s[0]) && !IsDigit(s[0]);
    assert TrimStart(s) == s;
    assert DigitPrefix(s) == [];
    assert ParseInt(s) == NaN;
  }

  /** The guard as meant: a non-empty field whose parsed page is a number no greater than the page count. */
  function TopicPage(input: string, total: int): (r: Option<int>)
    ensures input == [] ==> r.None?
    ensures r.Some? ==> r.value <= total
  {
    if input == [] then None
    else
      match ParseInt(input)
      case NaN => None
      case Num(p) => if p > total then None else Some(p)
  }

  /** The corrected guard passes exactly the numbers the field parses to that are no greater than the page count. */
  lemma TopicPageIsParsed(input: string, total: int)
    ensures TopicPage(input, total).Some? ==> input != [] && ParseInt(input) == Num(TopicPage(input, total).value)
    ensures TopicPage(input, total).None? <==> input == [] || ParseInt(input).NaN? || ParseInt(input).value > total
  {
  }

  /** The corrected guard agrees with the one as written on every number and differs only on NaN. */
  lemma TopicPageRefinesGuard(input: string, total: int)
    ensures TopicGuardAsWritten(input, total) == (match TopicPage(input, total)
      case Some(p) => Some(Num(p))
      case None => if input != [] && ParseInt(input).NaN? then Some(NaN) else None)
  {
  }

  /**
   * A page typed in decimal opens exactly that topic when it is no greater than the page
   * count, a negative page included.
   */
  lemma TopicPageRoundTrip(n: int, total: int)
    ensures TopicPage(IntString(n), total) == if n <= total then Some(n) else None
  {
    ParseIntRoundTrip(n, "");
    assert IntString(n) + "" == IntString(n);
  }

  const SystemUser := "system"

  /** The opening line of a topic: `${pageNum}P 토론 방이 열렸어요!` ("the page-N discussion is open"). */
  function TopicOpener(page: int): string {
    IntString(page) + "P 토론 방이 열렸어요!"
  }

  /** The message `createTopic` posts to open a topic: from the system, on that page, naming it. */
  function TopicOpening(bookId: string, page: int, now: int): (m: Message)
    ensures m.bookId == bookId && m.userId == SystemUser && m.page == page && m.createdAt == now
  {
    Message(bookId, SystemUser, page, TopicOpener(page), now)
  }

  /**
   * The opening message names its page (reading its leading number gives the page back)
   * and, once posted, shows in the thread of that very page of the book.
   */
  lemma TopicOpeningNamesPage(msgs: seq<Message>, bookId: string, page: int, now: int)
    ensures var m := TopicOpening(bookId, page, now);
      && ParseInt(m.message) == Num(page)
      && m in Thread(msgs + [m], bookId, page)
  {
    ParseIntRoundTrip(page, "P 토론 방이 열렸어요!");
    PostedMessageInThread(msgs, TopicOpening(bookId, page, now));
  }

  // ---------------------------------------------------------------------------
  // The book table

  predicate UniqueIds(books: seq<Book>) {
    forall i, j :: 0 <= i < j < |books| ==> books[i].id != books[j].id
  }

  predicate HasBook(books: seq<Book>, id: string) {
    exists b :: b in books && b.id == id
  }

  function IdOf(b: Book): string {
    b.id
  }

  /** The book `updateDoc` leaves behind when it sets the two deletion fields. */
  function WithDeletion(b: Book, deleted: bool, at: DeletedAt): (r: Book)
    ensures r.id == b.id && r.title == b.title && r.author == b.author && r.totalPages == b.totalPages
    ensures r.createdAt == b.createdAt && r.createdBy == b.createdBy
    ensures r.isDeleted == deleted && r.deletedAt == at
  {
    b.(isDeleted := deleted, deletedAt := at)
  }

  /** `updateDoc` on one book of the table: the book with this id gets the two deletion fields. */
  function Marking(id: string, deleted: bool, at: DeletedAt): Book -> Book {
    (b: Book) => if b.id == id then WithDeletion(b, deleted, at) else b
  }

  function MarkDeletion(books: seq<Book>, id: string, deleted: bool, at: DeletedAt): seq<Book> {
    Map(books, Marking(id, deleted, at))
  }

  /** `moveToTrash`: the book with this id is marked deleted at `now`. */
  function TableAfterTrash(books: seq<Book>, id: string, now: int): seq<Book> {
    MarkDeletion(books, id, true, At(now))
  }

  /** `restoreBook`: the book with this id is live again and its deletion time is cleared. */
  function TableAfterRestore(books: seq<Book>, id: string): seq<Book> {
    MarkDeletion(books, id, false, Cleared)
  }

  function IsNot(id: string): Book -> bool {
    (b: Book) => b.id != id
  }

  /** `permanentDelete`: the book with this id leaves the table; nothing else does. */
  function TableAfterDelete(books: seq<Book>, id: string): (r: seq<Book>)
    ensures forall b :: b in r <==> b in books && b.id != id
  {
    FilterMembers(books, IsNot(id));
    Filter(books, IsNot(id))
  }

  /** Setting the deletion fields keeps the table's ids, in their order, so it keeps them unique. */
  lemma DeletionKeepsIds(books: seq<Book>, id: string, deleted: bool, at: DeletedAt)
    ensures Map(MarkDeletion(books, id, deleted, at), IdOf) == Map(books, IdOf)
    ensures UniqueIds(books) ==> UniqueIds(MarkDeletion(books, id, deleted, at))
  {
    var t := MarkDeletion(books, id, deleted, at);
    assert forall i :: 0 <= i < |books| ==> t[i].id == books[i].id;
  }

  /** Setting the deletion fields changes no page count: each book after is some book before with the same id and count. */
  lemma DeletionKeepsPageCounts(books: seq<Book>, id: string, deleted: bool, at: DeletedAt)
    ensures forall b :: b in MarkDeletion(books, id, deleted, at) ==>
      exists c :: c in books && c.id == b.id && c.totalPages == b.totalPages
  {
    var t := MarkDeletion(books, id, deleted, at);
    forall b | b in t
      ensures exists c :: c in books && c.id == b.id && c.totalPages == b.totalPages
    {
      var i :| 0 <= i < |t| && t[i] == b;
      assert books[i] in books;
    }
  }

  /** After a move to the trash the book sits on the trash shelf, and every other book is where it was. */
  lemma TrashedBookIsInTrash(books: seq<Book>, ps: seq<Progress>, uid: Option<string>, id: string, now: int)
    ensures forall b :: b in Partition(TableAfterTrash(books, id, now), ps, uid).trash && b.id != id <==>
      b in Partition(books, ps, uid).trash && b.id != id
    ensures forall b :: b in TableAfterTrash(books, id, now) && b.id == id ==> b in Partition(TableAfterTrash(books, id, now), ps, uid).trash
    ensures forall b :: b in Partition(TableAfterTrash(books, id, now), ps, uid).reading ==> b.id != id
    ensures forall b :: b in Partition(TableAfterTrash(books, id, now), ps, uid).completed ==> b.id != id
    ensures forall b: Book :: b.id != id ==>
      (b in Partition(TableAfterTrash(books, id, now), ps, uid).reading <==> b in Partition(books, ps, uid).reading)
    ensures forall b: Book :: b.id != id ==>
      (b in Partition(TableAfterTrash(books, id, now), ps, uid).completed <==> b in Partition(books, ps, uid).completed)
  {
    TrashedMembers(books, id, now);
    PartitionIsExact(books, ps, uid);
    PartitionIsExact(TableAfterTrash(books, id, now), ps, uid);
  }

  /** A move to the trash keeps every other book as it is and marks the book itself deleted. */
  lemma TrashedMembers(books: seq<Book>, id: string, now: int)
    ensures forall b: Book :: b.id != id ==> (b in TableAfterTrash(books, id, now) <==> b in books)
    ensures forall b :: b in TableAfterTrash(books, id, now) && b.id == id ==> b.isDeleted
  {
    var t := TableAfterTrash(books, id, now);
    forall b: Book | b.id != id
      ensures b in t <==> b in books
    {
      if b in t {
        var i :| 0 <= i < |t| && t[i] == b;
        assert books[i] == b;
      }
      if b in books {
        var i :| 0 <= i < |books| && books[i] == b;
        assert t[i] == b;
      }
    }
    forall b: Book | b in t && b.id == id
      ensures b.isDeleted
    {
      var i :| 0 <= i < |t| && t[i] == b;
    }
  }

  /**
   * Trash followed by restore puts every shelf back as it was, book by book and in
   * the same order, as long as the book was live to begin with; only `deletedAt`
   * keeps a trace (null instead of absent).
   */
  lemma TrashThenRestore(books: seq<Book>, ps: seq<Progress>, uid: Option<string>, id: string, now: int)
    requires forall b :: b in books && b.id == id ==> !b.isDeleted
    ensures var before, after := Partition(books, ps, uid), Partition(TableAfterRestore(TableAfterTrash(books, id, now), id), ps, uid);
      && Map(after.reading, IdOf) == Map(before.reading, IdOf)
      && Map(after.completed, IdOf) == Map(before.completed, IdOf)
      && Map(after.trash, IdOf) == Map(before.trash, IdOf)
  {
    var back := TableAfterRestore(TableAfterTrash(books, id, now), id);
    forall i | 0 <= i < |books|
      ensures ShelfOf(back[i], ps, uid) == ShelfOf(books[i], ps, uid) && back[i].id == books[i].id
    {
      RestoredBook(books, id, now, i);
    }
    FilterMapCorresponding(back, books, OnShelf(ps, uid, ReadingShelf), OnShelf(ps, uid, ReadingShelf), IdOf);
    FilterMapCorresponding(back, books, OnShelf(ps, uid, CompletedShelf), OnShelf(ps, uid, CompletedShelf), IdOf);
    FilterMapCorresponding(back, books, OnShelf(ps, uid, TrashShelf), OnShelf(ps, uid, TrashShelf), IdOf);
  }

  lemma RestoredBook(books: seq<Book>, id: string, now: int, i: int)
    requires forall b :: b in books && b.id == id ==> !b.isDeleted
    requires 0 <= i < |books|
    ensures var back := TableAfterRestore(TableAfterTrash(books, id, now), id);
      |back| == |books| && back[i] == if books[i].id == id then WithDeletion(books[i], false, Cleared) else books[i]
  {
    assert books[i] in books;
  }

  /** A book with a new id can join the table without breaking uniqueness. */
  lemma AppendKeepsUniqueIds(books: seq<Book>, b: Book)
    requires UniqueIds(books) && !HasBook(books, b.id)
    ensures UniqueIds(books + [b])
  {
    var r := books + [b];
    forall i, j | 0 <= i < j < |r|
      ensures r[i].id != r[j].id
    {
      if j == |books| {
        assert r[i] in books;
      }
    }
  }

  /** Removing a book keeps the other ids unique. */
  lemma {:induction false} RemoveKeepsUniqueIds(books: seq<Book>, id: string)
    requires UniqueIds(books)
    ensures UniqueIds(TableAfterDelete(books, id))
  {
    if books != [] {
      var init, last := books[..|books| - 1], books[|books| - 1];
      assert books == init + [last];
      RemoveKeepsUniqueIds(init, id);
      var f := TableAfterDelete(init, id);
      forall b | b in f
        ensures b.id != last.id
      {
        var k :| 0 <= k < |init| && init[k] == b;
        assert books[k] == b;
      }
      assert TableAfterDelete(books, id) == f + if last.id != id then [last] else [];
    }
  }

  // ---------------------------------------------------------------------------
  // The progress table

  /** The document id `${bookId}_${uid}`, kept as the pair it encodes. */
  datatype ProgressKey = ProgressKey(bookId: string, userId: string)

  function KeyOf(p: Progress): ProgressKey {
    ProgressKey(p.bookId, p.userId)
  }

  /** Every record is stored under its own (book, user) key. */
  predicate KeysMatch(table: map<ProgressKey, Progress>) {
    forall k :: k in table ==> KeyOf(table[k]) == k
  }

  /** `ps` is one way the progress feed can list the table: each stored record once, in some order. */
  ghost predicate Lists(ps: seq<Progress>, table: map<ProgressKey, Progress>) {
    && NoDuplicates(ps)
    && forall p :: p in ps <==> p in table.Values
  }

  /** `setDoc` on the record's key: creates it or replaces the one there. */
  function Upsert(table: map<ProgressKey, Progress>, p: Progress): (r: map<ProgressKey, Progress>)
    ensures KeysMatch(table) ==> KeysMatch(r)
    ensures r.Keys == table.Keys + {KeyOf(p)}
  {
    table[KeyOf(p) := p]
  }

  /** Whatever order the feed lists the table in, my record on a book is the one under my key. */
  lemma MyProgressIsKeyed(ps: seq<Progress>, table: map<ProgressKey, Progress>, bookId: string, user: string)
    requires KeysMatch(table) && Lists(ps, table)
    ensures MyProgress(ps, bookId, Some(user)) ==
      if ProgressKey(bookId, user) in table then Some(table[ProgressKey(bookId, user)]) else None
  {
    var k := ProgressKey(bookId, user);
    var r := MyProgress(ps, bookId, Some(user));
    if k in table {
      assert table[k] in table.Values;
      assert IsMine(bookId, Some(user))(table[k]);
    }
    if r.Some? {
      assert IsMine(bookId, Some(user))(r.value);
      var k' :| k' in table && table[k'] == r.value;
    }
  }

  /** After an upsert, the feed shows the new record as mine, and changes no other reader's record. */
  lemma UpsertReadsBack(ps: seq<Progress>, table: map<ProgressKey, Progress>, p: Progress)
    requires KeysMatch(table) && Lists(ps, Upsert(table, p))
    ensures MyProgress(ps, p.bookId, Some(p.userId)) == Some(p)
    ensures MyPage(ps, p.bookId, Some(p.userId)) == p.currentPage
    ensures forall k :: k in table && k != KeyOf(p) ==> Upsert(table, p)[k] == table[k]
  {
    MyProgressIsKeyed(ps, Upsert(table, p), p.bookId, p.userId);
  }

  /** Every number page on record is within the page count of its book, wherever that book is in the table. */
  predicate PagesWithinBooks(books: seq<Book>, table: map<ProgressKey, Progress>) {
    forall k, b :: k in table && b in books && b.id == k.bookId && table[k].currentPage.Num? ==>
      table[k].currentPage.value <= b.totalPages
  }
}
