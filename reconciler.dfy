/**
 * The view state the app derives from the three live collections (books,
 * progress records, messages) and the signed-in user: the sorted book
 * snapshot, each reader's progress, the reading / completed / trash shelves,
 * the progress bars, the discussion topics of the selected book and the
 * thread of one topic. Everything here is a pure function of its inputs.
 */
module Reconciler {
  import opened Options
  import opened Collections
  import opened JsText

  /** `deletedAt`: absent on a new book, `null` after a restore, a time after a move to the trash. */
  datatype DeletedAt = Unset | Cleared | At(time: int)

  datatype Book = Book(
    id: string,
    title: string,
    author: string,
    totalPages: int,
    createdAt: int,
    createdBy: string,
    isDeleted: bool,
    deletedAt: DeletedAt)

  /** One reader's position in one book; `currentPage` is whatever `parseInt` gave, NaN included. */
  datatype Progress = Progress(bookId: string, userId: string, currentPage: JsInt, updatedAt: int)

  /** A discussion message, attached to one page of one book; `userId` is "system" for topic openers. */
  datatype Message = Message(bookId: string, userId: string, page: int, message: string, createdAt: int)

  // ---------------------------------------------------------------------------
  // The book snapshot

  function NewestFirst(b: Book): int {
    -b.createdAt
  }

  /** The books feed, re-sorted by `createdAt`, newest first. */
  function BookSnapshot(docs: seq<Book>): seq<Book> {
    SortBy(docs, NewestFirst)
  }

  lemma BookSnapshotIsNewestFirst(docs: seq<Book>)
    ensures multiset(BookSnapshot(docs)) == multiset(docs)
    ensures forall i, j :: 0 <= i < j < |BookSnapshot(docs)| ==>
      BookSnapshot(docs)[i].createdAt >= BookSnapshot(docs)[j].createdAt
  {
    SortBySorted(docs, NewestFirst);
    var r := BookSnapshot(docs);
    forall i, j | 0 <= i < j < |r|
      ensures r[i].createdAt >= r[j].createdAt
    {
      assert NewestFirst(r[i]) <= NewestFirst(r[j]);
    }
  }

  // ---------------------------------------------------------------------------
  // Progress lookup. `uid` is None while nobody is signed in (`user?.uid` is undefined).

  function IsMine(bookId: string, uid: Option<string>): Progress -> bool {
    (p: Progress) => p.bookId == bookId && uid == Some(p.userId)
  }

  function IsPartners(bookId: string, uid: Option<string>): Progress -> bool {
    (p: Progress) => p.bookId == bookId && uid != Some(p.userId)
  }

  /** `getMyProg` before its default: the first record of this user on this book. */
  function MyProgress(ps: seq<Progress>, bookId: string, uid: Option<string>): Option<Progress> {
    Find(ps, IsMine(bookId, uid))
  }

  /** `getPartnerProg`: the first record on this book whose user is not the signed-in one. */
  function PartnerProgress(ps: seq<Progress>, bookId: string, uid: Option<string>): Option<Progress> {
    Find(ps, IsPartners(bookId, uid))
  }

  /** The page shown for a record that may be missing: `|| { currentPage: 0 }`. */
  function PageOr0(r: Option<Progress>): JsInt {
    match r
    case Some(p) => p.currentPage
    case None => Num(0)
  }

  function MyPage(ps: seq<Progress>, bookId: string, uid: Option<string>): JsInt {
    PageOr0(MyProgress(ps, bookId, uid))
  }

  function PartnerPage(ps: seq<Progress>, bookId: string, uid: Option<string>): JsInt {
    PageOr0(PartnerProgress(ps, bookId, uid))
  }

  /**
   * `getMyProg`: the page of the first record of mine on the book, in feed order,
   * and page 0 when there is none (nobody signed in included).
   */
  lemma MyPageIsFirstOwnRecord(ps: seq<Progress>, bookId: string, uid: Option<string>)
    ensures (forall p :: p in ps ==> !IsMine(bookId, uid)(p)) ==> MyPage(ps, bookId, uid) == Num(0)
    ensures forall i :: 0 <= i < |ps| && IsMine(bookId, uid)(ps[i]) && (forall j :: 0 <= j < i ==> !IsMine(bookId, uid)(ps[j])) ==>
      MyProgress(ps, bookId, uid) == Some(ps[i]) && MyPage(ps, bookId, uid) == ps[i].currentPage
  {
    FirstIsFound(ps, IsMine(bookId, uid));
  }

  /**
   * `getPartnerProg`: the page of the first record on the book whose user is not me,
   * in feed order, and page 0 when there is none.
   */
  lemma PartnerPageIsFirstOtherRecord(ps: seq<Progress>, bookId: string, uid: Option<string>)
    ensures (forall p :: p in ps ==> !IsPartners(bookId, uid)(p)) ==> PartnerPage(ps, bookId, uid) == Num(0)
    ensures forall i :: 0 <= i < |ps| && IsPartners(bookId, uid)(ps[i]) && (forall j :: 0 <= j < i ==> !IsPartners(bookId, uid)(ps[j])) ==>
      PartnerProgress(ps, bookId, uid) == Some(ps[i]) && PartnerPage(ps, bookId, uid) == ps[i].currentPage
  {
    FirstIsFound(ps, IsPartners(bookId, uid));
  }

  /** `page >= total`; false for NaN, as every comparison with NaN is. */
  predicate Reached(page: JsInt, total: int) {
    page.Num? && page.value >= total
  }

  /** Both readers are at or past the last page. */
  predicate IsCompleted(b: Book, ps: seq<Progress>, uid: Option<string>) {
    Reached(MyPage(ps, b.id, uid), b.totalPages) && Reached(PartnerPage(ps, b.id, uid), b.totalPages)
  }

  /**
   * The completion test over the feed itself: the first record of mine on the book and
   * the first record on it of another reader both hold a number at or past its last
   * page; a side with no record counts as page 0, so it passes only a book of at most
   * zero pages.
   */
  lemma CompletedIffBothAtEnd(b: Book, ps: seq<Progress>, uid: Option<string>)
    ensures IsCompleted(b, ps, uid) <==>
      && (if exists i :: FirstAt(ps, IsMine(b.id, uid), i)
          then forall i :: FirstAt(ps, IsMine(b.id, uid), i) ==> Reached(ps[i].currentPage, b.totalPages)
          else b.totalPages <= 0)
      && (if exists i :: FirstAt(ps, IsPartners(b.id, uid), i)
          then forall i :: FirstAt(ps, IsPartners(b.id, uid), i) ==> Reached(ps[i].currentPage, b.totalPages)
          else b.totalPages <= 0)
  {
    FirstIsFound(ps, IsMine(b.id, uid));
    FirstIsFound(ps, IsPartners(b.id, uid));
  }

  // ---------------------------------------------------------------------------
  // The shelves

  datatype Shelf = ReadingShelf | CompletedShelf | TrashShelf

  datatype Shelves = Shelves(reading: seq<Book>, completed: seq<Book>, trash: seq<Book>)

  function ShelfOf(b: Book, ps: seq<Progress>, uid: Option<string>): Shelf {
    if b.isDeleted then TrashShelf
    else if IsCompleted(b, ps, uid) then CompletedShelf
    else ReadingShelf
  }

  function OnShelf(ps: seq<Progress>, uid: Option<string>, shelf: Shelf): Book -> bool {
    (b: Book) => ShelfOf(b, ps, uid) == shelf
  }

  /** Each shelf keeps the books that belong on it, in snapshot order. */
  function Partition(books: seq<Book>, ps: seq<Progress>, uid: Option<string>): Shelves {
    Shelves(
      Filter(books, OnShelf(ps, uid, ReadingShelf)),
      Filter(books, OnShelf(ps, uid, CompletedShelf)),
      Filter(books, OnShelf(ps, uid, TrashShelf)))
  }

  function IsActive(b: Book): bool {
    !b.isDeleted
  }

  function IsTrashed(b: Book): bool {
    b.isDeleted
  }

  /** Filtering out the deleted books first changes neither the reading nor the completed shelf. */
  lemma ActiveShelf(books: seq<Book>, ps: seq<Progress>, uid: Option<string>, shelf: Shelf)
    requires shelf != TrashShelf
    ensures Filter(Filter(books, IsActive), OnShelf(ps, uid, shelf)) == Filter(books, OnShelf(ps, uid, shelf))
  {
    FilterOfFilter(books, IsActive, OnShelf(ps, uid, shelf));
  }

  /** The trash is exactly `books.filter(b => b.isDeleted)`. */
  lemma {:induction false} TrashShelfIsDeleted(books: seq<Book>, ps: seq<Progress>, uid: Option<string>)
    ensures Filter(books, OnShelf(ps, uid, TrashShelf)) == Filter(books, IsTrashed)
  {
    if books != [] {
      TrashShelfIsDeleted(books[..|books| - 1], ps, uid);
    }
  }

  /**
   * `filteredBooks`: the non-deleted books are pushed one by one onto `completed`
   * or `reading`; the trash is a filter of its own.
   */
  method FilteredBooks(books: seq<Book>, ps: seq<Progress>, uid: Option<string>) returns (shelves: Shelves)
    ensures shelves == Partition(books, ps, uid)
  {
    var active := Filter(books, IsActive);
    var reading: seq<Book> := [];
    var completed: seq<Book> := [];
    for i := 0 to |active|
      invariant reading == Filter(active[..i], OnShelf(ps, uid, ReadingShelf))
      invariant completed == Filter(active[..i], OnShelf(ps, uid, CompletedShelf))
    {
      var b := active[i];
      assert !b.isDeleted by {
        FilterMembers(books, IsActive);
        assert b in active;
      }
      FilterSnoc(active, i, OnShelf(ps, uid, ReadingShelf));
      FilterSnoc(active, i, OnShelf(ps, uid, CompletedShelf));
      var my := MyPage(ps, b.id, uid);
      var partner := PartnerPage(ps, b.id, uid);
      if Reached(my, b.totalPages) && Reached(partner, b.totalPages) {
        completed := completed + [b];
      } else {
        reading := reading + [b];
      }
    }
    assert active[..|active|] == active;
    ActiveShelf(books, ps, uid, ReadingShelf);
    ActiveShelf(books, ps, uid, CompletedShelf);
    TrashShelfIsDeleted(books, ps, uid);
    shelves := Shelves(reading, completed, Filter(books, IsTrashed));
  }

  /**
   * Every book lands on exactly one shelf: the three shelves together hold each book
   * exactly as often as the snapshot does, the trash holds the deleted books, and a
   * non-deleted book is on the completed shelf exactly when both readers have finished.
   */
  lemma PartitionIsExact(books: seq<Book>, ps: seq<Progress>, uid: Option<string>)
    ensures var sh := Partition(books, ps, uid);
      multiset(sh.reading) + multiset(sh.completed) + multiset(sh.trash) == multiset(books)
    ensures forall b :: b in Partition(books, ps, uid).trash <==> b in books && b.isDeleted
    ensures forall b :: b in Partition(books, ps, uid).completed <==>
      b in books && !b.isDeleted && IsCompleted(b, ps, uid)
    ensures forall b :: b in Partition(books, ps, uid).reading <==>
      b in books && !b.isDeleted && !IsCompleted(b, ps, uid)
  {
    var sh := Partition(books, ps, uid);
    FilterMembers(books, OnShelf(ps, uid, ReadingShelf));
    FilterMembers(books, OnShelf(ps, uid, CompletedShelf));
    FilterMembers(books, OnShelf(ps, uid, TrashShelf));
    forall b
      ensures (multiset(sh.reading) + multiset(sh.completed) + multiset(sh.trash))[b] == multiset(books)[b]
    {
      FilterCount(books, OnShelf(ps, uid, ReadingShelf), b);
      FilterCount(books, OnShelf(ps, uid, CompletedShelf), b);
      FilterCount(books, OnShelf(ps, uid, TrashShelf), b);
    }
  }

  /** The shelves of the newest-first snapshot are newest first as well. */
  lemma ShelvesAreNewestFirst(docs: seq<Book>, ps: seq<Progress>, uid: Option<string>)
    ensures var sh := Partition(BookSnapshot(docs), ps, uid);
      SortedBy(sh.reading, NewestFirst) && SortedBy(sh.completed, NewestFirst) && SortedBy(sh.trash, NewestFirst)
  {
    var books := BookSnapshot(docs);
    SortBySorted(docs, NewestFirst);
    FilterSorted(books, OnShelf(ps, uid, ReadingShelf), NewestFirst);
    FilterSorted(books, OnShelf(ps, uid, CompletedShelf), NewestFirst);
    FilterSorted(books, OnShelf(ps, uid, TrashShelf), NewestFirst);
  }

  // ---------------------------------------------------------------------------
  // Completion

  /** A completed book with a positive page count has a finished record of mine and one of somebody else. */
  lemma CompletedMeansBothFinished(b: Book, ps: seq<Progress>, uid: Option<string>)
    requires IsCompleted(b, ps, uid) && b.totalPages > 0
    ensures exists p :: p in ps && p.bookId == b.id && uid == Some(p.userId) && Reached(p.currentPage, b.totalPages)
    ensures exists p :: p in ps && p.bookId == b.id && uid != Some(p.userId) && Reached(p.currentPage, b.totalPages)
  {
    var mine := MyProgress(ps, b.id, uid);
    var partner := PartnerProgress(ps, b.id, uid);
    assert mine.Some? && partner.Some?;
    assert IsMine(b.id, uid)(mine.value) && IsPartners(b.id, uid)(partner.value);
  }

  /** With only my own records on a book of positive length, it stays on the reading shelf. */
  lemma NoPartnerNeverCompleted(b: Book, ps: seq<Progress>, uid: Option<string>)
    requires b.totalPages > 0
    requires forall p :: p in ps && p.bookId == b.id ==> uid == Some(p.userId)
    ensures !IsCompleted(b, ps, uid)
  {
    assert forall p :: p in ps ==> !IsPartners(b.id, uid)(p);
  }

  /** Conversely, when each record on the book has reached its end and both sides have one, it is completed. */
  lemma EveryoneFinishedIsCompleted(b: Book, ps: seq<Progress>, uid: Option<string>)
    requires exists p :: p in ps && p.bookId == b.id && uid == Some(p.userId)
    requires exists p :: p in ps && p.bookId == b.id && uid != Some(p.userId)
    requires forall p :: p in ps && p.bookId == b.id ==> Reached(p.currentPage, b.totalPages)
    ensures IsCompleted(b, ps, uid)
  {
    var m :| m in ps && m.bookId == b.id && uid == Some(m.userId);
    var q :| q in ps && q.bookId == b.id && uid != Some(q.userId);
    assert IsMine(b.id, uid)(m);
    assert IsPartners(b.id, uid)(q);
    var mine := MyProgress(ps, b.id, uid);
    var partner := PartnerProgress(ps, b.id, uid);
    assert IsMine(b.id, uid)(mine.value) && IsPartners(b.id, uid)(partner.value);
  }

  /** A book whose page count is zero or negative, with no progress at all, is completed at once. */
  lemma NonPositiveTotalCompletedAtOnce(b: Book, ps: seq<Progress>, uid: Option<string>)
    requires b.totalPages <= 0
    requires forall p :: p in ps ==> p.bookId != b.id
    ensures IsCompleted(b, ps, uid)
  {
  }

  /**
   * With at most one record per (book, user) and at most one other reader on the book,
   * the order in which the progress feed lists its records does not change the verdict.
   */
  lemma CompletionIgnoresFeedOrder(b: Book, ps: seq<Progress>, qs: seq<Progress>, uid: Option<string>)
    requires multiset(ps) == multiset(qs)
    requires forall p, q :: p in ps && q in ps && p.bookId == q.bookId && p.userId == q.userId ==> p == q
    requires forall p, q :: p in ps && q in ps && IsPartners(b.id, uid)(p) && IsPartners(b.id, uid)(q) ==>
      p.userId == q.userId
    ensures IsCompleted(b, ps, uid) == IsCompleted(b, qs, uid)
  {
    FindIgnoresOrder(ps, qs, IsMine(b.id, uid));
    FindIgnoresOrder(ps, qs, IsPartners(b.id, uid));
  }

  // ---------------------------------------------------------------------------
  // Progress bars

  /** `Math.round(n / d)` over exact rationals: the floor of `n / d + 1/2`. */
  function RoundHalfUp(n: int, d: int): int
    requires d != 0
  {
    if d > 0 then (2 * n + d) / (2 * d) else (-2 * n - d) / (-2 * d)
  }

  /**
   * `Math.min(Math.round(page / total * 100), 100) || 0` in exact arithmetic: NaN shows 0.
   * Every stored book has a non-zero page count.
   */
  function Percent(page: JsInt, total: int): (r: int)
    requires total != 0
    ensures r <= 100
  {
    match page
    case NaN => 0
    case Num(p) =>
      var q := RoundHalfUp(100 * p, total);
      if q < 100 then q else 100
  }

  lemma MulIsMonotone(d: int, x: int, y: int)
    requires d > 0 && x < y
    ensures d * x + d <= d * y
  {
    var k := y - x - 1;
    assert d * y == d * x + d + d * k;
  }

  lemma DivIsUnique(a: int, d: int, q: int)
    requires d > 0 && d * q <= a < d * q + d
    ensures a / d == q
  {
    var q0, r0 := a / d, a % d;
    assert a == d * q0 + r0 && 0 <= r0 < d;
    if q0 < q {
      MulIsMonotone(d, q0, q);
    } else if q0 > q {
      MulIsMonotone(d, q, q0);
    }
  }

  lemma DivIsMonotone(a: int, b: int, d: int)
    requires d > 0 && a <= b
    ensures a / d <= b / d
  {
    var qa, qb := a / d, b / d;
    assert a == d * qa + a % d && b == d * qb + b % d;
    if qa > qb {
      MulIsMonotone(d, qb, qa);
    }
  }

  /** The bars start at 0%, end at 100%, stay within [0, 100] on the way and never go back. */
  lemma PercentBounds(p: int, total: int)
    requires 0 <= p <= total && total > 0
    ensures Percent(Num(0), total) == 0
    ensures Percent(Num(total), total) == 100
    ensures 0 <= Percent(Num(p), total) <= 100
  {
    DivIsUnique(total, 2 * total, 0);
    DivIsUnique(201 * total, 2 * total, 100);
    DivIsMonotone(total, 200 * p + total, 2 * total);
  }

  lemma PercentMonotone(p1: int, p2: int, total: int)
    requires p1 <= p2 && total > 0
    ensures Percent(Num(p1), total) <= Percent(Num(p2), total)
  {
    DivIsMonotone(200 * p1 + total, 200 * p2 + total, 2 * total);
  }

  // ---------------------------------------------------------------------------
  // Topics and threads

  /** The pages of the messages on one book, in feed order: `filter(...).map(m => m.page)`. */
  function PagesOf(msgs: seq<Message>, bookId: string): (r: seq<int>)
    ensures forall p :: p in r <==> exists m :: m in msgs && m.bookId == bookId && m.page == p
  {
    if msgs == [] then []
    else
      var init, last := msgs[..|msgs| - 1], msgs[|msgs| - 1];
      assert msgs == init + [last];
      PagesOf(init, bookId) + if last.bookId == bookId then [last.page] else []
  }

  function Identity(x: int): int {
    x
  }

  /** `currentTopics`: no topics without a selected book, else the distinct pages, ascending. */
  function Topics(msgs: seq<Message>, selected: Option<string>): seq<int> {
    match selected
    case None => []
    case Some(bookId) => SortBy(Distinct(PagesOf(msgs, bookId)), Identity)
  }

  predicate StrictlyIncreasing(s: seq<int>) {
    forall i, j :: 0 <= i < j < |s| ==> s[i] < s[j]
  }

  lemma TopicsAreDistinctPagesAscending(msgs: seq<Message>, selected: Option<string>)
    ensures selected.None? ==> Topics(msgs, selected) == []
    ensures StrictlyIncreasing(Topics(msgs, selected))
    ensures selected.Some? ==> forall p :: p in Topics(msgs, selected) <==>
      exists m :: m in msgs && m.bookId == selected.value && m.page == p
  {
    if selected.Some? {
      var d := Distinct(PagesOf(msgs, selected.value));
      var t := Topics(msgs, selected);
      SortBySorted(d, Identity);
      SortByKeepsNoDuplicates(d, Identity);
      forall i, j | 0 <= i < j < |t|
        ensures t[i] < t[j]
      {
        assert Identity(t[i]) <= Identity(t[j]);
      }
      forall p
        ensures p in t <==> p in d
      {
        SortByMembers(d, Identity, p);
      }
    }
  }

  lemma PagesOfAppend(msgs: seq<Message>, m: Message, bookId: string)
    ensures PagesOf(msgs + [m], bookId) == PagesOf(msgs, bookId) + if m.bookId == bookId then [m.page] else []
  {
    assert (msgs + [m])[..|msgs|] == msgs;
  }

  /**
   * Posting a message on a book adds its page to the book's topics when it is new and
   * leaves them alone otherwise; either way the page is then listed exactly once.
   */
  lemma TopicsAfterPost(msgs: seq<Message>, m: Message)
    ensures var before, after := Topics(msgs, Some(m.bookId)), Topics(msgs + [m], Some(m.bookId));
      && (forall p :: p in after <==> p in before || p == m.page)
      && |after| == |before| + (if m.page in before then 0 else 1)
      && OccursOnce(after, m.page)
  {
    var before, after := Topics(msgs, Some(m.bookId)), Topics(msgs + [m], Some(m.bookId));
    var d, d' := PostedPages(msgs, m);
    forall p
      ensures p in after <==> p in before || p == m.page
    {
      SortByMembers(d, Identity, p);
      SortByMembers(d', Identity, p);
    }
    assert |after| == |before| + (if m.page in before then 0 else 1) by {
      SortByMembers(d, Identity, m.page);
    }
    assert OccursOnce(after, m.page) by {
      SortByKeepsNoDuplicates(d', Identity);
      NoDuplicatesOccursOnce(after, m.page);
    }
  }

  /** The distinct pages of a book before and after a message is posted on it. */
  lemma PostedPages(msgs: seq<Message>, m: Message) returns (d: seq<int>, d': seq<int>)
    ensures d == Distinct(PagesOf(msgs, m.bookId)) && d' == Distinct(PagesOf(msgs + [m], m.bookId))
    ensures d' == if m.page in d then d else d + [m.page]
  {
    var pages := PagesOf(msgs, m.bookId);
    var pages' := pages + [m.page];
    PagesOfAppend(msgs, m, m.bookId);
    assert pages'[..|pages|] == pages;
    d, d' := Distinct(pages), Distinct(pages');
  }

  /** A message on another book does not touch this book's topics. */
  lemma TopicsIgnoreOtherBooks(msgs: seq<Message>, m: Message, bookId: string)
    requires m.bookId != bookId
    ensures Topics(msgs + [m], Some(bookId)) == Topics(msgs, Some(bookId))
  {
    PagesOfAppend(msgs, m, bookId);
    assert PagesOf(msgs, bookId) + [] == PagesOf(msgs, bookId);
  }

  function MessageTime(m: Message): int {
    m.createdAt
  }

  function InTopic(bookId: string, page: int): Message -> bool {
    (m: Message) => m.bookId == bookId && m.page == page
  }

  /** The messages of one (book, page) topic, oldest first. */
  function Thread(msgs: seq<Message>, bookId: string, page: int): seq<Message> {
    SortBy(Filter(msgs, InTopic(bookId, page)), MessageTime)
  }

  /** A thread is the topic's messages, each as often as in the feed, in non-decreasing `createdAt` order. */
  lemma ThreadIsTopicOldestFirst(msgs: seq<Message>, bookId: string, page: int)
    ensures forall m: Message ::
      multiset(Thread(msgs, bookId, page))[m] == (if m.bookId == bookId && m.page == page then multiset(msgs)[m] else 0)
    ensures forall i, j :: 0 <= i < j < |Thread(msgs, bookId, page)| ==>
      Thread(msgs, bookId, page)[i].createdAt <= Thread(msgs, bookId, page)[j].createdAt
  {
    var f := Filter(msgs, InTopic(bookId, page));
    var t := Thread(msgs, bookId, page);
    forall m: Message
      ensures multiset(t)[m] == if m.bookId == bookId && m.page == page then multiset(msgs)[m] else 0
    {
      FilterCount(msgs, InTopic(bookId, page), m);
    }
    SortBySorted(f, MessageTime);
    forall i, j | 0 <= i < j < |t|
      ensures t[i].createdAt <= t[j].createdAt
    {
      assert MessageTime(t[i]) <= MessageTime(t[j]);
    }
  }

  /** A posted message shows in the thread of its topic. */
  lemma PostedMessageInThread(msgs: seq<Message>, m: Message)
    ensures m in Thread(msgs + [m], m.bookId, m.page)
  {
    ThreadIsTopicOldestFirst(msgs + [m], m.bookId, m.page);
    assert multiset(msgs + [m])[m] > 0;
  }
}
