/**
 * The page component as one object: the three collections it keeps in sync
 * (in memory here, each write applied at once) and the component state the
 * handlers set. Every handler is a method that states the whole new state and
 * keeps `Valid()`.
 */
module Store {
  import opened Options
  import opened JsText
  import opened Reconciler
  import opened Commands

  datatype View = Home | Add | Edit | Trash | Completed

  /** The component state that is not stored data, gathered so that a handler can say what it leaves alone. */
  datatype UiState = UiState(
    view: View,
    selectedBook: Option<Book>,
    activeTopicPage: Option<int>,
    formInput: BookForm,
    chatInput: string,
    newPageTopic: string,
    swipedBookId: Option<string>)

  /**
   * Book ids are unique; no book has zero pages (the add form falls back to one);
   * every record is under its own key; every number page on record is no greater
   * than its book's page count; the selected copy agrees with the table on the page count.
   */
  ghost predicate Consistent(books: seq<Book>, progress: map<ProgressKey, Progress>, selected: Option<Book>) {
    && UniqueIds(books)
    && (forall b :: b in books ==> b.totalPages != 0)
    && KeysMatch(progress)
    && PagesWithinBooks(books, progress)
    && (selected.Some? ==>
          && selected.value.totalPages != 0
          && forall b :: b in books && b.id == selected.value.id ==> b.totalPages == selected.value.totalPages)
  }

  /** A new book under an id nothing refers to keeps the data consistent. */
  lemma AddKeepsConsistent(books: seq<Book>, progress: map<ProgressKey, Progress>, selected: Option<Book>, b: Book)
    requires Consistent(books, progress, selected) && !HasBook(books, b.id) && b.totalPages != 0
    requires forall k :: k in progress ==> k.bookId != b.id
    requires selected.Some? ==> selected.value.id != b.id
    ensures Consistent(books + [b], progress, selected)
  {
    AppendKeepsUniqueIds(books, b);
  }

  /** Writing an accepted page for the selected book keeps the data consistent, with or without the selection. */
  lemma UpsertKeepsConsistent(books: seq<Book>, progress: map<ProgressKey, Progress>, sel: Book, p: Progress)
    requires Consistent(books, progress, Some(sel))
    requires p.bookId == sel.id && (p.currentPage.Num? ==> p.currentPage.value <= sel.totalPages)
    ensures Consistent(books, Upsert(progress, p), None)
  {
  }

  /** Setting a book's deletion fields, as a move to the trash or a restore does, keeps the data consistent. */
  lemma DeletionKeepsConsistent(books: seq<Book>, progress: map<ProgressKey, Progress>, selected: Option<Book>, id: string, deleted: bool, at: DeletedAt)
    requires Consistent(books, progress, selected)
    ensures Consistent(MarkDeletion(books, id, deleted, at), progress, selected)
  {
    DeletionKeepsIds(books, id, deleted, at);
    DeletionKeepsPageCounts(books, id, deleted, at);
  }

  /** Removing a book keeps the data consistent; its records stay, with no book to bound them. */
  lemma RemoveKeepsConsistent(books: seq<Book>, progress: map<ProgressKey, Progress>, selected: Option<Book>, id: string)
    requires Consistent(books, progress, selected)
    ensures Consistent(TableAfterDelete(books, id), progress, selected)
  {
    RemoveKeepsUniqueIds(books, id);
  }

  class Library {
    /** The book documents, in the order they were added. */
    var books: seq<Book>
    /** The progress documents, under the (book, user) pair their id is made of. */
    var progress: map<ProgressKey, Progress>
    /** The message documents, in the order they were added. */
    var messages: seq<Message>

    var view: View
    /** The book the edit view shows: a copy taken when its card was clicked. */
    var selectedBook: Option<Book>
    var activeTopicPage: Option<int>
    var formInput: BookForm
    var chatInput: string
    var newPageTopic: string
    var swipedBookId: Option<string>

    function Ui(): UiState
      reads this
    {
      UiState(view, selectedBook, activeTopicPage, formInput, chatInput, newPageTopic, swipedBookId)
    }

    ghost predicate Valid()
      reads this
    {
      Consistent(books, progress, selectedBook)
    }

    /** An id the database has never handed out: no book, record or selection uses it. */
    predicate FreshId(id: string)
      reads this
    {
      && !HasBook(books, id)
      && (forall k :: k in progress ==> k.bookId != id)
      && (selectedBook.Some? ==> selectedBook.value.id != id)
    }

    /** The chat of a topic shows only while `activeTopicPage` is truthy: set, and not page 0. */
    predicate ChatOpen(): (r: bool)
      reads this
      ensures r ==> activeTopicPage.Some?
      ensures activeTopicPage == Some(0) ==> !r
    {
      activeTopicPage.Some? && activeTopicPage.value != 0
    }

    constructor ()
      ensures books == [] && progress == map[] && messages == []
      ensures Ui() == UiState(Home, None, None, EmptyForm, "", "", None)
      ensures Valid()
    {
      books, progress, messages := [], map[], [];
      view, selectedBook, activeTopicPage := Home, None, None;
      formInput, chatInput, newPageTopic, swipedBookId := EmptyForm, "", "", None;
    }

    /**
     * `handleAddBook`: with somebody signed in, one live book built from the form is
     * added, and the app goes home with an empty form. Without a user, `user.uid`
     * throws before the write and nothing changes.
     */
    method AddBook(id: string, uid: Option<string>, now: int)
      requires Valid() && FreshId(id)
      modifies this
      ensures Valid()
      ensures progress == old(progress) && messages == old(messages)
      ensures uid.None? ==> books == old(books) && Ui() == old(Ui())
      ensures uid.Some? ==> books == old(books) + [NewBook(id, old(formInput), uid.value, now)]
      ensures uid.Some? ==> Ui() == old(Ui()).(view := Home, formInput := EmptyForm)
    {
      if uid.Some? {
        var b := NewBook(id, formInput, uid.value, now);
        AddKeepsConsistent(books, progress, selectedBook, b);
        books := books + [b];
        view := Home;
        formInput := EmptyForm;
      }
    }

    /**
     * `handleUpdateProgress`: a page above the book's count, or no user, writes nothing;
     * otherwise my record on the selected book is created or replaced, and the app goes
     * home with no book selected.
     */
    method UpdateProgress(input: string, uid: Option<string>, now: int)
      requires Valid() && selectedBook.Some?
      modifies this
      ensures Valid()
      ensures books == old(books) && messages == old(messages)
      ensures var sel := old(selectedBook).value;
        if AcceptedPage(input, sel.totalPages).Some? && uid.Some? then
          && progress == Upsert(old(progress), Progress(sel.id, uid.value, AcceptedPage(input, sel.totalPages).value, now))
          && Ui() == old(Ui()).(view := Home, selectedBook := None)
        else
          progress == old(progress) && Ui() == old(Ui())
    {
      var sel := selectedBook.value;
      var accepted := AcceptedPage(input, sel.totalPages);
      if accepted.Some? && uid.Some? {
        var record := Progress(sel.id, uid.value, accepted.value, now);
        UpsertKeepsConsistent(books, progress, sel, record);
        progress := Upsert(progress, record);
        view := Home;
        selectedBook := None;
      }
    }

    /**
     * `moveToTrash`: the book is marked deleted at `now` and the swiped card closes.
     * Updating a missing document fails, and then nothing changes.
     */
    method MoveToTrash(id: string, now: int)
      requires Valid()
      modifies this
      ensures Valid()
      ensures progress == old(progress) && messages == old(messages)
      ensures HasBook(old(books), id) ==> books == TableAfterTrash(old(books), id, now) && Ui() == old(Ui()).(swipedBookId := None)
      ensures !HasBook(old(books), id) ==> books == old(books) && Ui() == old(Ui())
    {
      if HasBook(books, id) {
        DeletionKeepsConsistent(books, progress, selectedBook, id, true, At(now));
        books := TableAfterTrash(books, id, now);
        swipedBookId := None;
      }
    }

    /** `restoreBook`: the book is live again with its deletion time cleared; a missing one changes nothing. */
    method RestoreBook(id: string)
      requires Valid()
      modifies this
      ensures Valid()
      ensures progress == old(progress) && messages == old(messages) && Ui() == old(Ui())
      ensures books == if HasBook(old(books), id) then TableAfterRestore(old(books), id) else old(books)
    {
      if HasBook(books, id) {
        DeletionKeepsConsistent(books, progress, selectedBook, id, false, Cleared);
        books := TableAfterRestore(books, id);
      }
    }

    /**
     * `permanentDelete`: once the reader confirms, the book leaves the table; its
     * progress records and messages stay where they are.
     */
    method PermanentDelete(id: string, confirmed: bool)
      requires Valid()
      modifies this
      ensures Valid()
      ensures progress == old(progress) && messages == old(messages) && Ui() == old(Ui())
      ensures books == if confirmed then TableAfterDelete(old(books), id) else old(books)
    {
      if confirmed {
        RemoveKeepsConsistent(books, progress, selectedBook, id);
        books := TableAfterDelete(books, id);
      }
    }

    /**
     * `sendMessage`: a blank message, or no user, writes nothing; otherwise the text, as
     * typed, is posted on the open topic of the selected book and the field is cleared.
     * `Reconciler.PostedMessageInThread` shows it in that topic's thread.
     */
    method SendMessage(uid: Option<string>, now: int)
      requires Valid() && selectedBook.Some? && ChatOpen()
      modifies this
      ensures Valid()
      ensures books == old(books) && progress == old(progress)
      ensures Trim(old(chatInput)) == [] || uid.None? ==> messages == old(messages) && Ui() == old(Ui())
      ensures Trim(old(chatInput)) != [] && uid.Some? ==>
        var m := Message(old(selectedBook).value.id, uid.value, old(activeTopicPage).value, old(chatInput), now);
        && messages == old(messages) + [m]
        && Ui() == old(Ui()).(chatInput := "")
    {
      if Trim(chatInput) != [] && uid.Some? {
        var m := Message(selectedBook.value.id, uid.value, activeTopicPage.value, chatInput, now);
        messages, chatInput := messages + [m], "";
      }
    }

    /**
     * `createTopic`, with its guard corrected to `Commands.TopicPage`: an empty field, a
     * field that parses to NaN or a page above the book's count writes nothing; otherwise
     * the system opens the topic with a message naming its page, the topic becomes the
     * active one and the field is cleared. As written, the guard lets NaN through
     * (`Commands.TopicGuardAdmitsNaN`); pages are integers here, so that state is not
     * represented. The chat of the new topic opens unless its page is 0. What the book's
     * topics are then is `Reconciler.TopicsAfterPost` applied to the opening message.
     */
    method CreateTopic(now: int)
      requires Valid() && selectedBook.Some?
      modifies this
      ensures Valid()
      ensures books == old(books) && progress == old(progress)
      ensures TopicPage(old(newPageTopic), old(selectedBook).value.totalPages).None? ==>
        messages == old(messages) && Ui() == old(Ui())
      ensures TopicPage(old(newPageTopic), old(selectedBook).value.totalPages).Some? ==>
        var p := TopicPage(old(newPageTopic), old(selectedBook).value.totalPages).value;
        && messages == old(messages) + [TopicOpening(old(selectedBook).value.id, p, now)]
        && Ui() == old(Ui()).(activeTopicPage := Some(p), newPageTopic := "")
        && (ChatOpen() <==> p != 0)
    {
      var sel := selectedBook.value;
      var page := TopicPage(newPageTopic, sel.totalPages);
      if page.Some? {
        messages, activeTopicPage, newPageTopic := messages + [TopicOpening(sel.id, page.value, now)], Some(page.value), "";
      }
    }

    /** A click on a shelf card: closes the card when it is swiped open, otherwise opens the book. */
    method ClickCard(b: Book)
      requires Valid() && b in books
      modifies this
      ensures Valid()
      ensures books == old(books) && progress == old(progress) && messages == old(messages)
      ensures Ui() == if old(swipedBookId) == Some(b.id) then old(Ui()).(swipedBookId := None)
        else old(Ui()).(selectedBook := Some(b), view := Edit)
    {
      if swipedBookId == Some(b.id) {
        swipedBookId := None;
      } else {
        selectedBook := Some(b);
        view := Edit;
      }
    }

    /** A click on a completed book: opens it. */
    method OpenBook(b: Book)
      requires Valid() && b in books
      modifies this
      ensures Valid()
      ensures books == old(books) && progress == old(progress) && messages == old(messages)
      ensures Ui() == old(Ui()).(selectedBook := Some(b), view := Edit)
    {
      selectedBook := Some(b);
      view := Edit;
    }

    /** The back button: home, with no book and no topic selected. */
    method GoHome()
      requires Valid()
      modifies this
      ensures Valid()
      ensures books == old(books) && progress == old(progress) && messages == old(messages)
      ensures Ui() == old(Ui()).(view := Home, selectedBook := None, activeTopicPage := None)
    {
      view, selectedBook, activeTopicPage := Home, None, None;
    }

    /** The header buttons for the trash, the add form and the completed shelf. */
    method Navigate(v: View)
      requires Valid() && (v == Trash || v == Add || v == Completed)
      modifies this
      ensures Valid()
      ensures books == old(books) && progress == old(progress) && messages == old(messages)
      ensures Ui() == old(Ui()).(view := v)
    {
      view := v;
    }

    /** A topic tab, or the back-to-list button (None). */
    method SetActiveTopic(page: Option<int>)
      requires Valid()
      modifies this
      ensures Valid()
      ensures books == old(books) && progress == old(progress) && messages == old(messages)
      ensures Ui() == old(Ui()).(activeTopicPage := page)
    {
      activeTopicPage := page;
    }

    /** The add form's three inputs, each copying the form with one field replaced. */
    method EditForm(form: BookForm)
      requires Valid()
      modifies this
      ensures Valid()
      ensures books == old(books) && progress == old(progress) && messages == old(messages)
      ensures Ui() == old(Ui()).(formInput := form)
    {
      formInput := form;
    }

    method EditChat(text: string)
      requires Valid()
      modifies this
      ensures Valid()
      ensures books == old(books) && progress == old(progress) && messages == old(messages)
      ensures Ui() == old(Ui()).(chatInput := text)
    {
      chatInput := text;
    }

    method EditTopicPage(text: string)
      requires Valid()
      modifies this
      ensures Valid()
      ensures books == old(books) && progress == old(progress) && messages == old(messages)
      ensures Ui() == old(Ui()).(newPageTopic := text)
    {
      newPageTopic := text;
    }
  }

  /**
   * What the app shows right after a progress update: reading the new table in any
   * order, my page on the book is the page just written, and, when one other reader
   * at most keeps records on the book, my partner's record is the one it was before.
   */
  lemma ProgressAfterUpdate(ps: seq<Progress>, qs: seq<Progress>, table: map<ProgressKey, Progress>, p: Progress)
    requires KeysMatch(table) && Lists(ps, table) && Lists(qs, Upsert(table, p))
    requires forall q, r ::
      (q in table.Values && r in table.Values && IsPartners(p.bookId, Some(p.userId))(q) && IsPartners(p.bookId, Some(p.userId))(r))
      ==> q.userId == r.userId
    ensures MyPage(qs, p.bookId, Some(p.userId)) == p.currentPage
    ensures PartnerProgress(qs, p.bookId, Some(p.userId)) == PartnerProgress(ps, p.bookId, Some(p.userId))
  {
    UpsertReadsBack(qs, table, p);
    var isPartner := IsPartners(p.bookId, Some(p.userId));
    var before, after := PartnerProgress(ps, p.bookId, Some(p.userId)), PartnerProgress(qs, p.bookId, Some(p.userId));
    if after.Some? {
      var k :| k in Upsert(table, p) && Upsert(table, p)[k] == after.value;
      assert k != KeyOf(p);
      assert after.value in table.Values;
    }
    if before.Some? {
      var k :| k in table && table[k] == before.value;
      assert k != KeyOf(p);
      assert Upsert(table, p)[k] == before.value;
      assert before.value in Upsert(table, p).Values;
    }
    if before.Some? && after.Some? {
      assert KeyOf(before.value) == KeyOf(after.value);
      var k :| k in table && table[k] == before.value;
      var k' :| k' in table && table[k'] == after.value;
    }
  }
}
