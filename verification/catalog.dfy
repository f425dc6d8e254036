/**
 The book routes: `add_book` (administrators), `edit_book` (administrators
 and moderators) and `delete_book` (administrators).
 */
module Catalog {
  import opened Wrappers
  import opened Schema
  import opened Policy
  import opened External
  import Covers
  import Forms

  /** The book row built from validated form data; the description is sanitised. */
  function BookRow(env: Env, d: Forms.BookData): Book
  {
    Book(d.title, env.clean(d.description), d.year, d.publisher, d.author, d.pages)
  }

  /**
   `book.genres = Genre.query.filter(Genre.id.in_(ids)).all()`: the book's
   genre links become exactly the existing genres whose id was submitted.
   */
  function ReplaceGenres(s: Store, b: Id, ids: set<Id>): (t: Store)
    ensures GenresOf(t, b) == s.genres.Keys * ids
    ensures forall b' :: b' != b ==> GenresOf(t, b') == GenresOf(s, b')
    ensures forall l :: l in t.bookGenres ==> l in s.bookGenres || (l.book == b && l.genre in s.genres)
    ensures t == s.(bookGenres := t.bookGenres)
  {
    var kept := set l | l in s.bookGenres && l.book != b;
    var added := set g | g in s.genres && g in ids :: BookGenre(b, g);
    var t := s.(bookGenres := kept + added);
    assert GenresOf(t, b) == s.genres.Keys * ids by {
      forall g | g in s.genres.Keys * ids ensures g in GenresOf(t, b) {
        assert BookGenre(b, g) in added;
      }
    }
    assert forall b' :: b' != b ==> GenresOf(t, b') == GenresOf(s, b') by {
      forall b', g | b' != b && g in GenresOf(s, b') ensures g in GenresOf(t, b') {
        assert BookGenre(b', g) in kept;
      }
    }
    t
  }

  /**
   `add_book`: creates the book, links its genres and stores its cover, if
   any. The form offers every existing genre as a choice.
   */
  function AddBook(env: Env, s: Store, who: Identity, form: Forms.BookForm): (r: Step<Outcome<Id>>)
    ensures !Authenticated(s, who) ==> r == Step(Unauthenticated, s)
    ensures Valid(s) && Authenticated(s, who) ==> (r.result.Forbidden? <==> !Allowed(CallerRole(s, who), Action.AddBook))
    ensures !r.result.Ok? ==> r.store == s
    ensures r.result.Invalid? <==> HasPermission(s, who, {Administrator}) && Forms.ValidateBook(form, s.genres.Keys).None?
    ensures r.result.Ok? <==> HasPermission(s, who, {Administrator}) && Forms.ValidateBook(form, s.genres.Keys).Some?
    ensures r.result.Ok? ==>
              var id := r.result.value;
              && id == s.nextBookId && form.year.Some? && form.pages.Some?
              && r.store.books == s.books[id := Book(form.title, env.clean(form.description), form.year.value,
                                                     form.publisher, form.author, form.pages.value)]
              && GenresOf(r.store, id) == form.genres
              && (forall b :: b != id ==> GenresOf(r.store, b) == GenresOf(s, b))
              && r.store == s.(books := r.store.books, bookGenres := r.store.bookGenres, covers := r.store.covers,
                               files := r.store.files, nextBookId := id + 1, nextCoverId := r.store.nextCoverId)
  {
    if !Authenticated(s, who) then Step(Unauthenticated, s)
    else if !HasPermission(s, who, {Administrator}) then Step(Forbidden, s)
    else
      match Forms.ValidateBook(form, s.genres.Keys)
      case None => Step(Invalid, s)
      case Some(d) =>
        assert s.genres.Keys * d.genres == d.genres;
        Step(Ok(s.nextBookId), BookAdded(env, s, d))
  }

  /** The store after `add_book` accepted `d`: the book and its genres, then `save_cover` if a file was sent. */
  function BookAdded(env: Env, s: Store, d: Forms.BookData): (t: Store)
    ensures t.books == s.books[s.nextBookId := BookRow(env, d)]
    ensures GenresOf(t, s.nextBookId) == s.genres.Keys * d.genres
    ensures forall b :: b != s.nextBookId ==> GenresOf(t, b) == GenresOf(s, b)
    ensures t == s.(books := t.books, bookGenres := t.bookGenres, covers := t.covers, files := t.files,
                    nextBookId := s.nextBookId + 1, nextCoverId := t.nextCoverId)
  {
    var s1 := InsertBook(s, BookRow(env, d), d.genres);
    if Covers.Present(d.cover) then Covers.SaveCover(env, s1, d.cover, s.nextBookId).store else s1
  }

  /** The store after inserting book row `book` under the next book key, with genres `ids`. */
  function InsertBook(s: Store, book: Book, ids: set<Id>): Store
  {
    ReplaceGenres(s.(books := s.books[s.nextBookId := book], nextBookId := s.nextBookId + 1), s.nextBookId, ids)
  }

  lemma InsertBookValid(s: Store, book: Book, ids: set<Id>)
    requires Valid(s)
    ensures Valid(InsertBook(s, book, ids))
  {
    var s0 := s.(books := s.books[s.nextBookId := book], nextBookId := s.nextBookId + 1);
    var t := ReplaceGenres(s0, s.nextBookId, ids);
    assert InsertBook(s, book, ids) == t;
    NewBookValid(s, book);
    ReplaceGenresValid(s0, s.nextBookId, ids);
  }

  /** The new book is stored and has no cover yet. */
  lemma InsertBookFresh(s: Store, book: Book, ids: set<Id>)
    requires ForeignKeys(s) && FreshCounters(s)
    ensures s.nextBookId in InsertBook(s, book, ids).books
    ensures CoversOf(InsertBook(s, book, ids), s.nextBookId) == {}
    ensures InsertBook(s, book, ids).covers == s.covers && InsertBook(s, book, ids).files == s.files
    ensures InsertBook(s, book, ids).nextCoverId == s.nextCoverId
  {
    assert forall c :: c in s.covers ==> s.covers[c].bookId != s.nextBookId;
  }

  /** Replacing a stored book's genre set keeps the store valid. */
  lemma ReplaceGenresValid(s: Store, b: Id, ids: set<Id>)
    requires Valid(s) && b in s.books
    ensures Valid(ReplaceGenres(s, b, ids))
  {
    var t := ReplaceGenres(s, b, ids);
    ReplaceGenresLinks(s, b, ids);
    NewGenreLinksValid(s, t.bookGenres);
  }

  lemma ReplaceGenresLinks(s: Store, b: Id, ids: set<Id>)
    requires ForeignKeys(s) && b in s.books
    ensures forall l :: l in ReplaceGenres(s, b, ids).bookGenres ==> l.book in s.books && l.genre in s.genres
  {
  }

  /** `add_book` keeps the store valid. */
  lemma AddBookValid(env: Env, s: Store, who: Identity, form: Forms.BookForm)
    requires Valid(s)
    ensures Valid(AddBook(env, s, who, form).store)
  {
    var r := AddBook(env, s, who, form);
    if r.result.Ok? {
      var d := Forms.ValidateBook(form, s.genres.Keys).value;
      var s1 := InsertBook(s, BookRow(env, d), d.genres);
      InsertBookValid(s, BookRow(env, d), d.genres);
      InsertBookFresh(s, BookRow(env, d), d.genres);
      if Covers.Present(d.cover) {
        Covers.SaveCoverValid(env, s1, d.cover, s.nextBookId);
      }
    }
  }

  /**
   A new book gets a cover row only when its upload's content is new; an
   upload whose hash is already stored (for any book) leaves the new book
   without a cover.
   */
  lemma AddBookCover(env: Env, s: Store, who: Identity, form: Forms.BookForm)
    requires Valid(s)
    ensures var r := AddBook(env, s, who, form);
            r.result.Ok? && Covers.Present(form.cover) && !Covers.HashStored(s, env.md5(form.cover.value.content))
            ==> var f := form.cover.value;
                var name := CoverFilename(s.nextCoverId, Covers.StoredExtension(f.filename));
                && CoversOf(r.store, r.result.value) == {s.nextCoverId}
                && r.store.covers == s.covers[s.nextCoverId := Cover(name, f.mimeType, env.md5(f.content), r.result.value)]
                && r.store.files == s.files[name := f.content]
                && r.store.nextCoverId == s.nextCoverId + 1
    ensures var r := AddBook(env, s, who, form);
            r.result.Ok? && (!Covers.Present(form.cover) || Covers.HashStored(s, env.md5(form.cover.value.content)))
            ==> && CoversOf(r.store, r.result.value) == {} && r.store.covers == s.covers && r.store.files == s.files
                && r.store.nextCoverId == s.nextCoverId
  {
    var r := AddBook(env, s, who, form);
    if r.result.Ok? {
      var d := Forms.ValidateBook(form, s.genres.Keys).value;
      var id := s.nextBookId;
      var s1 := InsertBook(s, BookRow(env, d), d.genres);
      InsertBookFresh(s, BookRow(env, d), d.genres);
      if Covers.Present(d.cover) {
        var h := env.md5(d.cover.value.content);
        assert Covers.HashStored(s1, h) == Covers.HashStored(s, h);
        var s2 := Covers.SaveCover(env, s1, d.cover, id).store;
        assert r.store == s2;
        if !Covers.HashStored(s, h) {
          NewCoverOfBook(s1, s2, id);
        }
      }
    }
  }

  lemma NewCoverOfBook(s1: Store, s2: Store, id: Id)
    requires CoversOf(s1, id) == {}
    requires exists c: Cover :: c.bookId == id && s2.covers == s1.covers[s1.nextCoverId := c]
    ensures CoversOf(s2, id) == {s1.nextCoverId}
  {
  }

  /** `edit_book`: replaces the book's fields and its whole genre set. */
  function EditBook(env: Env, s: Store, who: Identity, bookId: Id, form: Forms.BookForm): (r: Step<Outcome<Id>>)
    ensures !Authenticated(s, who) ==> r == Step(Unauthenticated, s)
    ensures Valid(s) && Authenticated(s, who) ==> (r.result.Forbidden? <==> !Allowed(CallerRole(s, who), Action.EditBook))
    ensures !r.result.Ok? ==> r.store == s
    ensures r.result.NotFound? <==> HasPermission(s, who, {Administrator, Moderator}) && bookId !in s.books
    ensures r.result.Invalid? <==>
              HasPermission(s, who, {Administrator, Moderator}) && bookId in s.books
              && Forms.ValidateBook(form, s.genres.Keys).None?
    ensures r.result.Ok? <==>
              HasPermission(s, who, {Administrator, Moderator}) && bookId in s.books
              && Forms.ValidateBook(form, s.genres.Keys).Some?
    ensures r.result.Ok? ==>
              && r.result.value == bookId && form.year.Some? && form.pages.Some?
              && r.store.books == s.books[bookId := Book(form.title, env.clean(form.description), form.year.value,
                                                         form.publisher, form.author, form.pages.value)]
              && GenresOf(r.store, bookId) == form.genres
              && (forall b :: b != bookId ==> GenresOf(r.store, b) == GenresOf(s, b))
              && r.store == s.(books := r.store.books, bookGenres := r.store.bookGenres)
  {
    if !Authenticated(s, who) then Step(Unauthenticated, s)
    else if !HasPermission(s, who, {Administrator, Moderator}) then Step(Forbidden, s)
    else if bookId !in s.books then Step(NotFound, s)
    else
      match Forms.ValidateBook(form, s.genres.Keys)
      case None => Step(Invalid, s)
      case Some(d) =>
        assert s.genres.Keys * d.genres == d.genres;
        Step(Ok(bookId), ReplaceGenres(s.(books := s.books[bookId := BookRow(env, d)]), bookId, d.genres))
  }

  lemma EditBookValid(env: Env, s: Store, who: Identity, bookId: Id, form: Forms.BookForm)
    requires Valid(s)
    ensures Valid(EditBook(env, s, who, bookId, form).store)
  {
    var r := EditBook(env, s, who, bookId, form);
    if r.result.Ok? {
      var d := Forms.ValidateBook(form, s.genres.Keys).value;
      var s0 := s.(books := s.books[bookId := BookRow(env, d)]);
      BookUpdateValid(s, bookId, BookRow(env, d));
      ReplaceGenresValid(s0, bookId, d.genres);
    }
  }

  /** The stored files of book `b`'s covers. */
  function CoverFiles(s: Store, b: Id): set<string>
  {
    set c | c in s.covers && s.covers[c].bookId == b :: s.covers[c].filename
  }

  /**
   `delete_book`: removes the files of the book's covers that exist, then
   the book row with its cascades.
   */
  function DeleteBook(s: Store, who: Identity, bookId: Id): (r: Step<Outcome<()>>)
    ensures !Authenticated(s, who) ==> r == Step(Unauthenticated, s)
    ensures Valid(s) && Authenticated(s, who) ==> (r.result.Forbidden? <==> !Allowed(CallerRole(s, who), Action.DeleteBook))
    ensures !r.result.Ok? ==> r.store == s
    ensures r.result.NotFound? <==> HasPermission(s, who, {Administrator}) && bookId !in s.books
    ensures r.result.Ok? <==> HasPermission(s, who, {Administrator}) && bookId in s.books
    ensures r.result.Ok? ==>
              && r.store.books.Keys == s.books.Keys - {bookId}
              && (forall k :: k in r.store.books ==> r.store.books[k] == s.books[k])
              && (forall c :: c in r.store.covers <==> c in s.covers && s.covers[c].bookId != bookId)
              && (forall c :: c in r.store.covers ==> r.store.covers[c] == s.covers[c])
              && (forall v :: v in r.store.reviews <==> v in s.reviews && s.reviews[v].bookId != bookId)
              && (forall v :: v in r.store.reviews ==> r.store.reviews[v] == s.reviews[v])
              && GenresOf(r.store, bookId) == {}
              && (forall b :: b != bookId ==> GenresOf(r.store, b) == GenresOf(s, b))
              && (forall c :: BooksIn(r.store, c) == BooksIn(s, c) - {bookId})
              && r.store.files == s.files - CoverFiles(s, bookId)
              && r.store == s.(books := r.store.books, covers := r.store.covers, reviews := r.store.reviews,
                               bookGenres := r.store.bookGenres, bookCollections := r.store.bookCollections,
                               files := r.store.files)
  {
    if !Authenticated(s, who) then Step(Unauthenticated, s)
    else if !HasPermission(s, who, {Administrator}) then Step(Forbidden, s)
    else if bookId !in s.books then Step(NotFound, s)
    else
      var t := DeleteBookRows(s, bookId);
      DeleteBookLinks(s, bookId);
      Step(Ok(()), t.(files := s.files - CoverFiles(s, bookId)))
  }

  /** The book cascade drops the book from every genre and collection link set, and only it. */
  lemma DeleteBookLinks(s: Store, b: Id)
    ensures GenresOf(DeleteBookRows(s, b), b) == {}
    ensures forall b' :: b' != b ==> GenresOf(DeleteBookRows(s, b), b') == GenresOf(s, b')
    ensures forall c :: BooksIn(DeleteBookRows(s, b), c) == BooksIn(s, c) - {b}
  {
    var t := DeleteBookRows(s, b);
    forall b', g | b' != b && g in GenresOf(s, b')
      ensures g in GenresOf(t, b')
    {
      assert BookGenre(b', g) in t.bookGenres;
    }
    forall c, x | x in BooksIn(s, c) && x != b
      ensures x in BooksIn(t, c)
    {
      assert BookCollection(x, c) in t.bookCollections;
    }
  }

  /** Deleting a book keeps the store valid: the other covers' files stay. */
  lemma DeleteBookValid(s: Store, who: Identity, bookId: Id)
    requires Valid(s)
    ensures Valid(DeleteBook(s, who, bookId).store)
  {
    var r := DeleteBook(s, who, bookId);
    if r.result.Ok? {
      var t := DeleteBookRows(s, bookId);
      assert r.store == t.(files := s.files - CoverFiles(s, bookId));
      DropCoverFilesValid(s, bookId);
    }
  }

  /** Removing the deleted book's cover files spares every file a remaining cover names. */
  lemma DropCoverFilesValid(s: Store, b: Id)
    requires Valid(s)
    ensures Valid(DeleteBookRows(s, b).(files := s.files - CoverFiles(s, b)))
  {
    var t := DeleteBookRows(s, b);
    var files := s.files - CoverFiles(s, b);
    DeleteBookRowsValid(s, b);
    assert forall c :: c in t.covers ==> t.covers[c].filename !in CoverFiles(s, b);
    FilesChangeValid(t, files);
  }
}
