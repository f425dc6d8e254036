/**
 The relational schema: one datatype per table, the store as a map per
 table plus the two association tables as sets of link rows, and the
 constraints the schema and the handlers keep (uniqueness, foreign keys,
 one review per book and user, cover naming).  Deleting a book or a user
 cascades as the ORM relationships declare.
 */
module Schema {
  import opened Wrappers
  import Text

  /** Surrogate primary keys. */
  type Id = nat

  newtype byte = x: int | 0 <= x < 256

  datatype Role = Role(name: string, description: Option<string>)

  datatype User = User(
    login: string,
    passwordHash: string,
    lastName: string,
    firstName: string,
    middleName: Option<string>,
    roleId: Id)

  datatype Genre = Genre(name: string)

  datatype Book = Book(
    title: string,
    description: string,
    year: int,
    publisher: string,
    author: string,
    pages: int)

  datatype Cover = Cover(filename: string, mimeType: string, md5Hash: string, bookId: Id)

  datatype Review = Review(bookId: Id, userId: Id, rating: int, text: string, createdAt: int)

  datatype Collection = Collection(name: string, userId: Id)

  /** A row of `book_genres`; the pair is the primary key. */
  datatype BookGenre = BookGenre(book: Id, genre: Id)

  /** A row of `book_collections`; the pair is the primary key. */
  datatype BookCollection = BookCollection(book: Id, collection: Id)

  /**
   The database together with the upload folder (file name to bytes).
   The `next…Id` counters stand for the database's key generator for the
   tables the handlers insert into.
   */
  datatype Store = Store(
    roles: map<Id, Role>,
    users: map<Id, User>,
    genres: map<Id, Genre>,
    books: map<Id, Book>,
    covers: map<Id, Cover>,
    reviews: map<Id, Review>,
    collections: map<Id, Collection>,
    bookGenres: set<BookGenre>,
    bookCollections: set<BookCollection>,
    files: map<string, seq<byte>>,
    nextBookId: Id,
    nextCoverId: Id,
    nextReviewId: Id,
    nextCollectionId: Id)

  /** What a handler answers and the store it leaves behind. */
  datatype Step<+T> = Step(result: T, store: Store)

  /**
   A route's answer: success, or the refusal the handler produces
   (redirect to login, "not enough rights", 404, a form shown again
   with errors, or a duplicate that is reported instead of stored).
   */
  datatype Outcome<+T> =
    | Ok(value: T)
    | Unauthenticated
    | Forbidden
    | NotFound
    | Invalid
    | Conflict

  // ---------------------------------------------------------------------
  // Constraints

  predicate UniqueNames(s: Store)
  {
    && (forall a, b :: a in s.roles && b in s.roles && s.roles[a].name == s.roles[b].name ==> a == b)
    && (forall a, b :: a in s.users && b in s.users && s.users[a].login == s.users[b].login ==> a == b)
    && (forall a, b :: a in s.genres && b in s.genres && s.genres[a].name == s.genres[b].name ==> a == b)
  }

  /** Every non-null foreign key names an existing row. */
  predicate ForeignKeys(s: Store)
  {
    && (forall u :: u in s.users ==> s.users[u].roleId in s.roles)
    && (forall c :: c in s.covers ==> s.covers[c].bookId in s.books)
    && (forall r :: r in s.reviews ==> s.reviews[r].bookId in s.books && s.reviews[r].userId in s.users)
    && (forall c :: c in s.collections ==> s.collections[c].userId in s.users)
    && (forall l :: l in s.bookGenres ==> l.book in s.books && l.genre in s.genres)
    && (forall l :: l in s.bookCollections ==> l.book in s.books && l.collection in s.collections)
  }

  /** The `unique_book_user_review` constraint. */
  predicate OneReviewPerPair(s: Store)
  {
    forall a, b ::
      (a in s.reviews && b in s.reviews
       && s.reviews[a].bookId == s.reviews[b].bookId
       && s.reviews[a].userId == s.reviews[b].userId) ==> a == b
  }

  /** Ratings stay within the review form's choices. */
  predicate RatingsInRange(s: Store)
  {
    forall r :: r in s.reviews ==> 0 <= s.reviews[r].rating <= 5
  }

  /** The key generators never hand out a key already in use. */
  predicate FreshCounters(s: Store)
  {
    && (forall k :: k in s.books ==> k < s.nextBookId)
    && (forall k :: k in s.covers ==> k < s.nextCoverId)
    && (forall k :: k in s.reviews ==> k < s.nextReviewId)
    && (forall k :: k in s.collections ==> k < s.nextCollectionId)
  }

  /** Name of the stored file of cover `id` whose upload had extension `ext`. */
  function CoverFilename(id: Id, ext: string): string
  {
    Text.Decimal(id) + "." + ext
  }

  /** The cover id a stored file name encodes: the digits before its last '.'. */
  function FilenameCoverId(name: string): Option<Id>
  {
    match Text.LastDot(name)
    case None => None
    case Some(i) => Text.ParseDecimal(name[..i])
  }

  /** Cover file names decode back to their cover's id. */
  lemma CoverFilenameRoundTrip(id: Id, ext: string)
    requires '.' !in ext
    ensures FilenameCoverId(CoverFilename(id, ext)) == Some(id)
  {
    var name := CoverFilename(id, ext);
    var k := |Text.Decimal(id)|;
    assert name[k + 1..] == ext;
    Text.LastDotUnique(name, k);
    assert name[..k] == Text.Decimal(id);
    Text.ParseDecimalRoundTrip(id);
  }

  /**
   The content store: at most one cover per content hash, every cover's
   file is named after the cover's id and is present in the upload folder.
   */
  predicate CoverStore(s: Store)
  {
    && (forall a, b :: a in s.covers && b in s.covers && s.covers[a].md5Hash == s.covers[b].md5Hash ==> a == b)
    && (forall c :: c in s.covers ==> FilenameCoverId(s.covers[c].filename) == Some(c))
    && (forall c :: c in s.covers ==> s.covers[c].filename in s.files)
  }

  predicate Valid(s: Store)
  {
    && UniqueNames(s)
    && ForeignKeys(s)
    && OneReviewPerPair(s)
    && RatingsInRange(s)
    && FreshCounters(s)
    && CoverStore(s)
  }

  /** A change that leaves the named tables and the upload folder alone keeps their constraints. */
  lemma KeepsNamesAndCovers(s: Store, t: Store)
    requires UniqueNames(s) && CoverStore(s)
    requires t.roles == s.roles && t.users == s.users && t.genres == s.genres
    requires t.covers == s.covers && t.files == s.files
    ensures UniqueNames(t) && CoverStore(t)
  {
  }

  /** A change that keeps the named tables keeps their uniqueness. */
  lemma KeepsNames(s: Store, t: Store)
    requires UniqueNames(s)
    requires t.roles == s.roles && t.users == s.users && t.genres == s.genres
    ensures UniqueNames(t)
  {
  }

  /** Keeping a subset of the review rows, unchanged, keeps the review constraints. */
  lemma ReviewsShrink(s: Store, t: Store)
    requires OneReviewPerPair(s) && RatingsInRange(s)
    requires forall r :: r in t.reviews ==> r in s.reviews && t.reviews[r] == s.reviews[r]
    ensures OneReviewPerPair(t) && RatingsInRange(t)
  {
  }

  /** Keeping a subset of the cover rows, unchanged, with the same files keeps the cover store. */
  lemma CoversShrink(s: Store, t: Store)
    requires CoverStore(s) && t.files == s.files
    requires forall c :: c in t.covers ==> c in s.covers && t.covers[c] == s.covers[c]
    ensures CoverStore(t)
  {
  }

  /** Changing only the stored files, while keeping every file a cover names, keeps the store valid. */
  lemma FilesChangeValid(t: Store, files: map<string, seq<byte>>)
    requires Valid(t)
    requires forall c :: c in t.covers ==> t.covers[c].filename in files
    ensures Valid(t.(files := files))
  {
    var u := t.(files := files);
    KeepsNames(t, u);
    ReviewsShrink(t, u);
    FilesChangeKeys(t, files);
  }

  lemma FilesChangeKeys(t: Store, files: map<string, seq<byte>>)
    requires ForeignKeys(t) && FreshCounters(t)
    ensures ForeignKeys(t.(files := files)) && FreshCounters(t.(files := files))
  {
  }

  /** Adding a book row under the next book key keeps the store valid. */
  lemma NewBookValid(s: Store, book: Book)
    requires Valid(s)
    ensures Valid(s.(books := s.books[s.nextBookId := book], nextBookId := s.nextBookId + 1))
  {
    var t := s.(books := s.books[s.nextBookId := book], nextBookId := s.nextBookId + 1);
    KeepsNamesAndCovers(s, t);
    ReviewsShrink(s, t);
    NewBookKeys(s, book);
  }

  lemma NewBookKeys(s: Store, book: Book)
    requires ForeignKeys(s) && FreshCounters(s)
    ensures var t := s.(books := s.books[s.nextBookId := book], nextBookId := s.nextBookId + 1);
            ForeignKeys(t) && FreshCounters(t)
  {
    var t := s.(books := s.books[s.nextBookId := book], nextBookId := s.nextBookId + 1);
    assert s.books.Keys <= t.books.Keys;
  }

  /** Changing only the genre links, to links between existing rows, keeps the store valid. */
  lemma NewGenreLinksValid(s: Store, links: set<BookGenre>)
    requires Valid(s)
    requires forall l :: l in links ==> l.book in s.books && l.genre in s.genres
    ensures Valid(s.(bookGenres := links))
  {
    var t := s.(bookGenres := links);
    KeepsNamesAndCovers(s, t);
    ReviewsShrink(s, t);
    NewGenreLinksKeys(s, links);
  }

  lemma NewGenreLinksKeys(s: Store, links: set<BookGenre>)
    requires ForeignKeys(s) && FreshCounters(s)
    requires forall l :: l in links ==> l.book in s.books && l.genre in s.genres
    ensures ForeignKeys(s.(bookGenres := links)) && FreshCounters(s.(bookGenres := links))
  {
  }

  /** Replacing a book row's fields keeps the store valid. */
  lemma BookUpdateValid(s: Store, b: Id, book: Book)
    requires Valid(s) && b in s.books
    ensures Valid(s.(books := s.books[b := book]))
  {
    var t := s.(books := s.books[b := book]);
    KeepsNamesAndCovers(s, t);
    ReviewsShrink(s, t);
    BookUpdateKeys(s, b, book);
  }

  lemma BookUpdateKeys(s: Store, b: Id, book: Book)
    requires ForeignKeys(s) && FreshCounters(s) && b in s.books
    ensures ForeignKeys(s.(books := s.books[b := book])) && FreshCounters(s.(books := s.books[b := book]))
  {
    assert s.books[b := book].Keys == s.books.Keys;
  }

  /** Two covers of a valid store never share a stored file. */
  lemma CoverFilesDistinct(s: Store, a: Id, b: Id)
    requires CoverStore(s)
    requires a in s.covers && b in s.covers && a != b
    ensures s.covers[a].filename != s.covers[b].filename
  {
  }

  // ---------------------------------------------------------------------
  // Derived reads

  /** Ids of the genres linked to book `b`. */
  function GenresOf(s: Store, b: Id): set<Id>
  {
    set l | l in s.bookGenres && l.book == b :: l.genre
  }

  /** Ids of the books in collection `c`. */
  function BooksIn(s: Store, c: Id): set<Id>
  {
    set l | l in s.bookCollections && l.collection == c :: l.book
  }

  /** Ids of the covers of book `b`. */
  function CoversOf(s: Store, b: Id): set<Id>
  {
    set c | c in s.covers && s.covers[c].bookId == b
  }

  /** Ids of the reviews of book `b`. */
  function ReviewsOf(s: Store, b: Id): set<Id>
  {
    set r | r in s.reviews && s.reviews[r].bookId == b
  }

  function HasReview(s: Store, b: Id, u: Id): bool
  {
    exists r :: r in s.reviews && s.reviews[r].bookId == b && s.reviews[r].userId == u
  }

  // ---------------------------------------------------------------------
  // User.get_full_name

  /** The parts `get_full_name` joins; an empty middle name is falsy and left out. */
  function NameParts(u: User): seq<string>
  {
    [u.lastName, u.firstName] + (if u.middleName.Some? && u.middleName.value != "" then [u.middleName.value] else [])
  }

  function FullName(u: User): (r: string)
    ensures r == Text.Join(NameParts(u))
  {
    var parts := NameParts(u);
    assert parts[1..][1..] == parts[2..];
    if u.middleName.Some? && u.middleName.value != "" then
      assert Text.Join(parts[1..]) == u.firstName + " " + u.middleName.value;
      u.lastName + " " + u.firstName + " " + u.middleName.value
    else
      u.lastName + " " + u.firstName
  }

  /** When no name part holds a space, the full name splits back into its parts. */
  lemma FullNameSplits(u: User)
    requires ' ' !in u.lastName && ' ' !in u.firstName
    requires u.middleName.Some? ==> ' ' !in u.middleName.value
    ensures Text.Split(FullName(u)) == NameParts(u)
    ensures |Text.Split(FullName(u))| == 3 <==> u.middleName.Some? && u.middleName.value != ""
  {
    Text.SplitJoin(NameParts(u));
  }

  // ---------------------------------------------------------------------
  // Cascading deletes

  /**
   Deleting a book: its covers and reviews go (`cascade='all, delete-orphan'`),
   and so do its rows of both association tables; genres and collections stay.
   */
  function DeleteBookRows(s: Store, b: Id): (t: Store)
    ensures b !in t.books && t.books.Keys == s.books.Keys - {b}
    ensures forall c :: c in t.covers <==> c in s.covers && s.covers[c].bookId != b
    ensures forall r :: r in t.reviews <==> r in s.reviews && s.reviews[r].bookId != b
    ensures forall k :: k in t.books ==> t.books[k] == s.books[k]
    ensures forall c :: c in t.covers ==> t.covers[c] == s.covers[c]
    ensures forall r :: r in t.reviews ==> t.reviews[r] == s.reviews[r]
    ensures forall l :: l in t.bookGenres <==> l in s.bookGenres && l.book != b
    ensures forall l :: l in t.bookCollections <==> l in s.bookCollections && l.book != b
    ensures t == s.(books := t.books, covers := t.covers, reviews := t.reviews,
                    bookGenres := t.bookGenres, bookCollections := t.bookCollections)
  {
    s.(books := (map k | k in s.books && k != b :: s.books[k]),
       covers := (map c | c in s.covers && s.covers[c].bookId != b :: s.covers[c]),
       reviews := (map r | r in s.reviews && s.reviews[r].bookId != b :: s.reviews[r]),
       bookGenres := (set l | l in s.bookGenres && l.book != b),
       bookCollections := (set l | l in s.bookCollections && l.book != b))
  }

  /**
   Deleting a user: their reviews and collections go, and with each
   collection its membership rows.
   */
  function DeleteUserRows(s: Store, u: Id): (t: Store)
    ensures t.users.Keys == s.users.Keys - {u}
    ensures forall r :: r in t.reviews <==> r in s.reviews && s.reviews[r].userId != u
    ensures forall c :: c in t.collections <==> c in s.collections && s.collections[c].userId != u
    ensures forall k :: k in t.users ==> t.users[k] == s.users[k]
    ensures forall r :: r in t.reviews ==> t.reviews[r] == s.reviews[r]
    ensures forall c :: c in t.collections ==> t.collections[c] == s.collections[c]
    ensures forall l :: l in t.bookCollections <==> l in s.bookCollections && l.collection in t.collections
    ensures t == s.(users := t.users, reviews := t.reviews, collections := t.collections,
                    bookCollections := t.bookCollections)
  {
    var collections := map c | c in s.collections && s.collections[c].userId != u :: s.collections[c];
    s.(users := (map k | k in s.users && k != u :: s.users[k]),
       reviews := (map r | r in s.reviews && s.reviews[r].userId != u :: s.reviews[r]),
       collections := collections,
       bookCollections := (set l | l in s.bookCollections && l.collection in collections))
  }

  /** Deleting a book leaves no row pointing at it and keeps the store valid. */
  lemma DeleteBookRowsValid(s: Store, b: Id)
    requires Valid(s)
    ensures Valid(DeleteBookRows(s, b))
    ensures ReviewsOf(DeleteBookRows(s, b), b) == {} && GenresOf(DeleteBookRows(s, b), b) == {}
    ensures forall c :: c in DeleteBookRows(s, b).collections ==> b !in BooksIn(DeleteBookRows(s, b), c)
  {
    var t := DeleteBookRows(s, b);
    KeepsNames(s, t);
    ReviewsShrink(s, t);
    CoversShrink(s, t);
    DeleteBookRowsKeys(s, b);
  }

  lemma DeleteBookRowsKeys(s: Store, b: Id)
    requires ForeignKeys(s) && FreshCounters(s)
    ensures ForeignKeys(DeleteBookRows(s, b)) && FreshCounters(DeleteBookRows(s, b))
  {
  }

  /** Deleting a user leaves no review or collection of theirs and keeps the store valid. */
  lemma DeleteUserRowsValid(s: Store, u: Id)
    requires Valid(s)
    ensures Valid(DeleteUserRows(s, u))
  {
    var t := DeleteUserRows(s, u);
    ReviewsShrink(s, t);
    DeleteUserRowsKeys(s, u);
  }

  lemma DeleteUserRowsKeys(s: Store, u: Id)
    requires ForeignKeys(s) && FreshCounters(s)
    ensures ForeignKeys(DeleteUserRows(s, u)) && FreshCounters(DeleteUserRows(s, u))
  {
  }
}
