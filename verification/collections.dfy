/**
 The collection routes: listing and creating collections (readers only),
 viewing one (its owner or an administrator) and adding a book to one
 (its owner), which reports a book already present instead of adding it.
 */
module Collections {
  import opened Wrappers
  import opened Schema
  import opened Policy
  import Forms

  /** The inline check `current_user.role.name != 'Пользователь'` of the collection routes. */
  predicate IsReader(s: Store, who: Identity)
  {
    RoleName(s, who) == Some(Reader)
  }

  /** `collections`: the caller's own collections, each with its number of books. */
  function ListCollections(s: Store, who: Identity): (r: Outcome<map<Id, nat>>)
    ensures !Authenticated(s, who) ==> r == Unauthenticated
    ensures Valid(s) && Authenticated(s, who) ==> (r.Forbidden? <==> !Allowed(CallerRole(s, who), Action.ManageCollections))
    ensures r.Ok? <==> IsReader(s, who)
    ensures r.Ok? ==> forall c :: c in r.value <==> c in s.collections && s.collections[c].userId == who.userId
    ensures r.Ok? ==> forall c :: c in r.value ==> r.value[c] == |BooksIn(s, c)|
  {
    if !Authenticated(s, who) then Unauthenticated
    else if !IsReader(s, who) then Forbidden
    else Ok(map c | c in s.collections && s.collections[c].userId == who.userId :: |BooksIn(s, c)|)
  }

  /** `if not name`: the JSON name is missing or empty. */
  predicate NameGiven(name: Option<string>)
  {
    name.Some? && name.value != ""
  }

  /** `add_collection`: a new collection with the given name, owned by the caller. */
  function AddCollection(s: Store, who: Identity, name: Option<string>): (r: Step<Outcome<Id>>)
    ensures !Authenticated(s, who) ==> r == Step(Unauthenticated, s)
    ensures Valid(s) && Authenticated(s, who) ==> (r.result.Forbidden? <==> !Allowed(CallerRole(s, who), Action.ManageCollections))
    ensures !r.result.Ok? ==> r.store == s
    ensures r.result.Invalid? <==> IsReader(s, who) && !NameGiven(name)
    ensures r.result.Ok? <==> IsReader(s, who) && NameGiven(name)
    ensures r.result.Ok? ==>
              var id := r.result.value;
              && id == s.nextCollectionId
              && r.store.collections == s.collections[id := Collection(name.value, who.userId)]
              && BooksIn(r.store, id) == BooksIn(s, id)
              && r.store == s.(collections := r.store.collections, nextCollectionId := id + 1)
  {
    if !Authenticated(s, who) then Step(Unauthenticated, s)
    else if !IsReader(s, who) then Step(Forbidden, s)
    else if !NameGiven(name) then Step(Invalid, s)
    else Step(Ok(s.nextCollectionId), InsertCollection(s, Collection(name.value, who.userId)))
  }

  /** The store after inserting collection `c` under the next collection key. */
  function InsertCollection(s: Store, c: Collection): Store
  {
    s.(collections := s.collections[s.nextCollectionId := c], nextCollectionId := s.nextCollectionId + 1)
  }

  /** Adding a collection owned by an existing user under the next collection key keeps the store valid. */
  lemma NewCollectionValid(s: Store, c: Collection)
    requires Valid(s) && c.userId in s.users
    ensures Valid(InsertCollection(s, c))
  {
    var t := InsertCollection(s, c);
    KeepsNamesAndCovers(s, t);
    ReviewsShrink(s, t);
    NewCollectionKeys(s, c);
  }

  lemma NewCollectionKeys(s: Store, c: Collection)
    requires ForeignKeys(s) && FreshCounters(s) && c.userId in s.users
    ensures ForeignKeys(InsertCollection(s, c)) && FreshCounters(InsertCollection(s, c))
  {
    assert s.collections.Keys <= InsertCollection(s, c).collections.Keys;
  }

  /** A new collection starts with no books. */
  lemma NewCollectionEmpty(s: Store, c: Collection)
    requires ForeignKeys(s) && FreshCounters(s)
    ensures s.nextCollectionId !in s.collections && BooksIn(InsertCollection(s, c), s.nextCollectionId) == {}
  {
    assert forall l :: l in s.bookCollections ==> l.collection != s.nextCollectionId;
  }

  /** `add_collection` keeps the store valid; the new collection starts empty. */
  lemma AddCollectionValid(s: Store, who: Identity, name: Option<string>)
    requires Valid(s)
    ensures Valid(AddCollection(s, who, name).store)
    ensures var r := AddCollection(s, who, name);
            r.result.Ok? ==> r.result.value !in s.collections && BooksIn(r.store, r.result.value) == {}
  {
    var r := AddCollection(s, who, name);
    if r.result.Ok? {
      NewCollectionValid(s, Collection(name.value, who.userId));
      NewCollectionEmpty(s, Collection(name.value, who.userId));
    }
  }

  /** Linking an existing book to an existing collection keeps the store valid. */
  lemma NewCollectionLinkValid(s: Store, link: BookCollection)
    requires Valid(s) && link.book in s.books && link.collection in s.collections
    ensures Valid(s.(bookCollections := s.bookCollections + {link}))
  {
    var t := s.(bookCollections := s.bookCollections + {link});
    KeepsNamesAndCovers(s, t);
    ReviewsShrink(s, t);
    NewCollectionLinkKeys(s, link);
  }

  lemma NewCollectionLinkKeys(s: Store, link: BookCollection)
    requires ForeignKeys(s) && FreshCounters(s) && link.book in s.books && link.collection in s.collections
    ensures ForeignKeys(s.(bookCollections := s.bookCollections + {link}))
    ensures FreshCounters(s.(bookCollections := s.bookCollections + {link}))
  {
  }

  /** The collection form is stricter than the JSON route, which checks only that a name was sent. */
  lemma CollectionNameChecks(name: string)
    ensures Forms.CollectionFormValid(name) ==> NameGiven(Some(name))
    ensures NameGiven(Some(" ")) && !Forms.CollectionFormValid(" ")
  {
    assert Text.IsSpace(' ');
  }

  /** A collection is viewable by its owner and by an administrator. */
  predicate CanView(s: Store, who: Identity, c: Collection)
  {
    (who.Session? && c.userId == who.userId) || RoleName(s, who) == Some(Administrator)
  }

  /** `collection_detail`. */
  function CollectionDetail(s: Store, who: Identity, collectionId: Id): (r: Outcome<Collection>)
    ensures !Authenticated(s, who) ==> r == Unauthenticated
    ensures r.Ok? <==> Authenticated(s, who) && collectionId in s.collections && CanView(s, who, s.collections[collectionId])
    ensures Valid(s) && Authenticated(s, who) && collectionId in s.collections ==>
              (r.Ok? <==> s.collections[collectionId].userId == who.userId || CallerRole(s, who) == Administrator)
    ensures r.Ok? ==> r.value == s.collections[collectionId]
    ensures r.NotFound? <==> Authenticated(s, who) && collectionId !in s.collections
    ensures r.Forbidden? <==>
              Authenticated(s, who) && collectionId in s.collections && !CanView(s, who, s.collections[collectionId])
  {
    if !Authenticated(s, who) then Unauthenticated
    else if collectionId !in s.collections then NotFound
    else if !CanView(s, who, s.collections[collectionId]) then Forbidden
    else Ok(s.collections[collectionId])
  }

  /** A reader can open the collection they have just created, and sees it as created. */
  lemma AddedCollectionViewable(s: Store, who: Identity, name: Option<string>)
    requires Valid(s)
    ensures var r := AddCollection(s, who, name);
            r.result.Ok? ==> CollectionDetail(r.store, who, r.result.value) == Ok(Collection(name.value, who.userId))
  {
    var r := AddCollection(s, who, name);
    if r.result.Ok? {
      assert r.store.users == s.users && r.store.roles == s.roles;
      assert Authenticated(r.store, who);
    }
  }

  /** `add_book_to_collection`: the owner adds a book; a book already present is reported, not added. */
  function AddBookToCollection(s: Store, who: Identity, collectionId: Id, bookId: Option<Id>): (r: Step<Outcome<()>>)
    ensures !Authenticated(s, who) ==> r == Step(Unauthenticated, s)
    ensures !r.result.Ok? ==> r.store == s
    ensures r.result.Forbidden? <==>
              Authenticated(s, who) && collectionId in s.collections && s.collections[collectionId].userId != who.userId
    ensures r.result.Conflict? <==>
              && Authenticated(s, who) && collectionId in s.collections
              && s.collections[collectionId].userId == who.userId
              && bookId.Some? && bookId.value in s.books && bookId.value in BooksIn(s, collectionId)
    ensures r.result.NotFound? <==>
              Authenticated(s, who)
              && (|| collectionId !in s.collections
                  || (s.collections[collectionId].userId == who.userId && (bookId.None? || bookId.value !in s.books)))
    ensures r.result.Ok? <==>
              && Authenticated(s, who) && collectionId in s.collections
              && s.collections[collectionId].userId == who.userId
              && bookId.Some? && bookId.value in s.books && bookId.value !in BooksIn(s, collectionId)
    ensures r.result.Ok? ==>
              && BooksIn(r.store, collectionId) == BooksIn(s, collectionId) + {bookId.value}
              && (forall c :: c != collectionId ==> BooksIn(r.store, c) == BooksIn(s, c))
              && r.store == s.(bookCollections := r.store.bookCollections)
  {
    if !Authenticated(s, who) then Step(Unauthenticated, s)
    else if collectionId !in s.collections then Step(NotFound, s)
    else if s.collections[collectionId].userId != who.userId then Step(Forbidden, s)
    else if bookId.None? || bookId.value !in s.books then Step(NotFound, s)
    else if BookCollection(bookId.value, collectionId) in s.bookCollections then
      assert bookId.value in BooksIn(s, collectionId);
      Step(Conflict, s)
    else
      var t := s.(bookCollections := s.bookCollections + {BookCollection(bookId.value, collectionId)});
      assert bookId.value !in BooksIn(s, collectionId);
      assert BooksIn(t, collectionId) == BooksIn(s, collectionId) + {bookId.value};
      assert forall c :: c != collectionId ==> BooksIn(t, c) == BooksIn(s, c);
      Step(Ok(()), t)
  }

  /** Adding a book to a collection keeps the store valid. */
  lemma AddBookToCollectionValid(s: Store, who: Identity, collectionId: Id, bookId: Option<Id>)
    requires Valid(s)
    ensures Valid(AddBookToCollection(s, who, collectionId, bookId).store)
  {
    var r := AddBookToCollection(s, who, collectionId, bookId);
    if r.result.Ok? {
      var link := BookCollection(bookId.value, collectionId);
      assert r.store == s.(bookCollections := s.bookCollections + {link});
      NewCollectionLinkValid(s, link);
    }
  }

  /** Adding the same book twice: the second call reports the duplicate and the membership count is unchanged. */
  lemma AddBookToCollectionTwice(s: Store, who: Identity, collectionId: Id, bookId: Id)
    ensures var r1 := AddBookToCollection(s, who, collectionId, Some(bookId));
            var r2 := AddBookToCollection(r1.store, who, collectionId, Some(bookId));
            r1.result.Ok? ==> r2.result.Conflict? && r2.store == r1.store
                              && |BooksIn(r2.store, collectionId)| == |BooksIn(s, collectionId)| + 1
  {
    var r1 := AddBookToCollection(s, who, collectionId, Some(bookId));
    if r1.result.Ok? {
      assert bookId in BooksIn(r1.store, collectionId);
    }
  }
}
