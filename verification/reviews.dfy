/**
 The review routes: `add_review` (any of the three roles, one review per
 book and user), `delete_review` and the moderation list (moderators and
 administrators).
 */
module Reviews {
  import opened Wrappers
  import opened Schema
  import opened Policy
  import opened External
  import Forms

  /** `add_review`; `now` is the `created_at` timestamp the database fills in. */
  function AddReview(env: Env, s: Store, who: Identity, bookId: Id, form: Forms.ReviewForm, now: int)
    : (r: Step<Outcome<Id>>)
    ensures !Authenticated(s, who) ==> r == Step(Unauthenticated, s)
    ensures Valid(s) && Authenticated(s, who) ==> (r.result.Forbidden? <==> !Allowed(CallerRole(s, who), Action.AddReview))
    ensures !r.result.Ok? ==> r.store == s
    ensures r.result.NotFound? <==> HasPermission(s, who, {Reader, Moderator, Administrator}) && bookId !in s.books
    ensures r.result.Conflict? <==>
              HasPermission(s, who, {Reader, Moderator, Administrator}) && bookId in s.books
              && HasReview(s, bookId, who.userId)
    ensures r.result.Invalid? <==>
              HasPermission(s, who, {Reader, Moderator, Administrator}) && bookId in s.books
              && !HasReview(s, bookId, who.userId) && Forms.ValidateReview(form).None?
    ensures r.result.Ok? <==>
              HasPermission(s, who, {Reader, Moderator, Administrator}) && bookId in s.books
              && !HasReview(s, bookId, who.userId) && Forms.ValidateReview(form).Some?
    ensures r.result.Ok? && Forms.ValidateReview(form).Some? ==>
              var id := r.result.value;
              var v := Forms.ValidateReview(form).value;
              && !HasReview(s, bookId, who.userId) && HasReview(r.store, bookId, who.userId)
              && id == s.nextReviewId
              && r.store.reviews == s.reviews[id := Review(bookId, who.userId, v.0, env.clean(v.1), now)]
              && r.store == s.(reviews := r.store.reviews, nextReviewId := id + 1)
  {
    if !Authenticated(s, who) then Step(Unauthenticated, s)
    else if !HasPermission(s, who, {Reader, Moderator, Administrator}) then Step(Forbidden, s)
    else if bookId !in s.books then Step(NotFound, s)
    else if HasReview(s, bookId, who.userId) then Step(Conflict, s)
    else
      match Forms.ValidateReview(form)
      case None => Step(Invalid, s)
      case Some((rating, text)) =>
        var t := InsertReview(s, Review(bookId, who.userId, rating, env.clean(text), now));
        assert t.reviews[s.nextReviewId].bookId == bookId && t.reviews[s.nextReviewId].userId == who.userId;
        Step(Ok(s.nextReviewId), t)
  }

  /** The store after inserting `review` under the next review key. */
  function InsertReview(s: Store, review: Review): Store
  {
    s.(reviews := s.reviews[s.nextReviewId := review], nextReviewId := s.nextReviewId + 1)
  }

  /** A review for an existing book and user, with a rating in range and no earlier review of the pair, keeps the store valid. */
  lemma InsertReviewValid(s: Store, review: Review)
    requires Valid(s)
    requires review.bookId in s.books && review.userId in s.users && 0 <= review.rating <= 5
    requires !HasReview(s, review.bookId, review.userId)
    ensures Valid(InsertReview(s, review))
  {
    var t := InsertReview(s, review);
    KeepsNamesAndCovers(s, t);
    InsertReviewUnique(s, review);
    InsertReviewKeys(s, review);
  }

  lemma InsertReviewUnique(s: Store, review: Review)
    requires OneReviewPerPair(s) && FreshCounters(s)
    requires !HasReview(s, review.bookId, review.userId)
    ensures OneReviewPerPair(InsertReview(s, review))
  {
    var t := InsertReview(s, review);
    var id := s.nextReviewId;
    assert id !in s.reviews;
    forall a, b | a in t.reviews && b in t.reviews && t.reviews[a].bookId == t.reviews[b].bookId
                  && t.reviews[a].userId == t.reviews[b].userId
      ensures a == b
    {
      if a != b && (a == id || b == id) {
        assert HasReview(s, review.bookId, review.userId);
      }
    }
  }

  lemma InsertReviewKeys(s: Store, review: Review)
    requires ForeignKeys(s) && FreshCounters(s) && RatingsInRange(s)
    requires review.bookId in s.books && review.userId in s.users && 0 <= review.rating <= 5
    ensures ForeignKeys(InsertReview(s, review)) && FreshCounters(InsertReview(s, review))
    ensures RatingsInRange(InsertReview(s, review))
  {
  }

  /** Inserting a review under an unused key adds exactly that key to its book's reviews. */
  lemma InsertReviewCount(s: Store, review: Review)
    requires s.nextReviewId !in s.reviews
    ensures ReviewsOf(InsertReview(s, review), review.bookId) == ReviewsOf(s, review.bookId) + {s.nextReviewId}
    ensures |ReviewsOf(InsertReview(s, review), review.bookId)| == |ReviewsOf(s, review.bookId)| + 1
  {
    var id := s.nextReviewId;
    var t := InsertReview(s, review);
    forall r | r in ReviewsOf(t, review.bookId)
      ensures r in ReviewsOf(s, review.bookId) + {id}
    {
      if r != id {
        assert t.reviews[r] == s.reviews[r];
      }
    }
    assert id !in ReviewsOf(s, review.bookId);
  }

  /** Inserting a review leaves every other book's reviews as they were. */
  lemma InsertReviewOthers(s: Store, review: Review, b: Id)
    requires s.nextReviewId !in s.reviews && b != review.bookId
    ensures ReviewsOf(InsertReview(s, review), b) == ReviewsOf(s, b)
  {
    var t := InsertReview(s, review);
    forall r | r in ReviewsOf(s, b)
      ensures r in ReviewsOf(t, b)
    {
      assert r != s.nextReviewId;
    }
  }

  /** `add_review` keeps at most one review per book and user, and the store valid. */
  lemma AddReviewValid(env: Env, s: Store, who: Identity, bookId: Id, form: Forms.ReviewForm, now: int)
    requires Valid(s)
    ensures Valid(AddReview(env, s, who, bookId, form, now).store)
  {
    var r := AddReview(env, s, who, bookId, form, now);
    if r.result.Ok? {
      var v := Forms.ValidateReview(form).value;
      InsertReviewValid(s, Review(bookId, who.userId, v.0, env.clean(v.1), now));
    }
  }

  /** A successful review adds exactly one to the book's review count and leaves other books' counts alone. */
  lemma AddReviewCount(env: Env, s: Store, who: Identity, bookId: Id, form: Forms.ReviewForm, now: int)
    requires Valid(s)
    ensures var r := AddReview(env, s, who, bookId, form, now);
            r.result.Ok? ==> |ReviewsOf(r.store, bookId)| == |ReviewsOf(s, bookId)| + 1
                             && forall b :: b != bookId ==> ReviewsOf(r.store, b) == ReviewsOf(s, b)
  {
    var r := AddReview(env, s, who, bookId, form, now);
    if r.result.Ok? {
      var v := Forms.ValidateReview(form).value;
      var review := Review(bookId, who.userId, v.0, env.clean(v.1), now);
      assert s.nextReviewId !in s.reviews;
      InsertReviewCount(s, review);
      forall b | b != bookId
        ensures ReviewsOf(r.store, b) == ReviewsOf(s, b)
      {
        InsertReviewOthers(s, review, b);
      }
    }
  }

  /** A second review of the same book by the same user is refused and stores nothing. */
  lemma AddReviewTwice(env: Env, s: Store, who: Identity, bookId: Id, f1: Forms.ReviewForm, f2: Forms.ReviewForm,
                       t1: int, t2: int)
    requires Valid(s)
    ensures var r1 := AddReview(env, s, who, bookId, f1, t1);
            var r2 := AddReview(env, r1.store, who, bookId, f2, t2);
            r1.result.Ok? ==> r2.result.Conflict? && r2.store == r1.store
  {
    var r1 := AddReview(env, s, who, bookId, f1, t1);
    if r1.result.Ok? {
      AddReviewValid(env, s, who, bookId, f1, t1);
      assert r1.store.users == s.users && r1.store.roles == s.roles && r1.store.books == s.books;
      assert HasPermission(r1.store, who, {Reader, Moderator, Administrator});
    }
  }

  /** `delete_review`: removes that review only and answers with its book's id. */
  function DeleteReview(s: Store, who: Identity, reviewId: Id): (r: Step<Outcome<Id>>)
    ensures !Authenticated(s, who) ==> r == Step(Unauthenticated, s)
    ensures Valid(s) && Authenticated(s, who) ==> (r.result.Forbidden? <==> !Allowed(CallerRole(s, who), Action.DeleteReview))
    ensures !r.result.Ok? ==> r.store == s
    ensures r.result.NotFound? <==> HasPermission(s, who, {Moderator, Administrator}) && reviewId !in s.reviews
    ensures r.result.Ok? <==> HasPermission(s, who, {Moderator, Administrator}) && reviewId in s.reviews
    ensures r.result.Ok? ==>
              && HasPermission(s, who, {Moderator, Administrator})
              && reviewId in s.reviews && r.result.value == s.reviews[reviewId].bookId
              && r.store.reviews.Keys == s.reviews.Keys - {reviewId}
              && (forall v :: v in r.store.reviews ==> r.store.reviews[v] == s.reviews[v])
              && r.store == s.(reviews := r.store.reviews)
  {
    if !Authenticated(s, who) then Step(Unauthenticated, s)
    else if !HasPermission(s, who, {Moderator, Administrator}) then Step(Forbidden, s)
    else if reviewId !in s.reviews then Step(NotFound, s)
    else Step(Ok(s.reviews[reviewId].bookId), s.(reviews := s.reviews - {reviewId}))
  }

  /** Removing a review row keeps the store valid. */
  lemma RemoveReviewValid(s: Store, reviewId: Id)
    requires Valid(s)
    ensures Valid(s.(reviews := s.reviews - {reviewId}))
  {
    var t := s.(reviews := s.reviews - {reviewId});
    KeepsNamesAndCovers(s, t);
    ReviewsShrink(s, t);
    RemoveReviewKeys(s, reviewId);
  }

  lemma RemoveReviewKeys(s: Store, reviewId: Id)
    requires ForeignKeys(s) && FreshCounters(s)
    ensures ForeignKeys(s.(reviews := s.reviews - {reviewId})) && FreshCounters(s.(reviews := s.reviews - {reviewId}))
  {
  }

  /** Removing a review takes one from its book's review count and leaves other books' reviews alone. */
  lemma RemoveReviewCount(s: Store, reviewId: Id)
    requires reviewId in s.reviews
    ensures var b := s.reviews[reviewId].bookId;
            |ReviewsOf(s.(reviews := s.reviews - {reviewId}), b)| == |ReviewsOf(s, b)| - 1
    ensures forall b :: b != s.reviews[reviewId].bookId ==>
              ReviewsOf(s.(reviews := s.reviews - {reviewId}), b) == ReviewsOf(s, b)
  {
    var t := s.(reviews := s.reviews - {reviewId});
    var b := s.reviews[reviewId].bookId;
    assert ReviewsOf(t, b) == ReviewsOf(s, b) - {reviewId};
  }

  /** Deleting a review keeps the store valid and lowers its book's review count by one. */
  lemma DeleteReviewValid(s: Store, who: Identity, reviewId: Id)
    requires Valid(s)
    ensures Valid(DeleteReview(s, who, reviewId).store)
    ensures var r := DeleteReview(s, who, reviewId);
            r.result.Ok? ==> |ReviewsOf(r.store, r.result.value)| == |ReviewsOf(s, r.result.value)| - 1
                             && forall b :: b != r.result.value ==> ReviewsOf(r.store, b) == ReviewsOf(s, b)
  {
    var r := DeleteReview(s, who, reviewId);
    if r.result.Ok? {
      assert r.store == s.(reviews := s.reviews - {reviewId});
      RemoveReviewValid(s, reviewId);
      RemoveReviewCount(s, reviewId);
    }
  }

  /** `moderation_reviews`: the reviews to moderate, for moderators and administrators. */
  function ModerationReviews(s: Store, who: Identity): (r: Outcome<set<Id>>)
    ensures !Authenticated(s, who) ==> r == Unauthenticated
    ensures Valid(s) && Authenticated(s, who) ==> (r.Forbidden? <==> !Allowed(CallerRole(s, who), Action.ModerateReviews))
    ensures r.Ok? <==> HasPermission(s, who, {Moderator, Administrator})
    ensures r.Ok? ==> r.value == s.reviews.Keys
  {
    if !Authenticated(s, who) then Unauthenticated
    else if !HasPermission(s, who, {Moderator, Administrator}) then Forbidden
    else Ok(s.reviews.Keys)
  }
}
