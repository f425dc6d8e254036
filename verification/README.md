# Library catalog: authorization and data consistency

This project models the authorization and data-consistency layer of a
Flask library catalog. Users hold one of three roles: administrator,
moderator and reader (`Пользователь`). Administrators add and delete
books; administrators and moderators edit a book's fields and genres. Only
`add_book` stores cover images, so only administrators upload them. Any
role may post one review per book. Moderators and administrators delete
reviews. Readers keep personal collections of books.

The database and the upload folder are one immutable `Schema.Store`:
- one map per table, keyed by the row id;
- the two association tables as sets of link rows, so each pair is stored at most once;
- the upload folder as a map from file name to bytes;
- a key counter per table the handlers insert into, which hands out a key never used before (see "Left out" for how SQLite differs).

Every route handler is a pure function of the store, the caller's
identity and the request. It returns a `Step`: the answer (`Outcome`) and
the store it leaves behind. `login_required` is the `Unauthenticated`
answer, checked first. Role checks are `Policy.HasPermission` or the
inline role-name comparison the route uses. Each role-gated handler
(`add_book`, `edit_book`, `delete_book`, `add_review`, `delete_review`,
`moderation_reviews`, `collections`, `add_collection`) proves that its check
agrees with an independent permission table, `Policy.Allowed`.
`collection_detail` and `add_book_to_collection` check ownership rather
than a role. Their contracts state the ownership rule (owner or
administrator for viewing, owner only for adding) and do not refer to the
table. Each handler's contract also says when it succeeds: a permitted
caller with an existing target and a valid form gets `Ok`.

`Schema.Valid` gathers two kinds of constraint. The models declare:
- unique role names, logins and genre names;
- non-null foreign keys;
- one review per book and user (the unique pair on `Review`).

The handlers keep the rest, and the models do not declare it:
- ratings within the review form's choices (`Review.rating` has no range check);
- fresh keys, handed out by the counters;
- the cover store, which `save_cover` keeps (app.py:97-118). `Cover.md5_hash` is not declared unique (models.py:70); the lookup at app.py:97-99 is what keeps one cover per content hash. Every cover's file name has digits before its last '.', and those digits parse to the cover's id. That file is present in the upload folder.

Every mutating handler is proved to keep `Valid`.

Modules, following the source's layout:
- `Text`: `str.lower`, `rsplit('.', 1)`, decimal ids and `strip`, the string operations the code uses. It also has a space `Split` and `Join`, which the code does not use; they exist only to state the `Schema.FullNameSplits` round trip.
- `Schema`: the models, the constraints, `get_full_name` and the cascading deletes.
- `Policy`: identity, `has_permission` and the permission table.
- `External`: the MD5 digest and the HTML sanitiser, passed in as functions.
- `Covers`: `allowed_file` and `save_cover`.
- `Forms`: the field validators of the book, review and collection forms.
- `Catalog`, `Reviews`, `Collections`: the route handlers.

Three behaviours of the code that the model states as they are:
- `add_review` admits administrators as well as readers and moderators (app.py:281), and `Policy.Allowed` grants it.
- The JSON route of `add_collection` rejects only a missing or empty name (app.py:370). It accepts a blank name, which `CollectionForm` refuses; `Collections.CollectionNameChecks` shows this.
- The content-hash lookup of `save_cover` is global (app.py:97-99). When a new book's upload has the same bytes as any stored cover, `save_cover` returns that cover's id and the new book gets no cover row of its own (`Catalog.AddBookCover`).

## Model

| member | source | states |
|---|---|---|
| Text.Extension | app.py:90 | the text after the last '.', which is a dot-free suffix of the name; none exactly when the name has no '.' |
| Text.ParseDecimalRoundTrip | app.py:110 | the decimal rendering of a cover id parses back to that id |
| Schema.CoverFilenameRoundTrip | app.py:110 | a cover's stored file name `<id>.<ext>` with a dot-free extension decodes back to the cover's id |
| Schema.CoverFilesDistinct | app.py:110-118 | in a store keeping the cover constraints, two different covers never share a stored file |
| Schema.NewBookValid | models.py:49-57 | a book row inserted under a fresh key keeps every schema constraint |
| Schema.NewGenreLinksValid | models.py:44-47 | replacing the `book_genres` rows by links between existing books and genres keeps every constraint |
| Schema.FullName | models.py:34-37 | the full name is the last, first and non-empty middle name, joined by single spaces |
| Schema.FullNameSplits | models.py:34-37 | when no name part contains a space, splitting the full name on spaces gives back its parts; there are three parts exactly when a non-empty middle name is set |
| Schema.DeleteBookRows | models.py:59-63 | deleting a book removes exactly it, its covers, reviews, genre links and collection links; every surviving book, cover and review keeps its contents, and the other tables stay |
| Schema.DeleteUserRows | models.py:25-26 | deleting a user removes exactly that user, their reviews and collections, and the membership rows of those collections; every surviving user, review and collection keeps its contents |
| Schema.DeleteBookRowsValid | models.py:61-62 | after the book cascade the store is valid, and no review, genre link or collection membership of the book is left |
| Schema.DeleteUserRowsValid | models.py:25-26 | after the user cascade the store is valid |
| Policy.HasPermission | app.py:122-125 | false for an unauthenticated caller; otherwise true exactly when the caller's role name is among the required roles |
| Covers.AllowedFile | app.py:88-90 | an accepted file name contains a '.' and is at least four characters long (the '.' and an extension of at least three letters) |
| Covers.AllowedFileMeans | app.py:88-90 | true exactly when some '.' is followed only by dot-free text whose lower-cased form is jpg, jpeg, png or gif |
| Covers.StoredExtension | app.py:110 | the stored extension of an accepted name is the lower-cased text after its last '.': the lower-cased name ends in '.' and it, it has no '.', and it is one of the allowed extensions |
| Covers.FindCoverByHash | app.py:97 | none exactly when no cover has the hash; otherwise the smallest id of a cover with that hash |
| Covers.SaveCover | app.py:92-120 | no file or a refused name: None and no change; a known hash: that cover's id, wherever it belongs, and no change; otherwise exactly one new cover for the book at the next key, with file `<id>.<lower-cased ext>` holding the bytes |
| Covers.InsertCoverValid | app.py:101-118 | a new cover with a fresh hash, a name encoding its key and its file written keeps the store valid |
| Covers.SaveCoverValid | app.py:92-120 | `save_cover` on an existing book keeps the store valid, and a returned id names a stored cover |
| Covers.SaveCoverTwice | app.py:97-99 | the same bytes uploaded twice, under any names and for any books, give the same id; the second upload changes nothing and at most one file is written |
| Forms.ValidateBook | forms.py:12-20 | a book form is accepted exactly when title, publisher and author are non-blank and at most 255 characters, the description is non-blank, the year is in [1000, 2100], pages are at least 1, every genre id is among the offered choices and any file has a name `allowed_file` accepts; the accepted data are the submitted values |
| Forms.CoverFieldMatchesAllowedFile | forms.py:20 | the form's extension check accepts exactly the file names `allowed_file` accepts |
| Forms.CoverFieldMeans | forms.py:20 | `FileAllowed` passes exactly when there is no file or `allowed_file` accepts its name |
| Forms.ValidateReview | forms.py:23-32 | a review is accepted exactly when the rating is among 0..5 and the text is not blank; a missing rating means 5 |
| Forms.CollectionFormValid | forms.py:35-36 | a name is accepted exactly when it has at most 255 characters and some character that is not whitespace, so a blank name is refused and a name with leading spaces before some text is accepted |
| Catalog.ReplaceGenres | app.py:241-242 | the book's genres become exactly the existing genres among the submitted ids; other books' genres are untouched |
| Catalog.AddBook | app.py:178-216 | unauthenticated or forbidden calls change nothing and the refusal agrees with the permission table; an administrator's call is invalid, with no change, exactly when the form (choices: every existing genre) is refused, and succeeds otherwise; on success the book is stored at the next key with sanitised description and exactly the submitted genres, other books' genres unchanged, and only books, genre links, covers, files and the two key counters change |
| Catalog.InsertBookValid | app.py:190-203 | inserting a book with its genres keeps the store valid |
| Catalog.InsertBookFresh | app.py:202-203 | the flushed book exists under the next key and no cover row points at it yet; covers and files are untouched |
| Catalog.AddBookValid | app.py:178-216 | `add_book` keeps the store valid |
| Catalog.AddBookCover | app.py:205-206 | a new book gets exactly one cover when its upload's content is new: the cover row at the next cover key named `<id>.<lower-cased ext>` and that file holding the bytes; with no upload or a known hash it gets none and covers and files are unchanged; the cover key counter moves on by one exactly when a cover row is added |
| Catalog.EditBook | app.py:218-252 | administrators and moderators only, as in the table; a missing book is not found; an existing book with a refused form is invalid with no change, and with an accepted form succeeds: the fields are replaced, the genre set becomes exactly the submitted genres, and nothing else changes |
| Catalog.ReplaceGenresValid | app.py:241-242 | replacing an existing book's genres by the existing genres among the submitted ids keeps the store valid |
| Catalog.EditBookValid | app.py:232-244 | `edit_book` keeps the store valid |
| Catalog.DeleteBook | app.py:254-276 | administrators only, as in the table; a missing book is not found and an existing one is deleted; the book goes with its covers, reviews, genre links and collection memberships; surviving rows keep their contents and other books keep their genres and memberships; exactly its cover files leave the upload folder |
| Catalog.DeleteBookLinks | models.py:59-63 | the book cascade empties the book's genre set, leaves every other book's genres, and removes the book from every collection and nothing else |
| Catalog.DeleteBookValid | app.py:263-270 | `delete_book` keeps the store valid: the other covers' files stay |
| Reviews.AddReview | app.py:278-312 | refusals agree with the table and change nothing; a missing book is not found; an existing review of the pair is a conflict; otherwise a refused form is invalid and an accepted one succeeds, adding exactly one review of the pair at the next key with the validated rating and sanitised text |
| Reviews.InsertReviewValid | models.py:73-82 | a review for an existing book and user, with an allowed rating and no earlier review of the pair, keeps every constraint |
| Reviews.InsertReviewCount | app.py:296-304 | a review stored under an unused key joins exactly its own book's reviews, which grow by one |
| Reviews.AddReviewValid | app.py:287-304 | `add_review` keeps at most one review per book and user, and the store valid |
| Reviews.AddReviewCount | app.py:296-304 | a successful review adds one to its book's review count and leaves other books' reviews alone |
| Reviews.AddReviewTwice | app.py:287-290 | a second review of the same book by the same user is a conflict and stores nothing |
| Reviews.DeleteReview | app.py:314-333 | moderators and administrators only, as in the table; a missing review is not found and an existing one is deleted: that review alone is removed, the others keep their contents, and its book's id is returned |
| Reviews.DeleteReviewValid | app.py:322-327 | `delete_review` keeps the store valid and lowers its book's review count by one, other books unchanged |
| Reviews.ModerationReviews | app.py:335-347 | the moderation list is given exactly to moderators and administrators, as the table says, and holds every review |
| Collections.ListCollections | app.py:349-361 | given exactly to readers, as the table says; exactly the caller's collections, each with its number of books |
| Collections.AddCollection | app.py:363-380 | readers only; a missing or empty name is refused with no change; otherwise one collection owned by the caller at the next key and nothing else |
| Collections.AddCollectionValid | app.py:373-376 | `add_collection` keeps the store valid and the new collection is empty |
| Collections.CollectionNameChecks | app.py:369-371 | every name the collection form accepts passes the route's check, but a blank name passes the route and not the form |
| Collections.CollectionDetail | app.py:382-391 | a missing collection is not found; an existing one is shown exactly to its owner or an administrator, and any other signed-in caller is refused as forbidden rather than sent to log in |
| Collections.AddedCollectionViewable | app.py:363-391 | a reader who has just created a collection can open it and sees the name they gave |
| Collections.AddBookToCollection | app.py:393-413 | not found for a missing collection, or for the owner naming a missing book; forbidden to anyone but the owner; an existing member is a conflict; otherwise it succeeds and membership grows by exactly that book, other collections unchanged |
| Collections.AddBookToCollectionValid | app.py:404-409 | adding a book to a collection keeps the store valid |
| Collections.AddBookToCollectionTwice | app.py:404-408 | adding the same book twice: the second call is a conflict, changes nothing, and membership grew by one in all |

## Left out

- Routing, templates, flash messages, redirects and JSON bodies are left out. Each route's answer is reduced to an `Outcome`.
- The login manager and sessions are left out. The caller is an explicit `Policy.Identity`, authenticated when its user row exists.
- Login, logout, `set_password` and `check_password` are left out. They are werkzeug calls on salted digests.
- `hashlib.md5` and `bleach.clean` are parameters (`External.Env`). Every property holds for any hash function and any sanitiser.
- Database transactions, rollback after an exception, and concurrent requests are not modelled. The unique review constraint is a store invariant and is not used for race handling.
- File-system failures are not modelled. The upload folder is a map, so writes and removals always succeed.
- The `index` and `book_detail` pages are left out, and so are their review counts and the floating-point average rating. `Reviews.AddReviewCount` and `Reviews.DeleteReviewValid` cover the counts.
- Pagination and ordering in `index` and `moderation_reviews` are left out.
- `init_db` seeding, `config.py` and the browser script are left out.
- Covers.SaveCover: `secure_filename` is not modelled. Its value is overwritten with `<id>.<ext>` before the row is committed.
- Covers.SaveCover: the upload's MIME type is stored as `FileStorage.mimetype` gives it (app.py:103) and never checked. The model keeps it as a plain string field of the upload.
- Forms.ValidateBook: a genre id, year or page count that does not parse as an integer is not modelled. Genre ids are a set of integers, and a year or page count that does not parse is a missing value.
- Forms.ValidateReview: a rating that does not parse as an integer is not modelled; WTForms refuses that form. The rating is an optional integer, and a missing one takes the default 5.
- Catalog.AddBook, Catalog.EditBook: SQLite's 64-bit integer columns are not modelled. A page count above 2^63-1 makes the flush fail, and the session rolls back. In `add_book` this is the explicit flush at app.py:203, before `save_cover` runs. In `edit_book` it is the autoflush that the genre query at app.py:241 triggers. The model answers `Ok`.
- Forms.ValidateBook, Forms.ValidateReview: the CSRF token check of `FlaskForm.validate_on_submit` is not modelled (forms.py:1, 12, 23; the key is set at config.py:6; the calls are at app.py:188, 232 and 294). A POST without a valid token is refused and nothing changes. The model treats every submitted form as carrying a valid token.
- Schema.Store: keys come from counters that never reuse a key. The default SQLite database (config.py:7) declares `db.Integer, primary_key=True` without AUTOINCREMENT. It gives a new row the largest key in use plus one, so after the row holding the largest key is deleted, that key is handed out again. The model's `next…Id` counters skip it. The handlers' statements `id == s.next…Id` describe the counter, not SQLite's choice.
- Text.Lower: only ASCII letters are lower-cased. Python's full Unicode case mapping is not modelled; it does not change the ASCII extensions compared against.
- Forms.Required: whitespace is the ASCII and Latin-1 part of what `str.strip` removes.
- Collections.AddCollection: a JSON body that is missing, or whose `name` is not a string, is not modelled.
- Collections.AddBookToCollection: a `book_id` that is not an integer is not modelled. A missing one is `NotFound`, as `get_or_404(None)` answers.
- Reviews.AddReview: `created_at` is a parameter and not read from a clock.
