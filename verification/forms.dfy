/**
 The field constraints of the book, review and collection forms, as
 validation functions that either accept the submitted values (returning
 them in checked form) or reject the submission.
 */
module Forms {
  import opened Wrappers
  import opened Schema
  import Text
  import Covers

  /** `Length(max=255)` on the short text fields. */
  const MaxLength: nat := 255
  const MinYear: int := 1000
  const MaxYear: int := 2100
  const MinPages: int := 1
  /** The `FileAllowed` list on the cover field. */
  const CoverExtensions: seq<string> := ["jpg", "jpeg", "png", "gif"]
  /** The rating choices of the review form, best first. */
  const RatingChoices: seq<int> := [5, 4, 3, 2, 1, 0]
  const DefaultRating: int := 5

  /** `DataRequired` on a text field: something other than whitespace. */
  predicate Required(s: string)
  {
    Text.HasContent(s)
  }

  /** `DataRequired` on an integer field: a value was parsed and it is truthy. */
  predicate RequiredInt(x: Option<int>)
  {
    x.Some? && x.value != 0
  }

  /** `Required` text and `Length(max=255)`. */
  predicate ShortText(s: string)
  {
    Required(s) && |s| <= MaxLength
  }

  /** `FileAllowed`: an absent file passes; a present one must end in '.' and a listed extension. */
  predicate CoverFieldAllowed(file: Option<Covers.Upload>)
  {
    !Covers.Present(file)
    || exists x :: x in CoverExtensions && Text.EndsWith(Text.Lower(file.value.filename), "." + x)
  }

  datatype BookForm = BookForm(
    title: string,
    description: string,
    year: Option<int>,
    publisher: string,
    author: string,
    pages: Option<int>,
    genres: set<Id>,
    cover: Option<Covers.Upload>)

  /** The values of a book form that passed validation. */
  datatype BookData = BookData(
    title: string,
    description: string,
    year: int,
    publisher: string,
    author: string,
    pages: int,
    genres: set<Id>,
    cover: Option<Covers.Upload>)

  /**
   `BookForm.validate()`, where `choices` are the genre ids the handler
   offers (`form.genres.choices`): `SelectMultipleField` refuses any
   submitted id outside them.
   */
  function ValidateBook(f: BookForm, choices: set<Id>): (r: Option<BookData>)
    ensures r.Some? <==>
              && Required(f.title) && |f.title| <= 255
              && Required(f.description)
              && f.year.Some? && 1000 <= f.year.value <= 2100
              && Required(f.publisher) && |f.publisher| <= 255
              && Required(f.author) && |f.author| <= 255
              && f.pages.Some? && f.pages.value >= 1
              && f.genres <= choices
              && (Covers.Present(f.cover) ==> Covers.AllowedFile(f.cover.value.filename))
    ensures r.Some? ==> r.value == BookData(f.title, f.description, f.year.value, f.publisher, f.author,
                                            f.pages.value, f.genres, f.cover)
    ensures r.Some? ==> 0 < |f.title| && 0 < |f.publisher| && 0 < |f.author| && 0 < |f.description|
  {
    CoverFieldMeans(f.cover);
    if && ShortText(f.title)
       && Required(f.description)
       && RequiredInt(f.year) && MinYear <= f.year.value <= MaxYear
       && ShortText(f.publisher)
       && ShortText(f.author)
       && RequiredInt(f.pages) && MinPages <= f.pages.value
       && f.genres <= choices
       && CoverFieldAllowed(f.cover)
    then
      Some(BookData(f.title, f.description, f.year.value, f.publisher, f.author, f.pages.value, f.genres, f.cover))
    else None
  }

  /** Both cover checks use the same four extensions. */
  lemma ExtensionListsAgree()
    ensures forall x :: x in CoverExtensions <==> x in Covers.AllowedExtensions
  {
  }

  lemma DotFreeExtensions()
    ensures forall x :: x in CoverExtensions ==> '.' !in x
  {
    assert CoverExtensions == ["jpg", "jpeg", "png", "gif"];
    assert '.' !in "jpg" && '.' !in "jpeg" && '.' !in "png" && '.' !in "gif";
  }

  /**
   The form's `FileAllowed` test (the lower-cased name ends in '.' and a
   listed extension) accepts exactly the names `allowed_file` accepts.
   */
  lemma CoverFieldMatchesAllowedFile(f: string)
    ensures (exists x :: x in CoverExtensions && Text.EndsWith(Text.Lower(f), "." + x)) <==> Covers.AllowedFile(f)
  {
    Covers.AllowedFileMeans(f);
    if x :| x in CoverExtensions && Text.EndsWith(Text.Lower(f), "." + x) {
      SuffixGivesAllowed(f, x);
    }
    if Covers.AllowedFile(f) {
      AllowedGivesSuffix(f);
    }
  }

  lemma SuffixGivesAllowed(f: string, x: string)
    requires x in CoverExtensions && Text.EndsWith(Text.Lower(f), "." + x)
    ensures Covers.AllowedFile(f)
  {
    var k := |f| - |x| - 1;
    EndsWithDot(Text.Lower(f), x);
    LowerDotTail(f, k, x);
    ListedExtension(x);
    Text.LowerKeepsDots(f[k + 1..]);
    Covers.AllowedAt(f, k);
  }

  /** Where the lower-cased name has a '.' and then `x`, the name has that '.' and then text that lower-cases to `x`. */
  lemma LowerDotTail(f: string, k: nat, x: string)
    requires k < |f| && Text.Lower(f)[k] == '.' && Text.Lower(f)[k + 1..] == x
    ensures f[k] == '.' && Text.Lower(f[k + 1..]) == x
  {
    Text.LowerAt(f, k);
    Text.LowerSuffix(f, k + 1);
  }

  /** A listed extension is on `allowed_file`'s list and has no '.'. */
  lemma ListedExtension(x: string)
    requires x in CoverExtensions
    ensures x in Covers.AllowedExtensions && '.' !in x
  {
    DotFreeExtensions();
  }

  /** A string ending in '.' and `x` has that '.' just before its last `|x|` characters. */
  lemma EndsWithDot(s: string, x: string)
    requires Text.EndsWith(s, "." + x)
    ensures |x| < |s| && s[|s| - |x| - 1] == '.' && s[|s| - |x|..] == x
  {
    var k := |s| - |x| - 1;
    assert s[k..] == "." + x;
    assert s[k + 1..] == s[k..][1..];
  }

  lemma AllowedGivesSuffix(f: string)
    requires Covers.AllowedFile(f)
    ensures exists x :: x in CoverExtensions && Text.EndsWith(Text.Lower(f), "." + x)
  {
    Covers.AllowedFileMeans(f);
    var k :| 0 <= k < |f| && f[k] == '.' && '.' !in f[k + 1..] && Text.Lower(f[k + 1..]) in Covers.AllowedExtensions;
    var x := Text.Lower(f[k + 1..]);
    Text.LowerDotSuffix(f, k);
    assert x in CoverExtensions by {
      ExtensionListsAgree();
    }
  }

  /** The cover field passes exactly when there is no file or `allowed_file` accepts its name. */
  lemma CoverFieldMeans(file: Option<Covers.Upload>)
    ensures CoverFieldAllowed(file) <==> (Covers.Present(file) ==> Covers.AllowedFile(file.value.filename))
  {
    if Covers.Present(file) {
      CoverFieldMatchesAllowedFile(file.value.filename);
    }
  }

  datatype ReviewForm = ReviewForm(rating: Option<int>, text: string)

  /** `ReviewForm.validate()`: a missing rating takes the default; the text is required. */
  function ValidateReview(f: ReviewForm): (r: Option<(int, string)>)
    ensures r.Some? <==> (f.rating.None? || 0 <= f.rating.value <= 5) && Required(f.text)
    ensures r.Some? ==> 0 <= r.value.0 <= 5 && |r.value.1| > 0 && r.value.1 == f.text
    ensures r.Some? && f.rating.None? ==> r.value.0 == 5
    ensures r.Some? && f.rating.Some? ==> r.value.0 == f.rating.value
  {
    var rating := if f.rating.Some? then f.rating.value else DefaultRating;
    if rating in RatingChoices && Required(f.text) then Some((rating, f.text)) else None
  }

  /** `CollectionForm.validate()`. */
  predicate CollectionFormValid(name: string): (ok: bool)
    ensures ok ==> 1 <= |name| <= 255
    ensures |name| <= 255 && name != [] && !Text.IsSpace(name[0]) ==> ok
    ensures ok <==> |name| <= 255 && exists i :: 0 <= i < |name| && !Text.IsSpace(name[i])
  {
    ShortText(name)
  }
}
