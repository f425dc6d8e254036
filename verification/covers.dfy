/**
 Cover uploads: the extension allow-list (`allowed_file`) and `save_cover`,
 which stores each distinct content once, under `<cover id>.<extension>`.
 */
module Covers {
  import opened Wrappers
  import opened Schema
  import opened External
  import Text

  const AllowedExtensions: set<string> := {"jpg", "jpeg", "png", "gif"}

  /** An uploaded file (werkzeug's `FileStorage`). */
  datatype Upload = Upload(filename: string, mimeType: string, content: seq<byte>)

  /** A `FileStorage` is truthy when it carries a non-empty file name. */
  predicate Present(file: Option<Upload>)
  {
    file.Some? && file.value.filename != ""
  }

  lemma ExtensionOfAnyDotSuffix(f: string)
    ensures forall k :: 0 <= k < |f| && f[k] == '.' && '.' !in f[k + 1..] ==> Text.Extension(f) == Some(f[k + 1..])
  {
    forall k | 0 <= k < |f| && f[k] == '.' && '.' !in f[k + 1..]
      ensures Text.Extension(f) == Some(f[k + 1..])
    {
      Text.ExtensionOfDotSuffix(f, k);
    }
  }

  /** `allowed_file`: the lower-cased text after the last '.' is an allowed image extension. */
  function AllowedFile(filename: string): (ok: bool)
    ensures ok ==> '.' in filename && 4 <= |filename|
  {
    match Text.Extension(filename)
    case None => false
    case Some(e) => Text.Lower(e) in AllowedExtensions
  }

  /**
   A name is allowed exactly when some '.' in it is followed only by
   dot-free text whose lower-cased form is an allowed extension.
   */
  lemma AllowedFileMeans(filename: string)
    ensures AllowedFile(filename) <==> exists k :: 0 <= k < |filename| && filename[k] == '.' && '.' !in filename[k + 1..]
                                                  && Text.Lower(filename[k + 1..]) in AllowedExtensions
  {
    ExtensionOfAnyDotSuffix(filename);
    match Text.Extension(filename)
    case None =>
    case Some(e) =>
      var k := |filename| - |e| - 1;
      assert filename[k + 1..] == e;
  }

  /** A '.' followed by dot-free text that lower-cases to an allowed extension makes the name allowed. */
  lemma AllowedAt(filename: string, k: nat)
    requires k < |filename| && filename[k] == '.' && '.' !in filename[k + 1..]
    requires Text.Lower(filename[k + 1..]) in AllowedExtensions
    ensures AllowedFile(filename)
  {
    Text.ExtensionOfDotSuffix(filename, k);
  }

  /** The lower-cased extension `save_cover` names the stored file with. */
  function StoredExtension(filename: string): (ext: string)
    requires AllowedFile(filename)
    ensures '.' !in ext && ext in AllowedExtensions
    ensures |ext| < |filename| && filename[|filename| - |ext| - 1] == '.'
    ensures Text.Lower(filename[|filename| - |ext|..]) == ext
  {
    var e := Text.Extension(filename).value;
    Text.LowerKeepsDots(e);
    Text.Lower(e)
  }

  lemma MinExists(xs: set<Id>)
    requires xs != {}
    ensures exists m :: m in xs && forall x :: x in xs ==> m <= x
  {
    var y :| y in xs;
    MinAtMost(xs, y);
  }

  /** Descending from any member reaches a least one. */
  lemma {:induction false} MinAtMost(xs: set<Id>, y: Id)
    requires y in xs
    ensures exists m :: m in xs && m <= y && forall x :: x in xs ==> m <= x
    decreases y
  {
    if forall x :: x in xs ==> y <= x {
      assert y in xs && y <= y;
    } else {
      var z :| z in xs && z < y;
      MinAtMost(xs, z);
    }
  }

  function MinId(xs: set<Id>): (m: Id)
    requires xs != {}
    ensures m in xs && forall x :: x in xs ==> m <= x
  {
    MinExists(xs);
    var m :| m in xs && forall x :: x in xs ==> m <= x;
    m
  }

  /** `Cover.query.filter_by(md5_hash=h).first()`, taken in key order. */
  function FindCoverByHash(covers: map<Id, Cover>, h: string): (r: Option<Id>)
    ensures r.None? <==> forall c :: c in covers ==> covers[c].md5Hash != h
    ensures r.Some? ==> r.value in covers && covers[r.value].md5Hash == h
    ensures r.Some? ==> forall c :: c in covers && covers[c].md5Hash == h ==> r.value <= c
  {
    var ids := set c | c in covers && covers[c].md5Hash == h;
    assert forall c :: c in covers && covers[c].md5Hash == h ==> c in ids;
    if ids == {} then None else Some(MinId(ids))
  }

  predicate HashStored(s: Store, h: string)
  {
    exists c :: c in s.covers && s.covers[c].md5Hash == h
  }

  /**
   `save_cover(file, book_id)`: None and no change unless a file with an
   allowed name is given; the id of the stored cover with the same content
   hash, wherever it belongs, without change; otherwise a new cover row for
   `bookId` whose file `<id>.<ext>` now holds the bytes.
   */
  function SaveCover(env: Env, s: Store, file: Option<Upload>, bookId: Id): (r: Step<Option<Id>>)
    ensures !(file.Some? && AllowedFile(file.value.filename)) ==> r == Step(None, s)
    ensures file.Some? && AllowedFile(file.value.filename) ==> r.result.Some?
    ensures file.Some? && AllowedFile(file.value.filename) && HashStored(s, env.md5(file.value.content)) ==>
              && r.store == s
              && r.result.value in s.covers
              && s.covers[r.result.value].md5Hash == env.md5(file.value.content)
    ensures file.Some? && AllowedFile(file.value.filename) && !HashStored(s, env.md5(file.value.content)) ==>
              var id := r.result.value;
              && id == s.nextCoverId
              && r.store.covers == s.covers[id := Cover(CoverFilename(id, StoredExtension(file.value.filename)),
                                                        file.value.mimeType, env.md5(file.value.content), bookId)]
              && FilenameCoverId(r.store.covers[id].filename) == Some(id)
              && r.store.files == s.files[r.store.covers[id].filename := file.value.content]
              && r.store == s.(covers := r.store.covers, files := r.store.files, nextCoverId := id + 1)
  {
    if file.Some? && AllowedFile(file.value.filename) then
      var content := file.value.content;
      var hash := env.md5(content);
      match FindCoverByHash(s.covers, hash)
      case Some(existing) => Step(Some(existing), s)
      case None =>
        var id := s.nextCoverId;
        var ext := StoredExtension(file.value.filename);
        var name := CoverFilename(id, ext);
        CoverFilenameRoundTrip(id, ext);
        var cover := Cover(name, file.value.mimeType, hash, bookId);
        Step(Some(id), InsertCover(s, cover, content))
    else
      Step(None, s)
  }

  /** The store after inserting `cover` under the next cover key and writing its file. */
  function InsertCover(s: Store, cover: Cover, content: seq<byte>): Store
  {
    s.(covers := s.covers[s.nextCoverId := cover],
       files := s.files[cover.filename := content],
       nextCoverId := s.nextCoverId + 1)
  }

  lemma InsertCoverStore(s: Store, cover: Cover, content: seq<byte>)
    requires CoverStore(s) && FreshCounters(s)
    requires !HashStored(s, cover.md5Hash)
    requires FilenameCoverId(cover.filename) == Some(s.nextCoverId)
    ensures CoverStore(InsertCover(s, cover, content))
  {
    var t := InsertCover(s, cover, content);
    forall a, b | a in t.covers && b in t.covers && t.covers[a].md5Hash == t.covers[b].md5Hash
      ensures a == b
    {
    }
    forall c | c in t.covers
      ensures FilenameCoverId(t.covers[c].filename) == Some(c) && t.covers[c].filename in t.files
    {
    }
  }

  /** Inserting a cover row with a fresh key, a new hash and its file keeps the store valid. */
  lemma InsertCoverValid(s: Store, cover: Cover, content: seq<byte>)
    requires Valid(s) && cover.bookId in s.books
    requires !HashStored(s, cover.md5Hash)
    requires FilenameCoverId(cover.filename) == Some(s.nextCoverId)
    ensures Valid(InsertCover(s, cover, content))
  {
    var t := InsertCover(s, cover, content);
    InsertCoverStore(s, cover, content);
    KeepsNames(s, t);
    ReviewsShrink(s, t);
    InsertCoverKeys(s, cover, content);
  }

  lemma InsertCoverKeys(s: Store, cover: Cover, content: seq<byte>)
    requires ForeignKeys(s) && FreshCounters(s) && cover.bookId in s.books
    ensures ForeignKeys(InsertCover(s, cover, content)) && FreshCounters(InsertCover(s, cover, content))
  {
  }

  /** `save_cover` keeps a valid store valid when it is given an existing book. */
  lemma SaveCoverValid(env: Env, s: Store, file: Option<Upload>, bookId: Id)
    requires Valid(s) && bookId in s.books
    ensures Valid(SaveCover(env, s, file, bookId).store)
    ensures SaveCover(env, s, file, bookId).result.Some? ==>
              SaveCover(env, s, file, bookId).result.value in SaveCover(env, s, file, bookId).store.covers
  {
    if file.Some? && AllowedFile(file.value.filename) {
      var f := file.value;
      if HashStored(s, env.md5(f.content)) {
        SaveCoverKnown(env, s, f, bookId);
      } else {
        var id := s.nextCoverId;
        var ext := StoredExtension(f.filename);
        CoverFilenameRoundTrip(id, ext);
        SaveCoverNew(env, s, f, bookId);
        InsertCoverValid(s, Cover(CoverFilename(id, ext), f.mimeType, env.md5(f.content), bookId), f.content);
      }
    }
  }

  /**
   Uploading the same bytes twice, under any names and for any books, yields
   the same cover id, and the second upload changes nothing: at most one
   file is written.
   */
  lemma SaveCoverTwice(env: Env, s: Store, f1: Upload, b1: Id, f2: Upload, b2: Id)
    requires AllowedFile(f1.filename) && AllowedFile(f2.filename)
    requires f1.content == f2.content
    ensures var r1 := SaveCover(env, s, Some(f1), b1);
            var r2 := SaveCover(env, r1.store, Some(f2), b2);
            && r2.result == r1.result
            && r2.store == r1.store
            && |r2.store.files.Keys - s.files.Keys| <= 1
  {
    if HashStored(s, env.md5(f1.content)) {
      SaveCoverKnown(env, s, f1, b1);
      SaveCoverKnown(env, s, f2, b2);
    } else {
      SaveCoverTwiceNew(env, s, f1, b1, f2, b2);
    }
  }

  /** The first upload of new bytes stores them; the second finds that cover. */
  lemma SaveCoverTwiceNew(env: Env, s: Store, f1: Upload, b1: Id, f2: Upload, b2: Id)
    requires AllowedFile(f1.filename) && AllowedFile(f2.filename)
    requires f1.content == f2.content && !HashStored(s, env.md5(f1.content))
    ensures var r1 := SaveCover(env, s, Some(f1), b1);
            SaveCover(env, r1.store, Some(f2), b2) == r1 && |r1.store.files.Keys - s.files.Keys| <= 1
  {
    var id := s.nextCoverId;
    SaveCoverNew(env, s, f1, b1);
    var cover := Cover(CoverFilename(id, StoredExtension(f1.filename)), f1.mimeType, env.md5(f1.content), b1);
    SecondUpload(env, s, cover, f1.content, f2, b2);
    InsertCoverOneFile(s, cover, f1.content);
  }

  /** After a new cover is stored, uploading its bytes again finds it and changes nothing. */
  lemma SecondUpload(env: Env, s: Store, cover: Cover, content: seq<byte>, f: Upload, b: Id)
    requires AllowedFile(f.filename) && f.content == content
    requires cover.md5Hash == env.md5(content) && !HashStored(s, cover.md5Hash)
    ensures SaveCover(env, InsertCover(s, cover, content), Some(f), b) == Step(Some(s.nextCoverId), InsertCover(s, cover, content))
  {
    InsertCoverFindsIt(s, cover, content);
    SaveCoverKnown(env, InsertCover(s, cover, content), f, b);
  }

  /** Inserting a cover writes at most one new file. */
  lemma InsertCoverOneFile(s: Store, cover: Cover, content: seq<byte>)
    ensures |InsertCover(s, cover, content).files.Keys - s.files.Keys| <= 1
  {
    OneNewKey(s.files.Keys, InsertCover(s, cover, content).files.Keys, cover.filename);
  }

  /** `save_cover` of bytes whose hash is stored answers the lookup's cover and changes nothing. */
  lemma SaveCoverKnown(env: Env, s: Store, f: Upload, b: Id)
    requires AllowedFile(f.filename) && HashStored(s, env.md5(f.content))
    ensures SaveCover(env, s, Some(f), b) == Step(FindCoverByHash(s.covers, env.md5(f.content)), s)
  {
  }

  /** `save_cover` of bytes with a new hash inserts the cover row and file at the next cover key. */
  lemma SaveCoverNew(env: Env, s: Store, f: Upload, b: Id)
    requires AllowedFile(f.filename) && !HashStored(s, env.md5(f.content))
    ensures var id := s.nextCoverId;
            SaveCover(env, s, Some(f), b)
            == Step(Some(id), InsertCover(s, Cover(CoverFilename(id, StoredExtension(f.filename)), f.mimeType,
                                                   env.md5(f.content), b), f.content))
  {
  }

  /** After inserting a cover with a new hash, the hash lookup finds exactly that cover. */
  lemma InsertCoverFindsIt(s: Store, cover: Cover, content: seq<byte>)
    requires !HashStored(s, cover.md5Hash)
    ensures HashStored(InsertCover(s, cover, content), cover.md5Hash)
    ensures FindCoverByHash(InsertCover(s, cover, content).covers, cover.md5Hash) == Some(s.nextCoverId)
  {
    var covers := InsertCover(s, cover, content).covers;
    var id := s.nextCoverId;
    assert id in covers && covers[id].md5Hash == cover.md5Hash;
    forall c | c in covers && covers[c].md5Hash == cover.md5Hash
      ensures id <= c
    {
      if c != id {
        assert false;
      }
    }
  }

  lemma OneNewKey(a: set<string>, b: set<string>, k: string)
    requires b == a + {k}
    ensures |b - a| <= 1
  {
    if k in a {
      assert b - a == {};
    } else {
      assert b - a == {k};
    }
  }
}
