/** The photo upload of server/routes/books.js: multer's file filter and file limit, then
    `POST /upload`, which turns each photo into book data (the vision service first, OCR and
    the catalog search as fallback) and inserts the books the visitor does not have yet. */
module Upload {
  import opened Optional
  import opened Strings
  import Paths
  import GenreMapping
  import GoogleBooks
  import ClaudeVision
  import BookStore
  import Seqs

  /** A stored upload as multer describes it: the client's file name, the declared mime
      type, where it was written, and the generated name it was stored under. */
  datatype UploadedFile = UploadedFile(originalName: string, mimeType: string, path: string, fileName: string)

  /** The services a request depends on: whether a vision key is configured, the vision call,
      `JSON.parse` of the extracted span, OCR of a stored image (None when it throws), and the
      catalog. */
  datatype Services = Services(visionConfigured: bool,
                               vision: ClaudeVision.Request -> ClaudeVision.Reply,
                               parseJson: string -> Option<seq<ClaudeVision.BookInfo>>,
                               ocr: string -> Option<string>,
                               lookup: string -> GoogleBooks.Lookup)

  /** One entry of the `errors` list: the file's original name and what went wrong. */
  datatype FileError = FileError(file: string, error: string)

  /** The upload's reply: an error status with its message, or the books added, the per-file
      errors and the number of images processed. */
  datatype Reply = Refused(status: nat, message: string)
                 | Processed(books: seq<BookStore.Book>, errors: seq<FileError>, images: nat)

  datatype Outcome = Outcome(store: BookStore.Store, reply: Reply)

  const MAX_FILES: nat := 10
  const IMAGE_TYPES: seq<string> := ["jpeg", "jpg", "png", "gif", "webp", "heic", "heif"]

  const ONLY_IMAGES := "Only image files are allowed"
  const UNEXPECTED_FIELD := "Unexpected field"
  const VISITOR_REQUIRED := "Visitor ID required"
  const NO_FILES := "No files uploaded"
  // The per-file messages are written as first word + rest, which lets proofs tell them apart.
  const OCR_FAILED := "Failed" + " to process image"
  const UNREADABLE := "Could" + " not extract readable text from image. Try a clearer photo with better lighting."
  const NO_BOOKS := "No" + " books could be identified in the image. Make sure book spines are clearly visible."

  /** `prefix` followed by each of `types`. */
  function Prefixed(prefix: string, types: seq<string>): (r: seq<string>)
    ensures |r| == |types|
    ensures forall i :: 0 <= i < |r| ==> r[i] == prefix + types[i]
  {
    seq(|types|, i requires 0 <= i < |types| => prefix + types[i])
  }

  /** A string contains one of the prefixed types exactly when it contains the prefix followed
      by one of the types. */
  lemma ContainsPrefixed(s: string, prefix: string, types: seq<string>)
    ensures ContainsAny(s, Prefixed(prefix, types)) <==> exists k :: k in types && IsSubstring(prefix + k, s)
  {
    var patterns := Prefixed(prefix, types);
    if exists k :: k in types && IsSubstring(prefix + k, s) {
      var k :| k in types && IsSubstring(prefix + k, s);
      var i :| 0 <= i < |types| && types[i] == k;
      assert patterns[i] in patterns;
    }
  }

  /** The upload filter: the lower-cased extension of the original name contains an accepted
      type, or the mime type contains "image/" followed by one. The exact comparisons with
      "image/heic" and "image/heif" add nothing (see `ExactMimeTestsRedundant`). */
  function FileFilter(f: UploadedFile): (ok: bool)
    ensures ok <==> (exists k :: k in IMAGE_TYPES && IsSubstring(k, Lower(Paths.ExtName(f.originalName))))
                    || (exists k :: k in IMAGE_TYPES && IsSubstring("image/" + k, f.mimeType))
  {
    ContainsPrefixed(f.mimeType, "image/", IMAGE_TYPES);
    assert f.mimeType == "image/heic" || f.mimeType == "image/heif" ==>
             exists k :: k in IMAGE_TYPES && IsSubstring("image/" + k, f.mimeType) by {
      if f.mimeType == "image/heic" || f.mimeType == "image/heif" {
        ExactMimeTestsRedundant(f.mimeType);
      }
    }
    ContainsAny(Lower(Paths.ExtName(f.originalName)), IMAGE_TYPES)
    || ContainsAny(f.mimeType, Prefixed("image/", IMAGE_TYPES))
    || f.mimeType == "image/heic" || f.mimeType == "image/heif"
  }

  /** multer's `upload.array('files', 10)`: the files are taken in order, the eleventh is
      refused as an unexpected field, and a file the filter rejects refuses the request. */
  function Receive(files: seq<UploadedFile>, taken: nat): (r: Option<string>)
    requires taken <= |files| && taken <= MAX_FILES
    ensures r.None? <==> |files| <= MAX_FILES && forall i :: taken <= i < |files| ==> FileFilter(files[i])
    ensures r.Some? ==> r.value in {ONLY_IMAGES, UNEXPECTED_FIELD}
    decreases |files| - taken
  {
    if taken == |files| then None
    else if taken >= MAX_FILES then Some(UNEXPECTED_FIELD)
    else if !FileFilter(files[taken]) then Some(ONLY_IMAGES)
    else Receive(files, taken + 1)
  }

  /** The books the vision service lists for an image, each replaced by the first result of a
      catalog search for "title author"; nothing when no key is configured or the call fails. */
  function VisionBooks(path: string, services: Services): (r: seq<GoogleBooks.BookData>)
    ensures !services.visionConfigured ==> r == []
    ensures services.visionConfigured ==>
              match ClaudeVision.ExtractBooks(path, services.vision, services.parseJson)
              case Failure(_) => r == []
              case Success(infos) =>
                |r| == |infos|
                && forall i :: 0 <= i < |infos| ==>
                     r[i] == GoogleBooks.SearchBooks(infos[i].title + " " + infos[i].author, services.lookup).books[0]
  {
    if !services.visionConfigured then []
    else match ClaudeVision.ExtractBooks(path, services.vision, services.parseJson)
      case Failure(_) => []
      case Success(infos) =>
        seq(|infos|, i requires 0 <= i < |infos| =>
              GoogleBooks.SearchBooks(infos[i].title + " " + infos[i].author, services.lookup).books[0])
  }

  /** The book data for one stored image, or the message the file fails with. OCR is consulted
      only when the vision path produced nothing. */
  function BookDataFor(path: string, services: Services): (r: Result<seq<GoogleBooks.BookData>, string>)
    ensures r.Failure? ==> r.error in {OCR_FAILED, UNREADABLE}
    ensures r.Success? ==> 1 <= |r.value|
    ensures VisionBooks(path, services) != [] ==> r == Success(VisionBooks(path, services))
    ensures r == Failure(UNREADABLE) <==>
              VisionBooks(path, services) == []
              && services.ocr(path).Some? && |Trim(services.ocr(path).value)| < 10
    ensures VisionBooks(path, services) == [] ==> (r == Failure(OCR_FAILED) <==> services.ocr(path).None?)
    ensures VisionBooks(path, services) == [] && services.ocr(path).Some?
            && |Trim(services.ocr(path).value)| >= 10 ==>
              r == Success(GoogleBooks.SearchBooks(services.ocr(path).value, services.lookup).books)
  {
    var fromVision := VisionBooks(path, services);
    var data :=
      if |fromVision| > 0 then Success(fromVision)
      else match services.ocr(path)
        case None => Failure(OCR_FAILED)
        case Some(text) =>
          if |Trim(text)| < 10 then Failure(UNREADABLE)
          else Success(GoogleBooks.SearchBooks(text, services.lookup).books);
    if data.Success? && |data.value| == 0 then Failure(NO_BOOKS) else data
  }

  /** Where an upload stands: the store, the records added so far and the errors so far. */
  datatype Progress = Progress(store: BookStore.Store, added: seq<BookStore.Book>, errors: seq<FileError>)

  /** One book of a file's data: inserted with its mapped genre and the image's URL unless the
      visitor already has it up to case. */
  function AddBook(s: BookStore.Store, visitorId: string, d: GoogleBooks.BookData, imageUrl: string)
    : (r: (BookStore.Store, seq<BookStore.Book>))
    ensures r.0.books == s.books + r.1 && |r.1| <= 1
    ensures r.1 == [] <==> BookStore.HasBook(s, visitorId, d.title, d.author)
    ensures BookStore.HasBook(r.0, visitorId, d.title, d.author)
    ensures BookStore.Valid(s) ==> BookStore.Valid(r.0)
    ensures BookStore.Unique(s) ==> BookStore.Unique(r.0)
    ensures forall v, t, a :: BookStore.HasBook(s, v, t, a) ==> BookStore.HasBook(r.0, v, t, a)
    ensures forall b :: b in r.1 ==> b.visitorId == visitorId && b.title == d.title && b.author == d.author
                                      && b.imageUrl == Some(imageUrl)
                                      && b.genre == GenreMapping.MapGenre(Some(d.categories))
    ensures r.0.nextId == s.nextId + |r.1| && forall b :: b in r.1 ==> b.id == s.nextId
  {
    if BookStore.FindDuplicate(s.books, visitorId, d.title, d.author).None? then
      var genre := GenreMapping.MapGenre(Some(d.categories));
      var s1 := BookStore.Insert(s, visitorId, d.title, d.author, genre, Some(imageUrl));
      var b := s1.books[|s.books|];
      assert BookStore.SameBook(b, visitorId, d.title, d.author);
      (s1, [b])
    else (s, [])
  }

  /** A file's books, inserted in order; a book inserted earlier in the pass counts as one
      the visitor has. */
  function AddBooks(s: BookStore.Store, visitorId: string, data: seq<GoogleBooks.BookData>,
                    imageUrl: string): (r: (BookStore.Store, seq<BookStore.Book>))
    ensures r.0.books == s.books + r.1 && |r.1| <= |data|
    ensures BookStore.Valid(s) ==> BookStore.Valid(r.0)
    ensures BookStore.Unique(s) ==> BookStore.Unique(r.0)
    ensures forall d :: d in data ==> BookStore.HasBook(r.0, visitorId, d.title, d.author)
    ensures forall v, t, a :: BookStore.HasBook(s, v, t, a) ==> BookStore.HasBook(r.0, v, t, a)
    ensures forall b :: b in r.1 ==> b.visitorId == visitorId && b.imageUrl == Some(imageUrl)
    ensures forall b :: b in r.1 ==> exists d :: d in data && FromItem(b, d)
    ensures r.0.nextId == s.nextId + |r.1| && forall k :: 0 <= k < |r.1| ==> r.1[k].id == s.nextId + k
    ensures r.1 == Records(s.nextId, visitorId, NewItems(s, visitorId, [], data), imageUrl, ItemGenre)
    decreases |data|
  {
    if |data| == 0 then (s, [])
    else
      var first := AddBook(s, visitorId, data[0], imageUrl);
      var rest := AddBooks(first.0, visitorId, data[1..], imageUrl);
      assert forall b :: b in first.1 ==> b == NewRecord(s.nextId, visitorId, data[0], imageUrl, ItemGenre);
      AddBookStep(s, first.0, first.1, visitorId, data, imageUrl, ItemGenre);
      assert forall x :: x in data ==> x == data[0] || x in data[1..];
      assert forall x :: x in data[1..] ==> x in data;
      ConsecutiveIds(first.1, rest.1, s.nextId);
      FromItemsStep(data, first.1, rest.1);
      Seqs.AppendAssociative(s.books, first.1, rest.1);
      (rest.0, first.1 + rest.1)
  }

  /** The items of a file's data that insert a record, in order: those the visitor has neither
      in the store `s` nor among the items before them, up to case. */
  ghost function NewItems(s: BookStore.Store, visitorId: string, earlier: seq<(string, string)>,
                          data: seq<GoogleBooks.BookData>): seq<GoogleBooks.BookData>
    decreases |data|
  {
    if |data| == 0 then []
    else
      var d := data[0];
      (if BookStore.Known(s, visitorId, earlier, d.title, d.author) then [] else [d])
      + NewItems(s, visitorId, earlier + [(d.title, d.author)], data[1..])
  }

  /** The records an upload inserts for `items`, numbered from `n`. */
  function Records(n: nat, visitorId: string, items: seq<GoogleBooks.BookData>, imageUrl: string,
                   genreOf: GoogleBooks.BookData -> string)
    : (r: seq<BookStore.Book>)
    ensures |r| == |items|
    ensures forall k :: 0 <= k < |items| ==> r[k] == NewRecord(n + k, visitorId, items[k], imageUrl, genreOf)
  {
    seq(|items|, k requires 0 <= k < |items| => NewRecord(n + k, visitorId, items[k], imageUrl, genreOf))
  }

  /** Items that agree on what is known select the same new items. */
  lemma {:induction false} NewItemsCongruent(s1: BookStore.Store, e1: seq<(string, string)>,
                                             s2: BookStore.Store, e2: seq<(string, string)>,
                                             visitorId: string, data: seq<GoogleBooks.BookData>)
    requires forall t, a :: BookStore.Known(s1, visitorId, e1, t, a) <==> BookStore.Known(s2, visitorId, e2, t, a)
    ensures NewItems(s1, visitorId, e1, data) == NewItems(s2, visitorId, e2, data)
    decreases |data|
  {
    if |data| > 0 {
      var key := (data[0].title, data[0].author);
      BookStore.KnownAppend(s1, visitorId, e1, key);
      BookStore.KnownAppend(s2, visitorId, e2, key);
      NewItemsCongruent(s1, e1 + [key], s2, e2 + [key], visitorId, data[1..]);
    }
  }

  /** Records of one item followed by records of more items, numbered on. */
  lemma {:induction false} RecordsCons(n: nat, visitorId: string, d: GoogleBooks.BookData, items: seq<GoogleBooks.BookData>,
                                        imageUrl: string, genreOf: GoogleBooks.BookData -> string)
    ensures Records(n, visitorId, [d] + items, imageUrl, genreOf) == [NewRecord(n, visitorId, d, imageUrl, genreOf)] + Records(n + 1, visitorId, items, imageUrl, genreOf)
  {
    var r := Records(n, visitorId, [d] + items, imageUrl, genreOf);
    var q := [NewRecord(n, visitorId, d, imageUrl, genreOf)] + Records(n + 1, visitorId, items, imageUrl, genreOf);
    assert |r| == |q|;
    forall k | 0 <= k < |r| ensures r[k] == q[k] {
      if k > 0 {
        assert ([d] + items)[k] == items[k - 1];
      }
    }
  }

  /** The genre an item's categories map to. */
  function ItemGenre(d: GoogleBooks.BookData): string {
    GenreMapping.MapGenre(Some(d.categories))
  }

  /** The record an upload inserts for item `d` with id `n`, its genre given by `genreOf`. */
  function NewRecord(n: nat, visitorId: string, d: GoogleBooks.BookData, imageUrl: string,
                     genreOf: GoogleBooks.BookData -> string): BookStore.Book {
    BookStore.Book(n, visitorId, d.title, d.author, genreOf(d), Some(imageUrl))
  }

  /** One step of `AddBooks`: the first item's records followed by the records of the new items
      of the rest, on the updated store, are the records of the new items of the whole data. */
  lemma {:induction false} AddBookStep(s: BookStore.Store, s1: BookStore.Store, added: seq<BookStore.Book>, visitorId: string,
                                         data: seq<GoogleBooks.BookData>, imageUrl: string,
                                         genreOf: GoogleBooks.BookData -> string)
    requires |data| > 0 && s1.books == s.books + added && |added| <= 1 && s1.nextId == s.nextId + |added|
    requires added == [] <==> BookStore.HasBook(s, visitorId, data[0].title, data[0].author)
    requires forall b :: b in added ==> b == NewRecord(s.nextId, visitorId, data[0], imageUrl, genreOf)
    ensures added + Records(s1.nextId, visitorId, NewItems(s1, visitorId, [], data[1..]), imageUrl, genreOf)
            == Records(s.nextId, visitorId, NewItems(s, visitorId, [], data), imageUrl, genreOf)
  {
    if added == [] {
      NewItemsSkip(s, s1, visitorId, data, imageUrl, genreOf);
    } else {
      assert added[0] in added;
      NewItemsInsert(s, s1, visitorId, data, imageUrl, genreOf);
    }
  }

  /** An item the visitor already has inserts nothing, and the store is unchanged. */
  lemma {:induction false} NewItemsSkip(s: BookStore.Store, s1: BookStore.Store, visitorId: string,
                                        data: seq<GoogleBooks.BookData>, imageUrl: string,
                                        genreOf: GoogleBooks.BookData -> string)
    requires |data| > 0 && s1.books == s.books
    requires BookStore.HasBook(s, visitorId, data[0].title, data[0].author)
    ensures [] + Records(s.nextId, visitorId, NewItems(s1, visitorId, [], data[1..]), imageUrl, genreOf)
            == Records(s.nextId, visitorId, NewItems(s, visitorId, [], data), imageUrl, genreOf)
  {
    var key := (data[0].title, data[0].author);
    assert [] + [key] == [key];
    BookStore.KnownSkip(s, visitorId, [], data[0].title, data[0].author);
    NewItemsCongruent(s1, [], s, [key], visitorId, data[1..]);
    var rest := NewItems(s1, visitorId, [], data[1..]);
    assert NewItems(s, visitorId, [], data) == [] + rest;
    assert [] + rest == rest;
  }

  /** An item the visitor lacks is new, and inserting its record takes its key. */
  lemma {:induction false} NewItemsInsert(s: BookStore.Store, s1: BookStore.Store, visitorId: string,
                                          data: seq<GoogleBooks.BookData>, imageUrl: string,
                                          genreOf: GoogleBooks.BookData -> string)
    requires |data| > 0 && s1.books == s.books + [NewRecord(s.nextId, visitorId, data[0], imageUrl, genreOf)]
    requires !BookStore.HasBook(s, visitorId, data[0].title, data[0].author)
    ensures [NewRecord(s.nextId, visitorId, data[0], imageUrl, genreOf)]
              + Records(s.nextId + 1, visitorId, NewItems(s1, visitorId, [], data[1..]), imageUrl, genreOf)
            == Records(s.nextId, visitorId, NewItems(s, visitorId, [], data), imageUrl, genreOf)
  {
    var key := (data[0].title, data[0].author);
    assert [] + [key] == [key];
    BookStore.KnownInsert(s, s1, NewRecord(s.nextId, visitorId, data[0], imageUrl, genreOf), []);
    NewItemsCongruent(s1, [], s, [key], visitorId, data[1..]);
    var rest := NewItems(s1, visitorId, [], data[1..]);
    assert NewItems(s, visitorId, [], data) == [data[0]] + rest;
    RecordsCons(s.nextId, visitorId, data[0], rest, imageUrl, genreOf);
  }

  /** Record `b` was made from data item `d`: its title and author, and the genre mapped from
      its categories. */
  predicate FromItem(b: BookStore.Book, d: GoogleBooks.BookData) {
    b.title == d.title && b.author == d.author && b.genre == GenreMapping.MapGenre(Some(d.categories))
  }

  /** Records made from the first item followed by records made from the later ones are all
      made from items of the list. */
  lemma {:induction false} FromItemsStep(data: seq<GoogleBooks.BookData>, a: seq<BookStore.Book>, b: seq<BookStore.Book>)
    requires |data| > 0
    requires forall x :: x in a ==> FromItem(x, data[0])
    requires forall x :: x in b ==> exists d :: d in data[1..] && FromItem(x, d)
    ensures forall x :: x in a + b ==> exists d :: d in data && FromItem(x, d)
  {
    forall x | x in a + b ensures exists d :: d in data && FromItem(x, d) {
      if x in a {
        assert data[0] in data;
      } else {
        var d :| d in data[1..] && FromItem(x, d);
        assert d in data;
      }
    }
  }

  /** At most one record with id `n`, followed by records numbered from the next id on, are
      records numbered from `n` on. */
  lemma {:induction false} ConsecutiveIds(a: seq<BookStore.Book>, b: seq<BookStore.Book>, n: nat)
    requires |a| <= 1 && forall x :: x in a ==> x.id == n
    requires forall k :: 0 <= k < |b| ==> b[k].id == n + |a| + k
    ensures forall k :: 0 <= k < |a + b| ==> (a + b)[k].id == n + k
    ensures forall x :: x in a + b <==> x in a || x in b
  {
    if |a| == 1 {
      assert a[0] in a;
    }
  }

  /** One file of the loop: its books are added, or one error naming it is recorded and the
      store is left as it was. */
  function ProcessFile(s: BookStore.Store, visitorId: string, f: UploadedFile, services: Services)
    : (r: Progress)
    ensures r.store.books == s.books + r.added && |r.errors| <= 1
    ensures r.errors != [] <==> BookDataFor(f.path, services).Failure?
    ensures r.errors != [] ==>
              r.store == s && r.added == [] && r.errors == [FileError(f.originalName, BookDataFor(f.path, services).error)]
    ensures BookDataFor(f.path, services).Success? ==>
              && r.errors == []
              && (r.store, r.added) == AddBooks(s, visitorId, BookDataFor(f.path, services).value, "/uploads/" + f.fileName)
    ensures BookStore.Valid(s) ==> BookStore.Valid(r.store)
    ensures BookStore.Unique(s) ==> BookStore.Unique(r.store)
  {
    match BookDataFor(f.path, services)
    case Failure(message) => Progress(s, [], [FileError(f.originalName, message)])
    case Success(data) =>
      var added := AddBooks(s, visitorId, data, "/uploads/" + f.fileName);
      Progress(added.0, added.1, [])
  }

  /** The original names of the files. */
  function Names(files: seq<UploadedFile>): (r: seq<string>)
    ensures |r| == |files| && forall i :: 0 <= i < |files| ==> r[i] == files[i].originalName
  {
    seq(|files|, i requires 0 <= i < |files| => files[i].originalName)
  }

  /** The names of the first file and of the later ones are all names of the files. */
  lemma {:induction false} NamesOfTail(files: seq<UploadedFile>)
    requires |files| > 0
    ensures files[0].originalName in Names(files)
    ensures forall n :: n in Names(files[1..]) ==> n in Names(files)
  {
    assert files[0].originalName == Names(files)[0];
    forall n | n in Names(files[1..]) ensures n in Names(files) {
      var i :| 0 <= i < |files| - 1 && Names(files[1..])[i] == n;
      assert Names(files)[i + 1] == n;
    }
  }

  /** Whether a file's data cannot be obtained. */
  function Failing(services: Services): UploadedFile -> bool {
    (f: UploadedFile) => BookDataFor(f.path, services).Failure?
  }

  /** The error entry of a failing file: its original name and the message it failed with. */
  function ErrorEntry(services: Services): UploadedFile -> FileError {
    (f: UploadedFile) => match BookDataFor(f.path, services)
                         case Failure(message) => FileError(f.originalName, message)
                         case Success(_) => FileError(f.originalName, "")
  }

  /** One error entry per failing file, naming it, in file order. */
  function FileErrors(files: seq<UploadedFile>, services: Services): (r: seq<FileError>)
    ensures |r| <= |files|
  {
    Seqs.FilterMap(files, Failing(services), ErrorEntry(services))
  }

  /** The file loop: every file is processed, whatever happened to the ones before it. */
  function ProcessFiles(s: BookStore.Store, visitorId: string, files: seq<UploadedFile>, services: Services)
    : (r: Progress)
    ensures r.store.books == s.books + r.added
    ensures |r.errors| <= |files|
    ensures forall e :: e in r.errors ==> e.error in {OCR_FAILED, UNREADABLE} && e.file in Names(files)
    ensures BookStore.Valid(s) ==> BookStore.Valid(r.store)
    ensures BookStore.Unique(s) ==> BookStore.Unique(r.store)
    decreases |files|
  {
    if |files| == 0 then Progress(s, [], [])
    else
      var first := ProcessFile(s, visitorId, files[0], services);
      var rest := ProcessFiles(first.store, visitorId, files[1..], services);
      NamesOfTail(files);
      Seqs.AppendAssociative(s.books, first.added, rest.added);
      Progress(rest.store, first.added + rest.added, first.errors + rest.errors)
  }

  /** The loop's error list is one entry per failing file, naming it, in file order. */
  lemma {:induction false} ErrorsAreFileErrors(s: BookStore.Store, visitorId: string, files: seq<UploadedFile>,
                                               services: Services)
    ensures ProcessFiles(s, visitorId, files, services).errors == FileErrors(files, services)
    decreases |files|
  {
    if |files| > 0 {
      var first := ProcessFile(s, visitorId, files[0], services);
      ErrorsAreFileErrors(first.store, visitorId, files[1..], services);
      Seqs.FilterMapCons(files, Failing(services), ErrorEntry(services));
    }
  }

  /** `POST /upload`: multer's refusals come first (a 500 from the default error handler), then
      the 400s for a missing visitor or no files; otherwise the file loop runs. */
  function UploadPhotos(s: BookStore.Store, visitorId: string, files: seq<UploadedFile>,
                        services: Services): (o: Outcome)
    ensures o.reply.Refused? ==> o.store == s
    ensures o.reply.Refused? <==> Receive(files, 0).Some? || visitorId == "" || |files| == 0
    ensures o.reply.Refused? && Receive(files, 0).Some? ==> o.reply == Refused(500, Receive(files, 0).value)
    ensures Receive(files, 0).None? && visitorId == "" ==> o.reply == Refused(400, VISITOR_REQUIRED)
    ensures Receive(files, 0).None? && visitorId != "" && |files| == 0 ==> o.reply == Refused(400, NO_FILES)
    ensures o.reply.Processed? ==>
              var done := ProcessFiles(s, visitorId, files, services);
              o.store == done.store && o.reply.books == done.added && o.reply.errors == done.errors
    ensures o.reply.Processed? ==> o.reply.errors == FileErrors(files, services)
    ensures o.reply.Processed? ==>
              && o.reply.images == |files| && |o.reply.errors| <= |files|
              && o.store.books == s.books + o.reply.books
              && 1 <= |files| <= MAX_FILES
    ensures BookStore.Valid(s) ==> BookStore.Valid(o.store)
    ensures BookStore.Unique(s) ==> BookStore.Unique(o.store)
  {
    match Receive(files, 0)
    case Some(message) => Outcome(s, Refused(500, message))
    case None =>
      if visitorId == "" then Outcome(s, Refused(400, VISITOR_REQUIRED))
      else if |files| == 0 then Outcome(s, Refused(400, NO_FILES))
      else
        var done := ProcessFiles(s, visitorId, files, services);
        ErrorsAreFileErrors(s, visitorId, files, services);
        Outcome(done.store, Processed(done.added, done.errors, |files|))
  }

  /** The exact comparisons with "image/heic" and "image/heif" accept nothing the pattern test
      does not already accept. */
  lemma ExactMimeTestsRedundant(mimeType: string)
    requires mimeType == "image/heic" || mimeType == "image/heif"
    ensures exists k :: k in IMAGE_TYPES && IsSubstring("image/" + k, mimeType)
  {
    var k := if mimeType == "image/heic" then "heic" else "heif";
    assert IMAGE_TYPES[5] == "heic" && IMAGE_TYPES[6] == "heif";
    assert k in IMAGE_TYPES;
    assert "image/" + k == mimeType;
    assert OccursAt(mimeType, "image/" + k, 0);
  }

  /** The vision path always yields one entry per listed book, so the branch that would keep the
      vision service's own data when the catalog search comes back empty never runs. */
  lemma {:induction false} VisionEntriesAreSearchResults(path: string, services: Services, infos: seq<ClaudeVision.BookInfo>)
    requires services.visionConfigured
    requires ClaudeVision.ExtractBooks(path, services.vision, services.parseJson) == Success(infos)
    ensures |VisionBooks(path, services)| == |infos|
    ensures forall i :: 0 <= i < |infos| ==>
              |GoogleBooks.SearchBooks(infos[i].title + " " + infos[i].author, services.lookup).books| > 0
  {
  }

  /** When the vision path produced books, the OCR service is not consulted: any OCR gives the
      same data. */
  lemma {:induction false} VisionFirst(path: string, services: Services, ocr: string -> Option<string>)
    requires VisionBooks(path, services) != []
    ensures BookDataFor(path, services.(ocr := ocr)) == BookDataFor(path, services)
  {
    assert VisionBooks(path, services.(ocr := ocr)) == VisionBooks(path, services);
  }

  /** The "No books could be identified" error is never raised: both paths produce at least
      one book whenever they succeed. */
  lemma {:induction false} NoBooksErrorUnreachable(path: string, services: Services)
    ensures BookDataFor(path, services) != Failure(NO_BOOKS)
  {
    assert OCR_FAILED[0] == 'F' && UNREADABLE[0] == 'C' && NO_BOOKS[0] == 'N';
  }

  /** Per-file isolation: the loop over `a + b` is the loop over `a` followed by the loop over
      `b` on the resulting store, so a failing file neither stops later files nor undoes the
      books earlier files added. */
  lemma {:induction false} FilesProcessedIndependently(s: BookStore.Store, visitorId: string,
                                                        a: seq<UploadedFile>, b: seq<UploadedFile>,
                                                        services: Services)
    ensures var ra := ProcessFiles(s, visitorId, a, services);
            var rb := ProcessFiles(ra.store, visitorId, b, services);
            ProcessFiles(s, visitorId, a + b, services) == Progress(rb.store, ra.added + rb.added, ra.errors + rb.errors)
    decreases |a|
  {
    if |a| == 0 {
      assert a + b == b;
    } else {
      assert (a + b)[0] == a[0] && (a + b)[1..] == a[1..] + b;
      var first := ProcessFile(s, visitorId, a[0], services);
      FilesProcessedIndependently(first.store, visitorId, a[1..], b, services);
      var ra := ProcessFiles(first.store, visitorId, a[1..], services);
      var rb := ProcessFiles(ra.store, visitorId, b, services);
      assert ProcessFiles(s, visitorId, a, services)
             == Progress(ra.store, first.added + ra.added, first.errors + ra.errors);
      var rest := ProcessFiles(first.store, visitorId, a[1..] + b, services);
      assert ProcessFiles(s, visitorId, a + b, services)
             == Progress(rest.store, first.added + rest.added, first.errors + rest.errors);
      Seqs.AppendAssociative(first.added, ra.added, rb.added);
      Seqs.AppendAssociative(first.errors, ra.errors, rb.errors);
    }
  }

  /** The loop over a single file is that file's processing. */
  lemma {:induction false} OneFile(s: BookStore.Store, visitorId: string, f: UploadedFile, services: Services)
    ensures ProcessFiles(s, visitorId, [f], services) == ProcessFile(s, visitorId, f, services)
  {
    var first := ProcessFile(s, visitorId, f, services);
    assert [f][0] == f && [f][1..] == [];
    assert ProcessFiles(first.store, visitorId, [], services) == Progress(first.store, [], []);
    assert first.added + [] == first.added && first.errors + [] == first.errors;
  }

  /** Every book of every file whose data was obtained is in the visitor's library after the
      loop, whatever the other files did. */
  lemma {:induction false} SucceedingFilesAreAdded(s: BookStore.Store, visitorId: string, files: seq<UploadedFile>,
                                                   services: Services, i: nat, d: GoogleBooks.BookData)
    requires i < |files| && BookDataFor(files[i].path, services).Success?
    requires d in BookDataFor(files[i].path, services).value
    ensures BookStore.HasBook(ProcessFiles(s, visitorId, files, services).store, visitorId, d.title, d.author)
    decreases |files|
  {
    var first := ProcessFile(s, visitorId, files[0], services);
    if i > 0 {
      assert files[1..][i - 1] == files[i];
      SucceedingFilesAreAdded(first.store, visitorId, files[1..], services, i - 1, d);
    } else {
      ProcessFilesKeepsBooks(first.store, visitorId, files[1..], services, d.title, d.author);
    }
    ProcessFilesHead(s, visitorId, files, services);
  }

  /** The store after the loop is the store after the loop over the later files, started from
      the store the first file left. */
  lemma {:induction false} ProcessFilesHead(s: BookStore.Store, visitorId: string, files: seq<UploadedFile>,
                                            services: Services)
    requires |files| > 0
    ensures ProcessFiles(s, visitorId, files, services).store
            == ProcessFiles(ProcessFile(s, visitorId, files[0], services).store, visitorId, files[1..], services).store
  {
  }

  /** The loop never takes a book away from a visitor. */
  lemma {:induction false} ProcessFilesKeepsBooks(s: BookStore.Store, visitorId: string, files: seq<UploadedFile>,
                                                  services: Services, title: string, author: string)
    requires BookStore.HasBook(s, visitorId, title, author)
    ensures BookStore.HasBook(ProcessFiles(s, visitorId, files, services).store, visitorId, title, author)
  {
    var r := ProcessFiles(s, visitorId, files, services);
    BookStore.HasBookExtends(s, r.store, r.added);
  }

  /** A file whose data cannot be obtained records exactly one error and changes nothing else. */
  lemma {:induction false} FailingFileIsIsolated(s: BookStore.Store, visitorId: string, f: UploadedFile, services: Services)
    requires BookDataFor(f.path, services).Failure?
    ensures ProcessFile(s, visitorId, f, services)
              == Progress(s, [], [FileError(f.originalName, BookDataFor(f.path, services).error)])
  {
  }
}
