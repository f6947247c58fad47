/** The book records and the `POST /`, `PUT /:id` and `DELETE /:id` handlers of
    server/routes/books.js, over an in-memory store: a sequence of records in insertion order
    and the next fresh id. */
module BookStore {
  import opened Optional
  import opened Strings
  import Seqs
  import GenreMapping

  /** A stored book. `imageUrl` is set only for books created from an uploaded photo. */
  datatype Book = Book(id: nat, visitorId: string, title: string, author: string,
                       genre: string, imageUrl: Option<string>)

  /** The records, oldest first, and the id the next insert receives. */
  datatype Store = Store(books: seq<Book>, nextId: nat)

  /** A JSON response body: a record, `{success: true}`, or `{error: message}`. */
  datatype Body = Record(book: Book) | Deleted | Error(message: string)

  datatype Response = Response(status: nat, body: Body)

  /** The store after a request, and the response sent. */
  datatype Outcome = Outcome(store: Store, response: Response)

  const MISSING_FIELDS := "Missing required fields"
  const ALREADY_EXISTS := "Book already exists in your library"
  const NOT_FOUND := "Book not found"

  /** The records' ids are below `nextId` and pairwise distinct. */
  ghost predicate Valid(s: Store) {
    && (forall i :: 0 <= i < |s.books| ==> s.books[i].id < s.nextId)
    && (forall i, j :: 0 <= i < j < |s.books| ==> s.books[i].id != s.books[j].id)
  }

  /** `b` belongs to `visitorId` and has the title and author up to case. */
  predicate SameBook(b: Book, visitorId: string, title: string, author: string) {
    b.visitorId == visitorId && Lower(b.title) == Lower(title) && Lower(b.author) == Lower(author)
  }

  /** No visitor holds two records whose titles and authors agree up to case. */
  ghost predicate Unique(s: Store) {
    forall i, j :: 0 <= i < j < |s.books| ==>
      !SameBook(s.books[j], s.books[i].visitorId, s.books[i].title, s.books[i].author)
  }

  ghost predicate HasBook(s: Store, visitorId: string, title: string, author: string) {
    exists i :: 0 <= i < |s.books| && SameBook(s.books[i], visitorId, title, author)
  }

  /** The visitor has the book up to case: in the store, or among the (title, author) keys
      already taken earlier in the same pass. */
  ghost predicate Known(s: Store, visitorId: string, earlier: seq<(string, string)>, title: string, author: string) {
    || HasBook(s, visitorId, title, author)
    || exists k :: k in earlier && Lower(k.0) == Lower(title) && Lower(k.1) == Lower(author)
  }

  /** Taking one more key makes known exactly the books that agree with it up to case. */
  lemma {:induction false} KnownAppend(s: Store, visitorId: string, earlier: seq<(string, string)>, key: (string, string))
    ensures forall t, a :: Known(s, visitorId, earlier + [key], t, a) <==>
                             Known(s, visitorId, earlier, t, a) || (Lower(key.0) == Lower(t) && Lower(key.1) == Lower(a))
  {
    assert forall k :: k in earlier + [key] <==> k in earlier || k == key;
  }

  /** Taking the key of a book the visitor already has changes nothing that is known. */
  lemma {:induction false} KnownSkip(s: Store, visitorId: string, earlier: seq<(string, string)>, title: string, author: string)
    requires HasBook(s, visitorId, title, author)
    ensures forall t, a :: Known(s, visitorId, earlier + [(title, author)], t, a) <==> Known(s, visitorId, earlier, t, a)
  {
    KnownAppend(s, visitorId, earlier, (title, author));
    var i :| 0 <= i < |s.books| && SameBook(s.books[i], visitorId, title, author);
    assert forall t, a :: Lower(title) == Lower(t) && Lower(author) == Lower(a) ==> SameBook(s.books[i], visitorId, t, a);
  }

  /** Appending records keeps every book a visitor has. */
  lemma {:induction false} HasBookExtends(s: Store, r: Store, extra: seq<Book>)
    requires r.books == s.books + extra
    ensures forall v, t, a :: HasBook(s, v, t, a) ==> HasBook(r, v, t, a)
  {
    assert forall i :: 0 <= i < |s.books| ==> r.books[i] == s.books[i];
  }

  /** Appending one of the visitor's records is taking its key. */
  lemma {:induction false} KnownInsert(s: Store, r: Store, b: Book, earlier: seq<(string, string)>)
    requires r.books == s.books + [b]
    ensures forall t, a :: Known(r, b.visitorId, earlier, t, a) <==> Known(s, b.visitorId, earlier + [(b.title, b.author)], t, a)
  {
    KnownAppend(s, b.visitorId, earlier, (b.title, b.author));
    assert r.books[|s.books|] == b;
    assert forall i :: 0 <= i < |s.books| ==> r.books[i] == s.books[i];
  }

  /** The case-insensitive `findFirst` on visitor, title and author: the oldest match. */
  function FindDuplicate(books: seq<Book>, visitorId: string, title: string, author: string): (r: Option<Book>)
    ensures r.None? <==> forall i :: 0 <= i < |books| ==> !SameBook(books[i], visitorId, title, author)
    ensures r.Some? ==> r.value in books && SameBook(r.value, visitorId, title, author)
  {
    if |books| == 0 then None
    else if SameBook(books[0], visitorId, title, author) then Some(books[0])
    else
      var r := FindDuplicate(books[1..], visitorId, title, author);
      assert forall i :: 1 <= i < |books| ==> books[i] == books[1..][i - 1];
      r
  }

  /** `prisma.book.create`: the new record takes the next id and goes last. */
  function Insert(s: Store, visitorId: string, title: string, author: string, genre: string,
                  imageUrl: Option<string>): (r: Store)
    ensures r.books == s.books + [Book(s.nextId, visitorId, title, author, genre, imageUrl)]
    ensures r.nextId == s.nextId + 1
    ensures Valid(s) ==> forall i :: 0 <= i < |s.books| ==> s.books[i].id != r.books[|s.books|].id
    ensures Valid(s) ==> Valid(r)
    ensures Unique(s) && !HasBook(s, visitorId, title, author) ==> Unique(r)
    ensures forall v, t, a :: HasBook(s, v, t, a) ==> HasBook(r, v, t, a)
  {
    var b := Book(s.nextId, visitorId, title, author, genre, imageUrl);
    var r := Store(s.books + [b], s.nextId + 1);
    assert forall i :: 0 <= i < |s.books| ==> r.books[i] == s.books[i];
    r
  }

  /** `POST /`: 400 unless visitor, title and author are all given (non-empty), 409 when the
      visitor already has the book up to case, 201 with the inserted record otherwise. */
  function CreateBook(s: Store, visitorId: string, title: string, author: string, genre: string): (o: Outcome)
    ensures o.response.status in {201, 400, 409}
    ensures o.response.status == 400 <==> visitorId == "" || title == "" || author == ""
    ensures o.response.status == 409 <==>
              visitorId != "" && title != "" && author != "" && HasBook(s, visitorId, title, author)
    ensures o.response.status != 201 ==> o.store == s
    ensures o.response.status == 201 ==> o.store.nextId == s.nextId + 1
    ensures o.response.status == 201 ==>
              && o.response.body == Record(Book(s.nextId, visitorId, title, author,
                                                 if genre == "" then GenreMapping.UNCATEGORIZED else genre, None))
              && o.store.books == s.books + [o.response.body.book]
    ensures Valid(s) ==> Valid(o.store)
    ensures Unique(s) ==> Unique(o.store)
  {
    if visitorId == "" || title == "" || author == "" then
      Outcome(s, Response(400, Error(MISSING_FIELDS)))
    else if FindDuplicate(s.books, visitorId, title, author).Some? then
      Outcome(s, Response(409, Error(ALREADY_EXISTS)))
    else
      var g := if genre == "" then GenreMapping.UNCATEGORIZED else genre;
      Outcome(Insert(s, visitorId, title, author, g, None),
              Response(201, Record(Book(s.nextId, visitorId, title, author, g, None))))
  }

  /** Prisma's `findFirst({where: {id, visitorId}})`: an absent visitor id filters nothing. */
  predicate Owned(b: Book, id: nat, visitorId: Option<string>) {
    b.id == id && (visitorId.None? || b.visitorId == visitorId.value)
  }

  /** The update data applied to one record: absent fields leave it as it was. */
  function Patch(b: Book, title: Option<string>, author: Option<string>, genre: Option<string>): (r: Book)
    ensures r.id == b.id && r.visitorId == b.visitorId && r.imageUrl == b.imageUrl
    ensures r.title == title.GetOr(b.title) && r.author == author.GetOr(b.author)
    ensures r.genre == genre.GetOr(b.genre)
  {
    Book(b.id, b.visitorId, title.GetOr(b.title), author.GetOr(b.author), genre.GetOr(b.genre), b.imageUrl)
  }

  /** `PUT /:id`: 404 unless a record with the id (and the visitor, when given) exists; the
      record with the id then gets the given title, author and genre, with no duplicate check. */
  function UpdateBook(s: Store, id: nat, visitorId: Option<string>,
                      title: Option<string>, author: Option<string>, genre: Option<string>): (o: Outcome)
    ensures o.response.status in {200, 404}
    ensures o.response.status == 404 <==> forall i :: 0 <= i < |s.books| ==> !Owned(s.books[i], id, visitorId)
    ensures o.response.status == 404 ==> o.store == s && o.response.body == Error(NOT_FOUND)
    ensures o.response.status == 200 ==>
              && o.store.nextId == s.nextId && |o.store.books| == |s.books|
              && (forall i :: 0 <= i < |s.books| ==>
                    o.store.books[i] == if s.books[i].id == id then Patch(s.books[i], title, author, genre) else s.books[i])
              && o.response.body.Record? && o.response.body.book in o.store.books
              && o.response.body.book.id == id
    ensures Valid(s) ==> Valid(o.store)
  {
    match FirstOwned(s.books, id, visitorId)
    case None => Outcome(s, Response(404, Error(NOT_FOUND)))
    case Some(k) =>
      var books := seq(|s.books|, i requires 0 <= i < |s.books| =>
                         if s.books[i].id == id then Patch(s.books[i], title, author, genre) else s.books[i]);
      Outcome(Store(books, s.nextId), Response(200, Record(books[k])))
  }

  /** The position of the first record `Owned` by the request, if any. */
  function FirstOwned(books: seq<Book>, id: nat, visitorId: Option<string>): (r: Option<nat>)
    ensures r.None? <==> forall i :: 0 <= i < |books| ==> !Owned(books[i], id, visitorId)
    ensures r.Some? ==> r.value < |books| && Owned(books[r.value], id, visitorId)
  {
    if |books| == 0 then None
    else if Owned(books[0], id, visitorId) then Some(0)
    else match FirstOwned(books[1..], id, visitorId)
      case None => None
      case Some(k) => Some(k + 1)
  }

  /** `DELETE /:id`: 404 unless a record with the id (and the visitor, when given) exists;
      otherwise the record with the id goes and the others stay in order. */
  function DeleteBook(s: Store, id: nat, visitorId: Option<string>): (o: Outcome)
    ensures o.response.status in {200, 404}
    ensures o.response.status == 404 <==> forall i :: 0 <= i < |s.books| ==> !Owned(s.books[i], id, visitorId)
    ensures o.response.status == 404 ==> o.store == s && o.response.body == Error(NOT_FOUND)
    ensures o.response.status == 200 ==>
              && o.response.body == Deleted && o.store.nextId == s.nextId
              && Seqs.IsSubsequence(o.store.books, s.books)
              && (forall b :: b in o.store.books <==> b in s.books && b.id != id)
    ensures Valid(s) ==> Valid(o.store)
    ensures Unique(s) ==> Unique(o.store)
  {
    if FirstOwned(s.books, id, visitorId).None? then Outcome(s, Response(404, Error(NOT_FOUND)))
    else
      var kept := Seqs.Filter(s.books, (b: Book) => b.id != id);
      Seqs.FilterIsSubsequence(s.books, (b: Book) => b.id != id);
      SubsequencePreserves(kept, s.books);
      Outcome(Store(kept, s.nextId), Response(200, Deleted))
  }

  /** Validity and uniqueness are about pairs of records, so a subsequence keeps them. */
  lemma {:induction false} SubsequencePreserves(a: seq<Book>, b: seq<Book>)
    requires Seqs.IsSubsequence(a, b)
    ensures forall n :: Valid(Store(b, n)) ==> Valid(Store(a, n))
    ensures Unique(Store(b, 0)) ==> Unique(Store(a, 0))
  {
    var f := SubsequenceIndex(a, b);
    forall n | Valid(Store(b, n)) ensures Valid(Store(a, n)) {
      assert forall i :: 0 <= i < |a| ==> a[i] == b[f[i]];
    }
    assert forall i :: 0 <= i < |a| ==> a[i] == b[f[i]];
  }

  /** The positions in `b` of the elements of its subsequence `a`, strictly increasing. */
  lemma {:induction false} SubsequenceIndex(a: seq<Book>, b: seq<Book>) returns (f: seq<nat>)
    requires Seqs.IsSubsequence(a, b)
    ensures |f| == |a|
    ensures forall i :: 0 <= i < |a| ==> f[i] < |b| && a[i] == b[f[i]]
    ensures forall i, j :: 0 <= i < j < |a| ==> f[i] < f[j]
    decreases |b|
  {
    if |a| == 0 {
      f := [];
    } else if a[0] == b[0] {
      var g := SubsequenceIndex(a[1..], b[1..]);
      f := [0] + seq(|g|, i requires 0 <= i < |g| => g[i] + 1);
    } else {
      var g := SubsequenceIndex(a, b[1..]);
      f := seq(|g|, i requires 0 <= i < |g| => g[i] + 1);
    }
  }

  /** Posting a book the visitor already has, in any capitalisation, is refused and changes
      nothing: after "Dune" by "Frank Herbert" is added, "DUNE" by "frank herbert" gives 409. */
  lemma CreateIgnoresCase(s: Store, visitorId: string, title: string, author: string, genre: string,
                          title2: string, author2: string, genre2: string)
    requires CreateBook(s, visitorId, title, author, genre).response.status == 201
    requires Lower(title2) == Lower(title) && Lower(author2) == Lower(author) && title2 != "" && author2 != ""
    ensures var s2 := CreateBook(s, visitorId, title, author, genre).store;
            CreateBook(s2, visitorId, title2, author2, genre2) == Outcome(s2, Response(409, Error(ALREADY_EXISTS)))
  {
    var s2 := CreateBook(s, visitorId, title, author, genre).store;
    assert SameBook(s2.books[|s.books|], visitorId, title2, author2);
  }

  /** `PUT` does not re-check for duplicates: renaming one of two distinct records to the
      other's title (in another case) breaks uniqueness. */
  lemma UpdateCanBreakUniqueness()
    ensures var s := Store([Book(0, "v", "A", "B", "Fiction", None), Book(1, "v", "C", "B", "Fiction", None)], 2);
            && Valid(s) && Unique(s)
            && UpdateBook(s, 1, Some("v"), Some("a"), None, None).response.status == 200
            && !Unique(UpdateBook(s, 1, Some("v"), Some("a"), None, None).store)
  {
    var s := Store([Book(0, "v", "A", "B", "Fiction", None), Book(1, "v", "C", "B", "Fiction", None)], 2);
    assert Lower("A") == "a" && Lower("C") == "c" && Lower("a") == "a";
    var o := UpdateBook(s, 1, Some("v"), Some("a"), None, None);
    assert o.store.books[1] == Book(1, "v", "a", "B", "Fiction", None);
    assert SameBook(o.store.books[1], "v", "A", "B");
  }

  /** Without a visitor id, `PUT` and `DELETE` find a record by its id alone, whoever owns it. */
  lemma MissingVisitorMatchesAnyOwner(s: Store, id: nat, title: Option<string>, author: Option<string>,
                                      genre: Option<string>)
    requires exists i :: 0 <= i < |s.books| && s.books[i].id == id
    ensures UpdateBook(s, id, None, title, author, genre).response.status == 200
    ensures DeleteBook(s, id, None).response.status == 200
  {
    var i :| 0 <= i < |s.books| && s.books[i].id == id;
    assert Owned(s.books[i], id, None);
  }

  /** In a valid store a successful `DELETE` removes exactly one record. */
  lemma {:induction false} DeleteRemovesOne(s: Store, id: nat, visitorId: Option<string>)
    requires Valid(s)
    requires DeleteBook(s, id, visitorId).response.status == 200
    ensures |DeleteBook(s, id, visitorId).store.books| == |s.books| - 1
  {
    var k := FirstOwned(s.books, id, visitorId).value;
    FilterDropsOneId(s.books, id, k);
  }

  /** Removing the records with id `s[k].id` from a sequence of distinct ids removes one. */
  lemma {:induction false} FilterDropsOneId(books: seq<Book>, id: nat, k: nat)
    requires k < |books| && books[k].id == id
    requires forall i, j :: 0 <= i < j < |books| ==> books[i].id != books[j].id
    ensures |Seqs.Filter(books, (b: Book) => b.id != id)| == |books| - 1
    decreases |books|
  {
    var p := (b: Book) => b.id != id;
    var rest := books[1..];
    assert forall i, j :: 0 <= i < j < |rest| ==> rest[i].id != rest[j].id by {
      forall i, j | 0 <= i < j < |rest| ensures rest[i].id != rest[j].id {
        assert rest[i] == books[i + 1] && rest[j] == books[j + 1];
      }
    }
    if k == 0 {
      assert forall i :: 0 <= i < |rest| ==> rest[i] == books[i + 1] && p(rest[i]);
      assert Seqs.Filter(books, p) == Seqs.Filter(rest, p);
      assert Seqs.Filter(rest, p) == rest;
    } else {
      assert books[0].id != id;
      assert rest[k - 1] == books[k];
      FilterDropsOneId(rest, id, k - 1);
      assert Seqs.Filter(books, p) == [books[0]] + Seqs.Filter(rest, p);
    }
  }
}
