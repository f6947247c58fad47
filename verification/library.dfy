/** The book list of client/src/pages/Library.jsx: the statistics shown above it, and how the
    list follows a successful edit or deletion. */
module Library {
  import opened Optional
  import Seqs
  import GenreMapping
  import BookStore

  /** `getStats()`: the number of books and the number in each of the four genres. */
  datatype Stats = Stats(total: nat, fiction: nat, history: nat, nonFiction: nat, uncategorized: nat)

  /** The number of books with exactly this genre. */
  function CountGenre(books: seq<BookStore.Book>, genre: string): (n: nat)
    ensures n <= |books|
    ensures n == 0 <==> forall i :: 0 <= i < |books| ==> books[i].genre != genre
    decreases |books|
  {
    if |books| == 0 then 0
    else
      assert forall i :: 1 <= i < |books| ==> books[i] == books[1..][i - 1];
      (if books[0].genre == genre then 1 else 0) + CountGenre(books[1..], genre)
  }

  /** The count is the length of `books.filter(b => b.genre === genre)`, as the page computes it. */
  lemma {:induction false} CountGenreIsFilterLength(books: seq<BookStore.Book>, genre: string)
    ensures CountGenre(books, genre) == |Seqs.Filter(books, (b: BookStore.Book) => b.genre == genre)|
    decreases |books|
  {
    if |books| > 0 {
      CountGenreIsFilterLength(books[1..], genre);
    }
  }

  /** The number of books whose genre is not in `genres`. */
  function CountOutside(books: seq<BookStore.Book>, genres: set<string>): (n: nat)
    ensures n <= |books|
    ensures n == 0 <==> forall i :: 0 <= i < |books| ==> books[i].genre in genres
    decreases |books|
  {
    if |books| == 0 then 0
    else
      assert forall i :: 1 <= i < |books| ==> books[i] == books[1..][i - 1];
      (if books[0].genre !in genres then 1 else 0) + CountOutside(books[1..], genres)
  }

  /** The number of books whose genre is outside the taxonomy. */
  function CountOther(books: seq<BookStore.Book>): nat {
    CountOutside(books, GenreMapping.Taxonomy)
  }

  /** `getStats()`: four per-genre counts that, with the books outside the taxonomy, add up to
      the total. */
  function GetStats(books: seq<BookStore.Book>): (r: Stats)
    ensures r.total == |books|
    ensures r.fiction == CountGenre(books, GenreMapping.FICTION)
    ensures r.history == CountGenre(books, GenreMapping.HISTORY)
    ensures r.nonFiction == CountGenre(books, GenreMapping.NON_FICTION)
    ensures r.uncategorized == CountGenre(books, GenreMapping.UNCATEGORIZED)
    ensures r.fiction + r.history + r.nonFiction + r.uncategorized + CountOther(books) == r.total
    ensures r.fiction + r.history + r.nonFiction + r.uncategorized <= r.total
    ensures (forall i :: 0 <= i < |books| ==> books[i].genre in GenreMapping.Taxonomy) ==>
              r.fiction + r.history + r.nonFiction + r.uncategorized == r.total
  {
    CountsPartition(books);
    Stats(|books|,
          CountGenre(books, GenreMapping.FICTION),
          CountGenre(books, GenreMapping.HISTORY),
          CountGenre(books, GenreMapping.NON_FICTION),
          CountGenre(books, GenreMapping.UNCATEGORIZED))
  }

  /** Every book is counted once: in its genre's count or, outside the taxonomy, in none. */
  lemma CountsPartition(books: seq<BookStore.Book>)
    ensures CountGenre(books, GenreMapping.FICTION) + CountGenre(books, GenreMapping.HISTORY)
            + CountGenre(books, GenreMapping.NON_FICTION) + CountGenre(books, GenreMapping.UNCATEGORIZED)
            + CountOther(books) == |books|
  {
    GenreMapping.GenreNamesDistinct();
    CountsOfFour(books, GenreMapping.FICTION, GenreMapping.HISTORY, GenreMapping.NON_FICTION,
                 GenreMapping.UNCATEGORIZED);
  }

  /** For four distinct genres, the four counts and the count of the rest add up to the length. */
  lemma {:induction false} CountsOfFour(books: seq<BookStore.Book>, g1: string, g2: string, g3: string, g4: string)
    requires g1 != g2 && g1 != g3 && g1 != g4 && g2 != g3 && g2 != g4 && g3 != g4
    ensures CountGenre(books, g1) + CountGenre(books, g2) + CountGenre(books, g3) + CountGenre(books, g4)
            + CountOutside(books, {g1, g2, g3, g4}) == |books|
    decreases |books|
  {
    if |books| > 0 {
      var rest := books[1..];
      var gs := {g1, g2, g3, g4};
      CountsOfFour(rest, g1, g2, g3, g4);
      OneGenre(books[0].genre, g1, g2, g3, g4);
    }
  }

  /** A genre equals at most one of four distinct genres, and exactly one unless it lies outside them. */
  lemma OneGenre(g: string, g1: string, g2: string, g3: string, g4: string)
    requires g1 != g2 && g1 != g3 && g1 != g4 && g2 != g3 && g2 != g4 && g3 != g4
    ensures (if g == g1 then 1 else 0) + (if g == g2 then 1 else 0) + (if g == g3 then 1 else 0)
            + (if g == g4 then 1 else 0) + (if g !in {g1, g2, g3, g4} then 1 else 0) == 1
  {
  }

  /** `handleBookUpdate`'s list transform: every entry with the id is replaced by the record
      the server returned. */
  function ApplyUpdate(books: seq<BookStore.Book>, id: nat, updated: BookStore.Book): (r: seq<BookStore.Book>)
    ensures |r| == |books|
    ensures forall i :: 0 <= i < |books| && books[i].id != id ==> r[i] == books[i]
    ensures forall i :: 0 <= i < |books| && books[i].id == id ==> r[i] == updated
  {
    seq(|books|, i requires 0 <= i < |books| => if books[i].id == id then updated else books[i])
  }

  /** `handleBookDelete`'s list transform: the entries with the id go, the rest keep their order. */
  function ApplyDelete(books: seq<BookStore.Book>, id: nat): (r: seq<BookStore.Book>)
    ensures Seqs.IsSubsequence(r, books)
    ensures forall b :: b in r <==> b in books && b.id != id
  {
    Seqs.FilterIsSubsequence(books, (b: BookStore.Book) => b.id != id);
    Seqs.Filter(books, (b: BookStore.Book) => b.id != id)
  }

  /** After a successful `PUT`, updating the old list with the returned record gives exactly
      the server's new list. */
  lemma UpdateMirrorsServer(s: BookStore.Store, id: nat, visitorId: Option<string>,
                            title: Option<string>, author: Option<string>, genre: Option<string>)
    requires BookStore.Valid(s)
    requires BookStore.UpdateBook(s, id, visitorId, title, author, genre).response.status == 200
    ensures var o := BookStore.UpdateBook(s, id, visitorId, title, author, genre);
            ApplyUpdate(s.books, id, o.response.body.book) == o.store.books
  {
    var o := BookStore.UpdateBook(s, id, visitorId, title, author, genre);
    var k := BookStore.FirstOwned(s.books, id, visitorId).value;
    assert o.response.body.book == o.store.books[k];
    forall i | 0 <= i < |s.books| && s.books[i].id == id
      ensures o.store.books[i] == o.response.body.book
    {
      assert s.books[i].id == s.books[k].id;
    }
  }

  /** After a successful `DELETE`, deleting the id from the old list gives exactly the
      server's new list. */
  lemma DeleteMirrorsServer(s: BookStore.Store, id: nat, visitorId: Option<string>)
    requires BookStore.DeleteBook(s, id, visitorId).response.status == 200
    ensures ApplyDelete(s.books, id) == BookStore.DeleteBook(s, id, visitorId).store.books
  {
  }

  /** Deleting removes the id from the list, and deleting it again changes nothing. */
  lemma {:induction false} DeleteIdempotent(books: seq<BookStore.Book>, id: nat)
    ensures forall b :: b in ApplyDelete(books, id) ==> b.id != id
    ensures ApplyDelete(ApplyDelete(books, id), id) == ApplyDelete(books, id)
  {
    Seqs.FilterIdempotent(books, (b: BookStore.Book) => b.id != id);
  }
}
