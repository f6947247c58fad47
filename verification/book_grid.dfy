/** The search box and genre menu of client/src/components/BookGrid.jsx: the books shown are
    those whose title or author contains the search term, ignoring case, and whose genre is
    the selected one (or any genre, for "all"). */
module BookGrid {
  import opened Strings
  import Seqs
  import BookStore

  /** The genre menu's "show every genre" value. */
  const ALL := "all"

  predicate MatchesSearch(b: BookStore.Book, term: string) {
    Contains(Lower(b.title), Lower(term)) || Contains(Lower(b.author), Lower(term))
  }

  predicate MatchesGenre(b: BookStore.Book, genre: string) {
    genre == ALL || b.genre == genre
  }

  predicate Shown(b: BookStore.Book, term: string, genre: string) {
    MatchesSearch(b, term) && MatchesGenre(b, genre)
  }

  /** `filteredBooks`: the books that match both the term and the genre, in their order. */
  function FilterBooks(books: seq<BookStore.Book>, term: string, genre: string): (r: seq<BookStore.Book>)
    ensures Seqs.IsSubsequence(r, books)
    ensures forall b :: b in r <==>
              && b in books
              && (IsSubstring(Lower(term), Lower(b.title)) || IsSubstring(Lower(term), Lower(b.author)))
              && (genre == ALL || b.genre == genre)
  {
    Seqs.FilterIsSubsequence(books, b => Shown(b, term, genre));
    Seqs.Filter(books, b => Shown(b, term, genre))
  }

  /** With an empty search term and "all" selected every book is shown. */
  lemma EmptySearchShowsAll(books: seq<BookStore.Book>)
    ensures FilterBooks(books, "", ALL) == books
  {
    forall i | 0 <= i < |books| ensures Shown(books[i], "", ALL) {
      assert OccursAt(Lower(books[i].title), Lower(""), 0);
    }
  }

  /** Filtering the shown books again with the same term and genre changes nothing. */
  lemma FilterIdempotent(books: seq<BookStore.Book>, term: string, genre: string)
    ensures FilterBooks(FilterBooks(books, term, genre), term, genre) == FilterBooks(books, term, genre)
  {
    Seqs.FilterIdempotent(books, b => Shown(b, term, genre));
  }

  /** Selecting a genre narrows the "all" list: the result is the "all" list filtered further,
      hence a subsequence of it, and every book in it has the selected genre. */
  lemma GenreNarrowsAll(books: seq<BookStore.Book>, term: string, genre: string)
    ensures FilterBooks(books, term, genre) == FilterBooks(FilterBooks(books, term, ALL), term, genre)
    ensures Seqs.IsSubsequence(FilterBooks(books, term, genre), FilterBooks(books, term, ALL))
    ensures genre != ALL ==> forall b :: b in FilterBooks(books, term, genre) ==> b.genre == genre
  {
    Seqs.FilterStrengthen(books, b => Shown(b, term, ALL), b => Shown(b, term, genre));
    Seqs.FilterIsSubsequence(FilterBooks(books, term, ALL), b => Shown(b, term, genre));
  }

  /** The search ignores case on both sides. */
  lemma SearchIgnoresCase(books: seq<BookStore.Book>, term: string, genre: string)
    ensures FilterBooks(books, Lower(term), genre) == FilterBooks(books, term, genre)
  {
    LowerIdempotent(term);
    Seqs.FilterCongruent(books, b => Shown(b, Lower(term), genre), b => Shown(b, term, genre));
  }
}
