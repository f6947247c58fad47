/** The genre classifier `mapGenre` (server/utils/genreMapping.js): catalog categories are
    joined with a space, lower-cased, and scanned for keywords bucket by bucket. */
module GenreMapping {
  import opened Optional
  import opened Strings

  const FICTION := "Fiction"
  const HISTORY := "History"
  const NON_FICTION := "Non-Fiction"
  const UNCATEGORIZED := "Uncategorized"

  /** The four genres the classifier can produce. */
  const Taxonomy: set<string> := {FICTION, HISTORY, NON_FICTION, UNCATEGORIZED}

  const FictionKeywords: seq<string> := [
    "fiction", "novel", "literature", "fantasy", "science fiction",
    "mystery", "thriller", "romance", "horror", "adventure",
    "young adult", "literary fiction", "contemporary", "classics",
    "drama", "poetry", "graphic novels", "comics", "manga"
  ]

  const HistoryKeywords: seq<string> := [
    "history", "historical", "biography", "autobiography", "memoir",
    "war", "military", "ancient", "medieval", "renaissance",
    "world war", "civil war", "american history", "european history",
    "asian history", "african history", "archaeology", "anthropology"
  ]

  const NonFictionKeywords: seq<string> := [
    "non-fiction", "nonfiction", "science", "technology", "mathematics",
    "philosophy", "psychology", "self-help", "business", "economics",
    "cooking", "travel", "art", "music", "sports", "health",
    "medicine", "nature", "politics", "religion", "education",
    "reference", "computers", "programming", "engineering"
  ]

  /** The four genre names are pairwise different (they differ in their first letter). */
  lemma GenreNamesDistinct()
    ensures FICTION != HISTORY && FICTION != NON_FICTION && FICTION != UNCATEGORIZED
    ensures HISTORY != NON_FICTION && HISTORY != UNCATEGORIZED && NON_FICTION != UNCATEGORIZED
  {
    assert FICTION[0] == 'F' && HISTORY[0] == 'H' && NON_FICTION[0] == 'N' && UNCATEGORIZED[0] == 'U';
  }

  /** Some keyword of the list occurs in `s`. */
  ghost predicate Mentions(s: string, keywords: seq<string>) {
    exists k :: k in keywords && IsSubstring(k, s)
  }

  /** `categories.join(' ').toLowerCase()`: the text keywords are searched in. */
  function CategoryString(categories: seq<string>): string {
    Lower(Join(categories, " "))
  }

  /** The bucket scan of `mapGenre` over the bucket keyword lists in the order
      `Object.entries(genreMappings)` visits them: the first bucket with a keyword occurring in
      `s` wins, and a match in the last bucket or no match at all both give Non-Fiction. */
  function ScanBuckets(s: string, fiction: seq<string>, history: seq<string>, nonFiction: seq<string>): (r: string)
    ensures r == FICTION <==> Mentions(s, fiction)
    ensures r == HISTORY <==> !Mentions(s, fiction) && Mentions(s, history)
    ensures r == NON_FICTION <==> !Mentions(s, fiction) && !Mentions(s, history)
  {
    GenreNamesDistinct();
    if ContainsAny(s, fiction) then FICTION
    else if ContainsAny(s, history) then HISTORY
    else if ContainsAny(s, nonFiction) then NON_FICTION
    else NON_FICTION
  }

  /** `mapGenre(categories)`, with `None` for a null or undefined argument. */
  function MapGenre(categories: Option<seq<string>>): (r: string)
    ensures r == UNCATEGORIZED <==> categories.None? || |categories.value| == 0
    ensures categories.Some? && |categories.value| > 0 ==>
      var s := CategoryString(categories.value);
      && (r == FICTION <==> Mentions(s, FictionKeywords))
      && (r == HISTORY <==> !Mentions(s, FictionKeywords) && Mentions(s, HistoryKeywords))
      && (r == NON_FICTION <==> !Mentions(s, FictionKeywords) && !Mentions(s, HistoryKeywords))
  {
    GenreNamesDistinct();
    if categories.None? || |categories.value| == 0 then UNCATEGORIZED
    else ScanBuckets(CategoryString(categories.value), FictionKeywords, HistoryKeywords, NonFictionKeywords)
  }

  /** The classifier only ever produces one of the four genres. */
  lemma MapGenreInTaxonomy(categories: Option<seq<string>>)
    ensures MapGenre(categories) in Taxonomy
  {
  }

  /** Every category lower-cased. */
  function LowerAll(categories: seq<string>): (r: seq<string>)
    ensures |r| == |categories|
    ensures forall i :: 0 <= i < |r| ==> r[i] == Lower(categories[i])
  {
    seq(|categories|, i requires 0 <= i < |categories| => Lower(categories[i]))
  }

  lemma {:induction false} JoinLowerAll(categories: seq<string>)
    ensures Join(LowerAll(categories), " ") == Lower(Join(categories, " "))
    decreases |categories|
  {
    if |categories| > 1 {
      JoinLowerAll(categories[1..]);
      assert LowerAll(categories)[1..] == LowerAll(categories[1..]);
      LowerAppend(categories[0] + " ", Join(categories[1..], " "));
      LowerAppend(categories[0], " ");
    }
  }

  /** Matching is case-insensitive: lower-casing the categories first changes nothing. */
  lemma MapGenreIgnoresCase(categories: seq<string>)
    ensures MapGenre(Some(LowerAll(categories))) == MapGenre(Some(categories))
  {
    JoinLowerAll(categories);
    LowerIdempotent(Join(categories, " "));
  }

  /** "fiction" occurs inside "non-fiction" and "nonfiction", so any category string naming
      non-fiction is classified Fiction: the first two Non-Fiction keywords can never decide. */
  lemma NonFictionNamedIsFiction(categories: seq<string>)
    requires |categories| > 0
    requires IsSubstring("non-fiction", CategoryString(categories))
          || IsSubstring("nonfiction", CategoryString(categories))
    ensures MapGenre(Some(categories)) == FICTION
  {
    var s := CategoryString(categories);
    assert OccursAt("non-fiction", "fiction", 4);
    assert OccursAt("nonfiction", "fiction", 3);
    if IsSubstring("non-fiction", s) {
      SubstringTransitive("fiction", "non-fiction", s);
    } else {
      SubstringTransitive("fiction", "nonfiction", s);
    }
    assert FictionKeywords[0] == "fiction";
  }

  /** A catalog category "Non-Fiction" is filed under Fiction. */
  lemma NonFictionCategoryIsFiction()
    ensures MapGenre(Some(["Non-Fiction"])) == FICTION
  {
    assert Join(["Non-Fiction"], " ") == "Non-Fiction";
    assert Lower("Non-Fiction") == "non-fiction";
    assert OccursAt("non-fiction", "non-fiction", 0);
    NonFictionNamedIsFiction(["Non-Fiction"]);
  }

  /** The Fiction bucket is scanned first whatever the category order: ["Art", "Fiction"]
      is Fiction although "art" is a Non-Fiction keyword and comes first in the list. */
  lemma ArtThenFictionIsFiction()
    ensures MapGenre(Some(["Art", "Fiction"])) == FICTION
  {
    var s := CategoryString(["Art", "Fiction"]);
    assert Join(["Art", "Fiction"], " ") == "Art Fiction";
    assert s == "art fiction";
    assert OccursAt(s, "fiction", 4);
    assert FictionKeywords[0] == "fiction";
  }

  /** Keywords match across category boundaries: ["Young", "Adult"] joins to "young adult". */
  lemma KeywordAcrossCategories()
    ensures MapGenre(Some(["Young", "Adult"])) == FICTION
  {
    var s := CategoryString(["Young", "Adult"]);
    assert Join(["Young", "Adult"], " ") == "Young Adult";
    assert s == "young adult";
    assert OccursAt(s, "young adult", 0);
    assert IsSubstring("young adult", s);
    assert FictionKeywords[10] == "young adult";
    assert "young adult" in FictionKeywords;
  }
}
