/** `searchGoogleBooks` (server/services/googleBooks.js): OCR text is cut into candidate
    (title, author) pairs, at most ten candidates are looked up in the catalog one after the
    other, usable hits are normalised, and a placeholder record is returned when nothing hit. */
module GoogleBooks {
  import opened Optional
  import opened Strings
  import Seqs

  /** A provisional book read off the text: `author` is "" when none was found. */
  datatype Candidate = Candidate(title: string, author: string)

  /** A book as the pipeline hands it on: catalog data, or the placeholder. */
  datatype BookData = BookData(title: string, author: string, categories: seq<string>, isbn: Option<string>)

  /** The `volumeInfo` of a catalog item. `title` is "" when missing or empty (both falsy);
      `identifiers` lists the `identifier` of each `industryIdentifiers` entry. */
  datatype VolumeInfo = VolumeInfo(title: string, authors: Option<seq<string>>,
                                   categories: Option<seq<string>>, identifiers: seq<string>)

  /** What one catalog request yields: a thrown error (network, timeout, a response without
      `volumeInfo`), a response without items, or the first item's volume information. */
  datatype Lookup = LookupFailed | NoItems | FirstItem(info: VolumeInfo)

  /** The catalog requests issued, in order, and the books returned. */
  datatype Search = Search(queries: seq<string>, books: seq<BookData>)

  const MAX_QUERIES: nat := 10
  const UNKNOWN_TITLE := "Unknown Title"
  const UNKNOWN_AUTHOR := "Unknown Author"

  /** A line is kept when it is more than three characters long once trimmed. */
  predicate Kept(line: string) {
    |Trim(line)| > 3
  }

  /** `text.split('\n').filter(line => line.trim().length > 3)`; lines keep their padding. */
  function KeptLines(text: string): (lines: seq<string>)
    ensures forall i :: 0 <= i < |lines| ==> Kept(lines[i]) && !IsSubstring("\n", lines[i])
    ensures Seqs.IsSubsequence(lines, SplitOn(text, "\n"))
    ensures forall p :: p in SplitOn(text, "\n") && Kept(p) ==> p in lines
    ensures forall p :: multiset(lines)[p] == if Kept(p) then multiset(SplitOn(text, "\n"))[p] else 0
  {
    var pieces := SplitOn(text, "\n");
    Seqs.FilterIsSubsequence(pieces, Kept);
    Seqs.FilterMultiplicity(pieces, Kept);
    var lines := Seqs.Filter(pieces, Kept);
    assert forall i :: 0 <= i < |lines| ==> lines[i] in pieces;
    lines
  }

  /** The line after `i` is taken as line `i`'s author: it exists and is 4 to 49 characters
      long once trimmed. */
  predicate PairsWithNext(lines: seq<string>, i: nat) {
    i + 1 < |lines| && 3 < |Trim(lines[i + 1])| < 50
  }

  /** The candidate the kept line `i` yields, if any: none for a line outside 6–99 characters;
      otherwise (line, next line) when the next line pairs with it, else the " by " split when
      the line contains " by ", else (line, ""). */
  function CandidateAt(lines: seq<string>, i: nat): (r: Option<Candidate>)
    requires i < |lines|
    ensures r.Some? ==> 5 < |Trim(lines[i])| < 100
    ensures r.Some? ==> 0 < |r.value.title| < 100 && Trim(r.value.title) == r.value.title
    ensures r.Some? ==> Trim(r.value.author) == r.value.author
    ensures !(5 < |Trim(lines[i])| < 100) ==> r == None
    ensures 5 < |Trim(lines[i])| < 100 && PairsWithNext(lines, i) ==>
              r == Some(Candidate(Trim(lines[i]), Trim(lines[i + 1])))
    ensures 5 < |Trim(lines[i])| < 100 && !PairsWithNext(lines, i) && IsSubstring(" by ", Trim(lines[i])) ==>
              r == SplitAtBy(Trim(lines[i]))
    ensures 5 < |Trim(lines[i])| < 100 && !PairsWithNext(lines, i) && !IsSubstring(" by ", Trim(lines[i])) ==>
              r == Some(Candidate(Trim(lines[i]), ""))
  {
    var line := Trim(lines[i]);
    if !(5 < |line| < 100) then None
    else
      TrimOfTrimmed(lines[i]);
      if PairsWithNext(lines, i) then
        TrimOfTrimmed(lines[i + 1]);
        Some(Candidate(line, Trim(lines[i + 1])))
      else if Contains(line, " by ") then SplitAtBy(line)
      else Some(Candidate(line, ""))
  }

  /** `line.split(' by ')`: the first two pieces, trimmed, when both are non-empty. */
  function SplitAtBy(line: string): (r: Option<Candidate>)
    requires IsSubstring(" by ", line)
    ensures r.Some? ==> 0 < |r.value.title| <= |line| && 0 < |r.value.author|
    ensures r.Some? ==> Trim(r.value.title) == r.value.title && Trim(r.value.author) == r.value.author
    ensures var parts := SplitOn(line, " by ");
            && |parts| >= 2
            && (r.Some? <==> Trim(parts[0]) != "" && Trim(parts[1]) != "")
            && (r.Some? ==> r.value == Candidate(Trim(parts[0]), Trim(parts[1])))
  {
    var parts := SplitOn(line, " by ");
    var title := Trim(parts[0]);
    var author := Trim(parts[1]);
    TrimOfTrimmed(parts[0]);
    TrimOfTrimmed(parts[1]);
    JoinedPieceBound(parts, " by ", 0);
    if title != "" && author != "" then Some(Candidate(title, author)) else None
  }

  /** A piece of a split is no longer than the whole. */
  lemma {:induction false} JoinedPieceBound(parts: seq<string>, sep: string, i: nat)
    requires i < |parts|
    ensures |parts[i]| <= |Join(parts, sep)|
    decreases |parts|
  {
    if i > 0 {
      JoinedPieceBound(parts[1..], sep, i - 1);
    }
  }

  /** Trimming a trimmed string changes nothing. */
  lemma TrimOfTrimmed(s: string)
    ensures Trim(Trim(s)) == Trim(s)
  {
    var t := Trim(s);
    if t != [] {
      TrimUnpadded(t);
    }
  }

  /** What each kept line from `i` on yields, in line order. */
  function Yields(lines: seq<string>, i: nat): (r: seq<Option<Candidate>>)
    requires i <= |lines|
    ensures |r| == |lines| - i && forall k :: 0 <= k < |r| ==> r[k] == CandidateAt(lines, i + k)
  {
    seq(|lines| - i, k requires 0 <= k < |lines| - i => CandidateAt(lines, i + k))
  }

  /** The candidates of the `Some` entries, in order. */
  function Present(ys: seq<Option<Candidate>>): (r: seq<Candidate>)
    ensures |r| <= |ys|
  {
    if |ys| == 0 then []
    else if ys[0].Some? then [ys[0].value] + Present(ys[1..]) else Present(ys[1..])
  }

  /** The candidates of the kept lines from index `i` on: exactly the candidates of the lines
      that yield one, in line order. The loop steps one line at a time, so a line used as an
      author is examined again as a title. */
  function ParseFrom(lines: seq<string>, i: nat): (r: seq<Candidate>)
    requires i <= |lines|
    ensures |r| <= |lines| - i
    ensures r == Present(Yields(lines, i))
    decreases |lines| - i
  {
    if i == |lines| then []
    else
      var rest := ParseFrom(lines, i + 1);
      assert Yields(lines, i)[1..] == Yields(lines, i + 1);
      match CandidateAt(lines, i)
      case Some(c) => [c] + rest
      case None => rest
  }

  /** The candidates of a list of outcomes are exactly its `Some` values. */
  lemma {:induction false} PresentMembers(ys: seq<Option<Candidate>>)
    ensures forall c :: c in Present(ys) <==> Some(c) in ys
    decreases |ys|
  {
    if |ys| > 0 {
      PresentMembers(ys[1..]);
      assert forall y :: y in ys <==> y == ys[0] || y in ys[1..];
    }
  }

  /** A candidate is parsed exactly when some kept line at or after `i` yields it. */
  lemma CandidatesComeFromLines(lines: seq<string>, i: nat)
    requires i <= |lines|
    ensures forall c :: c in ParseFrom(lines, i) <==> exists k :: i <= k < |lines| && CandidateAt(lines, k) == Some(c)
  {
    var ys := Yields(lines, i);
    PresentMembers(ys);
    forall c | Some(c) in ys ensures exists k :: i <= k < |lines| && CandidateAt(lines, k) == Some(c) {
      var j :| 0 <= j < |ys| && ys[j] == Some(c);
      assert CandidateAt(lines, i + j) == Some(c);
    }
    forall c, k | i <= k < |lines| && CandidateAt(lines, k) == Some(c) ensures Some(c) in ys {
      assert ys[k - i] == Some(c);
    }
  }

  /** The candidate list `potentialBooks` built from the OCR text. */
  function ParseCandidates(text: string): seq<Candidate> {
    ParseFrom(KeptLines(text), 0)
  }

  /** The catalog query for one candidate. */
  function Query(c: Candidate): string {
    if c.author != "" then "intitle:" + c.title + " inauthor:" + c.author else "intitle:" + c.title
  }

  /** A catalog answer is usable when its first item has a title and an `authors` field
      (an empty `authors` array is truthy and passes). */
  predicate Usable(l: Lookup) {
    l.FirstItem? && l.info.title != "" && l.info.authors.Some?
  }

  /** The normalised record of a usable answer. */
  function Normalise(info: VolumeInfo): (b: BookData)
    requires info.authors.Some?
  {
    BookData(info.title, Join(info.authors.value, ", "), info.categories.GetOr([]),
             if |info.identifiers| > 0 then Some(info.identifiers[0]) else None)
  }

  /** The normalised answers to `queries`, in query order; failed, empty and unusable answers
      add nothing. */
  function Hits(queries: seq<string>, lookup: string -> Lookup): (r: seq<BookData>)
    ensures |r| <= |queries|
    ensures |r| == |Seqs.Filter(queries, q => Usable(lookup(q)))|
    ensures forall b :: b in r ==> exists q :: q in queries && Usable(lookup(q)) && b == Normalise(lookup(q).info)
    ensures var used := Seqs.Filter(queries, q => Usable(lookup(q)));
            forall j :: 0 <= j < |r| ==> Usable(lookup(used[j])) && r[j] == Normalise(lookup(used[j]).info)
    decreases |queries|
  {
    if |queries| == 0 then []
    else
      var rest := Hits(queries[1..], lookup);
      assert forall q :: q in queries[1..] ==> q in queries;
      var l := lookup(queries[0]);
      var usable := q => Usable(lookup(q));
      assert Seqs.Filter(queries, usable)
             == if usable(queries[0]) then [queries[0]] + Seqs.Filter(queries[1..], usable)
                else Seqs.Filter(queries[1..], usable);
      HitsStep(queries[0], lookup, rest, Seqs.Filter(queries[1..], usable), Seqs.Filter(queries, usable));
      if Usable(l) then [Normalise(l.info)] + rest else rest
  }

  /** One step of the lookup loop keeps the hits aligned with the usable queries. */
  lemma HitsStep(q: string, lookup: string -> Lookup, rest: seq<BookData>, usedRest: seq<string>, used: seq<string>)
    requires used == if Usable(lookup(q)) then [q] + usedRest else usedRest
    requires |rest| == |usedRest|
    requires forall j :: 0 <= j < |rest| ==> Usable(lookup(usedRest[j])) && rest[j] == Normalise(lookup(usedRest[j]).info)
    ensures var r := if Usable(lookup(q)) then [Normalise(lookup(q).info)] + rest else rest;
            |r| == |used| && forall j :: 0 <= j < |r| ==> Usable(lookup(used[j])) && r[j] == Normalise(lookup(used[j]).info)
  {
  }

  /** The placeholder returned when no lookup hit: the first candidate, or "Unknown" fields. */
  function Placeholder(candidates: seq<Candidate>): BookData {
    BookData(if |candidates| > 0 && candidates[0].title != "" then candidates[0].title else UNKNOWN_TITLE,
             if |candidates| > 0 && candidates[0].author != "" then candidates[0].author else UNKNOWN_AUTHOR,
             [], None)
  }

  /** The lookup loop and the result of `searchGoogleBooks` over its candidate list: the first
      `MAX_QUERIES` candidates are looked up in order, and the placeholder stands in when no
      answer was usable. */
  function Enrich(candidates: seq<Candidate>, lookup: string -> Lookup): (r: Search)
    ensures |r.queries| == (if |candidates| < MAX_QUERIES then |candidates| else MAX_QUERIES)
    ensures forall i :: 0 <= i < |r.queries| ==> r.queries[i] == Query(candidates[i])
    ensures 1 <= |r.books| <= MAX_QUERIES
    ensures Hits(r.queries, lookup) == [] ==> r.books == [Placeholder(candidates)]
    ensures Hits(r.queries, lookup) != [] ==>
      forall b :: b in r.books ==> exists q :: q in r.queries && Usable(lookup(q)) && b == Normalise(lookup(q).info)
    ensures Hits(r.queries, lookup) != [] ==> r.books == Hits(r.queries, lookup)
  {
    var count := if |candidates| < MAX_QUERIES then |candidates| else MAX_QUERIES;
    var queries := seq(count, i requires 0 <= i < count => Query(candidates[i]));
    var hits := Hits(queries, lookup);
    Search(queries, if |hits| > 0 then hits else [Placeholder(candidates)])
  }

  /** `searchGoogleBooks(text)` against the catalog `lookup`: never an empty list. */
  function SearchBooks(text: string, lookup: string -> Lookup): (r: Search)
    ensures 1 <= |r.books| <= MAX_QUERIES
  {
    Enrich(ParseCandidates(text), lookup)
  }

  /** When no catalog answer is usable (every request failed, found nothing, or lacked a title
      or authors), the result is exactly the placeholder built from the first candidate. */
  lemma NoUsableAnswerGivesPlaceholder(text: string, lookup: string -> Lookup)
    requires forall q :: !Usable(lookup(q))
    ensures SearchBooks(text, lookup).books == [Placeholder(ParseCandidates(text))]
  {
    var r := SearchBooks(text, lookup);
    assert Seqs.Filter(r.queries, q => Usable(lookup(q))) == [];
  }

  /** Each line from `i` on, except the last, paired with the line after it. */
  function ShortPairs(lines: seq<string>, i: nat): (r: seq<Candidate>)
    requires i < |lines|
    ensures |r| == |lines| - 1 - i
  {
    seq(|lines| - 1 - i, k requires 0 <= k < |lines| - 1 - i => Candidate(Trim(lines[i + k]), Trim(lines[i + k + 1])))
  }

  /** What the last line yields on its own, as a list of at most one candidate. */
  function LastAlone(lines: seq<string>): (r: seq<Candidate>)
    requires |lines| > 0
    ensures |r| <= 1
  {
    match CandidateAt(lines, |lines| - 1)
    case Some(c) => [c]
    case None => []
  }

  /** A list of outcomes whose entries but the last are all `Some` keeps those entries, then
      the last one's candidate if it has one. */
  lemma {:induction false} PresentOfPairs(ys: seq<Option<Candidate>>, pairs: seq<Candidate>)
    requires |ys| == |pairs| + 1
    requires forall k :: 0 <= k < |pairs| ==> ys[k] == Some(pairs[k])
    ensures Present(ys) == pairs + (match ys[|pairs|] case Some(c) => [c] case None => [])
    decreases |pairs|
  {
    if |pairs| > 0 {
      PresentOfPairs(ys[1..], pairs[1..]);
      assert [pairs[0]] + pairs[1..] == pairs;
    }
  }

  /** The last outcome from any starting line is what the last line yields. */
  lemma YieldsLast(lines: seq<string>, i: nat)
    requires i < |lines|
    ensures Yields(lines, i)[|lines| - 1 - i] == CandidateAt(lines, |lines| - 1)
  {
    assert i + (|lines| - 1 - i) == |lines| - 1;
  }

  /** When every kept line is between 6 and 49 characters once trimmed, each line but the
      last yields the pair it starts. */
  lemma ShortLinesPair(lines: seq<string>, i: nat)
    requires i < |lines|
    requires forall j :: 0 <= j < |lines| ==> 5 < |Trim(lines[j])| < 50
    ensures forall k :: 0 <= k < |lines| - 1 - i ==> Yields(lines, i)[k] == Some(ShortPairs(lines, i)[k])
  {
    forall k | 0 <= k < |lines| - 1 - i
      ensures Yields(lines, i)[k] == Some(ShortPairs(lines, i)[k])
    {
      assert PairsWithNext(lines, i + k);
    }
  }

  /** When every kept line is between 6 and 49 characters once trimmed, each line is paired
      with the next as (title, author) and then examined again as a title itself: every line
      but the last yields the pair it starts, and the last yields at most one candidate. */
  lemma ParseShortLines(lines: seq<string>, i: nat)
    requires i < |lines|
    requires forall j :: 0 <= j < |lines| ==> 5 < |Trim(lines[j])| < 50
    ensures ParseFrom(lines, i) == ShortPairs(lines, i) + LastAlone(lines)
  {
    ShortLinesPair(lines, i);
    PresentOfPairs(Yields(lines, i), ShortPairs(lines, i));
    YieldsLast(lines, i);
  }

  /** A last line without " by " becomes a candidate with an empty author. */
  lemma LastLineStandsAlone(lines: seq<string>)
    requires |lines| > 0 && 5 < |Trim(lines[|lines| - 1])| < 100
    requires !IsSubstring(" by ", Trim(lines[|lines| - 1]))
    ensures CandidateAt(lines, |lines| - 1) == Some(Candidate(Trim(lines[|lines| - 1]), ""))
  {
  }

  lemma DuneTrimmed()
    ensures Trim("Dune") == "Dune"
  {
    assert "Dune"[0] == 'D' && "Dune"[3] == 'e';
    TrimUnpadded("Dune");
  }

  lemma FrankHerbertTrimmed()
    ensures Trim("Frank Herbert") == "Frank Herbert"
    ensures !IsSubstring(" by ", "Frank Herbert") && !IsSubstring("\n", "Frank Herbert")
  {
    assert "Frank Herbert"[0] == 'F' && "Frank Herbert"[12] == 't';
    TrimUnpadded("Frank Herbert");
    assert 'y' !in "Frank Herbert";
    MissingCharacter(" by ", "Frank Herbert", 2);
    assert '\n' !in "Frank Herbert";
    MissingCharacter("\n", "Frank Herbert", 0);
  }

  lemma DuneNewline()
    ensures OccursAt("Dune\nFrank Herbert", "\n", 4)
    ensures forall j: nat :: j < 4 ==> !OccursAt("Dune\nFrank Herbert", "\n", j)
    ensures "Dune\nFrank Herbert"[..4] == "Dune"
    ensures "Dune\nFrank Herbert"[5..] == "Frank Herbert"
  {
    var text := "Dune\nFrank Herbert";
    forall j: nat | j < 4 ensures !OccursAt(text, "\n", j) {
      assert text[j] != '\n';
    }
  }

  lemma DuneSplit()
    ensures SplitOn("Dune\nFrank Herbert", "\n") == ["Dune", "Frank Herbert"]
  {
    DuneNewline();
    SplitAtFirst("Dune\nFrank Herbert", "\n", 4);
    FrankHerbertTrimmed();
    SplitWithoutSeparator("Frank Herbert", "\n");
  }

  /** The lines of "Dune\nFrank Herbert" are both kept. */
  lemma DuneLines()
    ensures KeptLines("Dune\nFrank Herbert") == ["Dune", "Frank Herbert"]
  {
    DuneSplit();
    DuneTrimmed();
    FrankHerbertTrimmed();
  }

  /** Of the lines "Dune" and "Frank Herbert", only the second yields a candidate. */
  lemma DuneCandidates()
    ensures ParseFrom(["Dune", "Frank Herbert"], 0) == [Candidate("Frank Herbert", "")]
  {
    var lines := ["Dune", "Frank Herbert"];
    DuneTrimmed();
    FrankHerbertTrimmed();
    assert CandidateAt(lines, 0) == None;
    assert CandidateAt(lines, 1) == Some(Candidate("Frank Herbert", ""));
  }

  /** "Dune" is too short to be a title (it needs more than five characters), so the text
      "Dune\nFrank Herbert" yields the single candidate ("Frank Herbert", ""). */
  lemma DuneIsNotATitle()
    ensures ParseCandidates("Dune\nFrank Herbert") == [Candidate("Frank Herbert", "")]
  {
    DuneLines();
    DuneCandidates();
  }
}
