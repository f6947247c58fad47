/** The JavaScript string operations the code relies on: `toLowerCase`, `trim`, `includes`,
    `indexOf`, `split` and `join`, over strings as sequences of characters. */
module Strings {
  import opened Optional

  /** ASCII lower-casing of one character; Unicode case mapping is not modelled. */
  function LowerChar(c: char): char {
    if 'A' <= c <= 'Z' then (c as int - 'A' as int + 'a' as int) as char else c
  }

  /** `s.toLowerCase()`, character by character. */
  function Lower(s: string): (r: string)
    ensures |r| == |s|
    ensures forall i :: 0 <= i < |s| ==> r[i] == LowerChar(s[i])
  {
    seq(|s|, i requires 0 <= i < |s| => LowerChar(s[i]))
  }

  /** Lower-casing an already lower-cased string changes nothing. */
  lemma LowerIdempotent(s: string)
    ensures Lower(Lower(s)) == Lower(s)
  {
  }

  /** Lower-casing distributes over concatenation. */
  lemma LowerAppend(a: string, b: string)
    ensures Lower(a + b) == Lower(a) + Lower(b)
  {
  }

  /** The characters `String.prototype.trim` removes: JavaScript's WhiteSpace and LineTerminator. */
  predicate IsWhitespace(c: char) {
    || c == ' ' || c == '\t' || c == '\n' || c == '\r'
    || c == '\U{000B}' || c == '\U{000C}' || c == '\U{00A0}' || c == '\U{1680}'
    || ('\U{2000}' <= c <= '\U{200A}')
    || c == '\U{2028}' || c == '\U{2029}' || c == '\U{202F}' || c == '\U{205F}'
    || c == '\U{3000}' || c == '\U{FEFF}'
  }

  predicate AllWhitespace(s: string) {
    forall i :: 0 <= i < |s| ==> IsWhitespace(s[i])
  }

  /** End of the run of whitespace in `s` that starts at index `k`. */
  function WhitespaceRunEnd(s: string, k: nat): (e: nat)
    requires k <= |s|
    ensures k <= e <= |s|
    ensures forall j :: k <= j < e ==> IsWhitespace(s[j])
    ensures e < |s| ==> !IsWhitespace(s[e])
    decreases |s| - k
  {
    if k < |s| && IsWhitespace(s[k]) then WhitespaceRunEnd(s, k + 1) else k
  }

  /** Start of the run of whitespace in `s` that ends just before index `k`, not going below
      index `lo`. */
  function WhitespaceRunStart(s: string, lo: nat, k: nat): (b: nat)
    requires lo <= k <= |s|
    ensures lo <= b <= k
    ensures forall j :: b <= j < k ==> IsWhitespace(s[j])
    ensures b > lo ==> !IsWhitespace(s[b - 1])
    decreases k
  {
    if k > lo && IsWhitespace(s[k - 1]) then WhitespaceRunStart(s, lo, k - 1) else k
  }

  /** Number of whitespace characters at the start of `s`. */
  function LeadingWhitespace(s: string): (k: nat)
    ensures k <= |s|
    ensures forall j :: 0 <= j < k ==> IsWhitespace(s[j])
    ensures k < |s| ==> !IsWhitespace(s[k])
  {
    WhitespaceRunEnd(s, 0)
  }

  /** `s.trim()`: the slice of `s` left after removing whitespace at both ends. */
  function Trim(s: string): (r: string)
    ensures |r| <= |s|
    ensures r == [] || (!IsWhitespace(r[0]) && !IsWhitespace(r[|r| - 1]))
  {
    var a := LeadingWhitespace(s);
    s[a..WhitespaceRunStart(s, a, |s|)]
  }

  /** What `trim` removes is whitespace: the result sits in `s` between a run of whitespace
      at the start and a run at the end. */
  lemma TrimIsInfix(s: string)
    ensures exists i :: 0 <= i <= |s| - |Trim(s)| && s[i..i + |Trim(s)|] == Trim(s)
                        && AllWhitespace(s[..i]) && AllWhitespace(s[i + |Trim(s)|..])
  {
    var a := LeadingWhitespace(s);
    var b := WhitespaceRunStart(s, a, |s|);
    assert s[a..a + |Trim(s)|] == Trim(s);
    assert AllWhitespace(s[..a]);
    assert AllWhitespace(s[b..]);
  }

  /** `sub` occurs in `s` starting at index `i`. */
  predicate OccursAt(s: string, sub: string, i: nat) {
    i + |sub| <= |s| && s[i..i + |sub|] == sub
  }

  /** The reference meaning of "`s` includes `sub`". */
  ghost predicate IsSubstring(sub: string, s: string) {
    exists i: nat :: OccursAt(s, sub, i)
  }

  /** The first occurrence of `sub` in `s` at or after `from`. */
  function IndexFrom(s: string, sub: string, from: nat): (r: Option<nat>)
    requires from <= |s|
    ensures r.Some? ==> from <= r.value && OccursAt(s, sub, r.value)
    ensures r.Some? ==> forall k: nat :: from <= k < r.value ==> !OccursAt(s, sub, k)
    ensures r.None? ==> forall k: nat :: from <= k ==> !OccursAt(s, sub, k)
    decreases |s| - from
  {
    if OccursAt(s, sub, from) then Some(from)
    else if from == |s| then None
    else IndexFrom(s, sub, from + 1)
  }

  /** `s.indexOf(sub)`, with `None` for -1. */
  function IndexOf(s: string, sub: string): (r: Option<nat>)
    ensures r.Some? ==> OccursAt(s, sub, r.value) && forall k: nat :: k < r.value ==> !OccursAt(s, sub, k)
    ensures r.None? <==> !IsSubstring(sub, s)
  {
    IndexFrom(s, sub, 0)
  }

  /** `s.includes(sub)`. */
  predicate Contains(s: string, sub: string)
    ensures Contains(s, sub) <==> IsSubstring(sub, s)
  {
    IndexOf(s, sub).Some?
  }

  /** Occurrence is transitive: a substring of a substring is a substring. */
  lemma SubstringTransitive(a: string, b: string, s: string)
    requires IsSubstring(a, b) && IsSubstring(b, s)
    ensures IsSubstring(a, s)
  {
    var i: nat :| OccursAt(b, a, i);
    var j: nat :| OccursAt(s, b, j);
    assert s[j..j + |b|] == b && b[i..i + |a|] == a;
    forall k | 0 <= k < |a| ensures s[j + i + k] == a[k] {
      assert s[j + i + k] == s[j..j + |b|][i + k] == b[i + k] == b[i..i + |a|][k];
    }
    assert s[j + i..j + i + |a|] == a;
    assert OccursAt(s, a, j + i);
  }

  /** Some element of `needles` occurs in `s`, scanning the needles in order. */
  function ContainsAny(s: string, needles: seq<string>): (b: bool)
    ensures b <==> exists k :: k in needles && IsSubstring(k, s)
    decreases |needles|
  {
    if |needles| == 0 then false
    else Contains(s, needles[0]) || ContainsAny(s, needles[1..])
  }

  /** `parts.join(sep)`. */
  function Join(parts: seq<string>, sep: string): string
    decreases |parts|
  {
    if |parts| == 0 then ""
    else if |parts| == 1 then parts[0]
    else parts[0] + sep + Join(parts[1..], sep)
  }

  /** `s.split(sep)` for a non-empty separator: the pieces between occurrences of `sep`.
      Joining the pieces with `sep` gives back `s`, and no piece contains `sep`. */
  function SplitOn(s: string, sep: string): (r: seq<string>)
    requires |sep| > 0
    ensures |r| >= 1
    ensures Join(r, sep) == s
    ensures forall i :: 0 <= i < |r| ==> !IsSubstring(sep, r[i])
    ensures |r| >= 2 <==> IsSubstring(sep, s)
    decreases |s|
  {
    match IndexOf(s, sep)
    case None => [s]
    case Some(k) =>
      var head := s[..k];
      var rest := SplitOn(s[k + |sep|..], sep);
      assert s == head + sep + s[k + |sep|..] by {
        assert s[k..k + |sep|] == sep;
        assert s == s[..k] + s[k..k + |sep|] + s[k + |sep|..];
      }
      assert !IsSubstring(sep, head) by {
        forall j: nat | OccursAt(head, sep, j) ensures false {
          assert s[j..j + |sep|] == head[j..j + |sep|];
          assert OccursAt(s, sep, j);
        }
      }
      assert ([head] + rest)[1..] == rest;
      [head] + rest
  }

  /** Index of the first occurrence of the character `c` in `s`. */
  function FirstIndexOfChar(s: string, c: char): (r: Option<nat>)
    ensures r.Some? ==> r.value < |s| && s[r.value] == c
    ensures r.Some? ==> forall k :: 0 <= k < r.value ==> s[k] != c
    ensures r.None? ==> forall k :: 0 <= k < |s| ==> s[k] != c
    decreases |s|
  {
    if |s| == 0 then None
    else if s[0] == c then Some(0)
    else match FirstIndexOfChar(s[1..], c)
      case None => None
      case Some(k) => Some(k + 1)
  }

  /** Index of the last occurrence of the character `c` in `s`. */
  function LastIndexOfChar(s: string, c: char): (r: Option<nat>)
    ensures r.Some? ==> r.value < |s| && s[r.value] == c
    ensures r.Some? ==> forall k :: r.value < k < |s| ==> s[k] != c
    ensures r.None? ==> forall k :: 0 <= k < |s| ==> s[k] != c
    decreases |s|
  {
    if |s| == 0 then None
    else if s[|s| - 1] == c then Some(|s| - 1)
    else LastIndexOfChar(s[..|s| - 1], c)
  }

  /** A position holding `c` with no `c` after it is the last index of `c`. */
  lemma LastIndexOfCharAt(s: string, c: char, k: nat)
    requires k < |s| && s[k] == c
    requires forall j :: k < j < |s| ==> s[j] != c
    ensures LastIndexOfChar(s, c) == Some(k)
  {
  }

  /** A string without whitespace at either end is its own trim. */
  lemma TrimUnpadded(s: string)
    requires s == [] || (!IsWhitespace(s[0]) && !IsWhitespace(s[|s| - 1]))
    ensures Trim(s) == s
  {
    assert LeadingWhitespace(s) == 0;
    assert s[0..|s|] == s;
  }

  /** A string cannot contain `sub` if it lacks one of the characters of `sub`. */
  lemma MissingCharacter(sub: string, s: string, j: nat)
    requires j < |sub| && sub[j] !in s
    ensures !IsSubstring(sub, s)
  {
    forall i: nat ensures !OccursAt(s, sub, i) {
      if i + |sub| <= |s| {
        assert s[i..i + |sub|][j] == s[i + j];
        assert s[i + j] in s;
      }
    }
  }

  /** Splitting at the first occurrence of the separator. */
  lemma SplitAtFirst(s: string, sep: string, k: nat)
    requires |sep| > 0 && OccursAt(s, sep, k)
    requires forall j: nat :: j < k ==> !OccursAt(s, sep, j)
    ensures SplitOn(s, sep) == [s[..k]] + SplitOn(s[k + |sep|..], sep)
  {
    assert IndexOf(s, sep) == Some(k);
  }

  /** A string without the separator splits into itself alone. */
  lemma SplitWithoutSeparator(s: string, sep: string)
    requires |sep| > 0 && !IsSubstring(sep, s)
    ensures SplitOn(s, sep) == [s]
  {
  }
}
