/** `extractBooksFromImage` (server/services/claudeVision.js): the image's media type is chosen
    from its file extension, the vision service is asked for a JSON array of books, the array is
    cut out of the reply text, and service failures are turned into one of two error messages. */
module ClaudeVision {
  import opened Optional
  import opened Strings
  import Paths

  /** One book as the vision service lists it. */
  datatype BookInfo = BookInfo(title: string, author: string)

  /** The request sent for one image: its path (standing for the image bytes) and media type. */
  datatype Request = Request(path: string, mediaType: string)

  /** The outcome of reading the image and calling the service: the text of the first content
      block, or the message of the error thrown on the way. */
  datatype Reply = Replied(text: string) | CallFailed(message: string)

  const JPEG := "image/jpeg"
  const PNG := "image/png"
  const GIF := "image/gif"
  const WEBP := "image/webp"
  const HEIC := "image/heic"

  // The messages are written as first word + rest, which lets proofs see their first letters.
  const API_KEY_ERROR := "Claude" + " API key not configured. Please add CLAUDE_API_KEY to environment variables."
  const FAILURE_PREFIX := "Failed" + " to analyze image with Claude: "

  /** `s.replace(c, '')` for a one-character pattern: only the first occurrence goes. */
  function RemoveFirst(s: string, c: char): (r: string)
    ensures c !in s ==> r == s
    ensures c in s ==> |r| == |s| - 1 && multiset(r) + multiset{c} == multiset(s)
  {
    match FirstIndexOfChar(s, c)
    case None => s
    case Some(k) =>
      assert s == s[..k] + [s[k]] + s[k + 1..];
      s[..k] + s[k + 1..]
  }

  /** The extension as the service code sees it: lower-cased, without its dot. */
  function Extension(path: string): (ext: string)
    ensures '.' !in Paths.ExtName(path) ==> ext == []
    ensures |ext| == if Paths.ExtName(path) == [] then 0 else |Paths.ExtName(path)| - 1
    ensures Paths.ExtName(path) != [] ==> ext == Lower(Paths.ExtName(path))[1..]
  {
    var e := Lower(Paths.ExtName(path));
    assert e != [] ==> e[0] == '.';
    RemoveFirst(e, '.')
  }

  /** The media type declared for an extension; anything unrecognised is sent as JPEG. */
  function MediaTypeOf(ext: string): (m: string)
    ensures m in {JPEG, PNG, GIF, WEBP, HEIC}
    ensures m == PNG <==> ext == "png"
    ensures m == GIF <==> ext == "gif"
    ensures m == WEBP <==> ext == "webp"
    ensures m == HEIC <==> ext == "heic" || ext == "heif"
    ensures m == JPEG <==> ext !in {"png", "gif", "webp", "heic", "heif"}
  {
    if ext == "png" then PNG
    else if ext == "gif" then GIF
    else if ext == "webp" then WEBP
    else if ext == "heic" || ext == "heif" then HEIC
    else JPEG
  }

  function MediaType(path: string): string {
    MediaTypeOf(Extension(path))
  }

  /** The span `[i, j]` the pattern `/\[[\s\S]*\]/` matches: from the first '[' to the last ']'
      after it. There is a match exactly when some '[' precedes some ']'. */
  function ArraySpan(text: string): (r: Option<(nat, nat)>)
    ensures r.Some? ==> r.value.0 < r.value.1 < |text|
                        && text[r.value.0] == '[' && text[r.value.1] == ']'
    ensures r.Some? ==> (forall k :: 0 <= k < r.value.0 ==> text[k] != '[')
                        && (forall k :: r.value.1 < k < |text| ==> text[k] != ']')
    ensures r.None? <==> forall i, j :: 0 <= i < j < |text| && text[i] == '[' ==> text[j] != ']'
  {
    match FirstIndexOfChar(text, '[')
    case None => None
    case Some(i) =>
      match LastIndexOfChar(text, ']')
      case None => None
      case Some(j) => if i < j then Some((i, j)) else None
  }

  /** The error thrown for a failed call: a dedicated message when the failure names the API
      key, the failure's own message behind a fixed prefix otherwise. */
  function ErrorFor(message: string): (e: string)
    ensures Contains(message, "api_key") ==> e == API_KEY_ERROR
    ensures !Contains(message, "api_key") ==> e == FAILURE_PREFIX + message
  {
    if Contains(message, "api_key") then API_KEY_ERROR else FAILURE_PREFIX + message
  }

  /** `extractBooksFromImage(path)`: the service is called once with the path's media type; a
      failed call is an error, and a reply without a parseable bracketed span gives no books. */
  function ExtractBooks(path: string, vision: Request -> Reply,
                        parseJson: string -> Option<seq<BookInfo>>): (r: Result<seq<BookInfo>, string>)
    ensures var reply := vision(Request(path, MediaType(path)));
            && (r.Failure? <==> reply.CallFailed?)
            && (r.Failure? ==> r.error == ErrorFor(reply.message))
            && (reply.Replied? && ArraySpan(reply.text).None? ==> r == Success([]))
            && (reply.Replied? && ArraySpan(reply.text).Some? ==>
                  var (i, j) := ArraySpan(reply.text).value;
                  && (parseJson(reply.text[i..j + 1]).Some? ==> r == Success(parseJson(reply.text[i..j + 1]).value))
                  && (parseJson(reply.text[i..j + 1]).None? ==> r == Success([])))
            && (r.Success? && r.value != [] ==>
                  exists i, j :: 0 <= i < j < |reply.text| && reply.text[i] == '[' && reply.text[j] == ']'
                                 && parseJson(reply.text[i..j + 1]) == Some(r.value))
  {
    match vision(Request(path, MediaType(path)))
    case CallFailed(message) => Failure(ErrorFor(message))
    case Replied(text) =>
      match ArraySpan(text)
      case None => Success([])
      case Some(span) => Success(parseJson(text[span.0..span.1 + 1]).GetOr([]))
  }

  /** The two error messages cannot be confused: the key message is produced exactly when the
      failure mentions "api_key", and otherwise the failure's message can be read back. */
  lemma ErrorMessagesDistinct(message: string)
    ensures ErrorFor(message) == API_KEY_ERROR <==> Contains(message, "api_key")
    ensures !Contains(message, "api_key") ==> ErrorFor(message)[|FAILURE_PREFIX|..] == message
  {
    assert API_KEY_ERROR[0] == 'C';
    assert (FAILURE_PREFIX + message)[0] == 'F';
  }

  /** A reply is searched for the widest bracketed span: text around the array is ignored, and
      the array itself reaches to the last ']'. */
  lemma SpanIgnoresSurroundingText(before: string, json: string, after: string)
    requires '[' !in before && ']' !in after
    requires |json| >= 2 && json[0] == '[' && json[|json| - 1] == ']'
    ensures ArraySpan(before + json + after) == Some((|before|, |before| + |json| - 1))
    ensures var t := before + json + after; t[|before|..|before| + |json|] == json
  {
    var t := before + json + after;
    assert t[|before|] == '[';
    assert t[|before| + |json| - 1] == ']';
    assert forall k :: 0 <= k < |before| ==> t[k] == before[k];
    assert forall k :: |before| + |json| <= k < |t| ==> t[k] == after[k - |before| - |json|];
  }

  /** A reply that is a JSON array wrapped in prose without brackets yields exactly the
      parsed array. */
  lemma ReplyWithArrayGivesItsBooks(path: string, vision: Request -> Reply,
                                    parseJson: string -> Option<seq<BookInfo>>,
                                    before: string, json: string, after: string, books: seq<BookInfo>)
    requires vision(Request(path, MediaType(path))) == Replied(before + json + after)
    requires '[' !in before && ']' !in after
    requires |json| >= 2 && json[0] == '[' && json[|json| - 1] == ']'
    requires parseJson(json) == Some(books)
    ensures ExtractBooks(path, vision, parseJson) == Success(books)
  {
    SpanIgnoresSurroundingText(before, json, after);
  }

  /** The extension test ignores case: "Cover.PNG" and "cover.png" are sent alike. */
  lemma MediaTypeOfFileName(dir: string, stem: string, ext: string)
    requires dir == [] || dir[|dir| - 1] == '/'
    requires |stem| > 0 && '/' !in stem
    requires |ext| > 0 && '.' !in ext && '/' !in ext
    ensures Extension(dir + (stem + "." + ext)) == Lower(ext)
    ensures MediaType(dir + (stem + "." + ext)) == MediaTypeOf(Lower(ext))
  {
    Paths.ExtNameOfFileName(dir, stem, ext);
    DotDropped(ext);
  }

  /** Lower-casing `"." + ext` and removing the first '.' leaves the lower-cased `ext`. */
  lemma DotDropped(ext: string)
    ensures RemoveFirst(Lower("." + ext), '.') == Lower(ext)
  {
    var e := Lower("." + ext);
    LowerAppend(".", ext);
    assert e == "." + Lower(ext);
    assert FirstIndexOfChar(e, '.') == Some(0);
  }
}
