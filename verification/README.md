# Bookshelf: a Dafny model of the book pipeline

The bookshelf application keeps one library of books per anonymous visitor. A visitor can add
books in three ways:

- by typing them in;
- by photographing a shelf: a vision service, or OCR followed by a catalog search, reads the
  spines;
- by editing or deleting records later.

This project models the decision logic of that pipeline as pure Dafny functions over immutable
data, and proves properties of it. The logic modelled is:

- the genre classifier;
- the OCR-text parser and the catalog lookup loop;
- the vision reply handling;
- the server's create, update, delete and upload handlers over an in-memory store;
- the client's filter, statistics and manual-entry list logic.

Everything outside that logic becomes a parameter of the model: the catalog, the vision
service, `JSON.parse`, OCR and the database.

Modules, one per source file or component:

| module | file | models |
|---|---|---|
| `GenreMapping` | genre_mapping.dfy | `mapGenre` and its keyword buckets |
| `GoogleBooks` | google_books.dfy | `searchGoogleBooks`: candidate parsing, query cap, hit normalisation, placeholder |
| `ClaudeVision` | claude_vision.dfy | `extractBooksFromImage`: media type, bracketed-span extraction, error mapping |
| `BookStore` | book_store.dfy | records, `POST /`, `PUT /:id`, `DELETE /:id`, the uniqueness invariant |
| `Upload` | upload.dfy | multer's file filter and limit, `POST /upload` and its per-file loop |
| `BookGrid` | book_grid.dfy | the search and genre filter |
| `Library` | library.dfy | `getStats` and the update and delete list transforms |
| `ManualEntry` | manual_entry.dfy | row editing and `handleSubmit` |
| `Strings`, `Seqs`, `Paths`, `Optional` | strings.dfy, seqs.dfy, paths.dfy, optional.dfy | JavaScript string operations, sequence filtering, Node's `path.extname`, `Option`/`Result` |

How the oracles are represented:

- **Catalog:** a function from query string to `Lookup`. `LookupFailed` stands for any thrown
  error: network, timeout, or an item without `volumeInfo`.
- **Vision service:** a function from `Request` (path and media type) to a reply text or a
  failure message. Reading the file is part of the call.
- **OCR:** a function from path to `Option<string>`. `None` means `processImage` threw.
- **Store:** a sequence of records in insertion order, plus a counter that stands in for uuid
  generation.

Some behaviour of the code differs from what its tests or its intent suggest. The model follows
the code and proves the consequences:

- **Fiction is scanned first.** test/genreMapping.test.js:40 expects `['Art','Fiction']` to be
  Non-Fiction, but the code gives Fiction (`GenreMapping.ArtThenFictionIsFiction`).
- **"fiction" occurs inside "non-fiction" and "nonfiction".** So a catalog category
  "Non-Fiction" is filed as Fiction (`GenreMapping.NonFictionCategoryIsFiction`).
- **The parser checks only length.** It does no word or capital-letter test. A title needs more
  than five trimmed characters, so "Dune\nFrank Herbert" yields the single candidate
  ("Frank Herbert", "") (`GoogleBooks.DuneIsNotATitle`).
- **Pairing comes before " by ".** A line of 6–99 characters followed by a kept line shorter than
  50 characters is always paired with that line. The " by " split applies only when no such line
  follows. So the first two lines of the "by format" test in test/bookParsing.test.js are paired
  rather than split (`GoogleBooks.ParseShortLines`).
- **Never empty, so the fallbacks are dead.** The catalog search always returns at least one
  book. Hence the else branch at server/routes/books.js:133-138 and the throw at
  server/routes/books.js:160-162 can never run (`Upload.VisionEntriesAreSearchResults`,
  `Upload.NoBooksErrorUnreachable`).
- **Missing visitor id on PUT and DELETE.** When the visitor id is absent, Prisma drops it from
  the filter, so the record is found by id alone (`BookStore.MissingVisitorMatchesAnyOwner`).
- **PUT does no duplicate check.** It can break the one-record-per-book invariant that POST and
  upload keep (`BookStore.UpdateCanBreakUniqueness`).

## Model

| member | source | states |
|---|---|---|
| GenreMapping.MapGenre | server/utils/genreMapping.js:23-39 | The result is Uncategorized exactly when the list is null, undefined or empty. Otherwise it is Fiction iff a Fiction keyword occurs in the lower-cased space-joined categories; History iff no Fiction keyword does and a History keyword does; Non-Fiction in every other case, matched or not |
| GenreMapping.ScanBuckets | server/utils/genreMapping.js:30-38 | The first bucket, in the order Fiction, History, Non-Fiction, with a keyword occurring in the text decides. No match falls back to Non-Fiction |
| GenreMapping.MapGenreInTaxonomy | server/utils/genreMapping.js:23-39 | Whatever the categories, the result is one of the four genres Fiction, History, Non-Fiction and Uncategorized |
| GenreMapping.MapGenreIgnoresCase | server/utils/genreMapping.js:28 | Lower-casing every category first gives the same genre, so matching ignores case |
| GenreMapping.NonFictionNamedIsFiction | server/utils/genreMapping.js:1-36 | Any category text containing "non-fiction" or "nonfiction" is Fiction, because "fiction" is scanned first and occurs inside both |
| GenreMapping.NonFictionCategoryIsFiction | server/utils/genreMapping.js:28-36 | The single category "Non-Fiction" maps to Fiction |
| GenreMapping.ArtThenFictionIsFiction | server/utils/genreMapping.js:30-36 | ["Art", "Fiction"] maps to Fiction: bucket order, not category order, decides |
| GenreMapping.KeywordAcrossCategories | server/utils/genreMapping.js:28 | ["Young", "Adult"] maps to Fiction: categories are joined with a space, so "young adult" matches across them |
| GoogleBooks.KeptLines | server/services/googleBooks.js:5 | The kept lines are the newline-split pieces with more than three trimmed characters, in their order: an order-preserving subsequence of the pieces in which each such piece occurs exactly as often as among the pieces, and no other piece occurs |
| GoogleBooks.CandidateAt | server/services/googleBooks.js:9-22 | A line outside 6–99 trimmed characters yields nothing. Otherwise the line yields (line, next line) when a next line of 4–49 trimmed characters exists; failing that, the " by " split when the line contains " by "; otherwise (line, ""). Titles and authors are trimmed, titles non-empty |
| GoogleBooks.SplitAtBy | server/services/googleBooks.js:15-19 | The line splits into at least two pieces at " by ". The result is the first two pieces trimmed, and there is none exactly when either trimmed piece is empty |
| GoogleBooks.ParseFrom | server/services/googleBooks.js:8-24 | The loop's list is exactly the candidates of the kept lines that yield one, in line order, at most one per line |
| GoogleBooks.CandidatesComeFromLines | server/services/googleBooks.js:8-24 | A candidate is in the list exactly when some kept line at or after the start yields it |
| GoogleBooks.ParseShortLines | server/services/googleBooks.js:8-14 | With every line 6–49 characters long, the list is each line but the last paired with the next as (title, author), followed by what the last line yields alone: every line is examined again as a title after serving as an author |
| GoogleBooks.ShortLinesPair | server/services/googleBooks.js:9-14 | With every line 6–49 characters long, each line but the last yields the pair it starts with the following line |
| GoogleBooks.LastLineStandsAlone | server/services/googleBooks.js:11-21 | A last line of 6–99 characters without " by " becomes a candidate with an empty author |
| GoogleBooks.DuneIsNotATitle | server/services/googleBooks.js:5-21 | The text "Dune\nFrank Herbert" yields only ("Frank Herbert", ""): "Dune" is too short to be a title |
| GoogleBooks.DuneCandidates | server/services/googleBooks.js:8-21 | Of the lines "Dune" and "Frank Herbert" only the second yields a candidate, with no author |
| GoogleBooks.Hits | server/services/googleBooks.js:29-52 | Hit j is the normalised record of the j-th query whose answer is usable (a first item with a title and an authors field), in query order, and there are as many hits as such queries. Failed and empty answers add nothing |
| GoogleBooks.Enrich | server/services/googleBooks.js:26-61 | Exactly min(#candidates, 10) queries are issued, query i being the one for candidate i: "intitle:T inauthor:A", or "intitle:T" without author. The result has 1 to 10 books. It is the single placeholder when nothing hit, and otherwise exactly the hits of those queries |
| GoogleBooks.SearchBooks | server/services/googleBooks.js:3-62 | The search never returns an empty list and never more than ten books |
| GoogleBooks.NoUsableAnswerGivesPlaceholder | server/services/googleBooks.js:57-61 | When no catalog answer is usable the result is exactly the placeholder built from the first candidate: its title or "Unknown Title", its author or "Unknown Author", no categories |
| ClaudeVision.Extension | server/services/claudeVision.js:15 | The extension compared is the lower-cased `path.extname` without its leading dot, and empty when there is no extension |
| ClaudeVision.MediaTypeOf | server/services/claudeVision.js:17-22 | The media type is image/png exactly for "png", image/gif exactly for "gif", image/webp exactly for "webp", image/heic exactly for "heic" and "heif", and image/jpeg for every other extension |
| ClaudeVision.MediaTypeOfFileName | server/services/claudeVision.js:15-22 | For a file stored as dir/stem.ext, the extension compared is the lower-cased ext. So "Cover.PNG" and "cover.png" get the same media type |
| ClaudeVision.ArraySpan | server/services/claudeVision.js:64 | The matched span runs from the first '[' to the last ']', and there is one exactly when some '[' precedes some ']' |
| ClaudeVision.SpanIgnoresSurroundingText | server/services/claudeVision.js:63-66 | Text before the array without '[' and after it without ']' is ignored: the span is exactly the array |
| ClaudeVision.ReplyWithArrayGivesItsBooks | server/services/claudeVision.js:60-69 | A reply holding one bracketed array, with no '[' before it and no ']' after it, gives exactly the books that array parses to |
| ClaudeVision.ErrorFor | server/services/claudeVision.js:79-83 | A failure whose message contains "api_key" becomes the key-not-configured message; any other becomes "Failed to analyze image with Claude: " followed by the message |
| ClaudeVision.ErrorMessagesDistinct | server/services/claudeVision.js:79-83 | The key message is produced exactly when the failure mentions "api_key", and otherwise the original message can be read back after the prefix |
| ClaudeVision.ExtractBooks | server/services/claudeVision.js:9-85 | The service is called once, with the path's media type. The result is an error exactly when the call failed, mapped as above. Otherwise the books are the parse of the span from the first '[' to the last ']'; the list is empty when there is no such span or the span does not parse |
| BookStore.FindDuplicate | server/routes/books.js:70-76 | Finds nothing exactly when no record has the visitor and the title and author up to case, and otherwise returns such a record |
| BookStore.Insert | server/routes/books.js:82-89 | Inserting appends exactly one record, with the next id and the given fields, and advances the counter. In a valid store the new id differs from every existing one; uniqueness is kept when the visitor lacked the book, and every book any visitor had is still there |
| BookStore.CreateBook | server/routes/books.js:62-96 | 400 exactly when the visitor, title or author is missing. 409 exactly when they are all present and the visitor has the book up to case. In both cases the store is unchanged. Otherwise 201 with one record appended, with the given fields and genre defaulting to Uncategorized. Valid ids and uniqueness are preserved |
| BookStore.Patch | server/routes/books.js:226-229 | An update sets the title, author and genre that were sent and keeps every other field |
| BookStore.FirstOwned | server/routes/books.js:218-220 | The lookup finds a record exactly when one has the id and, if a visitor was sent, that visitor |
| BookStore.UpdateBook | server/routes/books.js:213-236 | 404 with the store unchanged exactly when no record matches. Otherwise only the records with the id change, and only in title, author and genre; the returned record is the updated one. Valid ids are preserved |
| BookStore.DeleteBook | server/routes/books.js:238-257 | 404 with the store unchanged exactly when no record matches. Otherwise the records with the id are removed and the others keep their order. Valid ids and uniqueness are preserved |
| BookStore.CreateIgnoresCase | server/routes/books.js:70-80 | After a book is created, posting it again in any capitalisation gives 409 and changes nothing |
| BookStore.UpdateCanBreakUniqueness | server/routes/books.js:218-229 | A valid store with distinct books becomes non-unique when PUT renames one book to another's title in a different case |
| BookStore.MissingVisitorMatchesAnyOwner | server/routes/books.js:218-249 | Without a visitor id, PUT and DELETE succeed for any existing id, whoever owns the record |
| BookStore.DeleteRemovesOne | server/routes/books.js:243-251 | In a store with distinct ids a successful DELETE removes exactly one record |
| Upload.FileFilter | server/routes/books.js:29-39 | A file is accepted exactly when its lower-cased extension contains jpeg, jpg, png, gif, webp, heic or heif, or its mime type contains "image/" followed by one of them |
| Upload.ExactMimeTestsRedundant | server/routes/books.js:32-34 | The exact comparisons with image/heic and image/heif accept nothing the pattern test does not |
| Upload.Receive | server/routes/books.js:98 | multer accepts the files exactly when there are at most ten and the filter accepts each. Otherwise the refusal is "Unexpected field" or "Only image files are allowed" |
| Upload.VisionBooks | server/routes/books.js:121-144 | Without a configured key, or when the vision call fails, the vision path gives nothing. Otherwise entry i is the first book of the catalog search for "title author" of the i-th listed book |
| Upload.BookDataFor | server/routes/books.js:118-162 | Vision results, when there are any, are used as they are. Otherwise the file fails with the OCR failure exactly when OCR throws, fails as unreadable exactly when the OCR text has fewer than ten trimmed characters, and else gets the books of the catalog search on that text. A success has at least one book |
| Upload.AddBook | server/routes/books.js:165-185 | A book is inserted exactly when the visitor does not have it up to case, with the next id, its title and author, the genre `mapGenre` gives its categories, and the image URL. Afterwards the visitor has it, and validity and uniqueness are preserved |
| Upload.AddBooks | server/routes/books.js:164-189 | The added records are, in data order, one per book the visitor has neither in the store nor among the file's earlier books, up to case; so of two case variants only the first is inserted. Record k has id counter+k, the visitor, that book's title, author and mapped genre, and the image URL. Every book is in the store afterwards. Validity and uniqueness are preserved |
| Upload.ProcessFile | server/routes/books.js:115-196 | A file records an error exactly when its data cannot be obtained: one error with its original name and the failure message, and the store is unchanged. A file whose data is obtained records no error and adds exactly what inserting its books one by one adds, with image URL "/uploads/" + stored name |
| Upload.ProcessFiles | server/routes/books.js:114-197 | There are at most as many errors as files, each naming one of them with one of the two file-level messages. Records are only appended. Validity and uniqueness are preserved |
| Upload.ErrorsAreFileErrors | server/routes/books.js:114-197 | The error list has exactly one entry per file whose data cannot be obtained, in file order, each with that file's original name and its failure message; succeeding files add none |
| Upload.OneFile | server/routes/books.js:114-197 | The loop over a single file gives exactly that file's processing: the same store, records and errors |
| Upload.SucceedingFilesAreAdded | server/routes/books.js:114-189 | Every book of every file whose data was obtained is in the visitor's library after the loop, whatever the files before and after it did |
| Upload.ProcessFilesKeepsBooks | server/routes/books.js:114-197 | The loop never takes a book away: a book a visitor had before, the visitor still has after |
| Upload.UploadPhotos | server/routes/books.js:98-211 | multer's refusals (500) come first, then 400 "Visitor ID required" for a missing visitor and 400 "No files uploaded" for no files; a refused request changes nothing. Otherwise there are 1 to 10 files, all counted as processed; the store, the added records and the errors are exactly those of the file loop, the errors being one per failing file in file order, and the added records are exactly the store's new ones |
| Upload.VisionEntriesAreSearchResults | server/routes/books.js:126-139 | Every vision book yields one entry, and the catalog search for it is never empty, so the branch keeping the vision data is dead |
| Upload.VisionFirst | server/routes/books.js:146-148 | When the vision path produced books, OCR is not consulted: any OCR gives the same result |
| Upload.NoBooksErrorUnreachable | server/routes/books.js:160-162 | The "No books could be identified" error is never produced |
| Upload.FilesProcessedIndependently | server/routes/books.js:114-197 | Processing files a then b equals processing a, then b on the resulting store. A failing file neither stops later files nor undoes earlier records |
| Upload.FailingFileIsIsolated | server/routes/books.js:190-196 | A file whose data cannot be obtained adds exactly one error with its original name and nothing else |
| BookGrid.FilterBooks | client/src/components/BookGrid.jsx:10-15 | The shown books are an order-preserving subsequence. A book is shown iff its lower-cased title or author contains the lower-cased term, and the genre is "all" or the book's |
| BookGrid.EmptySearchShowsAll | client/src/components/BookGrid.jsx:11-13 | An empty term with "all" shows every book |
| BookGrid.FilterIdempotent | client/src/components/BookGrid.jsx:10-15 | Filtering the shown books again with the same term and genre changes nothing |
| BookGrid.GenreNarrowsAll | client/src/components/BookGrid.jsx:13 | A selected genre filters the "all" result further, so it is a subsequence of it, and every shown book has that genre |
| BookGrid.SearchIgnoresCase | client/src/components/BookGrid.jsx:11-12 | Lower-casing the search term first changes nothing |
| Library.CountGenre | client/src/pages/Library.jsx:68-71 | A genre count is at most the number of books, and zero exactly when no book has that genre |
| Library.CountGenreIsFilterLength | client/src/pages/Library.jsx:68-71 | The count equals the length of the list filtered by exact genre equality |
| Library.GetStats | client/src/pages/Library.jsx:65-74 | The total is the number of books and each of the four counts is the number of books with exactly that genre. The counts plus the books outside the taxonomy make up the total, so the counts sum to exactly the total when every genre is in the taxonomy |
| Library.CountsPartition | client/src/pages/Library.jsx:66-72 | Every book is counted once: under its genre, or among the others |
| Library.ApplyUpdate | client/src/pages/Library.jsx:44 | Same length. Entries with the id become the returned record and all others are unchanged |
| Library.ApplyDelete | client/src/pages/Library.jsx:57 | The result is an order-preserving subsequence holding exactly the entries without the id |
| Library.UpdateMirrorsServer | client/src/pages/Library.jsx:38-44 | After a successful PUT on a valid store, applying the returned record to the old list gives exactly the server's new list |
| Library.DeleteMirrorsServer | client/src/pages/Library.jsx:52-57 | After a successful DELETE, removing the id from the old list gives exactly the server's new list |
| Library.DeleteIdempotent | client/src/pages/Library.jsx:57 | After a delete no entry has the id, and deleting again changes nothing |
| ManualEntry.AddBookField | client/src/components/ManualEntryModal.jsx:13-15 | One empty row (no title or author, Uncategorized) is appended and the existing rows are unchanged |
| ManualEntry.RemoveBookField | client/src/components/ManualEntryModal.jsx:17-19 | For an index in range exactly that row goes and the rest keep their order; otherwise nothing changes |
| ManualEntry.UpdateBook | client/src/components/ManualEntryModal.jsx:21-25 | Only the given field of the given row changes, to the value. An index out of range changes nothing, because the assignment throws |
| ManualEntry.PostRows | client/src/components/ManualEntryModal.jsx:40-54 | Every posted row is counted once: added (201), failed, or a duplicate (409, counted in neither total). The failed rows are exactly those posted without a visitor, title or author. The added rows are exactly, in order, the rows with all three whose book the visitor has neither in the store nor among the earlier accepted rows, up to case; the store gains one record per added row, in that order, with consecutive ids and genre defaulting to Uncategorized. Validity and uniqueness are preserved |
| ManualEntry.HandleSubmit | client/src/components/ManualEntryModal.jsx:27-64 | Nothing is sent exactly when no row has both title and author. Otherwise exactly the complete rows are posted, in order: the store and the three counts are those of posting them, the added count is the number of them holding a book new to the visitor, added plus failed is at most their number, and `onSuccess` is called iff at least one was added |
| ManualEntry.AddThenRemove | client/src/components/ManualEntryModal.jsx:13-19 | Adding a row and removing the last gives the rows back |
| ManualEntry.CaseVariantRowsAddedOnce | client/src/components/ManualEntryModal.jsx:40-54 | Two rows for a new book in different capitalisation add one record, count one duplicate, and call `onSuccess` |
| ManualEntry.NoVisitorFailsEveryRow | client/src/components/ManualEntryModal.jsx:40-63 | Without a visitor id every complete row is refused and counted as failed; the store is unchanged and `onSuccess` is not called |
| ManualEntry.CompleteRowsAreHeld | client/src/components/ManualEntryModal.jsx:40-54 | With a visitor id, every complete row's book is in the visitor's library after posting, whether it was added or refused as a duplicate |
| ManualEntry.PostRowsKeepsBooks | client/src/components/ManualEntryModal.jsx:40-54 | Posting rows never takes a book away from a visitor |

## Left out

- OCR itself (server/services/ocr.js: sharp resizing, grey-scaling, Tesseract) is an oracle from the stored path to the recognised text, or to `None` when it throws. ocr.js always rethrows as "Failed to process image".
- The Anthropic SDK call, the model name, the token limit, the prompt and the base64 encoding of the image are left out. The call is an oracle from the request (path and media type) to a reply text or a failure message, and a failure to read the file counts as a failed call.
- `JSON.parse` of the extracted span is an oracle returning the listed books or nothing.
- The catalog request is an oracle keyed by the query string. Left out with it: URL building (`encodeURIComponent`, the API key parameter), the 5000 ms timeout and the 200 ms delay between requests. Only the number, order and text of the queries are modelled.
- Prisma is an in-memory sequence of records. Left out: ids as uuids (a counter stands in), `createdAt`, and `GET /` with its ordering by creation time. Database errors, which give 500 in the handlers and a per-file error in the upload loop, are also left out.
- multer's disk storage and the generated file names are left out; each file's stored name and path are given. A refusal by multer is the status and message the default error handler sends, not its HTML page.
- Concurrent requests are left out: the handlers are modelled one request at a time, and the code has no atomic find-or-create.
- Unicode case mapping is left out: `toLowerCase` and Prisma's case-insensitive comparison are both ASCII lower-casing.
- Rendering, toasts, the `submitting` flag and the confirmation dialog are left out. So are the UI-only components (StatsCard, BookCard, EditBookModal, PhotoUploadModal, Landing, App), server bootstrap and the visitor id's storage.
- Upload.UploadPhotos: the reply's message string "Processed N image(s), added M book(s)" is represented by the number of images and the list of added books. An empty error list stands for the `errors` field being omitted.
- Upload.VisionBooks: a listed book is assumed to carry string title and author. An entry missing either would be searched for as "undefined".
- ClaudeVision.ErrorFor: the failure's message is assumed to be a string. An error without a message would give "…: undefined".
- GoogleBooks.CandidateAt (likewise GoogleBooks.KeptLines and Upload.BookDataFor): lengths are counted in characters, while JavaScript's `length` counts UTF-16 code units. For text with characters outside the Basic Multilingual Plane, the thresholds (more than 3, more than 5, fewer than 100, fewer than 50, at least 10 trimmed characters) therefore fall at a different point than in the code.
- GoogleBooks.Hits: a missing or empty catalog title is the empty string, and non-string JSON values in a catalog answer are not modelled.
- BookStore.CreateBook: request fields are strings, with the empty string standing for a missing or falsy value.
- BookStore.UpdateBook: a field sent explicitly as null is not modelled; each field is either given or absent.
- ManualEntry.PostRows: each post goes straight to `BookStore.CreateBook`. Network failures and 500 responses, which the page would also count as failed, are not modelled.
- ManualEntry.UpdateBook: the copy is shallow, so the row object of the previous state is modified in place too. Rows are values in the model, so this sharing cannot be seen there.
