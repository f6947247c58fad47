/** The rows of client/src/components/ManualEntryModal.jsx and its submit loop, which posts
    every complete row to `POST /` one after the other and counts the outcomes. */
module ManualEntry {
  import Strings
  import opened Optional
  import Seqs
  import GenreMapping
  import BookStore

  /** One row of the form. */
  datatype Row = Row(title: string, author: string, genre: string)

  datatype Field = Title | Author | Genre

  /** The row the form starts with and `addBookField` appends. */
  const EMPTY_ROW := Row("", "", GenreMapping.UNCATEGORIZED)

  /** `addBookField`: one empty row more at the end. */
  function AddBookField(rows: seq<Row>): (r: seq<Row>)
    ensures |r| == |rows| + 1 && r[..|rows|] == rows && r[|rows|] == EMPTY_ROW
  {
    rows + [EMPTY_ROW]
  }

  /** `rows.filter((_, i) => i !== index)` over the rows from position `offset` on. */
  function WithoutIndex(rows: seq<Row>, index: int, offset: int): (r: seq<Row>)
    ensures 0 <= index - offset < |rows| ==> r == rows[..index - offset] + rows[index - offset + 1..]
    ensures !(0 <= index - offset < |rows|) ==> r == rows
    decreases |rows|
  {
    if |rows| == 0 then []
    else
      var rest := WithoutIndex(rows[1..], index, offset + 1);
      if offset == index then rest
      else
        SliceAfterHead(rows, index - offset);
        [rows[0]] + rest
  }

  /** Removing position `k > 0` commutes with putting the head back in front. */
  lemma SliceAfterHead(rows: seq<Row>, k: int)
    requires |rows| > 0
    ensures 0 < k < |rows| ==>
              rows[..k] + rows[k + 1..] == [rows[0]] + (rows[1..][..k - 1] + rows[1..][k..])
    ensures rows == [rows[0]] + rows[1..]
  {
    if 0 < k < |rows| {
      assert rows[..k] == [rows[0]] + rows[1..][..k - 1];
      assert rows[k + 1..] == rows[1..][k..];
    }
  }

  /** `removeBookField(index)`: exactly the row at `index` goes; an index outside the rows
      changes nothing. */
  function RemoveBookField(rows: seq<Row>, index: int): (r: seq<Row>)
    ensures 0 <= index < |rows| ==> |r| == |rows| - 1 && r == rows[..index] + rows[index + 1..]
    ensures !(0 <= index < |rows|) ==> r == rows
  {
    WithoutIndex(rows, index, 0)
  }

  function FieldOf(row: Row, field: Field): string {
    match field
    case Title => row.title
    case Author => row.author
    case Genre => row.genre
  }

  function SetField(row: Row, field: Field, value: string): (r: Row)
    ensures FieldOf(r, field) == value
    ensures forall g :: g != field ==> FieldOf(r, g) == FieldOf(row, g)
  {
    match field
    case Title => row.(title := value)
    case Author => row.(author := value)
    case Genre => row.(genre := value)
  }

  /** `updateBook(index, field, value)`: one field of one row changes. Outside the rows the
      assignment to `updated[index][field]` throws, and the rows stay as they were. */
  function UpdateBook(rows: seq<Row>, index: int, field: Field, value: string): (r: seq<Row>)
    ensures |r| == |rows|
    ensures forall i :: 0 <= i < |rows| && i != index ==> r[i] == rows[i]
    ensures 0 <= index < |rows| ==>
              FieldOf(r[index], field) == value
              && forall g :: g != field ==> FieldOf(r[index], g) == FieldOf(rows[index], g)
    ensures !(0 <= index < |rows|) ==> r == rows
  {
    if 0 <= index < |rows| then rows[index := SetField(rows[index], field, value)] else rows
  }

  /** A row is submitted when it has both a title and an author. */
  predicate Complete(row: Row) {
    row.title != "" && row.author != ""
  }

  /** What submitting did: nothing (no complete row), or the number of rows added, failed and
      refused as duplicates, and whether the parent's `onSuccess` was called. */
  datatype Submission = NothingToSubmit
                      | Submitted(added: nat, failed: nat, duplicates: nat, notified: bool)

  /** The counts of the submit loop: the server's answer to each posted row, in order. */
  datatype Tally = Tally(store: BookStore.Store, added: nat, failed: nat, duplicates: nat)

  /** The server refuses the row with 400: the visitor id, title or author is missing. */
  predicate LacksField(visitorId: string, row: Row) {
    visitorId == "" || row.title == "" || row.author == ""
  }

  /** Posts the rows one by one: 201 counts as added, 409 only as a duplicate (a toast, no
      count), anything else as failed. The failures are exactly the rows the server refuses
      with 400; the remaining rows are added or duplicates, and only added rows grow the store. */
  function PostRows(s: BookStore.Store, visitorId: string, rows: seq<Row>): (t: Tally)
    ensures t.added + t.failed + t.duplicates == |rows|
    ensures t.failed == |Seqs.Filter(rows, (row: Row) => LacksField(visitorId, row))|
    ensures |t.store.books| == |s.books| + t.added
    ensures t.added == |NewRows(s, visitorId, [], rows)|
    ensures t.store.books == s.books + RowRecords(s.nextId, visitorId, NewRows(s, visitorId, [], rows))
    ensures t.store.nextId == s.nextId + t.added
    ensures BookStore.Valid(s) ==> BookStore.Valid(t.store)
    ensures BookStore.Unique(s) ==> BookStore.Unique(t.store)
    decreases |rows|
  {
    if |rows| == 0 then Tally(s, 0, 0, 0)
    else
      var o := BookStore.CreateBook(s, visitorId, rows[0].title, rows[0].author, rows[0].genre);
      var rest := PostRows(o.store, visitorId, rows[1..]);
      PostRowStep(s, o.store, visitorId, rows, o.response.status);
      match o.response.status
      case 201 => rest.(added := rest.added + 1)
      case 409 => rest.(duplicates := rest.duplicates + 1)
      case _ => rest.(failed := rest.failed + 1)
  }

  /** The rows that insert a record, in order: rows the server accepts (visitor, title and
      author all given) whose book the visitor has neither in the store `s` nor among the
      accepted rows before them, up to case. */
  ghost function NewRows(s: BookStore.Store, visitorId: string, earlier: seq<(string, string)>,
                         rows: seq<Row>): seq<Row>
    decreases |rows|
  {
    if |rows| == 0 then []
    else if LacksField(visitorId, rows[0]) then NewRows(s, visitorId, earlier, rows[1..])
    else
      var row := rows[0];
      (if BookStore.Known(s, visitorId, earlier, row.title, row.author) then [] else [row])
      + NewRows(s, visitorId, earlier + [(row.title, row.author)], rows[1..])
  }

  /** The record `POST /` creates for a row, with id `n`; a row without genre is Uncategorized. */
  function RowRecord(n: nat, visitorId: string, row: Row): BookStore.Book {
    BookStore.Book(n, visitorId, row.title, row.author,
                   if row.genre == "" then GenreMapping.UNCATEGORIZED else row.genre, None)
  }

  /** The records created for `rows`, numbered from `n`. */
  function RowRecords(n: nat, visitorId: string, rows: seq<Row>): (r: seq<BookStore.Book>)
    ensures |r| == |rows|
    ensures forall k :: 0 <= k < |rows| ==> r[k] == RowRecord(n + k, visitorId, rows[k])
  {
    seq(|rows|, k requires 0 <= k < |rows| => RowRecord(n + k, visitorId, rows[k]))
  }

  /** Rows that agree on what is known select the same new rows. */
  lemma {:induction false} NewRowsCongruent(s1: BookStore.Store, e1: seq<(string, string)>,
                                            s2: BookStore.Store, e2: seq<(string, string)>,
                                            visitorId: string, rows: seq<Row>)
    requires forall t, a :: BookStore.Known(s1, visitorId, e1, t, a) <==> BookStore.Known(s2, visitorId, e2, t, a)
    ensures NewRows(s1, visitorId, e1, rows) == NewRows(s2, visitorId, e2, rows)
    decreases |rows|
  {
    if |rows| > 0 {
      if LacksField(visitorId, rows[0]) {
        NewRowsCongruent(s1, e1, s2, e2, visitorId, rows[1..]);
      } else {
        var key := (rows[0].title, rows[0].author);
        BookStore.KnownAppend(s1, visitorId, e1, key);
        BookStore.KnownAppend(s2, visitorId, e2, key);
        NewRowsCongruent(s1, e1 + [key], s2, e2 + [key], visitorId, rows[1..]);
      }
    }
  }

  /** A row refused with 400 or 409 creates nothing and leaves the store as it was. */
  lemma {:induction false} NewRowsSkip(s: BookStore.Store, visitorId: string, rows: seq<Row>)
    requires |rows| > 0
    requires LacksField(visitorId, rows[0]) || BookStore.HasBook(s, visitorId, rows[0].title, rows[0].author)
    ensures NewRows(s, visitorId, [], rows) == NewRows(s, visitorId, [], rows[1..])
  {
    if !LacksField(visitorId, rows[0]) {
      var key := (rows[0].title, rows[0].author);
      assert [] + [key] == [key];
      BookStore.KnownSkip(s, visitorId, [], key.0, key.1);
      NewRowsCongruent(s, [key], s, [], visitorId, rows[1..]);
      assert NewRows(s, visitorId, [], rows) == [] + NewRows(s, visitorId, [key], rows[1..]);
    }
  }

  /** A row answered with 201 is new, and its record takes its key. */
  lemma {:induction false} NewRowsInsert(s: BookStore.Store, s1: BookStore.Store, visitorId: string, rows: seq<Row>)
    requires |rows| > 0 && !LacksField(visitorId, rows[0])
    requires !BookStore.HasBook(s, visitorId, rows[0].title, rows[0].author)
    requires s1.books == s.books + [RowRecord(s.nextId, visitorId, rows[0])]
    ensures NewRows(s, visitorId, [], rows) == [rows[0]] + NewRows(s1, visitorId, [], rows[1..])
  {
    var key := (rows[0].title, rows[0].author);
    assert [] + [key] == [key];
    BookStore.KnownInsert(s, s1, RowRecord(s.nextId, visitorId, rows[0]), []);
    NewRowsCongruent(s1, [], s, [key], visitorId, rows[1..]);
  }

  /** Records of one row followed by records of more rows, numbered on. */
  lemma {:induction false} RowRecordsCons(n: nat, visitorId: string, row: Row, rows: seq<Row>)
    ensures RowRecords(n, visitorId, [row] + rows) == [RowRecord(n, visitorId, row)] + RowRecords(n + 1, visitorId, rows)
  {
    var r := RowRecords(n, visitorId, [row] + rows);
    var q := [RowRecord(n, visitorId, row)] + RowRecords(n + 1, visitorId, rows);
    assert |r| == |q|;
    forall k | 0 <= k < |r| ensures r[k] == q[k] {
      if k > 0 {
        assert ([row] + rows)[k] == rows[k - 1];
      }
    }
  }

  /** One step of `PostRows`: the first row's answer and the store after it account for the new
      rows of the whole sequence. */
  lemma {:induction false} PostRowStep(s: BookStore.Store, s1: BookStore.Store, visitorId: string, rows: seq<Row>,
                                       status: nat)
    requires |rows| > 0 && status in {201, 400, 409}
    requires status == 400 <==> LacksField(visitorId, rows[0])
    requires status == 409 ==> BookStore.HasBook(s, visitorId, rows[0].title, rows[0].author)
    requires status != 201 ==> s1 == s
    requires status == 201 ==>
               && !BookStore.HasBook(s, visitorId, rows[0].title, rows[0].author)
               && s1.books == s.books + [RowRecord(s.nextId, visitorId, rows[0])] && s1.nextId == s.nextId + 1
    ensures |NewRows(s, visitorId, [], rows)| == (if status == 201 then 1 else 0) + |NewRows(s1, visitorId, [], rows[1..])|
    ensures s.books + RowRecords(s.nextId, visitorId, NewRows(s, visitorId, [], rows))
            == s1.books + RowRecords(s1.nextId, visitorId, NewRows(s1, visitorId, [], rows[1..]))
  {
    if status == 201 {
      var rest := NewRows(s1, visitorId, [], rows[1..]);
      NewRowsInsert(s, s1, visitorId, rows);
      RowRecordsCons(s.nextId, visitorId, rows[0], rest);
      Seqs.AppendAssociative(s.books, [RowRecord(s.nextId, visitorId, rows[0])], RowRecords(s1.nextId, visitorId, rest));
    } else {
      NewRowsSkip(s, visitorId, rows);
    }
  }

  /** `handleSubmit`: with no complete row nothing is sent; otherwise the complete rows are
      posted in order, and `onSuccess` is called exactly when at least one was added. */
  function HandleSubmit(s: BookStore.Store, visitorId: string, rows: seq<Row>): (r: (BookStore.Store, Submission))
    ensures r.1.NothingToSubmit? <==> forall i :: 0 <= i < |rows| ==> !Complete(rows[i])
    ensures r.1.NothingToSubmit? ==> r.0 == s
    ensures r.1.Submitted? ==>
              && r.1.added + r.1.failed + r.1.duplicates == |Seqs.Filter(rows, Complete)|
              && r.1.added + r.1.failed <= |Seqs.Filter(rows, Complete)|
              && (r.1.notified <==> r.1.added > 0)
              && |r.0.books| == |s.books| + r.1.added
    ensures r.1.Submitted? ==>
              var t := PostRows(s, visitorId, Seqs.Filter(rows, Complete));
              r.0 == t.store && r.1.added == t.added && r.1.failed == t.failed && r.1.duplicates == t.duplicates
    ensures r.1.Submitted? ==> r.1.added == |NewRows(s, visitorId, [], Seqs.Filter(rows, Complete))|
    ensures BookStore.Valid(s) ==> BookStore.Valid(r.0)
    ensures BookStore.Unique(s) ==> BookStore.Unique(r.0)
  {
    var complete := Seqs.Filter(rows, Complete);
    if |complete| == 0 then
      assert forall i :: 0 <= i < |rows| ==> !Complete(rows[i]) by {
        forall i | 0 <= i < |rows| ensures !Complete(rows[i]) {
          assert rows[i] in rows;
        }
      }
      (s, NothingToSubmit)
    else
      var t := PostRows(s, visitorId, complete);
      (t.store, Submitted(t.added, t.failed, t.duplicates, t.added > 0))
  }

  /** With a visitor, every complete row's book is in the library after the loop: added by its
      own 201, or already there when it was refused with 409. */
  lemma {:induction false} CompleteRowsAreHeld(s: BookStore.Store, visitorId: string, rows: seq<Row>, i: nat)
    requires visitorId != "" && i < |rows| && Complete(rows[i])
    ensures BookStore.HasBook(PostRows(s, visitorId, rows).store, visitorId, rows[i].title, rows[i].author)
    decreases |rows|
  {
    var o := BookStore.CreateBook(s, visitorId, rows[0].title, rows[0].author, rows[0].genre);
    if i == 0 {
      FirstRowHeld(s, visitorId, rows[0]);
      PostRowsKeepsBooks(o.store, visitorId, rows[1..], rows[0].title, rows[0].author);
    } else {
      assert rows[1..][i - 1] == rows[i];
      CompleteRowsAreHeld(o.store, visitorId, rows[1..], i - 1);
    }
    PostRowsHead(s, visitorId, rows);
  }

  /** The store after posting the rows is the store after posting the rest of them once the
      first has been posted. */
  lemma {:induction false} PostRowsHead(s: BookStore.Store, visitorId: string, rows: seq<Row>)
    requires |rows| > 0
    ensures PostRows(s, visitorId, rows).store
            == PostRows(BookStore.CreateBook(s, visitorId, rows[0].title, rows[0].author, rows[0].genre).store,
                        visitorId, rows[1..]).store
  {
  }

  /** Posting rows never takes a book away from a visitor. */
  lemma {:induction false} PostRowsKeepsBooks(s: BookStore.Store, visitorId: string, rows: seq<Row>,
                                              title: string, author: string)
    requires BookStore.HasBook(s, visitorId, title, author)
    ensures BookStore.HasBook(PostRows(s, visitorId, rows).store, visitorId, title, author)
  {
    BookStore.HasBookExtends(s, PostRows(s, visitorId, rows).store,
                             RowRecords(s.nextId, visitorId, NewRows(s, visitorId, [], rows)));
  }

  /** After posting a complete row with a visitor, the visitor has its book. */
  lemma {:induction false} FirstRowHeld(s: BookStore.Store, visitorId: string, row: Row)
    requires visitorId != "" && Complete(row)
    ensures BookStore.HasBook(BookStore.CreateBook(s, visitorId, row.title, row.author, row.genre).store,
                              visitorId, row.title, row.author)
  {
    var o := BookStore.CreateBook(s, visitorId, row.title, row.author, row.genre);
    if o.response.status == 201 {
      assert BookStore.SameBook(o.store.books[|s.books|], visitorId, row.title, row.author);
    }
  }

  /** Adding a row and removing the last row gives back the rows. */
  lemma AddThenRemove(rows: seq<Row>)
    ensures RemoveBookField(AddBookField(rows), |rows|) == rows
  {
  }

  /** Two rows for the same book in different capitalisation add one record: the second is
      refused as a duplicate, and `onSuccess` is called. */
  lemma {:induction false} CaseVariantRowsAddedOnce(s: BookStore.Store, visitorId: string, a: Row, b: Row)
    requires visitorId != "" && Complete(a) && Complete(b)
    requires Strings.Lower(a.title) == Strings.Lower(b.title)
    requires Strings.Lower(a.author) == Strings.Lower(b.author)
    requires !BookStore.HasBook(s, visitorId, a.title, a.author)
    ensures HandleSubmit(s, visitorId, [a, b]).1 == Submitted(1, 0, 1, true)
  {
    assert Seqs.Filter([a, b], Complete) == [a, b] by {
      assert forall i :: 0 <= i < |[a, b]| ==> Complete([a, b][i]);
    }
    var o := BookStore.CreateBook(s, visitorId, a.title, a.author, a.genre);
    assert o.response.status == 201;
    BookStore.CreateIgnoresCase(s, visitorId, a.title, a.author, a.genre, b.title, b.author, b.genre);
    var o2 := BookStore.CreateBook(o.store, visitorId, b.title, b.author, b.genre);
    assert o2.response.status == 409;
    assert [a, b][1..] == [b] && [b][1..] == [];
    assert PostRows(o2.store, visitorId, []) == Tally(o2.store, 0, 0, 0);
    assert PostRows(o.store, visitorId, [b]) == Tally(o2.store, 0, 0, 1);
    assert PostRows(s, visitorId, [a, b]) == Tally(o2.store, 1, 0, 1);
  }

  /** Without a visitor id every complete row is refused with 400 and counted as failed, so
      `onSuccess` is not called. */
  lemma {:induction false} NoVisitorFailsEveryRow(s: BookStore.Store, rows: seq<Row>)
    requires exists i :: 0 <= i < |rows| && Complete(rows[i])
    ensures var r := HandleSubmit(s, "", rows);
            r.0 == s && r.1 == Submitted(0, |Seqs.Filter(rows, Complete)|, 0, false)
  {
    NoVisitorPostsFail(s, Seqs.Filter(rows, Complete));
  }

  lemma {:induction false} NoVisitorPostsFail(s: BookStore.Store, rows: seq<Row>)
    ensures PostRows(s, "", rows) == Tally(s, 0, |rows|, 0)
    decreases |rows|
  {
    if |rows| > 0 {
      NoVisitorPostsFail(s, rows[1..]);
    }
  }
}
