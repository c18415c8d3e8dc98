/** BookService: the CSV bulk import of books and the single-book save and update,
    each with the title+author uniqueness rule. The pure functions below say what
    every operation does to the store; class BookService performs them step by
    step and is proved to agree with them. */
module Catalog {
  import opened Wrappers
  import opened Text
  import opened Model
  import opened Repository

  /** One CSV record as the reader hands it over: its columns, any of which may be null. */
  type Row = seq<Option<string>>

  datatype BookError =
    | HeaderMissing(found: Row)                        // CsvHeaderMissingException
    | AlreadyExists(title: string, authorName: string)  // ResourceAlreadyExistsException
    | NotFound(id: nat)                                 // ResourceNotFoundException

  datatype BookRequest = BookRequest(title: string, authorName: string, genre: string)

  datatype BookResponse = BookResponse(title: string, author: string, genre: string, available: bool)

  datatype BookDto = BookDto(id: nat, title: string, authorId: nat, authorName: string, genre: string, available: bool)

  /** The header names the import recognises, compared after trim and lower-casing. */
  const RecognisedColumns: set<string> :=
    {"title", "titulo", "book", "libro", "author", "autor", "genre", "genero", "name", "nombre"}

  predicate IsRecognisedColumn(col: Option<string>) {
    col.Some? && ToLower(Trim(col.value)) in RecognisedColumns
  }

  /** A header is valid when at least one of its columns is a recognised name. */
  predicate ValidHeader(header: Row) {
    exists i :: 0 <= i < |header| && IsRecognisedColumn(header[i])
  }

  predicate IsBlank(v: Option<string>) {
    v.None? || Trim(v.value) == []
  }

  predicate IsBlankRow(row: Row) {
    forall i :: 0 <= i < |row| ==> IsBlank(row[i])
  }

  /** safeTrim: null reads as the empty string; the result is already trimmed and
      is empty exactly for a blank value. */
  function SafeTrim(v: Option<string>): (r: string)
    ensures r == [] <==> v.None? || forall i :: 0 <= i < |v.value| ==> IsTrimmable(v.value[i])
  {
    match v
    case None => []
    case Some(s) => Trim(s)
  }

  lemma SafeTrimIsTrimmed(v: Option<string>)
    ensures Trim(SafeTrim(v)) == SafeTrim(v)
  {
    if v.Some? {
      TrimIdempotent(v.value);
    }
  }

  /** A row the import does not skip outright: not blank, at least three columns,
      and a non-empty title and author once trimmed. */
  predicate Usable(row: Row) {
    !IsBlankRow(row) && |row| >= 3 && SafeTrim(row[0]) != [] && SafeTrim(row[1]) != []
  }

  /** The same book ignoring case, as the in-batch duplicate check compares it. */
  predicate SameBookIgnoringCase(title: string, authorName: string, b: Book) {
    EqualsIgnoreCase(title, Trim(b.title)) && EqualsIgnoreCase(authorName, Trim(b.author.name))
  }

  predicate DuplicateInBatch(batch: seq<Book>, title: string, authorName: string) {
    exists i :: 0 <= i < |batch| && SameBookIgnoringCase(title, authorName, batch[i])
  }

  /** The batch key: trimmed title and author name, lower-cased. */
  function Key(b: Book): (string, string) {
    (ToLower(Trim(b.title)), ToLower(Trim(b.author.name)))
  }

  /** No two batch entries are the same book ignoring case. */
  predicate DistinctIgnoringCase(batch: seq<Book>) {
    forall i, j :: 0 <= i < j < |batch| ==> Key(batch[i]) != Key(batch[j])
  }

  /** Every book of the batch has its author stored. */
  predicate AuthorsStored(s: State, batch: seq<Book>) {
    forall i :: 0 <= i < |batch| ==> AuthorStored(s, batch[i].author)
  }

  /** What processRow checks of a book before appending it: available, title and
      author name trimmed and not empty, not in the store (exact case) and not in
      the batch (ignoring case). */
  predicate Admissible(s: State, batch: seq<Book>, b: Book) {
    b.available && b.title != [] && b.author.name != []
    && Trim(b.title) == b.title && Trim(b.author.name) == b.author.name
    && !ExistsByTitleAndAuthorName(s, b.title, b.author.name)
    && !DuplicateInBatch(batch, b.title, b.author.name)
  }

  /** The invariant the import batch keeps: every entry was admissible against the
      store's books, and no two entries are the same book ignoring case. */
  predicate BatchInvariant(s: State, batch: seq<Book>) {
    DistinctIgnoringCase(batch)
    && forall i :: 0 <= i < |batch| ==> Admissible(s, [], batch[i])
  }

  /** Only authors are added; nothing else in the store changes. */
  predicate OnlyAuthorsAdded(s: State, s': State) {
    s'.books == s.books && s'.users == s.users && s'.loans == s.loans
    && s.nextId <= s'.nextId
    && (forall k :: k in s.authors ==> k in s'.authors && s'.authors[k] == s.authors[k])
  }

  predicate AuthorNamed(s: State, name: string) {
    exists k :: k in s.authors && s.authors[k].name == name
  }

  /** The author lookup shared by save, update and processRow: the stored author
      with exactly this name, created and saved at once when there is none. */
  function AfterResolveAuthor(s: State, name: string): (r: (State, Author))
    requires Wf(s)
    ensures Wf(r.0) && AuthorStored(r.0, r.1) && r.1.name == name
    ensures OnlyAuthorsAdded(s, r.0)
    ensures AuthorNamed(s, name) ==> r.0 == s
    ensures !AuthorNamed(s, name) ==>
      r.1 == Author(s.nextId, name) && r.0 == s.(authors := s.authors[s.nextId := r.1], nextId := s.nextId + 1)
  {
    match FindAuthorByName(s, name)
    case Some(a) => (s, a)
    case None => WithNewAuthor(s, name)
  }

  /** processRow: skip the row or append its book to the batch. */
  function AfterProcessRow(s: State, row: Row, batch: seq<Book>): (r: (State, seq<Book>))
    requires Wf(s)
    ensures Wf(r.0) && OnlyAuthorsAdded(s, r.0)
    ensures r.1 == batch || (|r.1| == |batch| + 1 && r.1[..|batch|] == batch)
    ensures r.1 == batch ==> r.0 == s
    ensures r.1 != batch ==> AuthorStored(r.0, r.1[|batch|].author)
    ensures r.1 != batch ==> Admissible(s, batch, r.1[|batch|])
  {
    if IsBlankRow(row) then (s, batch)
    else if |row| < 3 then (s, batch)
    else
      var title := SafeTrim(row[0]);
      var authorName := SafeTrim(row[1]);
      var genre := SafeTrim(row[2]);
      if title == [] || authorName == [] then (s, batch)
      else if ExistsByTitleAndAuthorName(s, title, authorName) then (s, batch)
      else if DuplicateInBatch(batch, title, authorName) then (s, batch)
      else
        var (s1, author) := AfterResolveAuthor(s, authorName);
        SafeTrimIsTrimmed(row[0]);
        SafeTrimIsTrimmed(row[1]);
        (s1, batch + [Book(title, author, genre, true)])
  }

  /** A blank, short or title-less/author-less row, a row whose book the store
      already holds (exact case), and a row whose book the batch already holds
      (ignoring case) are all skipped without any change. */
  lemma ProcessRowSkips(s: State, row: Row, batch: seq<Book>)
    requires Wf(s)
    requires !Usable(row)
      || ExistsByTitleAndAuthorName(s, SafeTrim(row[0]), SafeTrim(row[1]))
      || DuplicateInBatch(batch, SafeTrim(row[0]), SafeTrim(row[1]))
    ensures AfterProcessRow(s, row, batch) == (s, batch)
  {
  }

  /** Any other row appends one available book built from its trimmed columns 0, 1
      and 2; its author is the stored author of that exact name, created just
      before the append when there was none. */
  lemma ProcessRowAppends(s: State, row: Row, batch: seq<Book>)
    requires Wf(s) && Usable(row)
    requires !ExistsByTitleAndAuthorName(s, SafeTrim(row[0]), SafeTrim(row[1]))
    requires !DuplicateInBatch(batch, SafeTrim(row[0]), SafeTrim(row[1]))
    ensures var r := AfterProcessRow(s, row, batch);
      |r.1| == |batch| + 1 && r.1[..|batch|] == batch
      && r.1[|batch|] == Book(SafeTrim(row[0]), r.1[|batch|].author, SafeTrim(row[2]), true)
      && AuthorStored(r.0, r.1[|batch|].author) && r.1[|batch|].author.name == SafeTrim(row[1])
      && (AuthorNamed(s, SafeTrim(row[1])) ==> r.0 == s)
      && (!AuthorNamed(s, SafeTrim(row[1])) ==> r.1[|batch|].author.id == s.nextId && r.0.nextId == s.nextId + 1)
  {
  }

  /** One turn of the import loop: a row with no columns or only blank columns is
      skipped before processRow sees it. */
  function AfterReadRow(s: State, row: Row, batch: seq<Book>): (r: (State, seq<Book>))
    requires Wf(s)
  {
    if |row| == 0 then (s, batch)
    else if IsBlankRow(row) then (s, batch)
    else AfterProcessRow(s, row, batch)
  }

  /** The loop's own two skips repeat checks processRow makes again, so a turn of
      the loop is exactly processRow. */
  lemma ReadRowIsProcessRow(s: State, row: Row, batch: seq<Book>)
    requires Wf(s)
    ensures AfterReadRow(s, row, batch) == AfterProcessRow(s, row, batch)
  {
  }

  /** Every data row, in order, starting from an empty batch. */
  function AfterRows(s: State, rows: seq<Row>): (r: (State, seq<Book>))
    requires Wf(s)
    ensures Wf(r.0) && OnlyAuthorsAdded(s, r.0)
    ensures r.1 == [] ==> r.0 == s
    decreases |rows|
  {
    if |rows| == 0 then (s, [])
    else
      var prev := AfterRows(s, rows[..|rows| - 1]);
      AfterReadRow(prev.0, rows[|rows| - 1], prev.1)
  }

  /** A step that only adds authors and at most appends a book whose author is
      stored keeps every batch author stored. */
  lemma StepKeepsAuthorsStored(s: State, s': State, batch: seq<Book>, batch': seq<Book>)
    requires OnlyAuthorsAdded(s, s') && AuthorsStored(s, batch)
    requires batch' == batch
      || (|batch'| == |batch| + 1 && batch'[..|batch|] == batch && AuthorStored(s', batch'[|batch|].author))
    ensures AuthorsStored(s', batch')
  {
    forall i | 0 <= i < |batch'| ensures AuthorStored(s', batch'[i].author) {
      if i < |batch| {
        assert batch'[i] == batch'[..|batch|][i];
      }
    }
  }

  /** A trimmed book that the in-batch check does not match has a different key. */
  lemma KeyDiffers(x: Book, b: Book)
    requires Trim(b.title) == b.title && Trim(b.author.name) == b.author.name
    requires !SameBookIgnoringCase(b.title, b.author.name, x)
    ensures Key(x) != Key(b)
  {
    EqualsIgnoreCaseIffSameLower(b.title, Trim(x.title));
    EqualsIgnoreCaseIffSameLower(b.author.name, Trim(x.author.name));
  }

  /** Appending a book that is admissible against the batch keeps the batch
      invariant: in particular no two entries become equal ignoring case. */
  lemma StepKeepsBatchInvariant(s: State, s': State, batch: seq<Book>, batch': seq<Book>)
    requires s'.books == s.books && BatchInvariant(s, batch)
    requires batch' == batch
      || (|batch'| == |batch| + 1 && batch'[..|batch|] == batch && Admissible(s, batch, batch'[|batch|]))
    ensures BatchInvariant(s', batch')
  {
    if batch' != batch {
      var b := batch'[|batch|];
      forall i | 0 <= i < |batch| ensures Key(batch[i]) != Key(b) {
        KeyDiffers(batch[i], b);
      }
      AppendKeepsBatchInvariant(s, s', batch, b);
      assert batch' == batch + [b];
    }
  }

  lemma AppendKeepsBatchInvariant(s: State, s': State, batch: seq<Book>, b: Book)
    requires s'.books == s.books && BatchInvariant(s, batch)
    requires Admissible(s, [], b)
    requires forall i :: 0 <= i < |batch| ==> Key(batch[i]) != Key(b)
    ensures BatchInvariant(s', batch + [b])
  {
    var batch' := batch + [b];
    forall i, j | 0 <= i < j < |batch'| ensures Key(batch'[i]) != Key(batch'[j]) {
      assert batch'[i] == batch[i];
    }
    forall i | 0 <= i < |batch'| ensures Admissible(s', [], batch'[i]) {
    }
  }

  /** Every book of an import batch has its author stored. */
  lemma {:induction false} RowsKeepAuthorsStored(s: State, rows: seq<Row>)
    requires Wf(s)
    ensures AuthorsStored(AfterRows(s, rows).0, AfterRows(s, rows).1)
    decreases |rows|
  {
    if |rows| > 0 {
      var prev := AfterRows(s, rows[..|rows| - 1]);
      RowsKeepAuthorsStored(s, rows[..|rows| - 1]);
      ReadRowIsProcessRow(prev.0, rows[|rows| - 1], prev.1);
      var r := AfterProcessRow(prev.0, rows[|rows| - 1], prev.1);
      StepKeepsAuthorsStored(prev.0, r.0, prev.1, r.1);
    }
  }

  /** After any sequence of rows the batch keeps its invariant against the store
      the import started from: no entry was in the store, none is blank, all are
      available, and no two are the same book ignoring case. */
  lemma {:induction false} RowsKeepBatchInvariant(s: State, rows: seq<Row>)
    requires Wf(s)
    ensures BatchInvariant(s, AfterRows(s, rows).1)
    decreases |rows|
  {
    if |rows| > 0 {
      var prev := AfterRows(s, rows[..|rows| - 1]);
      RowsKeepBatchInvariant(s, rows[..|rows| - 1]);
      ReadRowIsProcessRow(prev.0, rows[|rows| - 1], prev.1);
      var r := AfterProcessRow(prev.0, rows[|rows| - 1], prev.1);
      StepKeepsBatchInvariant(prev.0, s, prev.1, r.1);
    }
  }

  /** One more row extends the fold by one turn of the loop. */
  lemma AfterRowsSnoc(s: State, rows: seq<Row>, row: Row)
    requires Wf(s)
    ensures var prev := AfterRows(s, rows);
      AfterRows(s, rows + [row]) == AfterReadRow(prev.0, row, prev.1)
  {
    assert (rows + [row])[..|rows|] == rows;
  }

  function ToDto(id: nat, b: Book): BookDto {
    BookDto(id, b.title, b.author.id, b.author.name, b.genre, b.available)
  }

  function Dtos(ids: seq<nat>, saved: seq<Book>): (r: seq<BookDto>)
    requires |ids| == |saved|
  {
    seq(|ids|, i requires 0 <= i < |ids| => ToDto(ids[i], saved[i]))
  }

  /** saveBooksFromCsv: a missing, empty or unrecognised header fails and changes
      nothing; otherwise the data rows build a batch, saved in one step when it is
      not empty, and the saved books come back as DTOs in batch order. */
  function AfterImport(s: State, rows: seq<Row>): (r: (State, Result<seq<BookDto>, BookError>))
    requires Wf(s)
    ensures r.1.Failure? <==> |rows| == 0 || |rows[0]| == 0 || !ValidHeader(rows[0])
    ensures r.1.Failure? ==> r.0 == s && r.1.error == HeaderMissing(if |rows| == 0 then [] else rows[0])
  {
    if |rows| == 0 then (s, Failure(HeaderMissing([])))
    else if |rows[0]| == 0 then (s, Failure(HeaderMissing(rows[0])))
    else if !ValidHeader(rows[0]) then (s, Failure(HeaderMissing(rows[0])))
    else
      var (s1, batch) := AfterRows(s, rows[1..]);
      if |batch| == 0 then (s1, Success([]))
      else
        var (s2, ids) := WithNewBooks(s1, batch);
        (s2, Success(Dtos(ids, batch)))
  }

  /** With a valid header, the import is the row fold followed by one saveAll of a
      non-empty batch. */
  lemma ImportWithValidHeader(s: State, rows: seq<Row>)
    requires Wf(s) && |rows| > 0 && |rows[0]| > 0 && ValidHeader(rows[0])
    ensures var (s1, batch) := AfterRows(s, rows[1..]);
      AfterImport(s, rows)
        == if |batch| == 0 then (s1, Success([]))
           else (WithNewBooks(s1, batch).0, Success(Dtos(WithNewBooks(s1, batch).1, batch)))
  {
  }

  /** save: resolve the author, refuse a title+author the store already holds, and
      otherwise store a new available book. */
  function AfterSave(s: State, request: BookRequest): (r: (State, Result<BookResponse, BookError>))
    requires Wf(s)
    ensures Wf(r.0)
  {
    var (s1, author) := AfterResolveAuthor(s, request.authorName);
    if ExistsByTitleAndAuthorName(s1, request.title, author.name) then
      (s1, Failure(AlreadyExists(request.title, author.name)))
    else
      var (s2, id) := WithNewBook(s1, Book(request.title, author, request.genre, true));
      (s2, Success(BookResponse(request.title, author.name, request.genre, true)))
  }

  /** update: an unknown id fails first; then the author is resolved and the same
      title+author rule as save applies, the book itself included; otherwise title,
      author and genre are replaced and availability is kept. */
  function AfterUpdate(s: State, id: nat, request: BookRequest): (r: (State, Result<BookResponse, BookError>))
    requires Wf(s)
    ensures Wf(r.0)
  {
    if id !in s.books then (s, Failure(NotFound(id)))
    else
      var existing := s.books[id];
      var (s1, author) := AfterResolveAuthor(s, request.authorName);
      if ExistsByTitleAndAuthorName(s1, request.title, author.name) then
        (s1, Failure(AlreadyExists(request.title, author.name)))
      else
        var saved := existing.(title := request.title, author := author, genre := request.genre);
        (s1.(books := s1.books[id := saved]), Success(BookResponse(saved.title, saved.author.name, saved.genre, saved.available)))
  }

  /** The import keeps the store well formed. */
  lemma ImportKeepsWf(s: State, rows: seq<Row>)
    requires Wf(s)
    ensures Wf(AfterImport(s, rows).0)
  {
    if |rows| > 0 && |rows[0]| > 0 && ValidHeader(rows[0]) {
      var (s1, batch) := AfterRows(s, rows[1..]);
      if |batch| > 0 {
        RowsKeepAuthorsStored(s, rows[1..]);
        WithNewBooksKeepsWf(s1, batch);
      }
    }
  }

  /** An import that finds no book to add changes nothing at all: no book is
      saved and no author is created. */
  lemma EmptyImportChangesNothing(s: State, rows: seq<Row>)
    requires Wf(s)
    requires AfterImport(s, rows).1 == Success([])
    ensures AfterImport(s, rows).0 == s
  {
  }

  /** No two DTOs name the same book ignoring case. */
  predicate DistinctDtos(dtos: seq<BookDto>) {
    forall i, j :: 0 <= i < j < |dtos| ==>
      !(EqualsIgnoreCase(dtos[i].title, dtos[j].title) && EqualsIgnoreCase(dtos[i].authorName, dtos[j].authorName))
  }

  /** The DTOs of a saved batch: one per book in batch order, each copied from the
      book now stored under its fresh id, and nothing else added to the store. */
  lemma SavedBatchDtos(s: State, batch: seq<Book>)
    requires Wf(s)
    ensures var (s', ids) := WithNewBooks(s, batch); var dtos := Dtos(ids, batch);
      |dtos| == |batch|
      && (forall i :: 0 <= i < |dtos| ==>
            dtos[i].id !in s.books && dtos[i].id in s'.books && ToDto(dtos[i].id, s'.books[dtos[i].id]) == dtos[i]
            && dtos[i].title == batch[i].title && dtos[i].authorName == batch[i].author.name
            && dtos[i].available == batch[i].available)
      && (forall k :: k in s'.books ==> k in s.books || exists i :: 0 <= i < |dtos| && dtos[i].id == k)
  {
    var (s', ids) := WithNewBooks(s, batch);
    var dtos := Dtos(ids, batch);
    forall k | k in s'.books ensures k in s.books || exists i :: 0 <= i < |dtos| && dtos[i].id == k {
      if k !in s.books {
        assert dtos[k - s.nextId].id == k;
      }
    }
  }

  /** What a successful import returns: one DTO per saved book, in batch order,
      each copied from the book now stored under its fresh id, and nothing else
      is added; books already stored are untouched. */
  lemma ImportedBooksAreStored(s: State, rows: seq<Row>)
    requires Wf(s)
    requires AfterImport(s, rows).1.Success?
    ensures var (s', dtos) := (AfterImport(s, rows).0, AfterImport(s, rows).1.value);
      (forall i :: 0 <= i < |dtos| ==>
         dtos[i].id !in s.books && dtos[i].id in s'.books && ToDto(dtos[i].id, s'.books[dtos[i].id]) == dtos[i])
      && (forall k :: k in s'.books ==> k in s.books || exists i :: 0 <= i < |dtos| && dtos[i].id == k)
      && (forall k :: k in s.books ==> k in s'.books && s'.books[k] == s.books[k])
  {
    var (s1, batch) := AfterRows(s, rows[1..]);
    if |batch| > 0 {
      SavedBatchDtos(s1, batch);
    }
  }

  /** The DTOs of a batch that keeps the batch invariant are available, new to the
      store and pairwise different ignoring case. */
  lemma DtosOfBatch(s: State, ids: seq<nat>, batch: seq<Book>)
    requires |ids| == |batch| && BatchInvariant(s, batch)
    ensures var dtos := Dtos(ids, batch);
      (forall i :: 0 <= i < |dtos| ==>
         dtos[i].available && !ExistsByTitleAndAuthorName(s, dtos[i].title, dtos[i].authorName))
      && DistinctDtos(dtos)
  {
    var dtos := Dtos(ids, batch);
    forall i, j | 0 <= i < j < |dtos|
      ensures !(EqualsIgnoreCase(dtos[i].title, dtos[j].title) && EqualsIgnoreCase(dtos[i].authorName, dtos[j].authorName))
    {
      EqualsIgnoreCaseIffSameLower(dtos[i].title, dtos[j].title);
      EqualsIgnoreCaseIffSameLower(dtos[i].authorName, dtos[j].authorName);
      assert Admissible(s, [], batch[i]) && Admissible(s, [], batch[j]);
      assert Key(batch[i]) != Key(batch[j]);
    }
  }

  /** What the import promises of its result: every returned book is available,
      none was in the store before (exact case), and no two are the same book
      ignoring case. */
  lemma ImportedBooksAreNew(s: State, rows: seq<Row>)
    requires Wf(s)
    requires AfterImport(s, rows).1.Success?
    ensures var dtos := AfterImport(s, rows).1.value;
      (forall i :: 0 <= i < |dtos| ==>
         dtos[i].available && !ExistsByTitleAndAuthorName(s, dtos[i].title, dtos[i].authorName))
      && DistinctDtos(dtos)
  {
    var (s1, batch) := AfterRows(s, rows[1..]);
    RowsKeepBatchInvariant(s, rows[1..]);
    if |batch| > 0 {
      DtosOfBatch(s, WithNewBooks(s1, batch).1, batch);
    }
  }

  /** A stored book's author is a stored author of the same name, so a title+author
      match in the store implies an author of that name exists. */
  lemma MatchImpliesAuthorNamed(s: State, title: string, authorName: string)
    requires Wf(s) && ExistsByTitleAndAuthorName(s, title, authorName)
    ensures AuthorNamed(s, authorName)
  {
    var k :| k in s.books && s.books[k].title == title && s.books[k].author.name == authorName;
    assert AuthorStored(s, s.books[k].author);
  }

  /** save fails exactly when the store already holds the title with an author of
      exactly the requested name; a failing save changes nothing, because such a
      book's author is already stored and so no author is created. */
  lemma SaveFailsIffStored(s: State, request: BookRequest)
    requires Wf(s)
    ensures var r := AfterSave(s, request);
      (r.1.Failure? <==> ExistsByTitleAndAuthorName(s, request.title, request.authorName))
      && (r.1.Failure? ==> r.0 == s && r.1.error == AlreadyExists(request.title, request.authorName))
  {
    if ExistsByTitleAndAuthorName(s, request.title, request.authorName) {
      MatchImpliesAuthorNamed(s, request.title, request.authorName);
    }
  }

  /** A successful save stores one new available book under a fresh id, with the
      requested title and genre and the stored author of the requested name, and
      leaves every other book as it was. */
  lemma SaveStoresAvailableBook(s: State, request: BookRequest)
    requires Wf(s)
    requires AfterSave(s, request).1.Success?
    ensures var (s', response) := (AfterSave(s, request).0, AfterSave(s, request).1.value);
      var id := s'.nextId - 1;
      id !in s.books && id in s'.books
      && s'.books == s.books[id := Book(request.title, s'.books[id].author, request.genre, true)]
      && AuthorStored(s', s'.books[id].author) && s'.books[id].author.name == request.authorName
      && response == BookResponse(request.title, request.authorName, request.genre, true)
      && s'.users == s.users && s'.loans == s.loans
      && (forall k :: k in s.authors ==> k in s'.authors && s'.authors[k] == s.authors[k])
  {
  }

  /** update of an unknown id fails with not-found before anything else happens. */
  lemma UpdateUnknownIdFails(s: State, id: nat, request: BookRequest)
    requires Wf(s)
    ensures AfterUpdate(s, id, request).1 == Failure(NotFound(id)) <==> id !in s.books
    ensures id !in s.books ==> AfterUpdate(s, id, request).0 == s
  {
  }

  /** For a known id, update fails exactly when the store holds the requested
      title with an author of the requested name, the book being updated
      included; a failing update changes nothing. */
  lemma UpdateFailsIffStored(s: State, id: nat, request: BookRequest)
    requires Wf(s) && id in s.books
    ensures var r := AfterUpdate(s, id, request);
      (r.1.Failure? <==> ExistsByTitleAndAuthorName(s, request.title, request.authorName))
      && (r.1.Failure? ==> r.0 == s && r.1.error == AlreadyExists(request.title, request.authorName))
  {
    if ExistsByTitleAndAuthorName(s, request.title, request.authorName) {
      MatchImpliesAuthorNamed(s, request.title, request.authorName);
    }
  }

  /** Re-submitting a book's own title and author is refused: the uniqueness check
      does not exclude the book being updated. */
  lemma UpdateWithOwnTitleAndAuthorFails(s: State, id: nat, genre: string)
    requires Wf(s) && id in s.books
    ensures var b := s.books[id];
      AfterUpdate(s, id, BookRequest(b.title, b.author.name, genre)).1
        == Failure(AlreadyExists(b.title, b.author.name))
  {
    var b := s.books[id];
    UpdateFailsIffStored(s, id, BookRequest(b.title, b.author.name, genre));
  }

  /** A successful update replaces title, author and genre of that one book, keeps
      its availability, and leaves every other book as it was. */
  lemma UpdateChangesOnlyThatBook(s: State, id: nat, request: BookRequest)
    requires Wf(s)
    requires AfterUpdate(s, id, request).1.Success?
    ensures var s' := AfterUpdate(s, id, request).0;
      id in s.books && id in s'.books
      && s'.books == s.books[id := s.books[id].(title := request.title, author := s'.books[id].author, genre := request.genre)]
      && s'.books[id].available == s.books[id].available
      && AuthorStored(s', s'.books[id].author) && s'.books[id].author.name == request.authorName
      && AfterUpdate(s, id, request).1.value
           == BookResponse(request.title, request.authorName, request.genre, s.books[id].available)
      && s'.users == s.users && s'.loans == s.loans
      && (forall k :: k in s.authors ==> k in s'.authors && s'.authors[k] == s.authors[k])
  {
  }
}
