/** BookService as the Java class runs it: loops over the header and the rows,
    a batch list grown in place, and writes to the shared store. Each method is
    proved to do exactly what the matching function of module Catalog says. */
module BookServiceImpl {
  import opened Wrappers
  import opened Text
  import opened Model
  import opened Repository
  import opened Catalog

  /** The header loop: stops at the first recognised column. */
  method HasValidHeader(header: Row) returns (hasValidHeader: bool)
    ensures hasValidHeader <==> ValidHeader(header)
  {
    hasValidHeader := false;
    var i := 0;
    while i < |header|
      invariant 0 <= i <= |header|
      invariant forall j :: 0 <= j < i ==> !IsRecognisedColumn(header[j])
    {
      var col := header[i];
      if col.Some? {
        var colLower := ToLower(Trim(col.value));
        if colLower in RecognisedColumns {
          assert IsRecognisedColumn(header[i]);
          hasValidHeader := true;
          break;
        }
      }
      i := i + 1;
    }
  }

  /** The all-blank loop (written twice in the source, once in the row loop and
      once in processRow): stops at the first non-blank value. */
  method AllBlank(row: Row) returns (allBlank: bool)
    ensures allBlank <==> IsBlankRow(row)
  {
    allBlank := true;
    var i := 0;
    while i < |row|
      invariant 0 <= i <= |row|
      invariant forall j :: 0 <= j < i ==> IsBlank(row[j])
    {
      var value := row[i];
      if value.Some? && Trim(value.value) != [] {
        assert !IsBlank(row[i]);
        allBlank := false;
        break;
      }
      i := i + 1;
    }
  }

  class BookService {
    const store: Store

    constructor (store: Store)
      ensures this.store == store
    {
      this.store := store;
    }

    /** findByName, or a new author saved at once. */
    method ResolveAuthor(name: string) returns (author: Author)
      requires store.Valid()
      modifies store
      ensures store.Valid()
      ensures (store.Snapshot(), author) == AfterResolveAuthor(old(store.Snapshot()), name)
    {
      var found := FindAuthorByName(store.Snapshot(), name);
      match found {
        case Some(a) =>
          author := a;
        case None =>
          author := store.SaveNewAuthor(name);
      }
    }

    method ProcessRow(rowValues: Row, books: seq<Book>) returns (books': seq<Book>)
      requires store.Valid()
      modifies store
      ensures store.Valid()
      ensures (store.Snapshot(), books') == AfterProcessRow(old(store.Snapshot()), rowValues, books)
    {
      books' := books;
      var allBlank := AllBlank(rowValues);
      if allBlank {
        return;
      }
      if |rowValues| < 3 {
        return;
      }
      var title := SafeTrim(rowValues[0]);
      var authorName := SafeTrim(rowValues[1]);
      var genre := SafeTrim(rowValues[2]);
      if title == [] || authorName == [] {
        return;
      }
      if ExistsByTitleAndAuthorName(store.Snapshot(), title, authorName) {
        return;
      }
      if DuplicateInBatch(books, title, authorName) {
        return;
      }
      var author := ResolveAuthor(authorName);
      books' := books + [Book(title, author, genre, true)];
    }

    /** One turn of the import loop: skip an empty or all-blank line, otherwise
        process it. */
    method ReadRow(line: Row, books: seq<Book>) returns (books': seq<Book>)
      requires store.Valid()
      modifies store
      ensures store.Valid()
      ensures (store.Snapshot(), books') == AfterReadRow(old(store.Snapshot()), line, books)
    {
      books' := books;
      if |line| != 0 {
        var allEmpty := AllBlank(line);
        if !allEmpty {
          books' := ProcessRow(line, books);
        }
      }
    }

    /** The row loop of saveBooksFromCsv: every row after the header, in order,
        grows the batch or is skipped. */
    method ReadRows(rows: seq<Row>) returns (books: seq<Book>)
      requires |rows| > 0 && store.Valid()
      modifies store
      ensures store.Valid()
      ensures (store.Snapshot(), books) == AfterRows(old(store.Snapshot()), rows[1..])
    {
      ghost var s0 := store.Snapshot();
      books := [];
      var next := 1;
      while next < |rows|
        invariant 1 <= next <= |rows|
        invariant store.Valid()
        invariant store.Snapshot() == AfterRows(s0, rows[1..next]).0
        invariant books == AfterRows(s0, rows[1..next]).1
      {
        var nextLine := rows[next];
        ghost var done := rows[1..next];
        assert rows[1..next + 1] == done + [nextLine];
        AfterRowsSnoc(s0, done, nextLine);
        books := ReadRow(nextLine, books);
        next := next + 1;
      }
      assert rows[1..next] == rows[1..];
    }

    method SaveBooksFromCsv(rows: seq<Row>) returns (r: Result<seq<BookDto>, BookError>)
      requires store.Valid()
      modifies store
      ensures store.Valid()
      ensures (store.Snapshot(), r) == AfterImport(old(store.Snapshot()), rows)
    {
      if |rows| == 0 {
        return Failure(HeaderMissing([]));
      }
      var header := rows[0];
      if |header| == 0 {
        return Failure(HeaderMissing(header));
      }
      var hasValidHeader := HasValidHeader(header);
      if !hasValidHeader {
        return Failure(HeaderMissing(header));
      }
      ghost var s0 := store.Snapshot();
      ImportWithValidHeader(s0, rows);
      var books := ReadRows(rows);
      RowsKeepAuthorsStored(s0, rows[1..]);
      var dtos := SaveBatch(books);
      r := Success(dtos);
    }

    /** The end of saveBooksFromCsv: a non-empty batch is saved in one saveAll and
        reported as DTOs; an empty batch saves nothing. */
    method SaveBatch(books: seq<Book>) returns (dtos: seq<BookDto>)
      requires store.Valid() && AuthorsStored(store.Snapshot(), books)
      modifies store
      ensures store.Valid()
      ensures |books| == 0 ==> store.Snapshot() == old(store.Snapshot()) && dtos == []
      ensures |books| != 0 ==>
        var (s1, ids) := WithNewBooks(old(store.Snapshot()), books);
        store.Snapshot() == s1 && dtos == Dtos(ids, books)
    {
      if |books| == 0 {
        return [];
      }
      WithNewBooksKeepsWf(store.Snapshot(), books);
      var ids := store.SaveAllBooks(books);
      dtos := Dtos(ids, books);
    }

    method Save(request: BookRequest) returns (r: Result<BookResponse, BookError>)
      requires store.Valid()
      modifies store
      ensures store.Valid()
      ensures (store.Snapshot(), r) == AfterSave(old(store.Snapshot()), request)
    {
      var author := ResolveAuthor(request.authorName);
      if ExistsByTitleAndAuthorName(store.Snapshot(), request.title, author.name) {
        return Failure(AlreadyExists(request.title, author.name));
      }
      var book := Book(request.title, author, request.genre, true);
      var id := store.SaveNewBook(book);
      r := Success(BookResponse(book.title, book.author.name, book.genre, book.available));
    }

    method Update(id: nat, request: BookRequest) returns (r: Result<BookResponse, BookError>)
      requires store.Valid()
      modifies store
      ensures store.Valid()
      ensures (store.Snapshot(), r) == AfterUpdate(old(store.Snapshot()), id, request)
    {
      if id !in store.books {
        return Failure(NotFound(id));
      }
      var existingBook := store.books[id];
      var author := ResolveAuthor(request.authorName);
      if ExistsByTitleAndAuthorName(store.Snapshot(), request.title, author.name) {
        return Failure(AlreadyExists(request.title, author.name));
      }
      var saved := existingBook.(title := request.title, author := author, genre := request.genre);
      store.SaveBook(id, saved);
      r := Success(BookResponse(saved.title, saved.author.name, saved.genre, saved.available));
    }
  }
}
