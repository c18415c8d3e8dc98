/** Importing the same file twice. A file of one book the store does not hold
    adds it the first time and nothing the second time. But the store check is
    exact-case and the batch check ignores case, so a file holding two case
    variants of one book saves one variant the first time and the other variant
    the second time: the second import of the same file is not empty. */
module Reimport {
  import opened Wrappers
  import opened Text
  import opened Model
  import opened Repository
  import opened Catalog

  function CsvRow(title: string, author: string, genre: string): Row
  {
    [Some(title), Some(author), Some(genre)]
  }

  /** Two data rows fold into processRow on the first, then one turn of the
      loop on the second. */
  lemma TwoRows(s: State, rows: seq<Row>)
    requires Wf(s) && |rows| == 2
    ensures AfterRows(s, rows[..1]) == AfterProcessRow(s, rows[0], [])
    ensures var p := AfterRows(s, rows[..1]);
      AfterRows(s, rows) == AfterReadRow(p.0, rows[1], p.1)
  {
    assert rows[..1][..0] == [];
    ReadRowIsProcessRow(s, rows[0], []);
  }

  /** A row of trimmed, non-empty title and author is usable and reads back as it is. */
  lemma TrimmedRowIsUsable(title: string, author: string, genre: string)
    requires title != [] && author != []
    requires Trim(title) == title && Trim(author) == author && Trim(genre) == genre
    ensures var row := CsvRow(title, author, genre);
      Usable(row) && SafeTrim(row[0]) == title && SafeTrim(row[1]) == author && SafeTrim(row[2]) == genre
  {
    var row := CsvRow(title, author, genre);
    assert !IsBlank(row[0]);
  }

  /** Two titles equal ignoring case: a book with the first matches a request for
      the second under the batch's comparison. */
  lemma VariantMatches(lower: string, upper: string, b: Book)
    requires EqualsIgnoreCase(lower, upper)
    requires b.title == lower && Trim(lower) == lower && Trim(b.author.name) == b.author.name
    ensures SameBookIgnoringCase(upper, b.author.name, b)
  {
    EqualsIgnoreCaseIffSameLower(lower, upper);
    EqualsIgnoreCaseIffSameLower(upper, lower);
    EqualsIgnoreCaseIffSameLower(b.author.name, b.author.name);
  }

  /** Into a store holding neither variant, the file [lower, upper] adds only the
      book titled `lower`. */
  lemma FirstPassKeepsLower(s: State, lower: string, upper: string, author: string, genre: string)
    requires Wf(s)
    requires EqualsIgnoreCase(lower, upper)
    requires lower != [] && author != []
    requires Trim(lower) == lower && Trim(upper) == upper && Trim(author) == author && Trim(genre) == genre
    requires !ExistsByTitleAndAuthorName(s, lower, author)
    ensures var r := AfterRows(s, [CsvRow(lower, author, genre), CsvRow(upper, author, genre)]);
      |r.1| == 1 && r.1[0].title == lower && r.1[0].author.name == author && AuthorStored(r.0, r.1[0].author)
  {
    var first := CsvRow(lower, author, genre);
    var second := CsvRow(upper, author, genre);
    TwoRows(s, [first, second]);
    TrimmedRowIsUsable(lower, author, genre);
    ProcessRowAppends(s, first, []);
    var p := AfterProcessRow(s, first, []);
    ReadRowIsProcessRow(p.0, second, p.1);
    assert p.1 == [p.1[0]];
    VariantMatches(lower, upper, p.1[0]);
    assert |upper| == |lower|;
    TrimmedRowIsUsable(upper, author, genre);
    assert DuplicateInBatch(p.1, upper, author);
    ProcessRowSkips(p.0, second, p.1);
  }

  /** Into a store holding `lower` but not `upper` (exact case), the same file
      adds only the book titled `upper`. */
  lemma SecondPassKeepsUpper(s: State, lower: string, upper: string, author: string, genre: string)
    requires Wf(s)
    requires lower != [] && author != [] && |upper| == |lower|
    requires Trim(lower) == lower && Trim(upper) == upper && Trim(author) == author && Trim(genre) == genre
    requires ExistsByTitleAndAuthorName(s, lower, author)
    requires !ExistsByTitleAndAuthorName(s, upper, author)
    ensures var r := AfterRows(s, [CsvRow(lower, author, genre), CsvRow(upper, author, genre)]);
      |r.1| == 1 && r.1[0].title == upper && r.1[0].author.name == author && AuthorStored(r.0, r.1[0].author)
  {
    var first := CsvRow(lower, author, genre);
    var second := CsvRow(upper, author, genre);
    TwoRows(s, [first, second]);
    TrimmedRowIsUsable(lower, author, genre);
    ProcessRowSkips(s, first, []);
    ReadRowIsProcessRow(s, second, []);
    TrimmedRowIsUsable(upper, author, genre);
    ProcessRowAppends(s, second, []);
  }

  /** After the first import, the store holds `lower` and still not `upper`. */
  lemma FirstImportStoresLowerOnly(s: State, s1: State, batch: seq<Book>, lower: string, upper: string, author: string)
    requires Wf(s) && s1.books == s.books && s.nextId <= s1.nextId && |batch| == 1
    requires batch[0].title == lower && batch[0].author.name == author && lower != upper
    requires !ExistsByTitleAndAuthorName(s, upper, author)
    ensures var s2 := WithNewBooks(s1, batch).0;
      ExistsByTitleAndAuthorName(s2, lower, author) && !ExistsByTitleAndAuthorName(s2, upper, author)
  {
    var (s2, ids) := WithNewBooks(s1, batch);
    assert s2.books[ids[0]] == batch[0];
    assert ids[0] == s1.nextId;
    forall k | k in s2.books && s2.books[k].title == upper
      ensures s2.books[k].author.name != author
    {
      if k in s1.books {
        assert k < s1.nextId;
        assert s2.books[k] == s.books[k];
      }
    }
  }

  /** The same file imported twice into a store holding neither variant: the
      first import returns the book titled `lower`, the second the book titled
      `upper`, so the second result is not empty. */
  lemma ReimportAddsCaseVariant(s: State, header: Row, lower: string, upper: string, author: string, genre: string)
    requires Wf(s) && |header| > 0 && ValidHeader(header)
    requires lower != upper && EqualsIgnoreCase(lower, upper)
    requires lower != [] && author != []
    requires Trim(lower) == lower && Trim(upper) == upper && Trim(author) == author && Trim(genre) == genre
    requires !ExistsByTitleAndAuthorName(s, lower, author) && !ExistsByTitleAndAuthorName(s, upper, author)
    ensures var rows := [header, CsvRow(lower, author, genre), CsvRow(upper, author, genre)];
      var first := AfterImport(s, rows);
      && first.1.Success? && |first.1.value| == 1 && first.1.value[0].title == lower
      && Wf(first.0) && AfterImport(first.0, rows).1.Success?
      && |AfterImport(first.0, rows).1.value| == 1 && AfterImport(first.0, rows).1.value[0].title == upper
  {
    var rows := [header, CsvRow(lower, author, genre), CsvRow(upper, author, genre)];
    assert rows[1..] == [CsvRow(lower, author, genre), CsvRow(upper, author, genre)];
    ImportWithValidHeader(s, rows);
    FirstPassKeepsLower(s, lower, upper, author, genre);
    var r1 := AfterRows(s, rows[1..]);
    FirstImportStoresLowerOnly(s, r1.0, r1.1, lower, upper, author);
    ImportKeepsWf(s, rows);
    var s2 := AfterImport(s, rows).0;
    assert s2 == WithNewBooks(r1.0, r1.1).0;
    ImportWithValidHeader(s2, rows);
    SecondPassKeepsUpper(s2, lower, upper, author, genre);
  }

  /** A file of a header and one usable row whose book the store does not hold:
      the import returns that one book, and the store now holds it. */
  lemma FirstImportOfOneRow(s: State, header: Row, row: Row)
    requires Wf(s) && |header| > 0 && ValidHeader(header) && Usable(row)
    requires !ExistsByTitleAndAuthorName(s, SafeTrim(row[0]), SafeTrim(row[1]))
    ensures var r := AfterImport(s, [header, row]);
      && r.1.Success? && |r.1.value| == 1
      && r.1.value[0].title == SafeTrim(row[0]) && r.1.value[0].authorName == SafeTrim(row[1])
      && Wf(r.0) && ExistsByTitleAndAuthorName(r.0, SafeTrim(row[0]), SafeTrim(row[1]))
  {
    var rows := [header, row];
    assert rows[1..] == [row];
    assert [row][..0] == [];
    ImportWithValidHeader(s, rows);
    ReadRowIsProcessRow(s, row, []);
    ProcessRowAppends(s, row, []);
    ImportKeepsWf(s, rows);
    var (s1, batch) := AfterRows(s, [row]);
    var (s2, ids) := WithNewBooks(s1, batch);
    assert s2.books[ids[0]] == batch[0];
  }

  /** The same file imported again: the store already holds the row's book, so
      the import saves nothing and returns no book. */
  lemma SecondImportOfOneRow(s: State, header: Row, row: Row)
    requires Wf(s) && |header| > 0 && ValidHeader(header) && |row| >= 2
    requires ExistsByTitleAndAuthorName(s, SafeTrim(row[0]), SafeTrim(row[1]))
    ensures AfterImport(s, [header, row]) == (s, Success([]))
  {
    var rows := [header, row];
    assert rows[1..] == [row];
    assert [row][..0] == [];
    ImportWithValidHeader(s, rows);
    ReadRowIsProcessRow(s, row, []);
    ProcessRowSkips(s, row, []);
  }

  /** Duplicate skipping across imports: a file of one book the store does not
      hold adds it once, and the same file imported again adds nothing. */
  lemma ImportOneRowTwice(s: State, header: Row, title: string, author: string, genre: string)
    requires Wf(s) && |header| > 0 && ValidHeader(header)
    requires title != [] && author != []
    requires Trim(title) == title && Trim(author) == author && Trim(genre) == genre
    requires !ExistsByTitleAndAuthorName(s, title, author)
    ensures var rows := [header, CsvRow(title, author, genre)];
      var first := AfterImport(s, rows);
      && first.1.Success? && |first.1.value| == 1
      && first.1.value[0].title == title && first.1.value[0].authorName == author
      && Wf(first.0) && AfterImport(first.0, rows) == (first.0, Success([]))
  {
    var row := CsvRow(title, author, genre);
    TrimmedRowIsUsable(title, author, genre);
    FirstImportOfOneRow(s, header, row);
    SecondImportOfOneRow(AfterImport(s, [header, row]).0, header, row);
  }

  const Header: Row := [Some("title"), Some("author"), Some("genre")]

  lemma HeaderIsValid()
    ensures |Header| > 0 && ValidHeader(Header)
  {
    TrimOfTrimmed("title");
    ToLowerOfLower("title");
    assert "title" in RecognisedColumns;
    assert IsRecognisedColumn(Header[0]);
  }

  lemma DuneVariants()
    ensures "Dune" != "DUNE" && EqualsIgnoreCase("Dune", "DUNE")
  {
    assert "Dune"[1] != "DUNE"[1];
  }

  lemma DuneTrimmed()
    ensures Trim("Dune") == "Dune"
  {
    TrimOfTrimmed("Dune");
  }

  lemma UpperDuneTrimmed()
    ensures Trim("DUNE") == "DUNE"
  {
    TrimOfTrimmed("DUNE");
  }

  lemma HerbertTrimmed()
    ensures Trim("Herbert") == "Herbert"
  {
    TrimOfTrimmed("Herbert");
  }

  lemma GenreTrimmed()
    ensures Trim("SF") == "SF"
  {
    TrimOfTrimmed("SF");
  }

  /** A file with a header, "Dune;Herbert;SF" and "DUNE;Herbert;SF", imported
      twice into an empty store: each import returns one book. */
  lemma DuneImportedTwice()
    ensures var empty := State(map[], map[], map[], map[], 0);
      var rows := [Header, CsvRow("Dune", "Herbert", "SF"), CsvRow("DUNE", "Herbert", "SF")];
      var first := AfterImport(empty, rows);
      && first.1.Success? && |first.1.value| == 1 && first.1.value[0].title == "Dune"
      && Wf(first.0) && AfterImport(first.0, rows).1.Success?
      && |AfterImport(first.0, rows).1.value| == 1 && AfterImport(first.0, rows).1.value[0].title == "DUNE"
  {
    HeaderIsValid();
    DuneVariants();
    DuneTrimmed();
    UpperDuneTrimmed();
    HerbertTrimmed();
    GenreTrimmed();
    ReimportAddsCaseVariant(State(map[], map[], map[], map[], 0), Header, "Dune", "DUNE", "Herbert", "SF");
  }

  lemma FrankHerbertTrimmed()
    ensures Trim("Frank Herbert") == "Frank Herbert" && Trim("SciFi") == "SciFi"
  {
    TrimOfTrimmed("Frank Herbert");
    TrimOfTrimmed("SciFi");
  }

  /** A file with a header and "Dune;Frank Herbert;SciFi" imported into an empty
      store returns the one book; imported again it returns none and changes
      nothing. */
  lemma DuneImportedThenSkipped()
    ensures var empty := State(map[], map[], map[], map[], 0);
      var rows := [Header, CsvRow("Dune", "Frank Herbert", "SciFi")];
      var first := AfterImport(empty, rows);
      && first.1.Success? && |first.1.value| == 1
      && first.1.value[0].title == "Dune" && first.1.value[0].authorName == "Frank Herbert"
      && Wf(first.0) && AfterImport(first.0, rows) == (first.0, Success([]))
  {
    HeaderIsValid();
    DuneTrimmed();
    FrankHerbertTrimmed();
    ImportOneRowTwice(State(map[], map[], map[], map[], 0), Header, "Dune", "Frank Herbert", "SciFi");
  }
}
