# Library Management API — book catalogue and loan lifecycle in Dafny

This project models the two services of the Library Management API that carry
its business rules, and proves properties of the model.

- **BookService**:
  - the CSV import `saveBooksFromCsv`, with its helpers `processRow` and
    `safeTrim`;
  - the single-book operations `save` and `update`.
- **LoanService**:
  - `borrowBook` and `returnBook`, which drive a book's availability flag and
    its loans;
  - the overdue fine `calculateFine`.

The Spring Data repositories become one in-memory store. It is a `Store` object
holding four maps (books, authors, users, loans) and a shared next-id counter.
The services are classes that hold the store and update it in place. Each
service method is proved equal to a pure specification function on a `State`
snapshot:

- `AfterImport`, `AfterProcessRow`, `AfterSave` and `AfterUpdate` for the
  book service;
- `AfterBorrow` and `AfterReturn` for the loan service.

Lemmas then prove the service's promises about those functions. The store
invariant `Wf` is kept by every operation. It says:

- every stored book's author is a stored author;
- every loan's book and user are stored;
- ids are below the counter;
- no two authors share a name.

Files, one module each:

- `wrappers.dfy`: `Option` and `Result`.
- `text.dfy`: `String.trim`, `toLowerCase` and `equalsIgnoreCase`. Trim is
  modelled exactly: it strips chars up to U+0020. The two case mappings are
  modelled on ASCII letters.
- `model.dfy`: the entities `Author`, `Book`, `User` and `Loan`.
- `repository.dfy`: the store, the repository queries
  (`findByName`, `existsByTitleAndAuthor_Name`) and saves, and `Wf`.
- `catalog.dfy`: the specification of BookService, with its lemmas.
- `book_service.dfy`: the imperative BookService. It has the header loop and
  the blank-row loop with their flags and `break`, the row loop, and the batch
  list passed in and out of `processRow`.
- `lending.dfy`: LoanService, both its specification and its class.
- `reimport.dfy`: what importing the same file twice does.

The CSV input is an already-split sequence of rows. Each row is a sequence of
optional strings, and `None` stands for a Java `null` cell. Dates are integer
day numbers, and "today" is a parameter. The fine is in whole cents: 50 per
overdue day, where the source uses 0.50 as a `double`.

Behaviour the proofs make explicit:

- **Dedup compares case two ways.**
  - The store check is exact-case, which is how the model reads the derived
    query `existsByTitleAndAuthor_Name` (see "## Left out").
  - The batch check ignores case.

  A file without case variants is skipped on a second import. Take a header row
  followed by "Dune;Frank Herbert;SciFi": the first import saves that one book,
  and the second saves nothing and changes nothing
  (`Reimport.DuneImportedThenSkipped`). Because the two checks compare case
  differently, importing the same file a second time is not always empty.
  Take a file holding a header row followed by "Dune;Herbert;SF" and
  "DUNE;Herbert;SF". The first import saves "Dune", and the second saves
  "DUNE" (`Reimport.DuneImportedTwice`).
- **update refuses a book's own title and author.** A request that re-submits
  a book's own title and author is refused, even though the comment at
  BookService.java line 101 says only *another* book should block it
  (`Catalog.UpdateWithOwnTitleAndAuthorFails`).
- **A failed save or update never creates an author.** The check that refuses
  it finds a stored book whose author has that exact name. That author is
  therefore already stored, so the "create the author first" step creates
  nothing (`Catalog.SaveFailsIffStored`, `Catalog.UpdateFailsIffStored`).
- **The import loop's own skips add nothing.** The loop skips rows with no
  columns and all-blank rows, and `processRow` repeats both checks. A turn of
  the loop is therefore exactly `processRow` (`Catalog.ReadRowIsProcessRow`).
- **returnBook has no guard against a second return.** Returning an
  already-returned loan overwrites its date and marks the book available,
  even while another member's later loan of that book is active.
  `Lending.DoubleReturnBreaksAvailability` exhibits it. Returning an active
  loan keeps availability in step with the loans
  (`Lending.ReturnActiveKeepsAvailabilityMatchesLoans`).

## Model

Paths are relative to the repository root. `BookService.java` is
`src/main/java/com/library/management/service/BookService.java`, and
`LoanService.java` is `src/main/java/com/library/management/service/LoanService.java`.

| member | source | states |
|---|---|---|
| Text.TrimStart | src/main/java/com/library/management/service/BookService.java:316-318 | the result is a suffix of the input that does not start with a char ≤ U+0020, and every dropped char is ≤ U+0020 |
| Text.TrimEnd | src/main/java/com/library/management/service/BookService.java:316-318 | the result is a prefix of the input that does not end with a char ≤ U+0020, and every dropped char is ≤ U+0020 |
| Text.Trim | src/main/java/com/library/management/service/BookService.java:316-318 | `trim()` neither starts nor ends with a char ≤ U+0020, and is empty exactly when every char of the input is ≤ U+0020 |
| Text.TrimIsInnerSlice | src/main/java/com/library/management/service/BookService.java:316-318 | `trim()` equals, char by char, the run of the input that starts after its leading whitespace: nothing inside is removed |
| Text.TrimDropsOnlyTrailingTrimmable | src/main/java/com/library/management/service/BookService.java:316-318 | every char after that run is ≤ U+0020 |
| Text.TrimIdempotent | src/main/java/com/library/management/service/BookService.java:269-271 | trimming a trimmed value changes nothing |
| Text.TrimOfTrimmed | src/main/java/com/library/management/service/BookService.java:289-290 | a string with no whitespace at either end is its own trim |
| Text.CharsEqualIgnoreCaseIffSameLower | src/main/java/com/library/management/service/BookService.java:289-290 | two chars are equal ignoring case iff their lower-case forms are equal |
| Text.EqualsIgnoreCaseIffSameLower | src/main/java/com/library/management/service/BookService.java:288-291 | `equalsIgnoreCase` holds iff the lower-cased strings are equal, so it is an equivalence |
| Text.ToLowerOfLower | src/main/java/com/library/management/service/BookService.java:168-173 | a string without upper-case letters is its own lower-case form |
| Repository.FindAuthorByName | src/main/java/com/library/management/service/BookService.java:298 | `findByName` returns a stored author with exactly that name, or none when no stored author has it |
| Repository.WithNewAuthor | src/main/java/com/library/management/service/BookService.java:299-304 | a new author gets the next id, only the author map and counter change, and the store stays well formed when the name was unused |
| Repository.WithNewBooks | src/main/java/com/library/management/service/BookService.java:220 | `saveAll` stores the batch in order under consecutive fresh ids, keeps every earlier book, and touches nothing else |
| Repository.WithNewBooksKeepsWf | src/main/java/com/library/management/service/BookService.java:218-221 | saving a batch whose authors are all stored keeps the store well formed |
| Repository.Store.SaveNewAuthor | src/main/java/com/library/management/service/BookService.java:299-304 | the store afterwards equals `WithNewAuthor` of the store before |
| Repository.Store.SaveNewBook | src/main/java/com/library/management/service/BookService.java:76 | for a book whose author is stored (the foreign key), the store afterwards has the book under the next id |
| Repository.Store.SaveBook | src/main/java/com/library/management/service/BookService.java:121 | for a book whose author is stored, the book under that id is replaced and nothing else changes |
| Repository.Store.SaveAllBooks | src/main/java/com/library/management/service/BookService.java:220 | for a batch whose authors are all stored, the store and the ids afterwards equal `WithNewBooks` of the store before |
| Repository.Store.SaveNewLoan | src/main/java/com/library/management/service/LoanService.java:49 | for a loan whose book and user are stored (the foreign keys), the loan is stored under the next id |
| Repository.Store.SaveLoan | src/main/java/com/library/management/service/LoanService.java:60 | for a loan whose book and user are stored (the foreign keys), the loan under that id is replaced and nothing else changes |
| Catalog.SafeTrim | src/main/java/com/library/management/service/BookService.java:316-318 | `safeTrim` is empty exactly for null or for a value whose every char is ≤ U+0020 |
| Catalog.SafeTrimIsTrimmed | src/main/java/com/library/management/service/BookService.java:269-271 | the result of `safeTrim` is already trimmed |
| Catalog.AfterResolveAuthor | src/main/java/com/library/management/service/BookService.java:298-304 | the result is the stored author of exactly that name. The store is unchanged when one exists; otherwise it is created under the next id. Only authors are added, and the store stays well formed |
| Catalog.AfterProcessRow | src/main/java/com/library/management/service/BookService.java:244-314 | the batch either stays as it is, with the store unchanged, or grows by one book. That book is admissible (available, trimmed, non-empty, not in the store exactly, not in the batch ignoring case) and its author is stored |
| Catalog.ProcessRowSkips | src/main/java/com/library/management/service/BookService.java:250-295 | a blank, short, title-less or author-less row, a row already in the store (exact case) and a row already in the batch (ignoring case) are skipped with no change and no error |
| Catalog.ProcessRowAppends | src/main/java/com/library/management/service/BookService.java:269-311 | any other row appends `Book(trimmed col 0, author, trimmed col 2, available)`. The author is the stored one named by trimmed col 1, created under the next id just before the append if there was none |
| Catalog.ReadRowIsProcessRow | src/main/java/com/library/management/service/BookService.java:192-212 | the loop's own skips of empty and all-blank rows coincide with `processRow`'s |
| Catalog.AfterRows | src/main/java/com/library/management/service/BookService.java:192-214 | the row loop only adds authors, keeps the store well formed, and changes nothing when the batch ends empty |
| Catalog.AfterRowsSnoc | src/main/java/com/library/management/service/BookService.java:192-214 | one more row is one more turn of the loop |
| Catalog.StepKeepsBatchInvariant | src/main/java/com/library/management/service/BookService.java:287-295 | appending a book the in-batch check let through keeps the batch free of duplicates ignoring case |
| Catalog.KeyDiffers | src/main/java/com/library/management/service/BookService.java:288-291 | a book the in-batch check does not match has a different lower-cased (title, author) key |
| Catalog.RowsKeepBatchInvariant | src/main/java/com/library/management/service/BookService.java:281-295 | after any rows, no batch entry is in the store (exact case), every entry is available and trimmed, and no two entries are equal ignoring case |
| Catalog.RowsKeepAuthorsStored | src/main/java/com/library/management/service/BookService.java:298-311 | after any rows, every batch entry's author is stored, so later rows find it |
| Catalog.AfterImport | src/main/java/com/library/management/service/BookService.java:153-187 | the import fails with missing-header, changing nothing, exactly when the header row is absent, empty or has no recognised column, whatever the data rows are |
| Catalog.ImportWithValidHeader | src/main/java/com/library/management/service/BookService.java:189-239 | with a valid header, the import is the row loop, then one `saveAll` only if the batch is non-empty, then the DTOs in batch order |
| Catalog.ImportKeepsWf | src/main/java/com/library/management/service/BookService.java:142-240 | the import keeps the store well formed |
| Catalog.EmptyImportChangesNothing | src/main/java/com/library/management/service/BookService.java:218-224 | an import that returns no books changes nothing: no book saved, no author created |
| Catalog.SavedBatchDtos | src/main/java/com/library/management/service/BookService.java:218-236 | one DTO per saved book, in batch order. Each DTO's id is fresh and its fields are copied from the book now stored under that id. No other book is added |
| Catalog.ImportedBooksAreStored | src/main/java/com/library/management/service/BookService.java:218-236 | every returned DTO is a fresh, stored book copied field by field. No other book is added, and earlier books are untouched |
| Catalog.DtosOfBatch | src/main/java/com/library/management/service/BookService.java:227-236 | the DTOs of a batch keeping the invariant are available, not previously stored, and pairwise different ignoring case |
| Catalog.ImportedBooksAreNew | src/main/java/com/library/management/service/BookService.java:281-295 | every returned book is available and was not in the store (exact case), and no two are equal ignoring case |
| Catalog.AfterSave | src/main/java/com/library/management/service/BookService.java:53-84 | `save` keeps the store well formed |
| Catalog.AfterUpdate | src/main/java/com/library/management/service/BookService.java:87-130 | `update` keeps the store well formed |
| Catalog.MatchImpliesAuthorNamed | src/main/java/com/library/management/service/BookService.java:64 | a title+author match in the store implies a stored author of that name |
| Catalog.SaveFailsIffStored | src/main/java/com/library/management/service/BookService.java:53-67 | `save` fails with already-exists iff the store holds that title with that exact author name. A failing save changes nothing, so no author is created |
| Catalog.SaveStoresAvailableBook | src/main/java/com/library/management/service/BookService.java:69-83 | a successful `save` stores one new available book, with the requested title and genre and the stored author of that name, under a fresh id. The response echoes it. Other books, the users, the loans and the stored authors are unchanged |
| Catalog.UpdateUnknownIdFails | src/main/java/com/library/management/service/BookService.java:90-91 | `update` fails with not-found, changing nothing, iff the id is not stored |
| Catalog.UpdateFailsIffStored | src/main/java/com/library/management/service/BookService.java:94-112 | for a stored id, `update` fails with already-exists iff the store holds that title and author name, the book itself included. A failure changes nothing |
| Catalog.UpdateWithOwnTitleAndAuthorFails | src/main/java/com/library/management/service/BookService.java:101-112 | re-submitting a book's own title and author is refused |
| Catalog.UpdateChangesOnlyThatBook | src/main/java/com/library/management/service/BookService.java:114-129 | a successful `update` replaces title, author and genre of that one book, keeps its availability, and leaves every other book, the users, the loans and the stored authors unchanged. The response reflects the saved book |
| BookServiceImpl.HasValidHeader | src/main/java/com/library/management/service/BookService.java:165-178 | the header loop's flag is true iff some non-null column, trimmed and lower-cased, is one of the ten recognised names |
| BookServiceImpl.AllBlank | src/main/java/com/library/management/service/BookService.java:200-206 | the blank-row loop's flag is true iff every value is null or blank after trimming |
| BookServiceImpl.BookService.ResolveAuthor | src/main/java/com/library/management/service/BookService.java:298-304 | the store and result afterwards are `AfterResolveAuthor` of the store before |
| BookServiceImpl.BookService.ProcessRow | src/main/java/com/library/management/service/BookService.java:244-314 | the store and batch afterwards are `AfterProcessRow` of those before |
| BookServiceImpl.BookService.ReadRow | src/main/java/com/library/management/service/BookService.java:194-212 | one loop turn equals `AfterReadRow` |
| BookServiceImpl.BookService.ReadRows | src/main/java/com/library/management/service/BookService.java:190-214 | the loop over the data rows equals `AfterRows` |
| BookServiceImpl.BookService.SaveBatch | src/main/java/com/library/management/service/BookService.java:218-237 | for a batch whose authors are stored: an empty batch leaves the store unchanged and yields no DTOs; otherwise the store becomes `WithNewBooks` of the store before and the DTOs pair each saved id with its book; the store stays well formed |
| BookServiceImpl.BookService.SaveBooksFromCsv | src/main/java/com/library/management/service/BookService.java:142-240 | the store and result afterwards are `AfterImport` of the store before, and the store stays well formed |
| BookServiceImpl.BookService.Save | src/main/java/com/library/management/service/BookService.java:53-84 | the store and result afterwards are `AfterSave` of the store before |
| BookServiceImpl.BookService.Update | src/main/java/com/library/management/service/BookService.java:87-130 | the store and result afterwards are `AfterUpdate` of the store before |
| Lending.AfterBorrow | src/main/java/com/library/management/service/LoanService.java:32-50 | `borrowBook` keeps the store well formed |
| Lending.AfterReturn | src/main/java/com/library/management/service/LoanService.java:52-61 | `returnBook` keeps the store well formed |
| Lending.CalculateFine | src/main/java/com/library/management/service/LoanService.java:63-69 | the fine is zero iff the loan is unreturned or returned on or before its due date |
| Lending.BorrowFailsIffRefused | src/main/java/com/library/management/service/LoanService.java:33-38 | `borrowBook` fails iff the book or user is unknown or the book is unavailable. The errors come in that order, and a failure changes nothing |
| Lending.BorrowEffects | src/main/java/com/library/management/service/LoanService.java:40-49 | a granted borrow marks the book unavailable and stores a fresh loan of that book and user, from today, due today + 15, unreturned. Nothing else changes |
| Lending.BorrowOpensLoan | src/main/java/com/library/management/service/LoanService.java:43-49 | a granted borrow adds exactly its new loan to the active loans |
| Lending.ReturnUnknownLoanFails | src/main/java/com/library/management/service/LoanService.java:53 | `returnBook` fails with not-found, changing nothing, iff the loan is unknown |
| Lending.ReturnEffects | src/main/java/com/library/management/service/LoanService.java:54-60 | a return sets the loan's return date to today, even if it was already set, and marks its book available. Nothing else changes |
| Lending.ReturnClosesLoan | src/main/java/com/library/management/service/LoanService.java:54 | a return removes its loan from the active loans |
| Lending.BorrowThenReturnRestoresBooks | src/main/java/com/library/management/service/LoanService.java:40-60 | returning the loan a borrow created restores the book table exactly, leaving the book available again, and closes the loan on the return day |
| Lending.BorrowThenReturnRestoresActiveLoans | src/main/java/com/library/management/service/LoanService.java:43-60 | returning the loan a borrow created restores the set of active loans |
| Lending.FineOfLateReturn | src/main/java/com/library/management/service/LoanService.java:64-66 | a late return costs 50 cents per day past the due date |
| Lending.FineGrowsWithLateness | src/main/java/com/library/management/service/LoanService.java:63-68 | the fine never decreases as the return date moves later |
| Lending.FineThreeDaysLate | src/main/java/com/library/management/service/LoanService.java:30 | three days late costs 150 cents (1.50) |
| Lending.OpenLoanKeepsAvailabilityMatchesLoans | src/main/java/com/library/management/service/LoanService.java:40-49 | opening a loan on an available book, and marking it unavailable, keeps "unavailable iff actively loaned, at most one active loan per book" |
| Lending.BorrowKeepsAvailabilityMatchesLoans | src/main/java/com/library/management/service/LoanService.java:32-50 | `borrowBook` keeps that invariant |
| Lending.CloseLoanKeepsAvailabilityMatchesLoans | src/main/java/com/library/management/service/LoanService.java:54-60 | closing an active loan, and marking its book available, keeps that invariant |
| Lending.ReturnActiveKeepsAvailabilityMatchesLoans | src/main/java/com/library/management/service/LoanService.java:52-61 | `returnBook` of an active loan keeps that invariant |
| Lending.DoubleReturnBreaksAvailability | src/main/java/com/library/management/service/LoanService.java:52-61 | returning an already-returned loan is accepted and can mark a book available while it is actively loaned |
| Lending.LoanService.BorrowBook | src/main/java/com/library/management/service/LoanService.java:32-50 | the store and result afterwards are `AfterBorrow` of the store before |
| Lending.LoanService.ReturnBook | src/main/java/com/library/management/service/LoanService.java:52-61 | the store and result afterwards are `AfterReturn` of the store before |
| Reimport.TwoRows | src/main/java/com/library/management/service/BookService.java:192-214 | two data rows are `processRow` on the first, then a loop turn on the second |
| Reimport.VariantMatches | src/main/java/com/library/management/service/BookService.java:288-291 | a batch book titled `lower` blocks a row titled `upper` when the two are equal ignoring case |
| Reimport.FirstPassKeepsLower | src/main/java/com/library/management/service/BookService.java:281-311 | a file of two case variants, read into a store holding neither, keeps only the first |
| Reimport.SecondPassKeepsUpper | src/main/java/com/library/management/service/BookService.java:281-311 | read into a store holding only the first variant, the same file keeps only the second |
| Reimport.FirstImportStoresLowerOnly | src/main/java/com/library/management/service/BookService.java:218-221 | after the first import the store holds the first variant and still not the second (exact case) |
| Reimport.ReimportAddsCaseVariant | src/main/java/com/library/management/service/BookService.java:142-314 | importing such a file twice returns one book each time, first one variant and then the other: the second import is not empty |
| Reimport.DuneImportedTwice | src/main/java/com/library/management/service/BookService.java:142-314 | the same with "Dune" and "DUNE" by "Herbert", imported twice into an empty store |
| Reimport.FirstImportOfOneRow | src/main/java/com/library/management/service/BookService.java:142-314 | a header and one usable row whose book the store does not hold: the import returns exactly that book, and afterwards the store holds it |
| Reimport.SecondImportOfOneRow | src/main/java/com/library/management/service/BookService.java:281-285 | a header and one row whose book the store already holds (exact case): the import returns no book and changes nothing |
| Reimport.ImportOneRowTwice | src/main/java/com/library/management/service/BookService.java:142-314 | a one-book file imported twice: the first import adds that book, and the second returns nothing and leaves the store as the first left it |
| Reimport.DuneImportedThenSkipped | src/main/java/com/library/management/service/BookService.java:142-314 | "Dune;Frank Herbert;SciFi" under a header, imported twice into an empty store: one book the first time, none the second |

## Left out

- CSV tokenising (separator, quoting, escaping) and UTF-8 decoding of the upload (BookService.java:145-153). The input is an already-split sequence of rows.
- Persistence semantics. The repositories are maps, with ids from one shared counter. `@Transactional` rollback is not modelled, and each operation is atomic.
- JPA entity identity. A Book embeds a copy of its Author (id and name), and a Loan refers to its book and user by id. The Book, Loan and User entity classes are not part of this model. Nor are the AuthorRepository, BookRepository and UserRepository interfaces, beyond the queries named above.
- `findByName` when several authors share a name. Spring Data's `Optional<Author> findByName` then raises a non-unique-result error, which aborts save, update or import. Such duplicates can arise in two ways. One is `AuthorController.createAuthor`/`updateAuthor` (src/main/java/com/library/management/controller/AuthorController.java:30-43), which is not modelled. The other is two concurrent find-or-create calls: `save` and `update` are not `@Transactional`, and Author.java puts no unique constraint on `name`. The model's atomic operations exclude this case. The uniqueness of author names in the store invariant is therefore an assumption; every modelled operation preserves it, and under it the lookup is a deterministic scan.
- The case sensitivity of `existsByTitleAndAuthor_Name`. It is a Spring Data derived query. The BookRepository shown does not declare it, and AuthorRepository is not part of this model. The model reads it as exact-case equality, but the real comparison depends on the database collation. Under a case-insensitive collation the store check would also catch case variants, and `Reimport.ReimportAddsCaseVariant` and `Reimport.DuneImportedTwice` would not hold.
- Floating point: the fine is in integer cents (0.50 × days = 50 × days cents).
- The clock. `LocalDate.now()` becomes a `today` day number, and `ChronoUnit.DAYS.between` becomes integer subtraction. The source reads the clock twice in `borrowBook` (lines 46-47), and the model uses one day for both dates.
- Unicode case mapping. `toLowerCase` and `equalsIgnoreCase` are modelled on ASCII letters only. `trim` is exact.
- Logging, the `row` counter (used only in log messages), and the exception messages. Errors are datatype values carrying the offending data.
- `findAll`, `findBookById`, `deleteById` and `searchBooks` only delegate to the repository, and `searchBooks` is a JPQL query. The controllers, security configuration and exception handler are web plumbing. `findActiveLoans` is the filter `Lending.ActiveLoans`, a plain definition whose properties are stated by `Lending.BorrowOpensLoan`, `Lending.ReturnClosesLoan` and `Lending.BorrowThenReturnRestoresActiveLoans`; and `findMostLoanedBooks` is not modelled.
- Lending.AfterReturn: requires the store invariant, so a loan's book is stored. The source relies on the database's foreign key for this.
- Catalog.AfterSave, Catalog.AfterUpdate, Lending.AfterBorrow and Lending.AfterReturn: their own contracts state only that the store stays well formed. What they compute is stated by the lemmas beside them in this table.
