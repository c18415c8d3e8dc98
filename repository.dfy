/** The Spring Data repositories, replaced by an in-memory store: one map from id
    to entity per table and one id counter shared by all inserts. */
module Repository {
  import opened Wrappers
  import opened Model

  datatype State = State(
    books: map<nat, Book>,
    authors: map<nat, Author>,
    users: map<nat, User>,
    loans: map<nat, Loan>,
    nextId: nat)

  /** Referential integrity as the database keeps it, fresh ids above every key,
      and author names unique (every modelled path creates an author only after
      looking its name up). */
  predicate Wf(s: State) {
    (forall k :: k in s.authors ==> k < s.nextId && s.authors[k].id == k)
    && (forall k :: k in s.books ==> k < s.nextId && AuthorStored(s, s.books[k].author))
    && (forall k :: k in s.users ==> k < s.nextId)
    && (forall k :: k in s.loans ==> k < s.nextId && s.loans[k].book in s.books && s.loans[k].user in s.users)
    && UniqueAuthorNames(s.authors)
  }

  predicate AuthorStored(s: State, a: Author) {
    a.id in s.authors && s.authors[a.id] == a
  }

  predicate UniqueAuthorNames(authors: map<nat, Author>) {
    forall j, k :: j in authors && k in authors && authors[j].name == authors[k].name ==> j == k
  }

  /** The id of an author named `name` among the ids below `n`. */
  function AuthorIdBelow(authors: map<nat, Author>, name: string, n: nat): (r: Option<nat>)
    ensures r.Some? ==> r.value < n && r.value in authors && authors[r.value].name == name
    ensures r.None? ==> forall k :: k in authors && k < n ==> authors[k].name != name
  {
    if n == 0 then None
    else if n - 1 in authors && authors[n - 1].name == name then Some(n - 1)
    else AuthorIdBelow(authors, name, n - 1)
  }

  /** AuthorRepository.findByName: the stored author with exactly this name, if any. */
  function FindAuthorByName(s: State, name: string): (r: Option<Author>)
    requires Wf(s)
    ensures r.Some? ==> AuthorStored(s, r.value) && r.value.name == name
    ensures r.None? ==> forall k :: k in s.authors ==> s.authors[k].name != name
  {
    match AuthorIdBelow(s.authors, name, s.nextId)
    case Some(k) => Some(s.authors[k])
    case None => None
  }

  /** BookRepository.existsByTitleAndAuthor_Name: an exact (case-sensitive) match. */
  predicate ExistsByTitleAndAuthorName(s: State, title: string, authorName: string) {
    exists k :: k in s.books && s.books[k].title == title && s.books[k].author.name == authorName
  }

  /** AuthorRepository.save of a new author: it gets the next id. */
  function WithNewAuthor(s: State, name: string): (r: (State, Author))
    ensures r.1 == Author(s.nextId, name) && AuthorStored(r.0, r.1)
    ensures r.0 == s.(authors := s.authors[s.nextId := r.1], nextId := s.nextId + 1)
    ensures Wf(s) && (forall k :: k in s.authors ==> s.authors[k].name != name) ==> Wf(r.0)
  {
    var a := Author(s.nextId, name);
    (s.(authors := s.authors[s.nextId := a], nextId := s.nextId + 1), a)
  }

  /** BookRepository.save of a new book: it gets the next id. */
  function WithNewBook(s: State, b: Book): (r: (State, nat))
  {
    (s.(books := s.books[s.nextId := b], nextId := s.nextId + 1), s.nextId)
  }

  /** BookRepository.saveAll: the batch is inserted in order, under consecutive fresh ids. */
  function WithNewBooks(s: State, batch: seq<Book>): (r: (State, seq<nat>))
    ensures |r.1| == |batch| && r.0.nextId == s.nextId + |batch|
    ensures forall i :: 0 <= i < |batch| ==> r.1[i] == s.nextId + i
    ensures forall i :: 0 <= i < |batch| ==> r.1[i] in r.0.books && r.0.books[r.1[i]] == batch[i]
    ensures forall k :: k in r.0.books <==> k in s.books || s.nextId <= k < s.nextId + |batch|
    ensures forall k :: k in s.books && k < s.nextId ==> r.0.books[k] == s.books[k]
    ensures r.0.authors == s.authors && r.0.users == s.users && r.0.loans == s.loans
    decreases |batch|
  {
    if |batch| == 0 then (s, [])
    else
      var (s1, id) := WithNewBook(s, batch[0]);
      var (s2, ids) := WithNewBooks(s1, batch[1..]);
      (s2, [id] + ids)
  }

  /** Saving a batch whose authors are all stored keeps the store well formed. */
  lemma {:induction false} WithNewBooksKeepsWf(s: State, batch: seq<Book>)
    requires Wf(s)
    requires forall i :: 0 <= i < |batch| ==> AuthorStored(s, batch[i].author)
    ensures Wf(WithNewBooks(s, batch).0)
    decreases |batch|
  {
    if |batch| > 0 {
      var s1 := WithNewBook(s, batch[0]).0;
      assert Wf(s1);
      forall i | 0 <= i < |batch[1..]| ensures AuthorStored(s1, batch[1..][i].author) {
        assert batch[1..][i] == batch[i + 1];
      }
      WithNewBooksKeepsWf(s1, batch[1..]);
    }
  }

  /** LoanRepository.save of a new loan: it gets the next id. */
  function WithNewLoan(s: State, loan: Loan): (r: (State, nat))
  {
    (s.(loans := s.loans[s.nextId := loan], nextId := s.nextId + 1), s.nextId)
  }

  /** The store the services share: the repositories' tables, updated in place. */
  class Store {
    var books: map<nat, Book>
    var authors: map<nat, Author>
    var users: map<nat, User>
    var loans: map<nat, Loan>
    var nextId: nat

    function Snapshot(): State
      reads this
    {
      State(books, authors, users, loans, nextId)
    }

    ghost predicate Valid()
      reads this
    {
      Wf(Snapshot())
    }

    constructor (users: map<nat, User>, nextId: nat)
      requires forall k :: k in users ==> k < nextId
      ensures Valid()
      ensures Snapshot() == State(map[], map[], users, map[], nextId)
    {
      this.books := map[];
      this.authors := map[];
      this.users := users;
      this.loans := map[];
      this.nextId := nextId;
    }

    method SaveNewAuthor(name: string) returns (a: Author)
      modifies this
      ensures (Snapshot(), a) == WithNewAuthor(old(Snapshot()), name)
    {
      a := Author(nextId, name);
      authors := authors[nextId := a];
      nextId := nextId + 1;
    }

    /** The database's foreign key refuses a book whose author is not stored. */
    method SaveNewBook(b: Book) returns (id: nat)
      requires AuthorStored(Snapshot(), b.author)
      modifies this
      ensures (Snapshot(), id) == WithNewBook(old(Snapshot()), b)
    {
      id := nextId;
      books := books[id := b];
      nextId := nextId + 1;
    }

    /** BookRepository.save of a book that already has an id: it is overwritten. */
    method SaveBook(id: nat, b: Book)
      requires AuthorStored(Snapshot(), b.author)
      modifies this
      ensures Snapshot() == old(Snapshot()).(books := old(books)[id := b])
    {
      books := books[id := b];
    }

    method SaveAllBooks(batch: seq<Book>) returns (ids: seq<nat>)
      requires forall i :: 0 <= i < |batch| ==> AuthorStored(Snapshot(), batch[i].author)
      modifies this
      ensures (Snapshot(), ids) == WithNewBooks(old(Snapshot()), batch)
    {
      var r := WithNewBooks(Snapshot(), batch);
      books, nextId, ids := r.0.books, r.0.nextId, r.1;
    }

    /** The foreign keys refuse a loan whose book or user is not stored. */
    method SaveNewLoan(loan: Loan) returns (id: nat)
      requires loan.book in books && loan.user in users
      modifies this
      ensures (Snapshot(), id) == WithNewLoan(old(Snapshot()), loan)
    {
      id := nextId;
      loans := loans[id := loan];
      nextId := nextId + 1;
    }

    /** LoanRepository.save of a loan that already has an id: it is overwritten. */
    method SaveLoan(id: nat, loan: Loan)
      requires loan.book in books && loan.user in users
      modifies this
      ensures Snapshot() == old(Snapshot()).(loans := old(loans)[id := loan])
    {
      loans := loans[id := loan];
    }
  }
}
