/** LoanService: the borrow and return transitions over a book's availability
    flag and its loans, and the overdue fine. "Today" is a parameter, a day
    number; the fine is in whole cents. */
module Lending {
  import opened Wrappers
  import opened Model
  import opened Repository

  /** A loan is due this many days after it starts. */
  const LoanDays: int := 15

  /** 0.50 per overdue day, in cents. */
  const FinePerDayCents: nat := 50

  /** The source raises untyped runtime errors with these four messages. */
  datatype LoanError =
    | BookNotFound(bookId: nat)
    | UserNotFound(userId: nat)
    | BookNotAvailable(bookId: nat)
    | LoanNotFound(loanId: nat)

  /** borrowBook: both ids must be known and the book available; the book is then
      marked unavailable and a new active loan, due in LoanDays days, is saved. */
  function AfterBorrow(s: State, bookId: nat, userId: nat, today: int): (r: (State, Result<(nat, Loan), LoanError>))
    requires Wf(s)
    ensures Wf(r.0)
  {
    if bookId !in s.books then (s, Failure(BookNotFound(bookId)))
    else if userId !in s.users then (s, Failure(UserNotFound(userId)))
    else if !s.books[bookId].available then (s, Failure(BookNotAvailable(bookId)))
    else
      var s1 := s.(books := s.books[bookId := s.books[bookId].(available := false)]);
      var loan := Loan(bookId, userId, today, today + LoanDays, None);
      var (s2, id) := WithNewLoan(s1, loan);
      (s2, Success((id, loan)))
  }

  /** returnBook: the loan must be known; its return date becomes today, whatever
      it was, and its book is marked available. */
  function AfterReturn(s: State, loanId: nat, today: int): (r: (State, Result<(nat, Loan), LoanError>))
    requires Wf(s)
    ensures Wf(r.0)
  {
    if loanId !in s.loans then (s, Failure(LoanNotFound(loanId)))
    else
      var loan := s.loans[loanId].(returnDate := Some(today));
      var s1 := s.(books := s.books[loan.book := s.books[loan.book].(available := true)]);
      (s1.(loans := s1.loans[loanId := loan]), Success((loanId, loan)))
  }

  /** calculateFine, in cents: nothing for an active loan or one returned on or
      before its due date, FinePerDayCents for each day after it otherwise. */
  function CalculateFine(loan: Loan): (cents: nat)
    ensures cents == 0 <==> loan.returnDate.None? || loan.returnDate.value <= loan.dueDate
  {
    if loan.returnDate.Some? && loan.returnDate.value > loan.dueDate then
      (loan.returnDate.value - loan.dueDate) * FinePerDayCents
    else 0
  }

  /** findActiveLoans: the loans with no return date. */
  function ActiveLoans(s: State): set<nat>
  {
    set k | k in s.loans && IsActive(s.loans[k])
  }

  // ---- borrowBook ----

  /** The checks come in the source's order, and a refused borrow changes nothing. */
  lemma BorrowFailsIffRefused(s: State, bookId: nat, userId: nat, today: int)
    requires Wf(s)
    ensures var r := AfterBorrow(s, bookId, userId, today);
      && (r.1.Failure? <==> bookId !in s.books || userId !in s.users || !s.books[bookId].available)
      && (r.1.Failure? ==> r.0 == s)
      && (bookId !in s.books ==> r.1 == Failure(BookNotFound(bookId)))
      && (bookId in s.books && userId !in s.users ==> r.1 == Failure(UserNotFound(userId)))
      && (bookId in s.books && userId in s.users && !s.books[bookId].available ==> r.1 == Failure(BookNotAvailable(bookId)))
  {
  }

  /** A granted borrow: the book is now unavailable, a fresh active loan due
      LoanDays days from today is stored, and nothing else changes. */
  lemma BorrowEffects(s: State, bookId: nat, userId: nat, today: int)
    requires Wf(s)
    requires AfterBorrow(s, bookId, userId, today).1.Success?
    ensures var (s', r) := AfterBorrow(s, bookId, userId, today);
      var (id, loan) := r.value;
      && id !in s.loans
      && loan == Loan(bookId, userId, today, today + LoanDays, None)
      && s'.loans == s.loans[id := loan]
      && s'.books == s.books[bookId := s.books[bookId].(available := false)]
      && s'.authors == s.authors && s'.users == s.users
  {
  }

  /** A granted borrow adds exactly its new loan to the active loans. */
  lemma BorrowOpensLoan(s: State, bookId: nat, userId: nat, today: int)
    requires Wf(s)
    requires AfterBorrow(s, bookId, userId, today).1.Success?
    ensures var r := AfterBorrow(s, bookId, userId, today);
      ActiveLoans(r.0) == ActiveLoans(s) + {r.1.value.0}
  {
    BorrowEffects(s, bookId, userId, today);
    var r := AfterBorrow(s, bookId, userId, today);
    assert r.0.loans[r.1.value.0] == r.1.value.1;
  }

  // ---- returnBook ----

  /** An unknown loan id is refused and changes nothing. */
  lemma ReturnUnknownLoanFails(s: State, loanId: nat, today: int)
    requires Wf(s)
    ensures AfterReturn(s, loanId, today).1.Failure? <==> loanId !in s.loans
    ensures loanId !in s.loans ==> AfterReturn(s, loanId, today) == (s, Failure(LoanNotFound(loanId)))
  {
  }

  /** A return stamps today's date on the loan, whether or not it was already
      returned, marks its book available, and changes nothing else. */
  lemma ReturnEffects(s: State, loanId: nat, today: int)
    requires Wf(s)
    requires loanId in s.loans
    ensures var (s', r) := AfterReturn(s, loanId, today);
      var before := s.loans[loanId];
      && r == Success((loanId, before.(returnDate := Some(today))))
      && s'.loans == s.loans[loanId := before.(returnDate := Some(today))]
      && s'.books == s.books[before.book := s.books[before.book].(available := true)]
      && s'.authors == s.authors && s'.users == s.users && s'.nextId == s.nextId
  {
  }

  /** A return removes its loan from the active loans, if it was there. */
  lemma ReturnClosesLoan(s: State, loanId: nat, today: int)
    requires Wf(s)
    ensures ActiveLoans(AfterReturn(s, loanId, today).0) == ActiveLoans(s) - {loanId}
  {
    var s' := AfterReturn(s, loanId, today).0;
    if loanId in s.loans {
      assert !IsActive(s'.loans[loanId]);
    }
  }

  /** Returning the loan a borrow just created puts the book table back exactly
      as it was and leaves the loan closed on the return day. */
  lemma BorrowThenReturnRestoresBooks(s: State, bookId: nat, userId: nat, day: int, later: int)
    requires Wf(s)
    requires AfterBorrow(s, bookId, userId, day).1.Success?
    ensures var borrowed := AfterBorrow(s, bookId, userId, day);
      var returned := AfterReturn(borrowed.0, borrowed.1.value.0, later);
      && returned.0.books == s.books
      && returned.1 == Success((borrowed.1.value.0, Loan(bookId, userId, day, day + LoanDays, Some(later))))
  {
    var borrowed := AfterBorrow(s, bookId, userId, day);
    BorrowEffects(s, bookId, userId, day);
    var id := borrowed.1.value.0;
    assert borrowed.0.loans[id].book == bookId;
    ReturnEffects(borrowed.0, id, later);
    ReopenRestores(s.books, bookId);
  }

  /** Marking an available book unavailable and then available again is no change. */
  lemma ReopenRestores(books: map<nat, Book>, bookId: nat)
    requires bookId in books && books[bookId].available
    ensures var closed := books[bookId := books[bookId].(available := false)];
      closed[bookId := closed[bookId].(available := true)] == books
  {
  }

  /** ... and leaves the set of active loans as it was before the borrow. */
  lemma BorrowThenReturnRestoresActiveLoans(s: State, bookId: nat, userId: nat, day: int, later: int)
    requires Wf(s)
    requires AfterBorrow(s, bookId, userId, day).1.Success?
    ensures var borrowed := AfterBorrow(s, bookId, userId, day);
      ActiveLoans(AfterReturn(borrowed.0, borrowed.1.value.0, later).0) == ActiveLoans(s)
  {
    var borrowed := AfterBorrow(s, bookId, userId, day);
    BorrowEffects(s, bookId, userId, day);
    BorrowOpensLoan(s, bookId, userId, day);
    ReturnClosesLoan(borrowed.0, borrowed.1.value.0, later);
  }

  // ---- calculateFine ----

  /** A late return costs FinePerDayCents for each day past the due date. */
  lemma FineOfLateReturn(loan: Loan, day: int)
    requires day > loan.dueDate
    ensures CalculateFine(loan.(returnDate := Some(day))) == FinePerDayCents * (day - loan.dueDate)
  {
  }

  /** The later a loan comes back, the larger (never smaller) its fine. */
  lemma FineGrowsWithLateness(loan: Loan, day1: int, day2: int)
    requires day1 <= day2
    ensures CalculateFine(loan.(returnDate := Some(day1))) <= CalculateFine(loan.(returnDate := Some(day2)))
  {
    if day1 > loan.dueDate {
      FineOfLateReturn(loan, day1);
      FineOfLateReturn(loan, day2);
    }
  }

  /** Three days late costs 1.50, i.e. 150 cents. */
  lemma FineThreeDaysLate()
    ensures CalculateFine(Loan(0, 0, 0, 15, Some(18))) == 150
  {
  }

  // ---- availability and active loans ----

  predicate HasActiveLoan(s: State, bookId: nat) {
    exists k :: k in s.loans && IsActive(s.loans[k]) && s.loans[k].book == bookId
  }

  /** The state the two transitions are meant to keep: a book is unavailable
      exactly when an active loan holds it, and no book has two active loans. */
  predicate AvailabilityMatchesLoans(s: State) {
    && (forall b :: b in s.books ==> (s.books[b].available <==> !HasActiveLoan(s, b)))
    && (forall j, k ::
          (j in s.loans && k in s.loans && IsActive(s.loans[j]) && IsActive(s.loans[k])
           && s.loans[j].book == s.loans[k].book) ==> j == k)
  }

  /** Opening a loan on an available, otherwise unloaned book and marking it
      unavailable keeps the invariant. */
  lemma OpenLoanKeepsAvailabilityMatchesLoans(s: State, s': State, id: nat, loan: Loan)
    requires AvailabilityMatchesLoans(s)
    requires id !in s.loans && IsActive(loan)
    requires loan.book in s.books && s.books[loan.book].available
    requires s'.loans == s.loans[id := loan]
    requires s'.books == s.books[loan.book := s.books[loan.book].(available := false)]
    ensures AvailabilityMatchesLoans(s')
  {
    forall b | b in s'.books
      ensures s'.books[b].available <==> !HasActiveLoan(s', b)
    {
      if b == loan.book {
        assert s'.loans[id] == loan;
      } else {
        if HasActiveLoan(s', b) {
          var k :| k in s'.loans && IsActive(s'.loans[k]) && s'.loans[k].book == b;
          assert s.loans[k] == s'.loans[k];
        }
        if HasActiveLoan(s, b) {
          var k :| k in s.loans && IsActive(s.loans[k]) && s.loans[k].book == b;
          assert s'.loans[k] == s.loans[k];
        }
      }
    }
  }

  lemma BorrowKeepsAvailabilityMatchesLoans(s: State, bookId: nat, userId: nat, today: int)
    requires Wf(s) && AvailabilityMatchesLoans(s)
    ensures AvailabilityMatchesLoans(AfterBorrow(s, bookId, userId, today).0)
  {
    var (s', r) := AfterBorrow(s, bookId, userId, today);
    if r.Success? {
      BorrowEffects(s, bookId, userId, today);
      OpenLoanKeepsAvailabilityMatchesLoans(s, s', r.value.0, r.value.1);
    }
  }

  /** Closing an active loan and marking its book available keeps the invariant. */
  lemma CloseLoanKeepsAvailabilityMatchesLoans(s: State, s': State, id: nat, day: int)
    requires AvailabilityMatchesLoans(s)
    requires id in s.loans && IsActive(s.loans[id]) && s.loans[id].book in s.books
    requires s'.loans == s.loans[id := s.loans[id].(returnDate := Some(day))]
    requires s'.books == s.books[s.loans[id].book := s.books[s.loans[id].book].(available := true)]
    ensures AvailabilityMatchesLoans(s')
  {
    forall b | b in s'.books
      ensures s'.books[b].available <==> !HasActiveLoan(s', b)
    {
      if HasActiveLoan(s', b) {
        var k :| k in s'.loans && IsActive(s'.loans[k]) && s'.loans[k].book == b;
        assert k != id && s.loans[k] == s'.loans[k];
      }
      if b != s.loans[id].book && HasActiveLoan(s, b) {
        var k :| k in s.loans && IsActive(s.loans[k]) && s.loans[k].book == b;
        assert s'.loans[k] == s.loans[k];
      }
    }
  }

  /** Returning an active loan keeps the invariant. */
  lemma ReturnActiveKeepsAvailabilityMatchesLoans(s: State, loanId: nat, today: int)
    requires Wf(s) && AvailabilityMatchesLoans(s)
    requires loanId in s.loans ==> IsActive(s.loans[loanId])
    ensures AvailabilityMatchesLoans(AfterReturn(s, loanId, today).0)
  {
    if loanId in s.loans {
      ReturnEffects(s, loanId, today);
      CloseLoanKeepsAvailabilityMatchesLoans(s, AfterReturn(s, loanId, today).0, loanId, today);
    }
  }

  /** Returning a loan twice is accepted, and reopens the book while another
      member's later loan of it is still active. */
  lemma DoubleReturnBreaksAvailability()
    ensures var author := Author(1, "a");
      var s := State(
        map[0 := Book("t", author, "g", false)],
        map[1 := author],
        map[2 := User("u"), 5 := User("v")],
        map[3 := Loan(0, 2, 0, 15, Some(5)), 4 := Loan(0, 5, 10, 25, None)],
        6);
      && Wf(s) && AvailabilityMatchesLoans(s)
      && AfterReturn(s, 3, 20).1.Success?
      && !AvailabilityMatchesLoans(AfterReturn(s, 3, 20).0)
  {
    var author := Author(1, "a");
    var s := State(
      map[0 := Book("t", author, "g", false)],
      map[1 := author],
      map[2 := User("u"), 5 := User("v")],
      map[3 := Loan(0, 2, 0, 15, Some(5)), 4 := Loan(0, 5, 10, 25, None)],
      6);
    assert HasActiveLoan(s, 0) by { assert IsActive(s.loans[4]); }
    var s' := AfterReturn(s, 3, 20).0;
    assert s'.books[0].available;
    assert HasActiveLoan(s', 0) by { assert s'.loans[4] == s.loans[4]; }
  }

  /** The service over the shared store. */
  class LoanService {
    const store: Store

    constructor(store: Store)
      ensures this.store == store
    {
      this.store := store;
    }

    method BorrowBook(bookId: nat, userId: nat, today: int) returns (r: Result<(nat, Loan), LoanError>)
      requires store.Valid()
      modifies store
      ensures store.Valid()
      ensures (store.Snapshot(), r) == AfterBorrow(old(store.Snapshot()), bookId, userId, today)
    {
      if bookId !in store.books {
        return Failure(BookNotFound(bookId));
      }
      var book := store.books[bookId];
      if userId !in store.users {
        return Failure(UserNotFound(userId));
      }
      if !book.available {
        return Failure(BookNotAvailable(bookId));
      }
      store.SaveBook(bookId, book.(available := false));
      var loan := Loan(bookId, userId, today, today + LoanDays, None);
      var id := store.SaveNewLoan(loan);
      r := Success((id, loan));
    }

    method ReturnBook(loanId: nat, today: int) returns (r: Result<(nat, Loan), LoanError>)
      requires store.Valid()
      modifies store
      ensures store.Valid()
      ensures (store.Snapshot(), r) == AfterReturn(old(store.Snapshot()), loanId, today)
    {
      if loanId !in store.loans {
        return Failure(LoanNotFound(loanId));
      }
      var loan := store.loans[loanId].(returnDate := Some(today));
      var book := store.books[loan.book];
      store.SaveBook(loan.book, book.(available := true));
      store.SaveLoan(loanId, loan);
      r := Success((loanId, loan));
    }
  }
}
