/** The JPA entities the two services touch. Ids live in the store's maps, not in
    the values, except for Author: a Book embeds its Author (id and name), as the
    Java Book object references its Author object. */
module Model {
  import opened Wrappers

  datatype Author = Author(id: nat, name: string)

  datatype Book = Book(title: string, author: Author, genre: string, available: bool)

  datatype User = User(name: string)

  /** Dates are day numbers; `returnDate` is None while the loan is active. */
  datatype Loan = Loan(book: nat, user: nat, loanDate: int, dueDate: int, returnDate: Option<int>)

  predicate IsActive(loan: Loan) {
    loan.returnDate.None?
  }
}
