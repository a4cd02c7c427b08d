/** Entities of the library catalogue: books, members, loans and the mails the
    notification tasks send. Dates are whole day numbers; the wall clock is
    always passed in as a `today` parameter. */
module Models {

  datatype Option<T> = None | Some(value: T)

  type BookId = int
  type MemberId = int
  type LoanId = nat

  /** A book as the loan operations see it: its title (used in mails) and the
      counter of copies that are not on loan. */
  datatype Book = Book(title: string, availableCopies: int)

  /** A member wraps a user identity; mails go to the user's address. */
  datatype Member = Member(username: string, email: string)

  /** A loan of one book to one member. `returnDay` is the nullable return date. */
  datatype Loan = Loan(
    id: LoanId,
    book: BookId,
    member: MemberId,
    dueDay: int,
    isReturned: bool,
    returnDay: Option<int>)

  /** One mail handed to the mail sender. The body text and the sender address
      are not modelled; the body's book title is. */
  datatype Mail = Mail(subject: string, recipients: seq<string>, username: string, bookTitle: string)

  /** Overdue is derived from the clock, never stored: due strictly before
      today and not yet returned. */
  predicate IsOverdue(l: Loan, today: int) {
    l.dueDay < today && !l.isReturned
  }

  /** Every loan refers to a stored book and a stored member (the store's
      foreign keys guarantee this). */
  predicate Linked(books: map<BookId, Book>, members: map<MemberId, Member>, loans: seq<Loan>) {
    forall l :: l in loans ==> l.book in books && l.member in members
  }
}
