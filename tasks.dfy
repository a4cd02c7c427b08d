/** The two background tasks: the loan confirmation mail sent for one loan id,
    and the periodic scan that mails every member holding an overdue loan. */
module Tasks {
  import opened Models
  import Utils

  const LoanedSubject: string := "Book Loaned Successfully"
  const OverdueSubject: string := "Overdue Book Loan Notice"

  /** Fetch by primary key: the first loan carrying `id`, or nothing. */
  function FindLoan(loans: seq<Loan>, id: LoanId): (r: Option<Loan>)
    ensures r.Some? ==> r.value in loans && r.value.id == id
    ensures r.None? <==> forall l :: l in loans ==> l.id != id
  {
    if loans == [] then None
    else if loans[0].id == id then Some(loans[0])
    else FindLoan(loans[1..], id)
  }

  /** The confirmation mail for a loan, addressed to its member alone. */
  function ConfirmationMail(books: map<BookId, Book>, members: map<MemberId, Member>, l: Loan): Mail
    requires l.book in books && l.member in members
  {
    Mail(LoanedSubject, [members[l.member].email], members[l.member].username, books[l.book].title)
  }

  /** The confirmation task: the mails it sends (none when the loan is gone). */
  function SendLoanNotification(books: map<BookId, Book>, members: map<MemberId, Member>,
                                loans: seq<Loan>, loanId: LoanId): (sent: seq<Mail>)
    requires Linked(books, members, loans)
    ensures |sent| <= 1
    ensures sent == [] <==> forall l :: l in loans ==> l.id != loanId
    ensures sent != [] ==> sent[0].subject == LoanedSubject
    ensures sent != [] ==> exists l :: l in loans && l.id == loanId &&
                                       sent[0].recipients == [members[l.member].email] &&
                                       sent[0].bookTitle == books[l.book].title
  {
    match FindLoan(loans, loanId)
    case None => []
    case Some(l) => [ConfirmationMail(books, members, l)]
  }

  /** The scan's query: the loans due before today and not returned, in store order. */
  function OverdueLoans(loans: seq<Loan>, today: int): (r: seq<Loan>)
    ensures |r| <= |loans|
    ensures forall l :: l in r <==> l in loans && IsOverdue(l, today)
  {
    if loans == [] then []
    else
      var last := loans[|loans| - 1];
      OverdueLoans(loans[..|loans| - 1], today) + (if IsOverdue(last, today) then [last] else [])
  }

  /** The overdue notice for one loan, addressed to its member alone. */
  function OverdueNotice(books: map<BookId, Book>, members: map<MemberId, Member>, l: Loan): Mail
    requires l.book in books && l.member in members
  {
    Mail(OverdueSubject, [members[l.member].email], members[l.member].username, books[l.book].title)
  }

  /** The mails one run of the scan sends, one per loan in the order met. */
  function OverdueNotices(books: map<BookId, Book>, members: map<MemberId, Member>,
                          loans: seq<Loan>, today: int): (sent: seq<Mail>)
    requires Linked(books, members, loans)
    ensures |sent| == |OverdueLoans(loans, today)|
    ensures forall k :: 0 <= k < |sent| ==> sent[k].subject == OverdueSubject && |sent[k].recipients| == 1
  {
    if loans == [] then []
    else
      var last := loans[|loans| - 1];
      OverdueNotices(books, members, loans[..|loans| - 1], today) +
        (if IsOverdue(last, today) then [OverdueNotice(books, members, last)] else [])
  }

  /** The scan task: one query, then one mail per loan found. */
  method CheckOverdueLoans(books: map<BookId, Book>, members: map<MemberId, Member>,
                           loans: seq<Loan>, today: int) returns (sent: seq<Mail>)
    requires Linked(books, members, loans)
    ensures sent == OverdueNotices(books, members, loans, today)
  {
    sent := [];
    for i := 0 to |loans|
      invariant sent == OverdueNotices(books, members, loans[..i], today)
    {
      assert loans[..i + 1][..i] == loans[..i];
      if IsOverdue(loans[i], today) {
        sent := sent + [OverdueNotice(books, members, loans[i])];
      }
    }
    assert loans[..|loans|] == loans;
  }

  /** Each overdue loan is selected exactly as many times as it is stored (once,
      since loan ids are distinct), and no other loan is selected. */
  lemma {:induction false} OverdueLoansExact(loans: seq<Loan>, today: int, l: Loan)
    ensures multiset(OverdueLoans(loans, today))[l] ==
            if IsOverdue(l, today) then multiset(loans)[l] else 0
  {
    if loans != [] {
      var init, last := loans[..|loans| - 1], loans[|loans| - 1];
      assert loans == init + [last];
      OverdueLoansExact(init, today, l);
    }
  }

  /** The scan sends exactly one notice per selected loan, in the same order,
      each addressed to that loan's member and naming that loan's book. */
  lemma {:induction false} NoticesFollowOverdueLoans(books: map<BookId, Book>, members: map<MemberId, Member>,
                                                     loans: seq<Loan>, today: int)
    requires Linked(books, members, loans)
    ensures |OverdueNotices(books, members, loans, today)| == |OverdueLoans(loans, today)|
    ensures forall k :: 0 <= k < |OverdueLoans(loans, today)| ==>
              var l := OverdueLoans(loans, today)[k];
              l.book in books && l.member in members &&
              OverdueNotices(books, members, loans, today)[k] == OverdueNotice(books, members, l)
  {
    if loans != [] {
      var init := loans[..|loans| - 1];
      assert Linked(books, members, init) by {
        forall l | l in init ensures l in loans { }
      }
      NoticesFollowOverdueLoans(books, members, init, today);
    }
  }

  /** A returned loan is never notified, however late; nor is a loan due today or later. */
  lemma NotOverdueNotSelected(loans: seq<Loan>, today: int, l: Loan)
    requires l.isReturned || l.dueDay >= today
    ensures l !in OverdueLoans(loans, today)
  {
  }

  /** If some stored loan is overdue, the scan sends at least one mail. */
  lemma {:induction false} SomeOverdueSomeMail(books: map<BookId, Book>, members: map<MemberId, Member>,
                                               loans: seq<Loan>, today: int, i: int)
    requires Linked(books, members, loans)
    requires 0 <= i < |loans| && IsOverdue(loans[i], today)
    ensures |OverdueNotices(books, members, loans, today)| >= 1
  {
    assert loans[i] in OverdueLoans(loans, today);
    NoticesFollowOverdueLoans(books, members, loans, today);
  }

  /** A loan issued today with the default due date is not picked up by a scan
      run the same day, provided the loan period is not negative. */
  lemma FreshLoanNotOverdue(loans: seq<Loan>, today: int, dueDays: int, l: Loan)
    requires dueDays >= 0
    requires l.dueDay == Utils.ConfigureDueDate(today, dueDays)
    ensures l !in OverdueLoans(loans, today)
  {
  }
}
