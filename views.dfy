/** The loan and return actions on a book: the copies counter, the loan
    records and the queue of confirmation notifications. */
module Views {
  import opened Models
  import Utils
  import Tasks

  /** Why an action was refused. `MultipleActiveLoans` is the store's
      "more than one row" exception on return, which nothing catches. */
  datatype Reason =
    | BookNotFound
    | NoAvailableCopies
    | MemberDoesNotExist
    | ActiveLoanDoesNotExist
    | MultipleActiveLoans

  datatype Outcome = Ok(loanId: LoanId) | Err(reason: Reason)

  /** A loan that keeps a copy of book `b` out of the library. */
  predicate Holds(l: Loan, b: BookId) {
    l.book == b && !l.isReturned
  }

  /** The number of unreturned loans of book `b`. */
  function Outstanding(loans: seq<Loan>, b: BookId): (n: nat)
    ensures n <= |loans|
  {
    if loans == [] then 0
    else Outstanding(loans[..|loans| - 1], b) + (if Holds(loans[|loans| - 1], b) then 1 else 0)
  }

  /** Appending a loan adds it to the count if it holds the book. */
  lemma OutstandingAppend(loans: seq<Loan>, l: Loan, b: BookId)
    ensures Outstanding(loans + [l], b) == Outstanding(loans, b) + (if Holds(l, b) then 1 else 0)
  {
    assert (loans + [l])[..|loans|] == loans;
  }

  /** Replacing one loan changes the count by that loan's contribution only. */
  lemma {:induction false} OutstandingUpdate(loans: seq<Loan>, i: nat, l: Loan, b: BookId)
    requires i < |loans|
    ensures Outstanding(loans[i := l], b) ==
            Outstanding(loans, b) - (if Holds(loans[i], b) then 1 else 0) + (if Holds(l, b) then 1 else 0)
  {
    var n := |loans|;
    var init := loans[..n - 1];
    if i == n - 1 {
      assert loans[i := l][..n - 1] == init;
    } else {
      assert loans[i := l][..n - 1] == init[i := l];
      OutstandingUpdate(init, i, l, b);
    }
  }

  /** The unreturned loan of `b` to `m`, as the return action looks it up. */
  predicate IsActiveFor(l: Loan, b: BookId, m: MemberId) {
    l.book == b && l.member == m && !l.isReturned
  }

  ghost function ActiveIndices(loans: seq<Loan>, b: BookId, m: MemberId): set<nat> {
    set i: nat | i < |loans| && IsActiveFor(loans[i], b, m)
  }

  /** The store query of the return action: the positions of all unreturned
      loans of `b` to `m`, in increasing order. */
  method ActiveLoanQuery(loans: seq<Loan>, b: BookId, m: MemberId) returns (found: seq<nat>)
    ensures forall i :: i in found <==> 0 <= i < |loans| && IsActiveFor(loans[i], b, m)
    ensures forall j, k :: 0 <= j < k < |found| ==> found[j] < found[k]
  {
    found := [];
    for i := 0 to |loans|
      invariant forall x :: x in found <==> 0 <= x < i && IsActiveFor(loans[x], b, m)
      invariant forall j, k :: 0 <= j < k < |found| ==> found[j] < found[k]
      invariant forall j :: 0 <= j < |found| ==> found[j] < i
    {
      if IsActiveFor(loans[i], b, m) {
        found := found + [i];
      }
    }
  }

  class Library {
    var books: map<BookId, Book>
    var members: map<MemberId, Member>
    var loans: seq<Loan>
    /** Loan ids handed to the confirmation task, oldest first. */
    var outbox: seq<LoanId>
    /** The DEFAULT_DUE_DAYS setting. */
    const dueDays: int

    ghost predicate Valid()
      reads this
    {
      (forall i :: 0 <= i < |loans| ==> loans[i].id == i) &&
      Linked(books, members, loans) &&
      (forall b :: b in books ==> books[b].availableCopies >= 0) &&
      (forall k :: 0 <= k < |outbox| ==> outbox[k] < |loans|)
    }

    /** Copies on the shelf plus copies on loan: what issue and return conserve. */
    ghost function Stock(b: BookId): int
      reads this
      requires b in books
    {
      books[b].availableCopies + Outstanding(loans, b)
    }

    constructor (dueDays: int, books: map<BookId, Book>, members: map<MemberId, Member>)
      requires forall b :: b in books ==> books[b].availableCopies >= 0
      ensures Valid()
      ensures this.dueDays == dueDays && this.books == books && this.members == members
      ensures loans == [] && outbox == []
    {
      this.dueDays := dueDays;
      this.books := books;
      this.members := members;
      loans := [];
      outbox := [];
    }

    /** Lend book `bookId` to member `memberId` on day `today`. */
    method Issue(bookId: BookId, memberId: MemberId, today: int) returns (r: Outcome)
      requires Valid()
      modifies this
      ensures Valid()
      ensures members == old(members) && books.Keys == old(books).Keys
      ensures bookId !in old(books) ==> r == Err(BookNotFound)
      ensures bookId in old(books) && old(books)[bookId].availableCopies < 1 ==> r == Err(NoAvailableCopies)
      ensures bookId in old(books) && old(books)[bookId].availableCopies >= 1 && memberId !in members ==>
                r == Err(MemberDoesNotExist)
      ensures r.Ok? <==> bookId in old(books) && old(books)[bookId].availableCopies >= 1 && memberId in members
      ensures r.Err? ==> books == old(books) && loans == old(loans) && outbox == old(outbox)
      ensures r.Ok? ==>
                r.loanId == |old(loans)| &&
                loans == old(loans) + [Loan(r.loanId, bookId, memberId, Utils.ConfigureDueDate(today, dueDays), false, None)] &&
                books == old(books)[bookId := old(books)[bookId].(availableCopies := old(books)[bookId].availableCopies - 1)] &&
                outbox == old(outbox) + [r.loanId]
      ensures forall b :: b in books ==> b in old(books) && Stock(b) == old(Stock(b))
    {
      if bookId !in books {
        return Err(BookNotFound);
      }
      var book := books[bookId];
      if book.availableCopies < 1 {
        return Err(NoAvailableCopies);
      }
      if memberId !in members {
        return Err(MemberDoesNotExist);
      }
      var loan := Loan(|loans|, bookId, memberId, Utils.ConfigureDueDate(today, dueDays), false, None);
      forall b | b in books
        ensures Outstanding(loans + [loan], b) == Outstanding(loans, b) + (if b == bookId then 1 else 0)
      {
        OutstandingAppend(loans, loan, b);
      }
      loans := loans + [loan];
      books := books[bookId := book.(availableCopies := book.availableCopies - 1)];
      outbox := outbox + [loan.id];
      r := Ok(loan.id);
    }

    /** Take back book `bookId` from member `memberId` on day `today`. */
    method Return(bookId: BookId, memberId: MemberId, today: int) returns (r: Outcome)
      requires Valid()
      modifies this
      ensures Valid()
      ensures members == old(members) && outbox == old(outbox) && books.Keys == old(books).Keys
      ensures r == Err(BookNotFound) <==> bookId !in old(books)
      ensures r == Err(ActiveLoanDoesNotExist) <==>
                bookId in old(books) && ActiveIndices(old(loans), bookId, memberId) == {}
      ensures r == Err(MultipleActiveLoans) ==>
                exists i, j :: i in ActiveIndices(old(loans), bookId, memberId) &&
                               j in ActiveIndices(old(loans), bookId, memberId) && i != j
      ensures r.Err? ==> r.reason in {BookNotFound, ActiveLoanDoesNotExist, MultipleActiveLoans}
      ensures r.Err? ==> books == old(books) && loans == old(loans)
      ensures r.Ok? ==>
                bookId in old(books) &&
                ActiveIndices(old(loans), bookId, memberId) == {r.loanId} &&
                r.loanId < |old(loans)| &&
                loans == old(loans)[r.loanId := old(loans)[r.loanId].(isReturned := true, returnDay := Some(today))] &&
                books == old(books)[bookId := old(books)[bookId].(availableCopies := old(books)[bookId].availableCopies + 1)]
      ensures r.Ok? ==> ActiveIndices(loans, bookId, memberId) == {}
      ensures forall b :: b in books ==> b in old(books) && Stock(b) == old(Stock(b))
    {
      if bookId !in books {
        return Err(BookNotFound);
      }
      var found := ActiveLoanQuery(loans, bookId, memberId);
      if |found| == 0 {
        assert ActiveIndices(loans, bookId, memberId) == {};
        return Err(ActiveLoanDoesNotExist);
      }
      if |found| > 1 {
        assert found[0] in found && found[1] in found;
        assert found[0] in ActiveIndices(loans, bookId, memberId) && found[1] in ActiveIndices(loans, bookId, memberId);
        return Err(MultipleActiveLoans);
      }
      var i := found[0];
      assert ActiveIndices(loans, bookId, memberId) == {i} by {
        forall x | x in ActiveIndices(loans, bookId, memberId) ensures x == i {
          assert x in found;
        }
      }
      var loan := loans[i].(isReturned := true, returnDay := Some(today));
      forall b | b in books
        ensures Outstanding(loans[i := loan], b) == Outstanding(loans, b) - (if b == bookId then 1 else 0)
      {
        OutstandingUpdate(loans, i, loan, b);
      }
      assert Linked(books, members, loans[i := loan]) by {
        forall l | l in loans[i := loan] ensures l.book in books && l.member in members {
          var k :| 0 <= k < |loans[i := loan]| && loans[i := loan][k] == l;
          assert k != i ==> l == loans[k];
        }
      }
      loans := loans[i := loan];
      var book := books[bookId];
      books := books[bookId := book.(availableCopies := book.availableCopies + 1)];
      assert ActiveIndices(loans, bookId, memberId) == {};
      r := Ok(i);
    }
  }

  /** Every queued confirmation names a stored loan, so its task sends exactly one mail. */
  lemma QueuedNotificationIsSent(lib: Library, k: int)
    requires lib.Valid()
    requires 0 <= k < |lib.outbox|
    ensures |Tasks.SendLoanNotification(lib.books, lib.members, lib.loans, lib.outbox[k])| == 1
  {
    var id := lib.outbox[k];
    assert lib.loans[id] in lib.loans && lib.loans[id].id == id;
  }

  /** A book with one copy can be issued once; the second issue is refused and
      changes nothing. */
  method IssueTwiceOneCopy(lib: Library, bookId: BookId, m1: MemberId, m2: MemberId, today: int)
    returns (first: Outcome, second: Outcome)
    requires lib.Valid()
    requires bookId in lib.books && lib.books[bookId].availableCopies == 1 && m1 in lib.members
    modifies lib
    ensures first.Ok? && second == Err(NoAvailableCopies)
    ensures bookId in lib.books && lib.books[bookId].availableCopies == 0
    ensures |lib.loans| == |old(lib.loans)| + 1
  {
    first := lib.Issue(bookId, m1, today);
    second := lib.Issue(bookId, m2, today);
  }

  /** Returning the same single loan twice: the second return is refused and
      the counter goes up once. */
  method ReturnTwice(lib: Library, bookId: BookId, memberId: MemberId, today: int)
    returns (first: Outcome, second: Outcome)
    requires lib.Valid()
    requires bookId in lib.books
    modifies lib
    ensures first.Ok? ==> second == Err(ActiveLoanDoesNotExist)
    ensures first.Ok? ==> bookId in lib.books && lib.books[bookId].availableCopies == old(lib.books[bookId].availableCopies) + 1
    ensures first.Err? ==> second == first && lib.books == old(lib.books)
  {
    first := lib.Return(bookId, memberId, today);
    ghost var active := ActiveIndices(lib.loans, bookId, memberId);
    second := lib.Return(bookId, memberId, today);
    if first == Err(MultipleActiveLoans) {
      ghost var i, j :| i in active && j in active && i != j;
    }
  }
}
