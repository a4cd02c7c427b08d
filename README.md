# Library loan lifecycle — Dafny model

This project models the loan lifecycle of a small library-management backend.
It covers four parts:

- lending a book to a member and taking it back, which updates the book's
  available-copies counter and the loan records and queues a confirmation mail;
- the confirmation task, which looks a loan up by id and mails its member, or
  does nothing when the loan is gone;
- the periodic overdue scan, which mails every member whose loan is due before
  today and not returned;
- the default due date of a new loan (today plus `DEFAULT_DUE_DAYS`), and the
  "numbers below ten" exercise written as a comprehension and with `filter`.

Dates are whole day numbers, and the clock is a `today` parameter.
`DEFAULT_DUE_DAYS` is the `dueDays` constant of a `Library`.

Files and modules:

- `models.dfy` (`Models`): books, members, loans and mails as datatypes.
  `IsOverdue` derives the overdue state from the clock.
- `utils.dfy` (`Utils`): `ConfigureDueDate`.
- `tasks.dfy` (`Tasks`):
  - the confirmation task as a function;
  - the overdue selection and its notices as functions;
  - the scan's `for` loop as a method proved equal to them.
- `views.dfy` (`Views`): the `Library` class. Its fields are the book map, the
  member map, the loan sequence and the outbox of queued confirmation loan ids.
  `Issue` and `Return` are methods that return an `Outcome`.
- `core_skills.dfy` (`CoreSkills`): the comprehension, `filter`, and their
  properties.

The object invariant `Library.Valid` keeps four things:

- a loan's id is its position in the loan sequence;
- every loan names a stored book and a stored member;
- no book's counter is negative;
- every queued notification names a stored loan.

`Issue` and `Return` keep `Stock(b)` the same for every book `b`.
`Stock(b)` is the book's available copies plus its number of unreturned loans.

Where the code enforces less than its data model suggests, the model follows the code:

- Nothing ties `return_date` to `is_returned` in the code. The tests create a
  returned loan with no return date, so this is not an invariant here. The model
  proves only that `Issue` creates a loan with neither set and `Return` sets both.
- A return for a (book, member) pair with two unreturned loans makes the store's
  `get` raise an exception that nothing catches, before anything changes.
  `Return` models this as `Err(MultipleActiveLoans)` with the state unchanged.
  Lending does not stop one member from borrowing the same book twice.
- The code never compares `available_copies` with `total_copies`, so the model
  keeps no upper bound.

## Model

| member | source | states |
|---|---|---|
| `Views.Library.Issue` | library/views.py:19-33 | An unknown book is refused with BookNotFound. Zero copies is refused with NoAvailableCopies before the member is looked up. An unknown member with copies left is refused with MemberDoesNotExist. A refusal changes no book, loan or outbox entry. A success appends exactly one unreturned loan for (book, member), due on the default due date and with no return date. It lowers that book's counter by exactly 1, keeps every counter at 0 or above, and queues exactly the new loan's id. Stock is preserved for every book. |
| `Views.Library.Return` | library/views.py:35-48 | An unknown book is refused with BookNotFound. No unreturned loan for the pair is refused with ActiveLoanDoesNotExist. Two or more is refused with MultipleActiveLoans. Any refusal changes nothing. A success happens exactly when one unreturned loan matches: that loan alone becomes returned with return day today, and that book's counter goes up by exactly 1. Other loans, books, members and the outbox are untouched. Afterwards no unreturned loan remains for the pair. Stock is preserved for every book. |
| `Views.ActiveLoanQuery` | library/views.py:40 | Returns exactly the positions of the unreturned loans of the given book to the given member, in increasing order. |
| `Views.OutstandingAppend` | library/views.py:29-31 | Creating a loan adds one to its book's count of unreturned loans if it is unreturned, and zero otherwise. |
| `Views.OutstandingUpdate` | library/views.py:43-47 | Rewriting one loan changes a book's count of unreturned loans by that loan's old and new contribution only. |
| `Views.QueuedNotificationIsSent` | library/views.py:32 | In any state reached through issue and return, which never delete a loan, every queued loan id names a stored loan, so the confirmation task sends exactly one mail for it. |
| `Views.IssueTwiceOneCopy` | library/views.py:22-31 | With one copy and a known member, the first issue succeeds and the second is refused with NoAvailableCopies. The counter ends at 0 and exactly one loan is added. |
| `Views.ReturnTwice` | library/views.py:38-47 | After a successful return, a second return of the same pair is refused with ActiveLoanDoesNotExist, so the counter rises by exactly 1. After a refused first return, the second gives the same refusal and no counter changes. |
| `Tasks.FindLoan` | library/tasks.py:11-12 | The lookup by id gives a stored loan carrying that id. It gives nothing exactly when no stored loan carries the id. |
| `Tasks.SendLoanNotification` | library/tasks.py:9-23 | At most one mail is sent. None is sent, and nothing fails, exactly when no loan has the id. Otherwise the one mail has subject "Book Loaned Successfully", its only recipient is the loan's member's email, and it names the loan's book title. |
| `Tasks.OverdueLoans` | library/tasks.py:28-30 | A loan is selected exactly when it is stored, due strictly before today and not returned. |
| `Tasks.OverdueLoansExact` | library/tasks.py:28-32 | Each overdue loan is selected exactly as many times as it is stored, and any other loan zero times, so there is one notice per overdue loan. |
| `Tasks.OverdueNotices` | library/tasks.py:32-41 | The scan sends as many mails as there are selected loans. Each has subject "Overdue Book Loan Notice" and exactly one recipient. |
| `Tasks.CheckOverdueLoans` | library/tasks.py:26-41 | The scan loop sends exactly the notice sequence of the overdue selection. It only reads the books, members and loans, so a second run on the same state sends the same notices again. |
| `Tasks.NoticesFollowOverdueLoans` | library/tasks.py:32-41 | There are as many notices as selected loans, in the same order. Each is addressed only to that loan's member's email and names that loan's book title. |
| `Tasks.NotOverdueNotSelected` | library/tasks.py:29 | A returned loan is never selected, even past its due date. A loan due today or later is not selected. |
| `Tasks.SomeOverdueSomeMail` | library/tests.py:39-44 | If any stored loan is overdue and unreturned, the scan sends at least one mail. |
| `Tasks.FreshLoanNotOverdue` | library/utils.py:7 | With a loan period of zero or more days, a loan given the default due date today is not selected by a scan run today. |
| `Utils.ConfigureDueDate` | library/utils.py:6-7 | The default due day is today exactly when the period is zero, strictly after today exactly when it is positive, and before today only when it is negative. |
| `Utils.DueDateShifts` | library/utils.py:7 | The offset from today is fixed, so issuing k days later makes the loan due exactly k days later. |
| `CoreSkills.BelowTen` | core_skills.py:4 | Every element of the comprehension's result is below 10. A value is in the result exactly when it is in the input and below 10. The result is no longer than the input. |
| `CoreSkills.Filter` | core_skills.py:7 | `filter` keeps a value exactly when it is in the input and satisfies the predicate. The result is no longer than the input. |
| `CoreSkills.BelowTenFiltered` | core_skills.py:7 | `list(filter(lambda x: x < 10, ...))` contains a value exactly when the input has it and it is below 10. |
| `CoreSkills.FilterMatchesComprehension` | core_skills.py:4-7 | `filter(lambda x: x < 10, ...)` gives the same list as the comprehension. |
| `CoreSkills.BelowTenIsSubsequence` | core_skills.py:4 | The result is a subsequence of the input, so it keeps the input's relative order. |
| `CoreSkills.BelowTenOfSample` | core_skills.py:2-4 | For distinct input values in 1..20, as the sample is drawn, the result has no repeats and at most 9 elements. |

## Left out

- Extending a due date: the action only delegates to a serializer. Its checks
  (at least one day, not already overdue) live in serializers.py, which is not
  part of this model.
- The top-active-members report: its aggregation lives in models.py, which is
  not part of this model.
- The model of the store: `models.py` is not part of this model. The new loan's
  due date is taken to default to `configure_due_date`. Its creation timestamp
  and the book's author, ISBN and total copies are not modelled.
- Query counts and eager joins (`select_related`): these are store performance,
  not outcomes.
- HTTP plumbing: routing, serializers, status codes, response texts, parsing
  `member_id` from the request body, and the CRUD actions. Outcomes are the
  `Outcome` datatype. `MultipleActiveLoans` stands for an uncaught exception,
  which the client sees as a server error.
- Deleting a loan: the loan CRUD actions can delete a loan after its
  confirmation was queued, which is the case the confirmation task ignores.
  The model never deletes loans, so `Views.QueuedNotificationIsSent` and the
  outbox clause of `Library.Valid` hold only for states reached through `Issue`
  and `Return`. `Tasks.SendLoanNotification` itself still covers a missing id.
- Tasks.OverdueLoans and Tasks.FreshLoanNotOverdue assume one calendar day for
  "today". The scan compares the due date with the current date-time, which the
  store converts to a date in the configured time zone. The default due date
  and the return date use the UTC date. When the time zone is not UTC these can
  differ by one day, so with a zero-day loan period and a zone ahead of UTC a
  fresh loan can be selected on its issue day. The settings that decide this
  are not part of this model.
- Mail transport and the task queue: `send_mail` is modelled as the returned
  sequence of `Mail` values, and `.delay` as an append to the outbox. Dispatching
  the outbox to the confirmation task, transport errors, mail body wording and
  the sender address are not modelled.
- Concurrency: the counter's read-modify-write is not atomic in the code. Each
  action is modelled as one step, with no races or transactions.
- Randomness and printing in core_skills.py: the sample is an input and the
  prints are dropped.
- Overdue scan order: the query has no ordering, so the model scans loans in
  stored order.
