/** The borrow/return engine (routers/loans.py): borrowing takes a copy off a
    book's `quantity` and records an unreturned loan due in 14 days; returning
    marks the loan returned, puts the copy back and computes the late fine.
    Per book, `quantity` plus the number of its unreturned loans never changes. */
module Loans {
  import opened Common
  import opened Query
  import opened Models
  import opened Store

  const LoanDays := 14
  const FinePerDay := 50

  /** The fine for returning on day `today` a loan due on day `dueDate`:
      50 per day late, nothing when returned on or before the due day. */
  function Fine(today: int, dueDate: int): (fine: int)
    ensures fine >= 0
    ensures fine > 0 <==> today > dueDate
    ensures today > dueDate ==> fine == (today - dueDate) * FinePerDay
  {
    if today > dueDate then (today - dueDate) * FinePerDay else 0
  }

  /** One more day late costs exactly one more day's fine. */
  lemma FineGrowsByDay(today: int, dueDate: int)
    requires today >= dueDate
    ensures Fine(today + 1, dueDate) == Fine(today, dueDate) + FinePerDay
  {
  }

  /** On time costs nothing; five days late costs 250; twenty days late 1000. */
  lemma FineExamples(dueDate: int)
    ensures Fine(dueDate, dueDate) == 0
    ensures Fine(dueDate + 5, dueDate) == 250
    ensures Fine(dueDate + LoanDays + 20, dueDate + LoanDays) == 1000
  {
  }

  function IsUnreturned(l: Loan): bool { !l.returned }

  /** `get_active_loans`: the unreturned loans, whatever their status, in table order. */
  function GetActiveLoans(loans: seq<Loan>): (r: seq<Loan>)
    ensures forall l :: l in r <==> l in loans && !l.returned
    ensures |r| <= |loans|
  {
    Where(loans, IsUnreturned)
  }

  /** No loan has reached the "approved" status. */
  predicate NoneApproved(loans: seq<Loan>) {
    forall k | 0 <= k < |loans| :: loans[k].status != "approved"
  }

  // The stock ledger: copies on the shelf plus copies out on loan.

  function OutstandingOn(bookId: int): Loan -> bool {
    (l: Loan) => l.bookId == bookId && !l.returned
  }

  /** The number of unreturned loans of book `bookId`, whatever their status. */
  function Outstanding(loans: seq<Loan>, bookId: int): nat {
    Count(loans, OutstandingOn(bookId))
  }

  /** The copies of `b` the library holds: on the shelf or out on loan. */
  function Stock(b: Book, loans: seq<Loan>): int {
    b.quantity + Outstanding(loans, b.id)
  }

  /** The book rows stay in place and every book keeps its stock. */
  predicate StockPreserved(books: seq<Book>, loans: seq<Loan>, books': seq<Book>, loans': seq<Loan>) {
    && |books'| == |books|
    && forall k | 0 <= k < |books| ::
         books'[k].id == books[k].id && Stock(books'[k], loans') == Stock(books[k], loans)
  }

  /** Book row `i` with one copy fewer on the shelf. */
  function TakeCopy(books: seq<Book>, i: nat): (r: seq<Book>)
    requires i < |books|
    ensures |r| == |books| && r[i].quantity == books[i].quantity - 1
    ensures forall k | 0 <= k < |books| :: k != i ==> r[k] == books[k]
  {
    books[i := books[i].(quantity := books[i].quantity - 1)]
  }

  /** Book row `i` with one copy more on the shelf. */
  function PutBack(books: seq<Book>, i: nat): (r: seq<Book>)
    requires i < |books|
    ensures |r| == |books| && r[i].quantity == books[i].quantity + 1
    ensures forall k | 0 <= k < |books| :: k != i ==> r[k] == books[k]
  {
    books[i := books[i].(quantity := books[i].quantity + 1)]
  }

  /** Loan row `j` marked returned, every other column as it was. */
  function MarkReturned(loans: seq<Loan>, j: nat): (r: seq<Loan>)
    requires j < |loans|
    ensures |r| == |loans| && r[j].returned && r[j] == loans[j].(returned := true)
    ensures forall k | 0 <= k < |loans| :: k != j ==> r[k] == loans[k]
  {
    loans[j := loans[j].(returned := true)]
  }

  /** Taking a copy of book `i` while recording an unreturned loan of it keeps
      the stock of every book. */
  lemma BorrowConservesStock(books: seq<Book>, loans: seq<Loan>, i: nat, loan: Loan)
    requires BookIdsUnique(books)
    requires i < |books| && loan.bookId == books[i].id && !loan.returned
    ensures StockPreserved(books, loans, TakeCopy(books, i), loans + [loan])
  {
    var books' := TakeCopy(books, i);
    forall k | 0 <= k < |books|
      ensures books'[k].id == books[k].id && Stock(books'[k], loans + [loan]) == Stock(books[k], loans)
    {
      CountAppend(loans, loan, OutstandingOn(books[k].id));
      if k < i {
        assert books[k].id != books[i].id;
      } else if i < k {
        assert books[i].id != books[k].id;
      }
    }
  }

  /** Marking an unreturned loan of book `i` returned while putting the copy
      back keeps the stock of every book. */
  lemma ReturnConservesStock(books: seq<Book>, loans: seq<Loan>, i: nat, j: nat)
    requires BookIdsUnique(books)
    requires i < |books| && j < |loans|
    requires loans[j].bookId == books[i].id && !loans[j].returned
    ensures StockPreserved(books, loans, PutBack(books, i), MarkReturned(loans, j))
  {
    var books' := PutBack(books, i);
    forall k | 0 <= k < |books|
      ensures books'[k].id == books[k].id
      ensures Stock(books'[k], MarkReturned(loans, j)) == Stock(books[k], loans)
    {
      CountUpdate(loans, j, loans[j].(returned := true), OutstandingOn(books[k].id));
      if k < i {
        assert books[k].id != books[i].id;
      } else if i < k {
        assert books[i].id != books[k].id;
      }
    }
  }

  /** `borrow_book`: refuses (400) a missing book or one whose `quantity` is not
      positive; otherwise records a pending, unreturned loan borrowed today and
      due in 14 days, and takes one copy off the book's `quantity`. The user id
      is not checked. */
  method BorrowBook(db: Database, userId: int, bookId: int, today: int) returns (r: Result<string>)
    requires db.Valid()
    modifies db
    ensures db.Valid()
    ensures db.users == old(db.users) && db.holds == old(db.holds)
    ensures r.Err? <==> (FindBook(old(db.books), bookId).None?
                         || old(db.books)[FindBook(old(db.books), bookId).value].quantity <= 0)
    ensures r.Err? ==> && r.error == HttpError(400, "Book not available")
                       && db.books == old(db.books) && db.loans == old(db.loans)
    ensures r.Ok? ==>
              && r.value == "Book borrowed"
              && db.books == TakeCopy(old(db.books), FindBook(old(db.books), bookId).value)
              && db.loans == old(db.loans)
                   + [NewLoan(NextLoanId(old(db.loans)), userId, bookId,
                              Some(today), Some(today + LoanDays), None)]
    ensures StockPreserved(old(db.books), old(db.loans), db.books, db.loans)
    ensures forall k | 0 <= k < |db.books| :: old(db.books)[k].quantity >= 0 ==> db.books[k].quantity >= 0
    ensures NoneApproved(old(db.loans)) ==> NoneApproved(db.loans)
  {
    var found := FindBook(db.books, bookId);
    if found.None? || db.books[found.value].quantity <= 0 {
      r := Err(HttpError(400, "Book not available"));
      return;
    }
    var i := found.value;
    var loan := NewLoan(NextLoanId(db.loans), userId, bookId, Some(today), Some(today + LoanDays), None);
    BorrowConservesStock(db.books, db.loans, i, loan);
    BookKeysKept(db.books, TakeCopy(db.books, i));
    LoanAppendedFresh(db.loans, loan);
    db.loans := db.loans + [loan];
    db.books := TakeCopy(db.books, i);
    r := Ok("Book borrowed");
  }

  datatype Receipt = Receipt(detail: string, fine: int)

  /** `return_book`: refuses (404) a missing or already returned loan. Otherwise
      marks it returned and puts one copy back on its book, then reports the
      fine for today. A loan whose book row is gone fails before the commit
      (500, nothing changes); a loan without a due date fails after the commit
      (500, the return stands). `return_date` is never written. */
  method ReturnBook(db: Database, loanId: int, today: int) returns (r: Result<Receipt>)
    requires db.Valid()
    modifies db
    ensures db.Valid()
    ensures db.users == old(db.users) && db.holds == old(db.holds)
    ensures var j := FindLoan(old(db.loans), loanId);
            j.None? || old(db.loans)[j.value].returned ==>
              && r == Err(HttpError(404, "Loan not found or already returned"))
              && db.books == old(db.books) && db.loans == old(db.loans)
    ensures var j := FindLoan(old(db.loans), loanId);
            j.Some? && !old(db.loans)[j.value].returned
            && FindBook(old(db.books), old(db.loans)[j.value].bookId).None? ==>
              && r == Err(InternalServerError)
              && db.books == old(db.books) && db.loans == old(db.loans)
    ensures var j := FindLoan(old(db.loans), loanId);
            j.Some? && !old(db.loans)[j.value].returned
            && FindBook(old(db.books), old(db.loans)[j.value].bookId).Some? ==>
              var loan := old(db.loans)[j.value];
              && db.loans == MarkReturned(old(db.loans), j.value)
              && db.books == PutBack(old(db.books), FindBook(old(db.books), loan.bookId).value)
              && r == if loan.dueDate.None? then Err(InternalServerError)
                      else Ok(Receipt("Book returned", Fine(today, loan.dueDate.value)))
    ensures r.Ok? ==> && FindLoan(db.loans, loanId).Some?
                      && db.loans[FindLoan(db.loans, loanId).value].returned
    ensures StockPreserved(old(db.books), old(db.loans), db.books, db.loans)
    ensures NoneApproved(old(db.loans)) ==> NoneApproved(db.loans)
  {
    var found := FindLoan(db.loans, loanId);
    if found.None? || db.loans[found.value].returned {
      r := Err(HttpError(404, "Loan not found or already returned"));
      return;
    }
    var j := found.value;
    var loan := db.loans[j];
    var bookRow := FindBook(db.books, loan.bookId);
    if bookRow.None? {
      r := Err(InternalServerError);
      return;
    }
    var i := bookRow.value;
    ReturnConservesStock(db.books, db.loans, i, j);
    db.loans := MarkReturned(db.loans, j);
    db.books := PutBack(db.books, i);
    if loan.dueDate.None? {
      r := Err(InternalServerError);
      return;
    }
    r := Ok(Receipt("Book returned", Fine(today, loan.dueDate.value)));
  }
}
