/** A walk through the handlers using only their contracts: one copy of a
    book is borrowed, a second borrower is refused and waitlisted, and the
    copy comes back twenty days late. */
module Scenario {
  import opened Common
  import opened Models
  import opened Store
  import opened Loans
  import opened Books

  method LateReturn(today: int)
  {
    var db := new Database();
    var book := Book(1, "Dune", "Herbert", "978-0441013593", 1, None, None, None);
    db.books := [book];
    assert db.Valid();

    var first := BorrowBook(db, 7, book.id, today);
    assert first.Ok? && db.books[0].quantity == 0;
    assert NoneApproved(db.loans);
    var loanId := db.loans[0].id;
    assert db.loans[0].dueDate == Some(today + 14);

    var second := BorrowBook(db, 8, book.id, today);
    assert second == Err(HttpError(400, "Book not available"));

    AvailableWhileNoneApproved(db.books[0], db.loans);
    var hold := PlaceHold(db, 8, "student", book.id, today);
    assert hold.Ok?;
    var again := PlaceHold(db, 8, "student", book.id, today);
    assert again == Err(HttpError(400, "You have already placed a hold on this book."));

    var back := ReturnBook(db, loanId, today + 34);
    assert back == Ok(Receipt("Book returned", 1000));
    assert db.books[0].quantity == 1;
    var twice := ReturnBook(db, loanId, today + 35);
    assert twice == Err(HttpError(404, "Loan not found or already returned"));
  }
}
