/** The database session: the four tables, changed in place by the request
    handlers. Every handler is one atomic unit of work: it either raises and
    leaves every table as it was, or commits all its changes. */
module Store {
  import opened Models

  class Database {
    var books: seq<Book>
    var users: seq<User>
    var loans: seq<Loan>
    var holds: seq<HoldRequest>

    /** The primary keys and the unique columns of models.py. */
    ghost predicate Valid()
      reads this
    {
      && BookIdsUnique(books) && IsbnUnique(books)
      && UserIdsUnique(users) && MatricUnique(users)
      && LoanIdsUnique(loans) && HoldIdsUnique(holds)
    }

    constructor ()
      ensures Valid()
      ensures books == [] && users == [] && loans == [] && holds == []
    {
      books, users, loans, holds := [], [], [], [];
    }
  }
}
