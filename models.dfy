/** The four tables of the library store (models.py): their row shapes, the
    column defaults, the unique constraints and the primary-key lookups. Dates
    are day numbers; a nullable column is an `Option`. */
module Models {
  import opened Common
  import opened Query

  datatype Book = Book(
    id: int,
    title: string,
    author: string,
    isbn: string,
    quantity: int,
    description: Option<string>,
    category: Option<string>,
    coverImageUrl: Option<string>)

  datatype User = User(
    id: int,
    name: string,
    matricNo: string,
    department: string,
    role: string,
    hashedPassword: string,
    profilePictureUrl: Option<string>)

  datatype Loan = Loan(
    id: int,
    userId: int,
    bookId: int,
    borrowedOn: Option<int>,
    dueDate: Option<int>,
    returned: bool,
    status: string,
    requestDate: Option<int>,
    returnDate: Option<int>)

  /** A waitlist entry. The table itself constrains nothing beyond the id. */
  datatype HoldRequest = HoldRequest(
    id: int,
    userId: int,
    bookId: int,
    requestDate: Option<int>)

  const DefaultQuantity := 1
  const DefaultRole := "student"
  const DefaultStatus := "pending"

  /** A Book row as the ORM builds it when `quantity` may be left out. */
  function NewBook(id: int, title: string, author: string, isbn: string, quantity: Option<int>,
                   description: Option<string>, category: Option<string>,
                   coverImageUrl: Option<string>): (b: Book)
    ensures quantity.None? ==> b.quantity == 1
    ensures quantity.Some? ==> b.quantity == quantity.value
    ensures b.id == id && b.isbn == isbn && b.coverImageUrl == coverImageUrl
  {
    Book(id, title, author, isbn, if quantity.Some? then quantity.value else DefaultQuantity,
         description, category, coverImageUrl)
  }

  /** A User row as the ORM builds it when `role` may be left out. */
  function NewUser(id: int, name: string, matricNo: string, department: string,
                   role: Option<string>, hashedPassword: string): (u: User)
    ensures role.None? ==> u.role == "student"
    ensures role.Some? ==> u.role == role.value
    ensures u.matricNo == matricNo && u.hashedPassword == hashedPassword
    ensures u.profilePictureUrl.None?
  {
    User(id, name, matricNo, department, if role.Some? then role.value else DefaultRole,
         hashedPassword, None)
  }

  /** A Loan row built without `returned`, `status` or `return_date`: it is
      unreturned, pending and has no return date. */
  function NewLoan(id: int, userId: int, bookId: int, borrowedOn: Option<int>,
                   dueDate: Option<int>, requestDate: Option<int>): (l: Loan)
    ensures !l.returned && l.status == "pending" && l.returnDate.None?
    ensures l.userId == userId && l.bookId == bookId
    ensures l.borrowedOn == borrowedOn && l.dueDate == dueDate
  {
    Loan(id, userId, bookId, borrowedOn, dueDate, false, DefaultStatus, requestDate, None)
  }

  // Unique constraints of the schema.

  predicate BookIdsUnique(books: seq<Book>) {
    forall i, j | 0 <= i < j < |books| :: books[i].id != books[j].id
  }

  predicate IsbnUnique(books: seq<Book>) {
    forall i, j | 0 <= i < j < |books| :: books[i].isbn != books[j].isbn
  }

  predicate UserIdsUnique(users: seq<User>) {
    forall i, j | 0 <= i < j < |users| :: users[i].id != users[j].id
  }

  predicate MatricUnique(users: seq<User>) {
    forall i, j | 0 <= i < j < |users| :: users[i].matricNo != users[j].matricNo
  }

  predicate LoanIdsUnique(loans: seq<Loan>) {
    forall i, j | 0 <= i < j < |loans| :: loans[i].id != loans[j].id
  }

  predicate HoldIdsUnique(holds: seq<HoldRequest>) {
    forall i, j | 0 <= i < j < |holds| :: holds[i].id != holds[j].id
  }

  // Keys of new rows.

  function NextBookId(books: seq<Book>): (id: int)
    ensures forall k :: 0 <= k < |books| ==> books[k].id < id
  {
    var id := NextKey(books, (b: Book) => b.id);
    assert forall k :: 0 <= k < |books| ==> books[k] in books;
    id
  }

  function NextUserId(users: seq<User>): (id: int)
    ensures forall k :: 0 <= k < |users| ==> users[k].id < id
  {
    var id := NextKey(users, (u: User) => u.id);
    assert forall k :: 0 <= k < |users| ==> users[k] in users;
    id
  }

  function NextLoanId(loans: seq<Loan>): (id: int)
    ensures forall k :: 0 <= k < |loans| ==> loans[k].id < id
  {
    var id := NextKey(loans, (l: Loan) => l.id);
    assert forall k :: 0 <= k < |loans| ==> loans[k] in loans;
    id
  }

  function NextHoldId(holds: seq<HoldRequest>): (id: int)
    ensures forall k :: 0 <= k < |holds| ==> holds[k].id < id
  {
    var id := NextKey(holds, (h: HoldRequest) => h.id);
    assert forall k :: 0 <= k < |holds| ==> holds[k] in holds;
    id
  }

  // Primary-key lookups (`db.query(T).get(id)`): the index of the row, if any.

  function FindBook(books: seq<Book>, id: int): (r: Option<nat>)
    ensures r.Some? ==> r.value < |books| && books[r.value].id == id
    ensures r.None? <==> forall k :: 0 <= k < |books| ==> books[k].id != id
  {
    First(books, (b: Book) => b.id == id)
  }

  function FindUser(users: seq<User>, id: int): (r: Option<nat>)
    ensures r.Some? ==> r.value < |users| && users[r.value].id == id
    ensures r.None? <==> forall k :: 0 <= k < |users| ==> users[k].id != id
  {
    First(users, (u: User) => u.id == id)
  }

  function FindLoan(loans: seq<Loan>, id: int): (r: Option<nat>)
    ensures r.Some? ==> r.value < |loans| && loans[r.value].id == id
    ensures r.None? <==> forall k :: 0 <= k < |loans| ==> loans[k].id != id
  {
    First(loans, (l: Loan) => l.id == id)
  }

  /** `db.query(User).filter(User.matric_no == m).first()`. */
  function FindMatric(users: seq<User>, matricNo: string): (r: Option<nat>)
    ensures r.Some? ==> r.value < |users| && users[r.value].matricNo == matricNo
    ensures r.None? <==> forall k :: 0 <= k < |users| ==> users[k].matricNo != matricNo
  {
    First(users, (u: User) => u.matricNo == matricNo)
  }

  /** The table without row `i`, the rest in order. */
  function RemoveAt<T>(s: seq<T>, i: nat): (r: seq<T>)
    requires i < |s|
    ensures |r| == |s| - 1
    ensures forall k :: 0 <= k < i ==> r[k] == s[k]
    ensures forall k :: i <= k < |r| ==> r[k] == s[k + 1]
  {
    s[..i] + s[i + 1..]
  }

  /** Rows that keep their id and isbn in place keep both unique. */
  lemma BookKeysKept(books: seq<Book>, books': seq<Book>)
    requires BookIdsUnique(books) && IsbnUnique(books)
    requires |books'| == |books|
    requires forall k | 0 <= k < |books| :: books'[k].id == books[k].id && books'[k].isbn == books[k].isbn
    ensures BookIdsUnique(books') && IsbnUnique(books')
  {
  }

  /** A loan row appended with a fresh id keeps loan ids unique. */
  lemma LoanAppendedFresh(loans: seq<Loan>, loan: Loan)
    requires LoanIdsUnique(loans)
    requires forall k | 0 <= k < |loans| :: loans[k].id < loan.id
    ensures LoanIdsUnique(loans + [loan])
  {
  }

  /** Appending a hold request whose id exceeds every existing one keeps
      hold ids unique. */
  lemma HoldAppendedFresh(holds: seq<HoldRequest>, hold: HoldRequest)
    requires HoldIdsUnique(holds)
    requires forall k | 0 <= k < |holds| :: holds[k].id < hold.id
    ensures HoldIdsUnique(holds + [hold])
  {
  }

  /** No row carries `isbn`. */
  predicate IsbnFree(books: seq<Book>, isbn: string) {
    forall k | 0 <= k < |books| :: books[k].isbn != isbn
  }

  /** An appended book row keeps isbns unique exactly when its isbn is new. */
  lemma IsbnUniqueAppend(books: seq<Book>, row: Book)
    requires IsbnUnique(books)
    ensures IsbnUnique(books + [row]) <==> IsbnFree(books, row.isbn)
  {
    var s := books + [row];
    if !IsbnUnique(s) {
      var i, j :| 0 <= i < j < |s| && s[i].isbn == s[j].isbn;
      assert j == |books| && s[i] == books[i];
    } else {
      forall k | 0 <= k < |books| ensures books[k].isbn != row.isbn {
        assert s[k].isbn != s[|books|].isbn;
      }
    }
  }

  /** No row other than the one with id `id` carries `isbn`. */
  predicate IsbnFreeFor(books: seq<Book>, isbn: string, id: int) {
    forall k | 0 <= k < |books| :: books[k].id != id ==> books[k].isbn != isbn
  }

  /** Overwriting book row `i` (keeping its id) keeps isbns unique exactly
      when no other row has the new isbn. */
  lemma IsbnUniqueUpdate(books: seq<Book>, i: nat, row: Book)
    requires BookIdsUnique(books) && IsbnUnique(books) && i < |books| && row.id == books[i].id
    ensures IsbnUnique(books[i := row]) <==> IsbnFreeFor(books, row.isbn, row.id)
  {
    assert forall k | 0 <= k < |books| :: k != i <==> books[k].id != books[i].id by {
      forall k | 0 <= k < |books| && k != i ensures books[k].id != books[i].id {
        if k < i { assert books[k].id != books[i].id; } else { assert books[i].id != books[k].id; }
      }
    }
    var s := books[i := row];
    if !IsbnUnique(s) {
      var a, b :| 0 <= a < b < |s| && s[a].isbn == s[b].isbn;
      assert a == i || b == i;
    } else {
      forall k | 0 <= k < |books| && k != i ensures books[k].isbn != row.isbn {
        if k < i { assert s[k].isbn != s[i].isbn; } else { assert s[i].isbn != s[k].isbn; }
      }
    }
  }

  /** An appended book row with a fresh id keeps ids unique. */
  lemma BookAppendedFresh(books: seq<Book>, row: Book)
    requires BookIdsUnique(books)
    requires forall k | 0 <= k < |books| :: books[k].id < row.id
    ensures BookIdsUnique(books + [row])
  {
  }

  /** Overwriting a book row with one of the same id keeps ids unique. */
  lemma BookIdsKept(books: seq<Book>, i: nat, row: Book)
    requires BookIdsUnique(books) && i < |books| && row.id == books[i].id
    ensures BookIdsUnique(books[i := row])
  {
    var s := books[i := row];
    forall a, b | 0 <= a < b < |s| ensures s[a].id != s[b].id {
      assert s[a].id == books[a].id && s[b].id == books[b].id;
    }
  }
}
