# Library backend record-keeping, modelled in Dafny

This project models the record-keeping core of a small library-management
backend. The store holds four tables: books, users, loans and hold requests.
The request handlers check preconditions and then change rows. Each handler
either fails with an HTTP-style error and changes nothing, or commits all of
its changes. Dates are day numbers, and "today" is a parameter.

- `common.dfy`: optional columns (`Option`), HTTP errors and handler outcomes (`Result`).
- `query.dfy`: the table queries the handlers issue (`filter().all()`, `count()`, `first()`), the key a new row gets, and counting lemmas.
- `models.dfy`: the row shapes, column defaults, unique constraints and primary-key lookups of `models.py`.
- `schemas.py` is modelled in `schemas.dfy`: request/response bodies, their defaults and the `quantity >= 0` bound.
- `store.dfy`: the class `Database`, whose fields are the four tables. `Valid()` is the set of primary keys and unique constraints.
- `loans.dfy`: borrowing and returning, the late fine, and the stock ledger. For each book, `quantity` plus the number of its unreturned loans is preserved by every borrow and return.
- `books.dfy`: derived availability, book listing and detail, the hold queue, the cover-image extension check, and book create/update/delete.
- `dashboard.dfy`: the dashboard counters and the overdue list.
- `users.dfy`: the user list, the field-merge edit and deletion, both as the code is written (every call ends in a 500, see "## Findings") and as evidently intended.
- `auth.dfy`: registration and login decisions. Hashing, password checking and token signing are function parameters.
- `scenario.dfy`: a client that walks through borrow, a refused second borrow, a hold, a duplicate hold, and a late return, using only the handlers' contracts.

Handlers that change the store are methods taking the `Database` (`modifies db`).
Their postconditions give the whole new state in terms of the old one.
Read-only handlers are functions over the tables. The exception is `get_books`, which loops in the source, so it is a method with a loop.

The model follows what the code does:
- Borrowing takes effect at once. It decrements `Book.quantity` and leaves the loan's `status` at its default "pending". No handler sets "approved".
- As a result, the availability formula (`quantity` minus approved, unreturned loans) always equals `quantity` for loans created here. `AvailableWhileNoneApproved` proves this.
- A return is by loan id. It never sets `return_date`.
- `create_book` and `update_book` take form fields, not the `BookBase` body, so they accept a negative `quantity`. The bound is modelled by `ValidateBookBase` alone.

## Model

| member | source | states |
|---|---|---|
| `Models.NewBook` | models.py:8-18 | a book row built without `quantity` has quantity 1; otherwise the given one |
| `Models.NewUser` | models.py:21-29 | a user row built without `role` is a "student"; it has no profile picture |
| `Models.NewLoan` | models.py:31-41 | a loan built without them is unreturned, "pending" and has no return date; its dates are optional |
| `Models.IsbnUniqueAppend` | models.py:13 | a new book row keeps isbns unique iff no existing row has its isbn |
| `Models.IsbnUniqueUpdate` | models.py:13 | an edited book row keeps isbns unique iff no other row has its isbn |
| `Schemas.ValidateBookBase` | schemas.py:5-9 | a book body is rejected (422) iff its quantity is negative; an accepted body has quantity >= 0 |
| `Schemas.UserCreateWithDefaults` | schemas.py:24-27 | a registration body without role or admin code has role "student" and no code |
| `Schemas.UserUpdateWithoutRole` | schemas.py:29-30 | a user edit may leave `role` absent |
| `Schemas.NewToken` | schemas.py:48-50 | a token body's type is "bearer" unless given |
| `Schemas.LoanOutOf` | schemas.py:38-46 | a loan row reads into the Loan body iff both `borrowed_on` and `due_date` are present, with the same fields |
| `Loans.Fine` | routers/loans.py:39-41 | the fine is never negative, is positive iff today is after the due day, and is then 50 per day late |
| `Loans.FineGrowsByDay` | routers/loans.py:40-41 | once due, each extra day adds exactly 50 |
| `Loans.FineExamples` | routers/loans.py:39-41 | on time 0, five days late 250, twenty days late 1000 |
| `Query.WhereMultiset` | routers/loans.py:11 | `.filter(p).all()` returns each satisfying row as often as the table holds it and no other row |
| `Loans.GetActiveLoans` | routers/loans.py:9-11 | exactly the unreturned loans, whatever their status |
| `Loans.BorrowConservesStock` | routers/loans.py:18-26 | one copy off a book plus one unreturned loan of it keeps every book's quantity + unreturned loans |
| `Loans.ReturnConservesStock` | routers/loans.py:35-37 | one loan marked returned plus its copy back keeps every book's quantity + unreturned loans |
| `Loans.BorrowBook` | routers/loans.py:13-28 | 400 and no change iff the book is missing or its quantity <= 0; else exactly one pending, unreturned loan borrowed today and due today+14, the book's quantity down by 1, other books unchanged, stock preserved, quantity kept >= 0 |
| `Loans.ReturnBook` | routers/loans.py:30-42 | 404 and no change for a missing or returned loan, so a loan is returned once; else returned = true and the book's quantity up by 1 (return_date untouched), stock preserved, and the fine for today; a missing book row is a 500 with no change, a missing due date a 500 after the commit |
| `Books.Available` | routers/books.py:32-38 | availability is quantity less the approved unreturned loans, never above quantity |
| `Books.AvailableWhileNoneApproved` | routers/books.py:64 | while no loan is "approved" (none ever is here), availability equals quantity |
| `Books.AvailableAtLeastShelf` | routers/books.py:86 | availability is at least quantity less all unreturned loans of the book |
| `Books.GetBooks` | routers/books.py:58-78 | one view per book in table order, row unchanged, with its derived availability |
| `Books.GetBook` | routers/books.py:80-98 | 404 iff no row has the id; else that row with its availability |
| `Books.HoldRefusal` | routers/books.py:25-45 | checks in order: non-student 403, missing book 404, available > 0 400, existing hold 400; none fails iff all four pass |
| `Books.SecondHoldRefused` | routers/books.py:43-45 | after an admitted hold is recorded, the same user's hold on the same book is refused as a duplicate |
| `Books.PlaceHold` | routers/books.py:19-55 | a refusal adds nothing; otherwise exactly one hold (caller, book, today) is added and no other table changes; at most one hold per (user, book) is kept |
| `Models.HoldAppendedFresh` | models.py:46-48 | a hold request with an id above every existing one keeps hold ids unique |
| `Books.LastSegment` | routers/books.py:111 | the text after the last dot (or the whole name): dot-free, a suffix, preceded by a dot when shorter |
| `Books.LastSegmentAfterDot` | routers/books.py:111 | the last segment of prefix + "." + a dot-free segment is that segment |
| `Books.LastSegmentDotFree` | routers/books.py:111 | a name without a dot is its own last segment |
| `Books.Lower` | routers/books.py:111 | lower-casing keeps length, leaves no upper-case letter and changes only A-Z |
| `Books.LowerLastSegment` | routers/books.py:111 | lower-casing commutes with taking the last segment |
| `Books.LastSegmentIs` | routers/books.py:111 | a name's last segment is a dot-free e iff the name is e or ends in "." + e |
| `Books.CoverExtension` | routers/books.py:111-113 | an accepted extension is one of jpg, jpeg, png, webp; a refusal is 400 "Unsupported image format" |
| `Books.CoverExtensionIs` | routers/books.py:111-113 | a cover is accepted with extension e iff e is allowed and the lower-cased name is e or ends in "." + e |
| `Books.CoverAcceptedIffSuffix` | routers/books.py:111-113 | a cover is accepted iff its lower-cased name is an allowed extension or ends in "." + one |
| `Books.ImageExtensionShape` | routers/books.py:112 | the allowed extensions are lower-case and dot-free |
| `Books.CoverUrl` | routers/books.py:115-121 | the stored URL is "/static/book-covers/", then the generated name, then "." + the extension |
| `Books.StoredCoverUrl` | routers/books.py:160-177 | a cover upload yields a stored URL iff its extension is accepted, otherwise the 400 error |
| `Books.CoverUrlPassesCheck` | routers/books.py:115-121 | the stored URL of an accepted cover passes the extension check with the same extension |
| `Books.CoverUrlSegment` | routers/books.py:115-121 | the last segment of a stored cover URL is the extension it was built with |
| `Books.CreateBook` | routers/books.py:100-135 | 400 and no row for an unsupported cover; a duplicate isbn fails at commit (500) with no row; otherwise exactly one new row with the given fields and the stored cover URL |
| `Books.AddBook` | routers/books.py:123-135 | the commit of a new row: succeeds iff no row has its isbn, then the row is appended; otherwise 500 and no row |
| `Books.UpdateBook` | routers/books.py:137-181 | 404 for a missing id; an unsupported cover or a duplicate isbn leaves the row unchanged; otherwise the six fields are overwritten and the cover URL changes only when a cover is sent |
| `Books.CoverChange` | routers/books.py:160-177 | no cover sent keeps the URL; a sent cover yields its stored URL or the 400 error |
| `Books.EditedBook` | routers/books.py:150-177 | the edited row keeps id, overwrites the six form fields, and changes the cover URL only when a new one is given |
| `Books.SaveBook` | routers/books.py:179-181 | the commit of an edited row: succeeds iff no other row has its isbn, then only that row changes; otherwise 500 and no change |
| `Books.DeleteBook` | routers/books.py:183-190 | 404 iff no row has the id; otherwise exactly that row is removed and every other row kept |
| `Dashboard.GetOverdueLoans` | routers/dashboard.py:18-20 | exactly the unreturned loans with a due date strictly before today |
| `Dashboard.GetDashboardStats` | routers/dashboard.py:9-16 | books and users counted in full; borrowed = unreturned loans of any status; overdue = the loans GetOverdueLoans lists; overdue <= borrowed |
| `Dashboard.OverdueIffFined` | routers/dashboard.py:14 | an unreturned loan is overdue iff returning it today costs a positive fine |
| `Users.GetUsers` | routers/users.py:10-12 | every user row, in table order |
| `Users.MergeUpdate` | routers/users.py:19-22 | role replaced only by a non-empty sent role; name and department take non-empty sent values, else kept; id, matric number, password hash and picture never change |
| `Users.MergeUpdateIdempotent` | routers/users.py:19-22 | applying the same edit twice equals applying it once |
| `Users.EmptyUpdateKeepsRow` | routers/users.py:19-22 | an edit with empty name and department and no role changes nothing |
| `Users.UpdateUser` | routers/users.py:14-25 | 404 and no change iff the id is missing; otherwise that row becomes its merge with the body and the others stay |
| `Users.DeleteUser` | routers/users.py:27-34 | 404 and no change iff the id is missing; otherwise exactly that row is removed |
| `Users.GetUsersAsWritten` | routers/users.py:4-12 | as written, listing users always ends in a 500 |
| `Users.UpdateUserAsWritten` | routers/users.py:4-25 | as written, every edit ends in a 500 and changes no row |
| `Users.DeleteUserAsWritten` | routers/users.py:4-34 | as written, every delete ends in a 500 and removes no row |
| `Users.UserQueryOnSchemaFails` | routers/users.py:4-16 | for a table holding user 1, the intended lookup finds the row and the list returns it, while the handler as written gives a 500 |
| `Auth.ResolveRole` | routers/auth.py:17-20 | an empty role becomes "student"; refused (403) iff the role is "admin" without the admin code; any other role is kept as sent |
| `Auth.AdminWithoutCodeRefused` | routers/auth.py:18-20 | an admin registration with the default (absent) code is refused |
| `Auth.Register` | routers/auth.py:13-32 | a used matric number is 400, a refused role 403, both adding no user; otherwise exactly one user with the body's fields, the resolved role and hash(password), and a bearer token for the matric number |
| `Auth.Login` | routers/auth.py:35-41 | 401 unless a user with that matric number exists and the password verifies (iff, with unique matric numbers); the token's subject is the matric number |
| `Auth.ForgotPassword` | routers/auth.py:44-47 | a fixed message; no table is read or written |
| `Auth.ResetPassword` | routers/auth.py:50-53 | a fixed message; no table is read or written |

## Left out

- Password hashing and checking, and token signing with its 24-hour expiry (utils.py), are not part of this model. They are the parameters `hash`, `verify` and `sign`.
- The application wiring in main.py (routers, CORS, the static mount, table creation) is not part of this model.
- Identifying the caller (`get_current_user`, `get_current_admin`) is not part of this model. The caller's id and role are parameters, and admin-only handlers are modelled without the admin gate.
- File I/O for covers is left out: writing the upload, removing the old cover file, and the `uuid4` name. The generated name is an input of `Upload`.
- The session, transactions, isolation and concurrent requests are left out. Each handler is one atomic step on the store.
- The clock is a parameter: `today` is a day number.
- New primary keys follow the SQLite rowid rule (one more than the largest key). Other engines' id sequences are not modelled.
- Foreign keys are not enforced. A loan may name any user id, and deleting a book or user leaves its loans and holds in place. The foreign-key columns are modelled as always present.
- Response serialisation by the response schemas is left out. This includes a 500 raised after the commit when a stored book's quantity is negative, and the extra fields passed to the Book response.
- `Books.GetBooks`, `Books.GetBook`: these build the `Book` response schema explicitly (routers/books.py:66, 88). Its `quantity >= 0` bound turns a stored negative quantity, which create and update accept, into a 500. The model returns the row instead.
- `Books.Lower`: models `str.lower()` on ASCII letters only. Unicode case mapping is not modelled.
- The loan request, approve and reject handlers and the per-user return do not exist in this code and are not modelled.

## Findings

| source | as written | input that shows it | evidently intended | confidence | as-written member | corrected member |
|---|---|---|---|---|---|---|
| routers/users.py:4-12 | `from schemas import User` rebinds `User` to the response schema, so `db.query(User)` is a query on an unmapped class and raises | GET /users/ with user 1 in the table: 500 instead of the list | return every user row | not executed | `Users.GetUsersAsWritten` | `Users.GetUsers` |
| routers/users.py:4-25 | the same rebinding makes the lookup in `update_user` raise before the 404 check | PUT /users/1 with user 1 in the table: 500 and no change instead of the edited row | 404 for a missing id, else the merged row | not executed | `Users.UpdateUserAsWritten` | `Users.UpdateUser` |
| routers/users.py:4-34 | the same rebinding makes the lookup in `delete_user` raise before the 404 check | DELETE /users/1 with user 1 in the table: 500 and the row stays | 404 for a missing id, else the row is removed | not executed | `Users.DeleteUserAsWritten` | `Users.DeleteUser` |
