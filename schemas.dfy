/** Request and response bodies (schemas.py): their defaults and the one
    validation bound. */
module Schemas {
  import opened Common
  import opened Models

  /** The book fields every book body carries; `quantity` must be at least 0. */
  datatype BookBase = BookBase(title: string, author: string, isbn: string, quantity: int)

  const ValidationFailed := HttpError(422, "Unprocessable Entity")

  /** Body validation of a BookBase: rejected exactly when `quantity` is negative. */
  function ValidateBookBase(body: BookBase): (r: Result<BookBase>)
    ensures r.Err? <==> body.quantity < 0
    ensures r.Err? ==> r.error.status == 422
    ensures r.Ok? ==> r.value == body && r.value.quantity >= 0
  {
    if body.quantity < 0 then Err(ValidationFailed) else Ok(body)
  }

  /** The registration body. `adminCode` is absent unless sent. */
  datatype UserCreate = UserCreate(
    name: string,
    matricNo: string,
    department: string,
    password: string,
    role: string,
    adminCode: Option<string>)

  /** A registration body in which the client sent neither `role` nor `admin_code`. */
  function UserCreateWithDefaults(name: string, matricNo: string, department: string,
                                  password: string): (u: UserCreate)
    ensures u.role == "student" && u.adminCode.None?
    ensures u.name == name && u.matricNo == matricNo && u.password == password
  {
    UserCreate(name, matricNo, department, password, DefaultRole, None)
  }

  /** The body of an admin's user edit: `role` may be absent. */
  datatype UserUpdate = UserUpdate(
    name: string,
    matricNo: string,
    department: string,
    role: Option<string>)

  /** A user edit in which the client sent no `role`. */
  function UserUpdateWithoutRole(name: string, matricNo: string, department: string): (u: UserUpdate)
    ensures u.role.None?
    ensures u.name == name && u.department == department
  {
    UserUpdate(name, matricNo, department, None)
  }

  datatype Token = Token(accessToken: string, tokenType: string)

  /** The token body built from an access token alone: its type is "bearer". */
  function NewToken(accessToken: string): (t: Token)
    ensures t.tokenType == "bearer"
    ensures t.accessToken == accessToken
  {
    Token(accessToken, "bearer")
  }

  /** The Loan response body: `borrowed_on` and `due_date` are required. */
  datatype LoanOut = LoanOut(
    id: int, userId: int, bookId: int, borrowedOn: int, dueDate: int, returned: bool)

  /** Reading a Loan row into the Loan body: fails when either date is null. */
  function LoanOutOf(l: Loan): (r: Option<LoanOut>)
    ensures r.Some? <==> l.borrowedOn.Some? && l.dueDate.Some?
    ensures r.Some? ==>
              && r.value.id == l.id && r.value.userId == l.userId && r.value.bookId == l.bookId
              && r.value.returned == l.returned
              && Some(r.value.borrowedOn) == l.borrowedOn && Some(r.value.dueDate) == l.dueDate
  {
    if l.borrowedOn.Some? && l.dueDate.Some? then
      Some(LoanOut(l.id, l.userId, l.bookId, l.borrowedOn.value, l.dueDate.value, l.returned))
    else None
  }
}
