/** Registration and login decisions (routers/auth.py). Password hashing,
    password checking and token signing are the caller's functions `hash`,
    `verify` and `sign`; `sign` maps a token subject to the signed token. */
module Auth {
  import opened Common
  import opened Models
  import opened Schemas
  import opened Store

  const AdminCode := "SUPERADMIN123"

  /** The role a registration asks for: an empty role is "student"; "admin"
      needs the admin code (403 otherwise); any other role passes unchecked. */
  function ResolveRole(requested: string, adminCode: Option<string>): (r: Result<string>)
    ensures r.Err? <==> requested == "admin" && adminCode != Some(AdminCode)
    ensures r.Err? ==> r.error == HttpError(403, "Invalid admin code")
    ensures r.Ok? && requested == "" ==> r.value == "student"
    ensures r.Ok? && requested != "" ==> r.value == requested
  {
    var role := if requested != "" then requested else DefaultRole;
    if role == "admin" && adminCode != Some(AdminCode) then Err(HttpError(403, "Invalid admin code"))
    else Ok(role)
  }

  /** A registration that sends "admin" without a code is refused. */
  lemma AdminWithoutCodeRefused(name: string, matricNo: string, department: string, password: string)
    ensures ResolveRole("admin", UserCreateWithDefaults(name, matricNo, department, password).adminCode).Err?
  {
  }

  /** `register`: 400 for a matric number already in use, 403 for a refused
      admin role; otherwise adds one user with the hashed password and
      returns a bearer token whose subject is the matric number. */
  method Register(db: Database, body: UserCreate, hash: string -> string, sign: string -> string)
    returns (r: Result<Token>)
    requires db.Valid()
    modifies db
    ensures db.Valid()
    ensures db.books == old(db.books) && db.loans == old(db.loans) && db.holds == old(db.holds)
    ensures FindMatric(old(db.users), body.matricNo).Some? ==>
              r == Err(HttpError(400, "Matric number already registered")) && db.users == old(db.users)
    ensures FindMatric(old(db.users), body.matricNo).None? && ResolveRole(body.role, body.adminCode).Err? ==>
              r == Err(HttpError(403, "Invalid admin code")) && db.users == old(db.users)
    ensures FindMatric(old(db.users), body.matricNo).None? && ResolveRole(body.role, body.adminCode).Ok? ==>
              && r == Ok(NewToken(sign(body.matricNo)))
              && db.users == old(db.users)
                   + [User(NextUserId(old(db.users)), body.name, body.matricNo, body.department,
                           ResolveRole(body.role, body.adminCode).value, hash(body.password), None)]
  {
    if FindMatric(db.users, body.matricNo).Some? {
      r := Err(HttpError(400, "Matric number already registered"));
      return;
    }
    var role := ResolveRole(body.role, body.adminCode);
    if role.Err? {
      r := Err(role.error);
      return;
    }
    var user := NewUser(NextUserId(db.users), body.name, body.matricNo, body.department,
                        Some(role.value), hash(body.password));
    UserAppendedFresh(db.users, user);
    db.users := db.users + [user];
    r := Ok(NewToken(sign(user.matricNo)));
  }

  /** A user row appended with a fresh id and an unused matric number keeps
      both unique. */
  lemma UserAppendedFresh(users: seq<User>, user: User)
    requires UserIdsUnique(users) && MatricUnique(users)
    requires forall k | 0 <= k < |users| :: users[k].id < user.id && users[k].matricNo != user.matricNo
    ensures UserIdsUnique(users + [user]) && MatricUnique(users + [user])
  {
    var s := users + [user];
    forall a, b | 0 <= a < b < |s| ensures s[a].id != s[b].id && s[a].matricNo != s[b].matricNo {
      if b == |users| {
        assert s[a] == users[a] && s[b] == user;
      } else {
        assert s[a] == users[a] && s[b] == users[b];
      }
    }
  }

  /** `login`: 401 unless the first user with that matric number exists and
      the password verifies against its hash; the token's subject is the
      matric number. */
  function Login(users: seq<User>, username: string, password: string,
                 verify: (string, string) -> bool, sign: string -> string): (r: Result<Token>)
    ensures r.Err? ==> r.error == HttpError(401, "Incorrect credentials")
    ensures r.Ok? ==> r.value == NewToken(sign(username))
    ensures r.Ok? ==> exists k | 0 <= k < |users| ::
              users[k].matricNo == username && verify(password, users[k].hashedPassword)
    ensures (forall k | 0 <= k < |users| :: users[k].matricNo != username) ==> r.Err?
    ensures MatricUnique(users) ==>
              (r.Ok? <==> exists k | 0 <= k < |users| ::
                            users[k].matricNo == username && verify(password, users[k].hashedPassword))
  {
    match FindMatric(users, username)
    case None => Err(HttpError(401, "Incorrect credentials"))
    case Some(i) =>
      if !verify(password, users[i].hashedPassword) then Err(HttpError(401, "Incorrect credentials"))
      else Ok(NewToken(sign(users[i].matricNo)))
  }

  /** `forgot_password`: a fixed message; nothing is read or written. */
  function ForgotPassword(email: string): (detail: string)
    ensures detail == "Password reset email sent."
  {
    "Password reset email sent."
  }

  /** `reset_password`: a fixed message; nothing is read or written. */
  function ResetPassword(token: string, newPassword: string): (detail: string)
    ensures detail == "Password has been reset successfully."
  {
    "Password has been reset successfully."
  }
}
