/** User administration (routers/users.py): the user list, the field-merge
    edit and deletion.

    As written, routers/users.py imports `User` from models.py and then again
    from schemas.py, so the name the handlers query is the response schema,
    which is not a mapped table. Every query then raises and the request ends
    in a 500 with nothing changed. The `...AsWritten` members model that
    behaviour; `GetUsers`, `UpdateUser` and `DeleteUser` model the evidently
    intended query on the users table. */
module Users {
  import opened Common
  import opened Models
  import opened Schemas
  import opened Store

  /** `get_users`: every user row, in table order. */
  function GetUsers(users: seq<User>): (r: seq<User>)
    ensures |r| == |users| && forall k | 0 <= k < |users| :: r[k] == users[k]
  {
    users
  }

  /** The edit of `update_user` on one row: `role` only when a non-empty one
      is sent; `name` and `department` take the sent value unless it is empty;
      no other column changes (the body's `matric_no` is ignored). */
  function MergeUpdate(u: User, body: UserUpdate): (r: User)
    ensures && r.id == u.id && r.matricNo == u.matricNo
            && r.hashedPassword == u.hashedPassword && r.profilePictureUrl == u.profilePictureUrl
    ensures r.role == (if body.role.Some? && body.role.value != "" then body.role.value else u.role)
    ensures body.name != "" ==> r.name == body.name
    ensures body.name == "" ==> r.name == u.name
    ensures body.department != "" ==> r.department == body.department
    ensures body.department == "" ==> r.department == u.department
  {
    var role := if body.role.Some? && body.role.value != "" then body.role.value else u.role;
    u.(role := role,
       name := if body.name != "" then body.name else u.name,
       department := if body.department != "" then body.department else u.department)
  }

  /** Sending the same edit twice leaves the row as the first edit did. */
  lemma MergeUpdateIdempotent(u: User, body: UserUpdate)
    ensures MergeUpdate(MergeUpdate(u, body), body) == MergeUpdate(u, body)
  {
  }

  /** An edit with empty fields and no role changes nothing. */
  lemma EmptyUpdateKeepsRow(u: User, matricNo: string)
    ensures MergeUpdate(u, UserUpdate("", matricNo, "", None)) == u
  {
  }

  /** `update_user`: 404 for a missing id; otherwise the row is replaced by
      its merge with the body and every other row is unchanged. */
  method UpdateUser(db: Database, id: int, body: UserUpdate) returns (r: Result<User>)
    requires db.Valid()
    modifies db
    ensures db.Valid()
    ensures db.books == old(db.books) && db.loans == old(db.loans) && db.holds == old(db.holds)
    ensures r.Err? <==> FindUser(old(db.users), id).None?
    ensures r.Err? ==> r.error == HttpError(404, "User not found") && db.users == old(db.users)
    ensures r.Ok? ==>
              var i := FindUser(old(db.users), id).value;
              r.value == MergeUpdate(old(db.users)[i], body) && db.users == old(db.users)[i := r.value]
  {
    var found := FindUser(db.users, id);
    if found.None? {
      r := Err(HttpError(404, "User not found"));
      return;
    }
    var i := found.value;
    var row := MergeUpdate(db.users[i], body);
    UserKeysKept(db.users, i, row);
    db.users := db.users[i := row];
    r := Ok(row);
  }

  /** Overwriting a user row with one of the same id and matric number keeps
      both unique. */
  lemma UserKeysKept(users: seq<User>, i: nat, row: User)
    requires UserIdsUnique(users) && MatricUnique(users)
    requires i < |users| && row.id == users[i].id && row.matricNo == users[i].matricNo
    ensures UserIdsUnique(users[i := row]) && MatricUnique(users[i := row])
  {
    var s := users[i := row];
    forall a, b | 0 <= a < b < |s| ensures s[a].id != s[b].id && s[a].matricNo != s[b].matricNo {
      assert s[a].id == users[a].id && s[b].id == users[b].id;
      assert s[a].matricNo == users[a].matricNo && s[b].matricNo == users[b].matricNo;
    }
  }

  /** `delete_user`: 404 for a missing id; otherwise removes exactly that row.
      Loans and holds of the user are left as they are. */
  method DeleteUser(db: Database, id: int) returns (r: Result<string>)
    requires db.Valid()
    modifies db
    ensures db.Valid()
    ensures db.books == old(db.books) && db.loans == old(db.loans) && db.holds == old(db.holds)
    ensures r.Err? <==> FindUser(old(db.users), id).None?
    ensures r.Err? ==> r.error == HttpError(404, "User not found") && db.users == old(db.users)
    ensures r.Ok? ==> && r.value == "User deleted"
                      && db.users == RemoveAt(old(db.users), FindUser(old(db.users), id).value)
    ensures forall k | 0 <= k < |db.users| :: db.users[k].id != id
    ensures forall k | 0 <= k < |old(db.users)| :: old(db.users)[k].id != id ==> old(db.users)[k] in db.users
  {
    var found := FindUser(db.users, id);
    if found.None? {
      r := Err(HttpError(404, "User not found"));
      return;
    }
    var i := found.value;
    var rest := RemoveAt(db.users, i);
    forall k | 0 <= k < |db.users| && k != i ensures db.users[k] in rest {
      if k < i { assert rest[k] == db.users[k]; } else { assert rest[k - 1] == db.users[k]; }
    }
    db.users := rest;
    r := Ok("User deleted");
  }

  // The handlers as written: `db.query(User)` on the schema class.

  /** `get_users` as written: the query on the schema class raises, so the
      caller gets a 500 whatever the table holds. */
  function GetUsersAsWritten(users: seq<User>): (r: Result<seq<User>>)
    ensures r.Err? && r.error.status == 500
  {
    Err(InternalServerError)
  }

  /** `update_user` as written: the lookup raises before the 404 check, so
      every call is a 500 and no row changes. */
  method UpdateUserAsWritten(db: Database, id: int, body: UserUpdate) returns (r: Result<User>)
    ensures r.Err? && r.error.status == 500
  {
    r := Err(InternalServerError);
  }

  /** `delete_user` as written: the lookup raises before the 404 check, so
      every call is a 500 and no row is removed. */
  method DeleteUserAsWritten(db: Database, id: int) returns (r: Result<string>)
    ensures r.Err? && r.error.status == 500
  {
    r := Err(InternalServerError);
  }

  /** With one user with id 1 in the table, the intended handlers find it
      (so the list is that row, the edit succeeds and the delete removes it),
      while the handlers as written refuse with a 500. */
  lemma UserQueryOnSchemaFails()
    ensures var users := [NewUser(1, "Ada", "M001", "CS", None, "hash")];
            && FindUser(users, 1) == Some(0)
            && GetUsers(users) == users && |users| == 1
            && GetUsersAsWritten(users) == Err(InternalServerError)
  {
    var users := [NewUser(1, "Ada", "M001", "CS", None, "hash")];
    assert users[0].id == 1;
  }
}
