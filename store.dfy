/** The user handlers as they run against the shared `users` table: each method performs the
    source's steps in order on the table it holds, and is proved to leave the table and answer
    as the corresponding function of the Users module says. */
module Store {
  import opened Types
  import opened Users

  class UserStore {
    var rows: seq<UserRecord>
    var nextId: int

    /** The table this object holds. */
    function State(): Table
      reads this
    {
      Table(rows, nextId)
    }

    ghost predicate Valid()
      reads this
    {
      WellFormed(State())
    }

    /** A freshly created, empty table whose id sequence starts at 1. */
    constructor ()
      ensures Valid() && State() == Table([], 1)
    {
      rows := [];
      nextId := 1;
    }

    /** `SELECT COUNT(*) FROM users`. */
    method Count() returns (n: nat)
      ensures n == |rows|
    {
      n := |rows|;
    }

    /** `INSERT INTO users ... RETURNING id, username, role`; None is the 23505 unique violation. */
    method Insert(username: string, passwordHash: string, role: string) returns (created: Option<Identity>)
      requires Valid()
      modifies this
      ensures Valid()
      ensures created.None? <==> InsertRow(old(State()), username, passwordHash, role).None?
      ensures created.None? ==> State() == old(State())
      ensures created.Some? ==> State() == InsertRow(old(State()), username, passwordHash, role).value
      ensures created.Some? ==> created.value == Identity(old(nextId), username, role)
    {
      InsertRowSpec(State(), username, passwordHash, role);
      if Lookup(rows, username).Some? {
        created := None;
      } else {
        created := Some(Identity(nextId, username, role));
        rows := rows + [UserRecord(nextId, username, passwordHash, role)];
        nextId := nextId + 1;
      }
    }

    /** `ensureAdminUser`: count, and only on an empty table hash "1234" and insert the
        administrator; a failing query is caught and logged, so it only stops the procedure. */
    method EnsureAdminUser(c: Crypto, salt: Salt, fault: bool)
      requires Valid()
      modifies this
      ensures Valid()
      ensures State() == Bootstrap(old(State()), c.hash(AdminPassword, salt), fault)
    {
      if fault {
        return;
      }
      var count := Count();
      if count == 0 {
        var hash := c.hash(AdminPassword, salt);
        var _ := Insert(AdminUsername, hash, AdminRole);
      }
    }

    /** POST `/auth/login`: look the username up, compare the password, sign a token. */
    method Login(username: Option<string>, password: Option<string>, c: Crypto, fault: bool)
      returns (response: Response)
      ensures response == LoginOutcome(rows, username, password, c, fault)
    {
      if fault {
        return Error(500, MsgLoginInternal);
      }
      var found := if username.Some? then Lookup(rows, username.value) else None;
      if found.None? {
        return Error(401, MsgBadCredentials);
      }
      var user := found.value;
      if password.None? {
        return Error(500, MsgLoginInternal);
      }
      var ok := c.matches(password.value, user.passwordHash);
      if !ok {
        return Error(401, MsgBadCredentials);
      }
      var token := c.sign(View(user));
      response := Response(200, LoginBody(token, View(user)));
    }

    /** POST `/users` once the gate has let an "admin" through. */
    method CreateUser(username: Option<string>, password: Option<string>, role: Option<string>,
                      c: Crypto, salt: Salt, fault: bool) returns (response: Response)
      requires Valid()
      modifies this
      ensures Valid()
      ensures Step(response, State()) == CreateOutcome(old(State()), username, password, role, c, salt, fault)
    {
      if !Present(username) || !Present(password) || !Present(role) {
        return Error(400, MsgIncomplete);
      }
      if fault {
        return Error(500, MsgInternal);
      }
      var hash := c.hash(password.value, salt);
      var created := Insert(username.value, hash, role.value);
      if created.None? {
        response := Error(400, MsgDuplicate);
      } else {
        response := Response(201, UserBody(created.value));
      }
    }

    /** GET `/users` once the gate has let an "admin" through. */
    method ListUsers(fault: bool) returns (response: Response)
      ensures response == ListOutcome(rows, fault)
    {
      if fault {
        return Error(500, MsgInternal);
      }
      response := Response(200, UserList(SortByUsername(Views(rows))));
    }

    /** `DELETE FROM users WHERE id = $1`. */
    method DeleteById(id: int)
      requires Valid()
      modifies this
      ensures Valid()
      ensures State() == Table(RemoveId(old(rows), id), old(nextId))
    {
      RemoveIdKeepsUnique(rows, id);
      rows := RemoveId(rows, id);
    }

    /** DELETE `/users/:id` for the identity the gate attached. */
    method DeleteUser(actor: Identity, target: PathId, fault: bool) returns (response: Response)
      requires Valid()
      modifies this
      ensures Valid()
      ensures Step(response, State()) == DeleteOutcome(old(State()), actor, target, fault)
    {
      if target == IntId(actor.id) {
        return Error(400, MsgSelfDelete);
      }
      if fault || target.NotInt? {
        return Error(500, MsgInternal);
      }
      DeleteById(target.n);
      response := Response(204, NoContent);
    }
  }
}
