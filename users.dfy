/** The `users` table and what each user handler does to it, as functions of the table before the
    request: bootstrap of the default administrator, login, create, list and delete. */
module Users {
  import opened Types
  import opened Strings

  /** The rows of the table, in insertion order, and the next value of its id sequence. */
  datatype Table = Table(rows: seq<UserRecord>, nextId: int)

  predicate UniqueUsernames(rows: seq<UserRecord>)
  {
    forall i, j :: 0 <= i < j < |rows| ==> rows[i].username != rows[j].username
  }

  predicate DistinctIds(rows: seq<UserRecord>)
  {
    forall i, j :: 0 <= i < j < |rows| ==> rows[i].id != rows[j].id
  }

  /** The table's constraints: a unique username per row, a unique id per row, and every id
      below the next value of the sequence (so the next one is fresh). */
  predicate WellFormed(t: Table)
  {
    && t.nextId >= 1
    && (forall i :: 0 <= i < |t.rows| ==> 1 <= t.rows[i].id < t.nextId)
    && DistinctIds(t.rows)
    && UniqueUsernames(t.rows)
  }

  /** `SELECT ... FROM users WHERE username = $1`. */
  function Lookup(rows: seq<UserRecord>, username: string): (r: Option<UserRecord>)
    ensures r.None? <==> forall i :: 0 <= i < |rows| ==> rows[i].username != username
    ensures r.Some? ==> r.value in rows && r.value.username == username
  {
    if rows == [] then None
    else if rows[0].username == username then Some(rows[0])
    else Lookup(rows[1..], username)
  }

  /** With unique usernames the lookup finds the one row that carries the name. */
  lemma LookupFindsRow(rows: seq<UserRecord>, i: int)
    requires UniqueUsernames(rows) && 0 <= i < |rows|
    ensures Lookup(rows, rows[i].username) == Some(rows[i])
  {
    var r := Lookup(rows, rows[i].username);
    var j :| 0 <= j < |rows| && rows[j] == r.value;
    assert i == j;
  }

  /** `INSERT INTO users (username, password_hash, role) VALUES (...)`: the new row takes the
      next id; None is the unique-violation error (code 23505). */
  function InsertRow(t: Table, username: string, passwordHash: string, role: string): (r: Option<Table>)
    ensures r.None? <==> exists i :: 0 <= i < |t.rows| && t.rows[i].username == username
    ensures r.Some? ==> && r.value.nextId == t.nextId + 1
                        && |r.value.rows| == |t.rows| + 1
                        && r.value.rows[..|t.rows|] == t.rows
                        && r.value.rows[|t.rows|] == UserRecord(t.nextId, username, passwordHash, role)
  {
    if Lookup(t.rows, username).Some? then None
    else Some(Table(t.rows + [UserRecord(t.nextId, username, passwordHash, role)], t.nextId + 1))
  }

  /** An insert keeps the table's constraints, fails exactly on a taken username, and otherwise
      appends one row whose id no other row has. */
  lemma InsertRowSpec(t: Table, username: string, passwordHash: string, role: string)
    requires WellFormed(t)
    ensures var r := InsertRow(t, username, passwordHash, role);
            && (r.None? <==> exists i :: 0 <= i < |t.rows| && t.rows[i].username == username)
            && (r.Some? ==> WellFormed(r.value))
            && (r.Some? ==> r.value.rows[..|t.rows|] == t.rows && |r.value.rows| == |t.rows| + 1)
            && (r.Some? ==> r.value.rows[|t.rows|] == UserRecord(t.nextId, username, passwordHash, role))
            && (r.Some? ==> forall i :: 0 <= i < |t.rows| ==> t.rows[i].id != t.nextId)
  {
    var r := InsertRow(t, username, passwordHash, role);
    if r.Some? {
      var rows := r.value.rows;
      assert forall i :: 0 <= i < |t.rows| ==> rows[i] == t.rows[i];
    }
  }

  /** `DELETE FROM users WHERE id = $1`: the rows with another id, in their order. */
  function RemoveId(rows: seq<UserRecord>, id: int): (r: seq<UserRecord>)
    ensures forall x :: x in r <==> x in rows && x.id != id
  {
    if rows == [] then []
    else if rows[0].id == id then RemoveId(rows[1..], id)
    else [rows[0]] + RemoveId(rows[1..], id)
  }

  /** Removing rows keeps usernames and ids unique. */
  lemma {:induction false} RemoveIdKeepsUnique(rows: seq<UserRecord>, id: int)
    requires UniqueUsernames(rows) && DistinctIds(rows)
    ensures UniqueUsernames(RemoveId(rows, id)) && DistinctIds(RemoveId(rows, id))
  {
    if rows != [] {
      var tail := rows[1..];
      assert forall i :: 0 <= i < |tail| ==> tail[i] == rows[i + 1];
      RemoveIdKeepsUnique(tail, id);
      var rest := RemoveId(tail, id);
      if rows[0].id != id {
        var r := [rows[0]] + rest;
        forall i, j | 0 <= i < j < |r|
          ensures r[i].username != r[j].username && r[i].id != r[j].id
        {
          if i == 0 {
            assert r[j] == rest[j - 1];
            assert r[j] in tail;
            var k :| 0 <= k < |tail| && tail[k] == r[j];
            assert rows[k + 1] == r[j];
          } else {
            assert r[i] == rest[i - 1] && r[j] == rest[j - 1];
          }
        }
      }
    }
  }

  /** The rows as `SELECT id, username, role` returns them: without their hashes. */
  function Views(rows: seq<UserRecord>): (r: seq<Identity>)
    ensures |r| == |rows|
    ensures forall i :: 0 <= i < |rows| ==> r[i] == View(rows[i])
  {
    seq(|rows|, i requires 0 <= i < |rows| => View(rows[i]))
  }

  predicate SortedByUsername(s: seq<Identity>)
  {
    forall i, j :: 0 <= i < j < |s| ==> Le(s[i].username, s[j].username)
  }

  /** Putting a head in front of a sorted list whose every element it precedes keeps it sorted. */
  lemma ConsSorted(h: Identity, tail: seq<Identity>, s: seq<Identity>, x: Identity)
    requires SortedByUsername([h] + tail)
    requires Le(h.username, x.username)
    requires SortedByUsername(s) && multiset(s) == multiset(tail) + multiset{x}
    ensures SortedByUsername([h] + s)
  {
    var r := [h] + s;
    forall i, j | 0 <= i < j < |r| ensures Le(r[i].username, r[j].username) {
      if i == 0 {
        assert r[0] == h && r[j] == s[j - 1];
        assert r[j] in multiset(s);
        if r[j] != x {
          assert r[j] in tail;
          var k :| 0 <= k < |tail| && tail[k] == r[j];
          var ht := [h] + tail;
          assert ht[0] == h && ht[k + 1] == r[j];
          assert Le(ht[0].username, ht[k + 1].username);
        }
      } else {
        assert r[i] == s[i - 1] && r[j] == s[j - 1];
      }
    }
  }

  function InsertByUsername(x: Identity, s: seq<Identity>): (r: seq<Identity>)
    requires SortedByUsername(s)
    ensures SortedByUsername(r)
    ensures multiset(r) == multiset(s) + multiset{x}
  {
    if s == [] then [x]
    else if Le(x.username, s[0].username) then
      TransitiveAll(x, s);
      [x] + s
    else
      var tail := s[1..];
      assert s == [s[0]] + tail;
      var rest := InsertByUsername(x, tail);
      LeTotal(x.username, s[0].username);
      ConsSorted(s[0], tail, rest, x);
      [s[0]] + rest
  }

  /** An element below the head of a sorted list is below all of it. */
  lemma TransitiveAll(x: Identity, s: seq<Identity>)
    requires SortedByUsername(s) && s != [] && Le(x.username, s[0].username)
    ensures SortedByUsername([x] + s)
  {
    var r := [x] + s;
    forall i, j | 0 <= i < j < |r| ensures Le(r[i].username, r[j].username) {
      if i == 0 {
        if j > 1 {
          LeTransitive(x.username, s[0].username, s[j - 1].username);
        }
      } else {
        assert r[i] == s[i - 1] && r[j] == s[j - 1];
      }
    }
  }

  /** `ORDER BY username`, as an insertion sort. */
  function SortByUsername(s: seq<Identity>): (r: seq<Identity>)
    ensures SortedByUsername(r)
    ensures multiset(r) == multiset(s)
  {
    if s == [] then []
    else
      assert s == [s[0]] + s[1..];
      InsertByUsername(s[0], SortByUsername(s[1..]))
  }

  // ---------------------------------------------------------------- bootstrap

  /** `ensureAdminUser`: on an empty table, insert the default administrator with the given
      hash of its password; a failing query (`fault`) is swallowed and leaves the table as it was. */
  function Bootstrap(t: Table, adminHash: string, fault: bool): (r: Table)
    ensures fault || |t.rows| > 0 ==> r == t
    ensures !fault && |t.rows| == 0 ==>
              r.rows == [UserRecord(t.nextId, AdminUsername, adminHash, AdminRole)] && r.nextId == t.nextId + 1
  {
    if !fault && |t.rows| == 0 then
      match InsertRow(t, AdminUsername, adminHash, AdminRole)
      case Some(t') => t'
      case None => t
    else t
  }

  /** Against an empty table exactly one record is created: "admin", role "admin", the hash of
      "1234" (so "1234" logs in), under a fresh id. */
  lemma BootstrapEmpty(t: Table, c: Crypto, salt: Salt)
    requires WellFormed(t) && t.rows == []
    ensures var t' := Bootstrap(t, c.hash(AdminPassword, salt), false);
            && t'.rows == [UserRecord(t.nextId, AdminUsername, c.hash(AdminPassword, salt), AdminRole)]
            && WellFormed(t')
            && (Sound(c) ==> c.matches(AdminPassword, t'.rows[0].passwordHash))
  {
  }

  /** Against a non-empty table, or when a query fails, nothing changes. */
  lemma BootstrapOtherwiseUnchanged(t: Table, adminHash: string, fault: bool)
    requires |t.rows| > 0 || fault
    ensures Bootstrap(t, adminHash, fault) == t
  {
  }

  /** A second run adds nothing, once a run has succeeded. */
  lemma BootstrapIdempotent(t: Table, hash1: string, hash2: string, fault: bool)
    ensures var once := Bootstrap(t, hash1, false);
            Bootstrap(once, hash2, fault) == once
  {
  }

  lemma BootstrapKeepsWellFormed(t: Table, adminHash: string, fault: bool)
    requires WellFormed(t)
    ensures WellFormed(Bootstrap(t, adminHash, fault))
  {
    InsertRowSpec(t, AdminUsername, adminHash, AdminRole);
  }

  // ---------------------------------------------------------------- login

  /** POST `/auth/login`. A missing username matches no row. `bcrypt.compare` throws on a missing
      password, which the handler turns into 500. */
  function LoginOutcome(rows: seq<UserRecord>, username: Option<string>, password: Option<string>,
                        c: Crypto, fault: bool): (r: Response)
    ensures fault ==> r == Error(500, MsgLoginInternal)
    ensures r.status in {200, 401, 500}
    ensures r.status == 401 ==> r == Error(401, MsgBadCredentials)
    ensures !fault && (username.None? || forall i :: 0 <= i < |rows| ==> rows[i].username != username.value) ==>
              r == Error(401, MsgBadCredentials)
  {
    if fault then Error(500, MsgLoginInternal)
    else
      var found := if username.Some? then Lookup(rows, username.value) else None;
      match found
      case None => Error(401, MsgBadCredentials)
      case Some(user) =>
        if password.None? then Error(500, MsgLoginInternal)
        else if !c.matches(password.value, user.passwordHash) then Error(401, MsgBadCredentials)
        else Response(200, LoginBody(c.sign(View(user)), View(user)))
  }

  /** Every 401 from login carries the same body, and a success carries a stored
      user whose hash accepts the password, with a token signed for exactly that user. */
  lemma LoginResponses(rows: seq<UserRecord>, username: Option<string>, password: Option<string>,
                       c: Crypto, fault: bool)
    ensures var r := LoginOutcome(rows, username, password, c, fault);
            && (r.status == 401 ==> r == Error(401, MsgBadCredentials))
            && (r.status == 200 ==>
                  exists i :: 0 <= i < |rows| && username == Some(rows[i].username) && password.Some? &&
                    c.matches(password.value, rows[i].passwordHash) &&
                    r.body == LoginBody(c.sign(View(rows[i])), View(rows[i])))
            && r.status in {200, 401, 500}
  {
    var r := LoginOutcome(rows, username, password, c, fault);
    if r.status == 200 {
      var user := Lookup(rows, username.value).value;
      var i :| 0 <= i < |rows| && rows[i] == user;
    }
  }

  /** An unknown username and a wrong password for a known one give identical responses. */
  lemma LoginIndistinguishable(rows: seq<UserRecord>, unknown: string, pw1: string,
                               i: int, pw2: string, c: Crypto)
    requires UniqueUsernames(rows)
    requires forall k :: 0 <= k < |rows| ==> rows[k].username != unknown
    requires 0 <= i < |rows| && !c.matches(pw2, rows[i].passwordHash)
    ensures LoginOutcome(rows, Some(unknown), Some(pw1), c, false) ==
            LoginOutcome(rows, Some(rows[i].username), Some(pw2), c, false) ==
            Error(401, MsgBadCredentials)
  {
    LookupFindsRow(rows, i);
  }

  /** The right password for a stored user yields that user's `{id, username, role}` and a token
      that decodes to it. */
  lemma LoginSucceeds(rows: seq<UserRecord>, i: int, password: string, c: Crypto)
    requires UniqueUsernames(rows) && 0 <= i < |rows|
    requires c.matches(password, rows[i].passwordHash)
    ensures var r := LoginOutcome(rows, Some(rows[i].username), Some(password), c, false);
            && r == Response(200, LoginBody(c.sign(View(rows[i])), View(rows[i])))
            && r.body.user == Identity(rows[i].id, rows[i].username, rows[i].role)
            && (Sound(c) ==> c.verify(r.body.token) == Some(r.body.user))
  {
    LookupFindsRow(rows, i);
  }

  /** Leaving out the password tells a stored username from an unknown one: the first answers
      500 (`bcrypt.compare` throws), the second the usual 401. */
  lemma LoginWithoutPasswordRevealsUsername(rows: seq<UserRecord>, i: int, unknown: string, c: Crypto)
    requires UniqueUsernames(rows) && 0 <= i < |rows|
    requires forall k :: 0 <= k < |rows| ==> rows[k].username != unknown
    ensures LoginOutcome(rows, Some(rows[i].username), None, c, false) == Error(500, MsgLoginInternal)
    ensures LoginOutcome(rows, Some(unknown), None, c, false) == Error(401, MsgBadCredentials)
  {
    LookupFindsRow(rows, i);
  }

  // ---------------------------------------------------------------- create

  /** A response together with the table after the request. */
  datatype Step = Step(response: Response, table: Table)

  /** POST `/users`: the three fields must be truthy; then the password is hashed and the row
      inserted, a duplicate username answering 400 and any other failure 500. */
  function CreateOutcome(t: Table, username: Option<string>, password: Option<string>, role: Option<string>,
                         c: Crypto, salt: Salt, fault: bool): (s: Step)
    ensures s.response.status in {201, 400, 500}
    ensures s.response.status != 201 ==> s.table == t
    ensures !Present(username) || !Present(password) || !Present(role) ==> s.response == Error(400, MsgIncomplete)
    ensures Present(username) && Present(password) && Present(role) && fault ==> s == Step(Error(500, MsgInternal), t)
    ensures s.response.status == 201 ==>
              && Present(username) && Present(password) && Present(role) && !fault
              && s.response.body == UserBody(Identity(t.nextId, username.value, role.value))
              && s.table.rows == t.rows + [UserRecord(t.nextId, username.value, c.hash(password.value, salt), role.value)]
  {
    if !Present(username) || !Present(password) || !Present(role) then Step(Error(400, MsgIncomplete), t)
    else if fault then Step(Error(500, MsgInternal), t)
    else
      match InsertRow(t, username.value, c.hash(password.value, salt), role.value)
      case None => Step(Error(400, MsgDuplicate), t)
      case Some(t') => Step(Response(201, UserBody(Identity(t.nextId, username.value, role.value))), t')
  }

  /** A username that is already stored is refused with 400 "Usuário já existe". */
  lemma CreateDuplicate(t: Table, i: int, password: string, role: string, c: Crypto, salt: Salt)
    requires 0 <= i < |t.rows| && t.rows[i].username != "" && password != "" && role != ""
    ensures CreateOutcome(t, Some(t.rows[i].username), Some(password), Some(role), c, salt, false) ==
            Step(Error(400, MsgDuplicate), t)
  {
  }

  /** A new username is stored with the hash of its password under a fresh id, the old rows are
      untouched, the table keeps its constraints, and the response holds no hash. */
  lemma CreateSucceeds(t: Table, username: string, password: string, role: string, c: Crypto, salt: Salt)
    requires WellFormed(t) && username != "" && password != "" && role != ""
    requires forall i :: 0 <= i < |t.rows| ==> t.rows[i].username != username
    ensures var s := CreateOutcome(t, Some(username), Some(password), Some(role), c, salt, false);
            && s.response == Response(201, UserBody(Identity(t.nextId, username, role)))
            && s.table.rows == t.rows + [UserRecord(t.nextId, username, c.hash(password, salt), role)]
            && (forall i :: 0 <= i < |t.rows| ==> t.rows[i].id != t.nextId)
            && WellFormed(s.table)
            && (Sound(c) ==> c.matches(password, s.table.rows[|t.rows|].passwordHash))
  {
    InsertRowSpec(t, username, c.hash(password, salt), role);
  }

  lemma CreateKeepsWellFormed(t: Table, username: Option<string>, password: Option<string>,
                              role: Option<string>, c: Crypto, salt: Salt, fault: bool)
    requires WellFormed(t)
    ensures WellFormed(CreateOutcome(t, username, password, role, c, salt, fault).table)
  {
    if Present(username) && Present(password) && Present(role) {
      InsertRowSpec(t, username.value, c.hash(password.value, salt), role.value);
    }
  }

  // ---------------------------------------------------------------- list

  /** GET `/users`. */
  function ListOutcome(rows: seq<UserRecord>, fault: bool): (r: Response)
    ensures fault ==> r == Error(500, MsgInternal)
    ensures !fault ==> && r.status == 200 && r.body.UserList?
                       && SortedByUsername(r.body.users)
                       && multiset(r.body.users) == multiset(Views(rows))
  {
    if fault then Error(500, MsgInternal)
    else Response(200, UserList(SortByUsername(Views(rows))))
  }

  /** The list holds every stored user and nothing else, without hashes, in username order, with
      no username twice. */
  lemma ListUsersSpec(rows: seq<UserRecord>)
    requires UniqueUsernames(rows)
    ensures var r := ListOutcome(rows, false);
            && r.status == 200 && r.body.UserList?
            && SortedByUsername(r.body.users)
            && multiset(r.body.users) == multiset(Views(rows))
            && (forall i :: 0 <= i < |rows| ==> View(rows[i]) in r.body.users)
            && (forall u :: u in r.body.users ==> exists i :: 0 <= i < |rows| && u == View(rows[i]))
            && (forall i, j :: 0 <= i < j < |r.body.users| ==> r.body.users[i].username != r.body.users[j].username)
  {
    var users := ListOutcome(rows, false).body.users;
    var views := Views(rows);
    forall i | 0 <= i < |rows| ensures View(rows[i]) in users {
      assert views[i] in multiset(views);
    }
    forall u | u in users ensures exists i :: 0 <= i < |rows| && u == View(rows[i]) {
      assert u in multiset(users);
      assert u in views;
    }
    forall i, j | 0 <= i < j < |users| ensures users[i].username != users[j].username {
      SortedDistinct(rows, users, i, j);
    }
  }

  /** Two places of a permutation of the views hold different usernames. */
  lemma SortedDistinct(rows: seq<UserRecord>, users: seq<Identity>, i: int, j: int)
    requires UniqueUsernames(rows) && multiset(users) == multiset(Views(rows))
    requires 0 <= i < j < |users|
    ensures users[i].username != users[j].username
  {
    var views := Views(rows);
    assert users[i] in multiset(views) && users[j] in multiset(views);
    var a :| 0 <= a < |views| && views[a] == users[i];
    var b :| 0 <= b < |views| && views[b] == users[j];
    if a == b {
      // the same row would have to occur twice in the permutation
      assert users[i] == users[j];
      var m := multiset(users);
      assert users == users[..i] + [users[i]] + users[i + 1..j] + [users[j]] + users[j + 1..];
      assert m[users[i]] >= 2;
      ViewOccursOnce(rows, a);
    }
  }

  /** With unique usernames a row's view occurs once among the views. */
  lemma ViewOccursOnce(rows: seq<UserRecord>, a: int)
    requires UniqueUsernames(rows) && 0 <= a < |rows|
    ensures multiset(Views(rows))[View(rows[a])] == 1
  {
    var views := Views(rows);
    assert views == views[..a] + [views[a]] + views[a + 1..];
    assert View(rows[a]) !in views[..a] by {
      forall k | 0 <= k < a ensures views[..a][k] != View(rows[a]) {}
    }
    assert View(rows[a]) !in views[a + 1..] by {
      forall k | a < k < |views| ensures views[k] != View(rows[a]) {}
    }
  }

  // ---------------------------------------------------------------- delete

  /** How the `:id` path parameter reads: an integer, or text that `Number()` reads as no integer
      and that the database is taken to refuse as well (both readings are assumed to agree). */
  datatype PathId = IntId(n: int) | NotInt

  /** DELETE `/users/:id` for the acting identity: deleting oneself is refused before the store
      is touched; otherwise the row with that id goes, and the answer is 204 whether or not it existed. */
  function DeleteOutcome(t: Table, actor: Identity, target: PathId, fault: bool): (s: Step)
    ensures target == IntId(actor.id) ==> s == Step(Error(400, MsgSelfDelete), t)
    ensures target != IntId(actor.id) && (fault || target.NotInt?) ==> s == Step(Error(500, MsgInternal), t)
    ensures s.response.status != 204 ==> s.table == t
    ensures s.response.status == 204 ==>
              && target.IntId? && target.n != actor.id && !fault
              && s.table.nextId == t.nextId
              && (forall x :: x in s.table.rows <==> x in t.rows && x.id != target.n)
  {
    if target == IntId(actor.id) then Step(Error(400, MsgSelfDelete), t)
    else if fault || target.NotInt? then Step(Error(500, MsgInternal), t)
    else Step(Response(204, NoContent), Table(RemoveId(t.rows, target.n), t.nextId))
  }

  /** Deleting oneself answers 400 and removes nothing, even when the store is failing. */
  lemma DeleteSelfRefused(t: Table, actor: Identity, fault: bool)
    ensures DeleteOutcome(t, actor, IntId(actor.id), fault) == Step(Error(400, MsgSelfDelete), t)
  {
  }

  /** Deleting another id removes exactly the rows with that id and keeps the table's constraints. */
  lemma DeleteOther(t: Table, actor: Identity, id: int)
    requires WellFormed(t) && id != actor.id
    ensures var s := DeleteOutcome(t, actor, IntId(id), false);
            && s.response == Response(204, NoContent)
            && (forall x :: x in s.table.rows <==> x in t.rows && x.id != id)
            && |s.table.rows| == |t.rows| - (if exists i :: 0 <= i < |t.rows| && t.rows[i].id == id then 1 else 0)
            && WellFormed(s.table)
  {
    RemoveIdKeepsUnique(t.rows, id);
    RemoveIdCount(t.rows, id);
  }

  /** With distinct ids, removing an id shortens the rows by one exactly when the id is there. */
  lemma {:induction false} RemoveIdCount(rows: seq<UserRecord>, id: int)
    requires DistinctIds(rows)
    ensures |RemoveId(rows, id)| == |rows| - (if exists i :: 0 <= i < |rows| && rows[i].id == id then 1 else 0)
  {
    if rows != [] {
      var tail := rows[1..];
      assert forall i :: 0 <= i < |tail| ==> tail[i] == rows[i + 1];
      RemoveIdCount(tail, id);
      if rows[0].id == id {
        assert forall i :: 0 <= i < |tail| ==> tail[i].id != id;
      } else {
        assert (exists i :: 0 <= i < |rows| && rows[i].id == id) <==>
               (exists i :: 0 <= i < |tail| && tail[i].id == id);
      }
    }
  }
}
