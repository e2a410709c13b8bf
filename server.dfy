/** The request pipeline: a route's middleware chain, then its handler. */
module Server {
  import opened Types
  import opened Gate
  import opened Users
  import opened Store

  /** An inbound request: its route, its `Authorization` header, its JSON body (the fields that
      hold strings) and its `:id` path parameter (read only by DELETE `/users/:id`). */
  datatype Request = Request(route: Route, authorization: Option<string>, body: map<string, string>, pathId: PathId)

  /** `req.body.<name>`: None when the field is absent. */
  function Field(body: map<string, string>, name: string): Option<string>
  {
    if name in body then Some(body[name]) else None
  }

  /** The handlers of the products and locations routes, up to their queries: POST answers 400
      without a truthy `name`, and the rows they return are not modelled. */
  function ResourceOutcome(route: Route, body: map<string, string>, fault: bool): (r: Response)
    ensures (route == CreateProduct || route == CreateLocation) && !Present(Field(body, "name")) ==>
              r == Error(400, MsgNameRequired)
    ensures r.status == 400 ==> (route == CreateProduct || route == CreateLocation) && !Present(Field(body, "name"))
    ensures r.status == 500 ==> fault
    ensures r.status in {200, 201, 400, 500}
  {
    if (route == CreateProduct || route == CreateLocation) && !Present(Field(body, "name")) then
      Error(400, MsgNameRequired)
    else if fault then Error(500, MsgInternal)
    else if route == CreateProduct || route == CreateLocation then Response(201, Forwarded)
    else Response(200, Forwarded)
  }

  /** The response to a request and the user table after it. */
  function Serve(t: Table, req: Request, c: Crypto, salt: Salt, fault: bool): (s: Step)
    ensures Admit(PolicyOf(req.route), req.authorization, c.verify).Denied? ==>
              s == Step(Admit(PolicyOf(req.route), req.authorization, c.verify).response, t)
    ensures s.table != t ==> Admit(PolicyOf(req.route), req.authorization, c.verify).Admitted? &&
                             (req.route == CreateUser || req.route == DeleteUser)
  {
    match Admit(PolicyOf(req.route), req.authorization, c.verify)
    case Denied(response) => Step(response, t)
    case Admitted(user) =>
      match req.route
      case Login =>
        Step(LoginOutcome(t.rows, Field(req.body, "username"), Field(req.body, "password"), c, fault), t)
      case CreateUser =>
        CreateOutcome(t, Field(req.body, "username"), Field(req.body, "password"), Field(req.body, "role"), c, salt, fault)
      case ListUsers => Step(ListOutcome(t.rows, fault), t)
      case DeleteUser => DeleteOutcome(t, user.value, req.pathId, fault)
      case _ => Step(ResourceOutcome(req.route, req.body, fault), t)
  }

  /** Runs a request against the store: the gate first, the handler only if the gate lets it through. */
  method Handle(store: UserStore, req: Request, c: Crypto, salt: Salt, fault: bool) returns (response: Response)
    requires store.Valid()
    modifies store
    ensures store.Valid()
    ensures Step(response, store.State()) == Serve(old(store.State()), req, c, salt, fault)
  {
    var admission := Admit(PolicyOf(req.route), req.authorization, c.verify);
    if admission.Denied? {
      return admission.response;
    }
    var user := admission.user;
    match req.route {
      case Login =>
        response := store.Login(Field(req.body, "username"), Field(req.body, "password"), c, fault);
      case CreateUser =>
        response := store.CreateUser(Field(req.body, "username"), Field(req.body, "password"),
                                     Field(req.body, "role"), c, salt, fault);
      case ListUsers =>
        response := store.ListUsers(fault);
      case DeleteUser =>
        response := store.DeleteUser(user.value, req.pathId, fault);
      case _ =>
        response := ResourceOutcome(req.route, req.body, fault);
    }
  }

  /** The table keeps its constraints across every request. */
  lemma ServeKeepsWellFormed(t: Table, req: Request, c: Crypto, salt: Salt, fault: bool)
    requires WellFormed(t)
    ensures WellFormed(Serve(t, req, c, salt, fault).table)
  {
    match Admit(PolicyOf(req.route), req.authorization, c.verify)
    case Denied(_) =>
    case Admitted(user) =>
      match req.route
      case CreateUser =>
        CreateKeepsWellFormed(t, Field(req.body, "username"), Field(req.body, "password"),
                              Field(req.body, "role"), c, salt, fault);
      case DeleteUser =>
        if req.pathId.IntId? && req.pathId.n != user.value.id {
          RemoveIdKeepsUnique(t.rows, req.pathId.n);
        }
      case _ =>
  }

  /** POST `/products` and POST `/locations` answer 400 without a truthy `name`, before any query;
      neither route touches the user table. */
  lemma ResourceWritesNeedName(t: Table, req: Request, c: Crypto, salt: Salt, fault: bool)
    requires req.route == CreateProduct || req.route == CreateLocation
    requires Admit(PolicyOf(req.route), req.authorization, c.verify).Admitted?
    ensures var s := Serve(t, req, c, salt, fault);
            && s.table == t
            && (!Present(Field(req.body, "name")) ==> s.response == Error(400, MsgNameRequired))
            && (Present(Field(req.body, "name")) && !fault ==> s.response.status == 201)
            && (Present(Field(req.body, "name")) && fault ==> s.response == Error(500, MsgInternal))
  {
  }

  /** A "gestor" token is answered 403 on every `/users` route, with the table unchanged. */
  lemma GestorForbiddenOnUsers(t: Table, req: Request, token: string, c: Crypto, salt: Salt, fault: bool)
    requires IsUserRoute(req.route)
    requires token != "" && ' ' !in token && req.authorization == Some("Bearer " + token)
    requires c.verify(token).Some? && c.verify(token).value.role == "gestor"
    ensures Serve(t, req, c, salt, fault) == Step(Error(403, MsgForbidden), t)
  {
    BearerHeader(token, c.verify);
  }

  /** The scenario of a first start: bootstrap on the empty table, log in as admin/1234, and use
      the token to create "bob" with role "gestor". */
  lemma FirstStartScenario(c: Crypto, salt0: Salt, salt1: Salt)
    requires Sound(c)
    ensures
      var t0 := Bootstrap(Table([], 1), c.hash(AdminPassword, salt0), false);
      var login := Serve(t0, Request(Login, None, map["username" := "admin", "password" := "1234"], NotInt),
                         c, salt1, false);
      && t0.rows == [UserRecord(1, "admin", c.hash("1234", salt0), "admin")]
      && login.table == t0
      && login.response.status == 200
      && login.response.body.LoginBody?
      && login.response.body.user == Identity(1, "admin", "admin")
      && var create := Serve(t0, Request(CreateUser, Some("Bearer " + login.response.body.token),
                                         map["username" := "bob", "password" := "pw", "role" := "gestor"],
                                         NotInt),
                             c, salt1, false);
         && create.response == Response(201, UserBody(Identity(2, "bob", "gestor")))
         && create.table.rows == t0.rows + [UserRecord(2, "bob", c.hash("pw", salt1), "gestor")]
  {
    var t0 := Bootstrap(Table([], 1), c.hash(AdminPassword, salt0), false);
    BootstrapEmpty(Table([], 1), c, salt0);
    assert c.matches("1234", c.hash("1234", salt0));
    LoginSucceeds(t0.rows, 0, "1234", c);
    var admin := Identity(1, "admin", "admin");
    var token := c.sign(admin);
    assert ' ' !in token && c.verify(token) == Some(admin);
    BearerHeader(token, c.verify);
    CreateSucceeds(t0, "bob", "pw", "gestor", c, salt1);
  }
}
