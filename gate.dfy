/** The access gate: `authMiddleware`, `requireRole` and the table that says which of them guards
    each route. */
module Gate {
  import opened Types
  import opened Strings

  /** What `authMiddleware` decides: continue with the decoded identity attached to the request,
      or answer with an error response. */
  datatype Verdict = Continue(user: Identity) | Reject(response: Response)

  /** The token of an `Authorization` header: its second space-separated piece, or None when the
      header has no second piece (the `undefined` that `jwt.verify` refuses). The piece may be
      empty (`"Bearer "`, or two spaces in a row), which `Authenticate` refuses as jsonwebtoken does. */
  function TokenOf(header: string): (r: Option<string>)
    ensures r.Some? <==> ' ' in header
    ensures r.Some? ==> ' ' !in r.value
  {
    var pieces := Split(header);
    JoinSplit(header);
    SplitOnePieceNoSpace(header);
    if |pieces| >= 2 then Some(pieces[1]) else None
  }

  /** The token is the text between the first and the second space, or after the first space
      when there is no second one; whatever the first piece says. */
  lemma TokenIsSecondPiece(first: string, token: string, rest: string)
    requires ' ' !in first && ' ' !in token
    ensures TokenOf(first + " " + token) == Some(token)
    ensures TokenOf(first + " " + token + " " + rest) == Some(token)
  {
    SplitAfterPiece(first, token);
    SplitNoSpace(token);
    assert first + " " + token + " " + rest == first + " " + (token + " " + rest);
    SplitAfterPiece(first, token + " " + rest);
    SplitAfterPiece(token, rest);
  }

  /** A header that splits into one piece has no space, and one with a space splits into two or more. */
  lemma SplitOnePieceNoSpace(header: string)
    ensures |Split(header)| == 1 <==> ' ' !in header
  {
    if ' ' !in header {
      SplitNoSpace(header);
    } else {
      JoinSplit(header);
    }
  }

  /** `authMiddleware`: 401 without a header (or with an empty one), 403 when the token is
      missing from it, empty (jsonwebtoken refuses a falsy token before any check) or fails
      verification, otherwise the decoded identity. */
  function Authenticate(header: Option<string>, verify: string -> Option<Identity>): (r: Verdict)
    ensures !Present(header) ==> r == Reject(Error(401, MsgNoToken))
    ensures Present(header) && r.Reject? ==> r.response == Error(403, MsgBadToken)
    ensures r.Continue? <==>
              Present(header) && TokenOf(header.value).Some? && TokenOf(header.value).value != "" &&
              verify(TokenOf(header.value).value).Some?
    ensures r.Continue? ==> verify(TokenOf(header.value).value) == Some(r.user)
  {
    if !Present(header) then Reject(Error(401, MsgNoToken))
    else
      match TokenOf(header.value)
      case None => Reject(Error(403, MsgBadToken))
      case Some(token) =>
        if token == "" then Reject(Error(403, MsgBadToken))
        else
          match verify(token)
          case None => Reject(Error(403, MsgBadToken))
          case Some(user) => Continue(user)
  }

  /** Without a header the verifier is never consulted: any two verifiers give the same answer. */
  lemma NoHeaderIgnoresVerifier(header: Option<string>, v1: string -> Option<Identity>, v2: string -> Option<Identity>)
    requires !Present(header)
    ensures Authenticate(header, v1) == Authenticate(header, v2) == Reject(Error(401, MsgNoToken))
  {
  }

  /** The expected `Bearer <token>` header hands exactly that token to the verifier, and an
      empty token is refused without consulting it. */
  lemma BearerHeader(token: string, verify: string -> Option<Identity>)
    requires ' ' !in token
    ensures TokenOf("Bearer " + token) == Some(token)
    ensures Authenticate(Some("Bearer " + token), verify) ==
              if token != "" && verify(token).Some? then Continue(verify(token).value)
              else Reject(Error(403, MsgBadToken))
  {
    var pieces := ["Bearer", token];
    assert Join(pieces[1..]) == token;
    assert Join(pieces) == "Bearer " + token;
    SplitJoin(pieces);
  }

  /** A header with no space carries no token and is refused with 403, whatever the verifier says. */
  lemma HeaderWithoutSpace(header: string, verify: string -> Option<Identity>)
    requires header != "" && ' ' !in header
    ensures Authenticate(Some(header), verify) == Reject(Error(403, MsgBadToken))
  {
  }

  /** `requireRole(roles)`: None lets the request through; otherwise the error response. */
  function RequireRole(roles: seq<string>, user: Option<Identity>): (r: Option<Response>)
    ensures user.None? ==> r == Some(Error(401, MsgNotAuthenticated))
    ensures user.Some? ==> (r.None? <==> user.value.role in roles)
    ensures user.Some? && r.Some? ==> r.value == Error(403, MsgForbidden)
  {
    if user.None? then Some(Error(401, MsgNotAuthenticated))
    else if user.value.role !in roles then Some(Error(403, MsgForbidden))
    else None
  }

  /** `requireRole()` with its default empty list answers 403 to every identity. */
  lemma EmptyRoleListForbidsAll(user: Identity)
    ensures RequireRole([], Some(user)) == Some(Error(403, MsgForbidden))
  {
  }

  /** The routes of the server. */
  datatype Route =
    | Login
    | CreateUser | ListUsers | DeleteUser
    | ListProducts | CreateProduct
    | ListLocations | CreateLocation

  /** The middleware placed in front of a route: none, `authMiddleware` alone, or
      `authMiddleware` followed by `requireRole(roles)`. */
  datatype Policy = Open | Authenticated | RoleGated(roles: seq<string>)

  /** The route table: login is open, the two listings need a token, the `/users` routes need
      "admin" and the two creations "admin" or "gestor". */
  function PolicyOf(route: Route): (r: Policy)
    ensures r.Open? <==> route == Login
    ensures r.Authenticated? <==> route == ListProducts || route == ListLocations
    ensures r == RoleGated(["admin"]) <==> IsUserRoute(route)
    ensures r == RoleGated(["admin", "gestor"]) <==> route == CreateProduct || route == CreateLocation
  {
    match route
    case Login => Open
    case CreateUser | ListUsers | DeleteUser => RoleGated(["admin"])
    case ListProducts | ListLocations => Authenticated
    case CreateProduct | CreateLocation => RoleGated(["admin", "gestor"])
  }

  predicate IsUserRoute(route: Route)
  {
    route.CreateUser? || route.ListUsers? || route.DeleteUser?
  }

  /** The outcome of a route's middleware chain: the handler runs with the attached identity (None
      on a route without `authMiddleware`), or the chain answers. */
  datatype Admission = Admitted(user: Option<Identity>) | Denied(response: Response)

  function Admit(policy: Policy, header: Option<string>, verify: string -> Option<Identity>): (r: Admission)
    ensures policy.Open? ==> r == Admitted(None)
    ensures !policy.Open? && r.Admitted? ==> r.user.Some? && Authenticate(header, verify) == Continue(r.user.value)
    ensures policy.RoleGated? && r.Admitted? ==> r.user.value.role in policy.roles
    ensures Authenticate(header, verify).Reject? && !policy.Open? ==> r == Denied(Authenticate(header, verify).response)
    ensures policy.Authenticated? && Authenticate(header, verify).Continue? ==>
              r == Admitted(Some(Authenticate(header, verify).user))
    ensures policy.RoleGated? && Authenticate(header, verify).Continue? ==>
              r == if Authenticate(header, verify).user.role in policy.roles
                   then Admitted(Some(Authenticate(header, verify).user))
                   else Denied(Error(403, MsgForbidden))
  {
    match policy
    case Open => Admitted(None)
    case Authenticated =>
      (match Authenticate(header, verify)
       case Reject(response) => Denied(response)
       case Continue(user) => Admitted(Some(user)))
    case RoleGated(roles) =>
      match Authenticate(header, verify)
      case Reject(response) => Denied(response)
      case Continue(user) =>
        match RequireRole(roles, Some(user))
        case Some(response) => Denied(response)
        case None => Admitted(Some(user))
  }

  /** Every route but login answers 401 to a request without a token. */
  lemma NoHeaderUnauthorized(route: Route, header: Option<string>, verify: string -> Option<Identity>)
    requires route != Login && !Present(header)
    ensures Admit(PolicyOf(route), header, verify) == Denied(Error(401, MsgNoToken))
  {
  }

  /** The `/users` routes admit exactly the authenticated identities whose role is "admin". */
  lemma UserRoutesAdminOnly(route: Route, header: Option<string>, verify: string -> Option<Identity>)
    requires IsUserRoute(route)
    ensures var a := Authenticate(header, verify);
            Admit(PolicyOf(route), header, verify).Admitted? <==> a.Continue? && a.user.role == "admin"
    ensures var a := Authenticate(header, verify);
            a.Continue? && a.user.role != "admin" ==> Admit(PolicyOf(route), header, verify) == Denied(Error(403, MsgForbidden))
  {
  }

  /** POST `/products` and POST `/locations` admit exactly the "admin" and "gestor" identities. */
  lemma WritesAdminOrGestor(route: Route, header: Option<string>, verify: string -> Option<Identity>)
    requires route == CreateProduct || route == CreateLocation
    ensures var a := Authenticate(header, verify);
            Admit(PolicyOf(route), header, verify).Admitted? <==>
              a.Continue? && (a.user.role == "admin" || a.user.role == "gestor")
  {
  }

  /** GET `/products` and GET `/locations` admit every authenticated identity, whatever its role. */
  lemma ReadsNeedOnlyAuthentication(route: Route, header: Option<string>, verify: string -> Option<Identity>)
    requires route == ListProducts || route == ListLocations
    ensures var a := Authenticate(header, verify);
            Admit(PolicyOf(route), header, verify) ==
              if a.Continue? then Admitted(Some(a.user)) else Denied(a.response)
  {
  }

  /** A "gestor" is forbidden on every `/users` route and admitted on both POSTs. */
  lemma GestorAccess(route: Route, header: Option<string>, verify: string -> Option<Identity>)
    requires Authenticate(header, verify).Continue? && Authenticate(header, verify).user.role == "gestor"
    ensures IsUserRoute(route) ==> Admit(PolicyOf(route), header, verify) == Denied(Error(403, MsgForbidden))
    ensures route == CreateProduct || route == CreateLocation ==>
              Admit(PolicyOf(route), header, verify) == Admitted(Some(Authenticate(header, verify).user))
  {
  }

  /** An "admin" identity passes the middleware of every route. */
  lemma AdminAdmittedEverywhere(route: Route, header: Option<string>, verify: string -> Option<Identity>)
    requires Authenticate(header, verify).Continue? && Authenticate(header, verify).user.role == "admin"
    ensures Admit(PolicyOf(route), header, verify).Admitted?
  {
  }
}
