/** Values shared by the access gate, the user table and the request pipeline of the API server. */
module Types {

  datatype Option<+T> = None | Some(value: T)

  /** The `{id, username, role}` triple: the claims a token carries, what the gate attaches to a
      request, and the shape in which the user endpoints return a user (never with its hash). */
  datatype Identity = Identity(id: int, username: string, role: string)

  /** A row of the `users` table. */
  datatype UserRecord = UserRecord(id: int, username: string, passwordHash: string, role: string)

  /** The columns `id, username, role` of a row: the row without its password hash. */
  function View(r: UserRecord): Identity
  {
    Identity(r.id, r.username, r.role)
  }

  /** JSON bodies of the responses. */
  datatype Body =
    | ErrorBody(error: string)
    | LoginBody(token: string, user: Identity)
    | UserBody(user: Identity)
    | UserList(users: seq<Identity>)
    | NoContent
      /** rows of the products or locations table, which this model does not hold */
    | Forwarded

  datatype Response = Response(status: int, body: Body)

  function Error(status: int, message: string): Response
  {
    Response(status, ErrorBody(message))
  }

  const MsgNoToken := "Token não informado"
  const MsgBadToken := "Token inválido"
  const MsgNotAuthenticated := "Não autenticado"
  const MsgForbidden := "Permissão negada"
  const MsgBadCredentials := "Usuário ou senha inválidos"
  const MsgLoginInternal := "Erro interno no servidor"
  const MsgInternal := "Erro interno"
  const MsgIncomplete := "Dados incompletos"
  const MsgDuplicate := "Usuário já existe"
  const MsgSelfDelete := "Você não pode excluir a si mesmo"
  const MsgNameRequired := "Nome é obrigatório"

  /** The well-known credentials of the default administrator. */
  const AdminUsername := "admin"
  const AdminPassword := "1234"
  const AdminRole := "admin"

  /** The random salt bcrypt draws for one call of `hash`. */
  type Salt = nat

  /** The password hasher (bcrypt) and the token service (jsonwebtoken with the process-wide
      secret) as oracles: `hash(password, salt)`, `matches(password, hash)` for `bcrypt.compare`,
      `sign(identity)` and `verify(token)`, which yields the decoded claims or None for a token
      that is malformed, tampered with or expired. */
  datatype Crypto = Crypto(
    hash: (string, Salt) -> string,
    matches: (string, string) -> bool,
    sign: Identity -> string,
    verify: string -> Option<Identity>)

  /** What the libraries promise: a password matches every hash made from it, a freshly signed
      token verifies to the identity it was signed for, and a token is non-empty with no space in
      it; the empty string verifies to nothing. */
  ghost predicate Sound(c: Crypto)
  {
    && (forall pw: string, salt: Salt :: c.matches(pw, c.hash(pw, salt)))
    && (forall u: Identity :: c.verify(c.sign(u)) == Some(u))
    && (forall u: Identity :: c.sign(u) != "" && ' ' !in c.sign(u))
    && c.verify("") == None
  }

  /** JavaScript truthiness of a request field that is either absent or a string: `!field` is
      true exactly for an absent field and for the empty string. */
  predicate Present(field: Option<string>): (r: bool)
    ensures !r <==> field == None || field == Some("")
  {
    field.Some? && field.value != ""
  }
}
