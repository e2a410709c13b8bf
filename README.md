# Authentication and authorization core of the custos-webapp backend

This project models the part of the Express server (`server.js`) that decides who may do what,
and the `users` table that part guards:

- the access gate: `authMiddleware` (401 without an `Authorization` header, 403 when the bearer
  token is missing from it or fails verification, otherwise the decoded `{id, username, role}` goes
  on to the handler) and `requireRole(roles)` (401 without an identity, 403 for a role that is not
  listed);
- the middleware chain placed in front of each route: the `/users` routes admit only `admin`,
  POST `/products` and POST `/locations` admit `admin` and `gestor`, the two GET routes need only a
  valid token, and `/auth/login` is open;
- the user handlers: `ensureAdminUser` (bootstrap of the default `admin`/`1234` account on an
  empty table), login, create, list and delete, each with its error paths.

Files and modules:

- `types.dfy` (`Types`): identities, user rows, responses and their messages, and the password
  hasher and token service as an oracle record `Crypto` with the assumption `Sound` about it.
- `strings.dfy` (`Strings`): `split(" ")` as `Split`, with its inverse `Join` and both round trips;
  the code-point order `Le` used for `ORDER BY username`, proved total, transitive and antisymmetric.
- `gate.dfy` (`Gate`): `Authenticate`, `RequireRole`, the route table `PolicyOf`, the middleware chain
  `Admit`, and the route-by-role lemmas.
- `users.dfy` (`Users`): the table (`Table`, its constraints `WellFormed`), the store statements
  (lookup, insert with the unique violation, delete by id, ordered listing) and one function per
  handler from the table before the request to the response and the table after it, with the lemmas
  that state what each handler promises.
- `store.dfy` (`Store`): the class `UserStore` holding the rows and the id sequence; its methods run
  the handlers' steps in the source's order, update the fields in place, and are proved to agree with
  the `Users` functions while keeping the table's constraints.
- `server.dfy` (`Server`): a request as route, header, body and path parameter; `Serve` and the method
  `Handle` run the gate and then the handler; lemmas about whole requests and the first-start scenario
  (bootstrap, log in as admin, create `bob` as `gestor`).

Behaviour of the code worth noting, all of which the model keeps:

- An invalid or expired token is answered 403 "Token inválido" (server.js:27-28); only a missing
  or empty header gives 401 "Token não informado" (server.js:23-24).
- A header without a second space-separated piece, or with an empty one (`Bearer `), hands
  `jwt.verify` no usable token and is also answered 403 (server.js:26-28).
- `requireRole()` with its default empty list forbids every identity with 403 (server.js:35, 40-41);
  routes that need only a token have no `requireRole` at all (server.js:169, 223).
- Login with a known username and no `password` field is answered 500, because `bcrypt.compare`
  throws on a missing argument and the handler's `catch` turns that into "Erro interno no servidor"
  (server.js:89, 103-105).
- DELETE answers 204 whether or not a row had the id (server.js:159-160).

External effects are parameters: the store's failures are a `fault` flag per request (true means a
query throws an error other than the unique violation), bcrypt's random salt is a `Salt` argument,
and bcrypt and jsonwebtoken are the oracles of `Crypto`.

## Model

| member | source | states |
|---|---|---|
| `Strings.Split` | server.js:26 | `split(" ")` always gives at least one piece, and no piece contains a space |
| `Strings.JoinSplit` | server.js:26 | joining the pieces with single spaces gives the header back |
| `Strings.SplitJoin` | server.js:26 | splitting a join of space-free pieces gives exactly those pieces |
| `Strings.SplitNoSpace` | server.js:26 | a header without a space is a single piece |
| `Strings.SplitAfterPiece` | server.js:26 | a space after a space-free piece ends that piece |
| `Strings.LeTotal` | server.js:142 | any two usernames are ordered one way or the other |
| `Strings.LeTransitive` | server.js:142 | the username order is transitive |
| `Strings.LeAntisymmetric` | server.js:142 | two usernames ordered both ways are equal |
| `Gate.TokenOf` | server.js:26 | the second piece exists exactly when the header has a space, and holds no space |
| `Gate.TokenIsSecondPiece` | server.js:26 | the token is the text between the first and second space, or everything after the first space when there is no second one |
| `Gate.SplitOnePieceNoSpace` | server.js:26 | a header is one piece exactly when it has no space |
| `Gate.Authenticate` | server.js:21-32 | no (or empty) header gives 401 "Token não informado"; a header whose second piece is missing, empty or unverifiable gives 403 "Token inválido"; it continues exactly when a non-empty token verifies, with the decoded identity |
| `Gate.NoHeaderIgnoresVerifier` | server.js:22-24 | without a header the answer is 401 whatever the verifier would say, so it is never consulted |
| `Gate.BearerHeader` | server.js:26-30 | for `Bearer <token>` the verifier gets exactly `<token>`; success attaches its identity, failure or an empty token gives 403 |
| `Gate.HeaderWithoutSpace` | server.js:26-28 | a non-empty header with no space carries no token and is refused with 403 |
| `Gate.RequireRole` | server.js:35-46 | no identity gives 401 "Não autenticado"; otherwise it passes exactly when the role is listed, and refuses with 403 "Permissão negada" |
| `Gate.EmptyRoleListForbidsAll` | server.js:35 | the default empty role list forbids every identity with 403 |
| `Gate.Admit` | server.js:21-46 | an open route admits with no identity; a token failure is passed on unchanged; an authenticated identity is admitted on a token-only route, and on a role-gated one exactly when its role is listed, otherwise refused with 403 "Permissão negada" |
| `Gate.PolicyOf` | server.js:112-233 | login is open; GET `/products` and GET `/locations` need only a token; the three `/users` routes need ["admin"]; POST `/products` and POST `/locations` need ["admin", "gestor"] |
| `Gate.NoHeaderUnauthorized` | server.js:112-233 | every route except login answers 401 to a request without a header |
| `Gate.UserRoutesAdminOnly` | server.js:112-152 | POST, GET and DELETE `/users` admit exactly the authenticated identities with role "admin"; any other role gets 403 |
| `Gate.WritesAdminOrGestor` | server.js:179-233 | POST `/products` and POST `/locations` admit exactly the "admin" and "gestor" identities |
| `Gate.ReadsNeedOnlyAuthentication` | server.js:169-223 | GET `/products` and GET `/locations` admit every authenticated identity, whatever its role |
| `Gate.GestorAccess` | server.js:112-233 | a "gestor" is refused with 403 on every `/users` route and admitted on both POSTs |
| `Gate.AdminAdmittedEverywhere` | server.js:112-233 | an "admin" passes the middleware of every route |
| `Users.Lookup` | server.js:79-84 | the lookup finds nothing exactly when no row has the username, and otherwise a stored row with it |
| `Users.LookupFindsRow` | server.js:79-88 | with unique usernames the lookup yields the one row with that name |
| `Users.InsertRow` | server.js:121-131 | the insert fails exactly when a row has the username; otherwise it appends one row under the next id, keeps the old rows, and advances the id sequence |
| `Users.InsertRowSpec` | server.js:121-131 | an insert fails exactly on a taken username; otherwise it appends one row under a fresh id, keeps the old rows and the table's constraints |
| `Users.RemoveId` | server.js:159 | the rows left are exactly the old rows with another id |
| `Users.RemoveIdKeepsUnique` | server.js:159 | deleting keeps usernames and ids unique |
| `Users.RemoveIdCount` | server.js:159 | deleting removes one row when the id is stored and none otherwise |
| `Users.InsertByUsername` | server.js:142 | inserting into a list in username order keeps it ordered and adds exactly the one element |
| `Users.SortByUsername` | server.js:142 | `ORDER BY username` gives the same users ordered by username |
| `Users.Bootstrap` | server.js:49-70 | a failing query or a non-empty table leaves the table as it was; an empty one gets exactly the admin row under the next id |
| `Users.BootstrapEmpty` | server.js:51-63 | on an empty table exactly one row is created: "admin", role "admin", the hash of "1234" (which "1234" matches), under a fresh id |
| `Users.BootstrapOtherwiseUnchanged` | server.js:54-69 | on a non-empty table, or when a query fails (the error is swallowed), the table is unchanged |
| `Users.BootstrapIdempotent` | server.js:49-70 | after a successful run a second run adds nothing |
| `Users.BootstrapKeepsWellFormed` | server.js:49-70 | bootstrap keeps usernames and ids unique |
| `Users.LoginOutcome` | server.js:73-107 | a failing query gives 500; the answer is 200, 401 or 500; every 401 is "Usuário ou senha inválidos"; a missing or unknown username gives that 401 |
| `Users.LoginResponses` | server.js:84-106 | every 401 carries the same "Usuário ou senha inválidos" body; a 200 carries a stored user whose hash accepts the password and a token signed for exactly that user |
| `Users.LoginWithoutPasswordRevealsUsername` | server.js:84-105 | without a password a stored username gets 500 while an unknown one gets the 401, so the two can be told apart |
| `Users.LoginIndistinguishable` | server.js:84-91 | an unknown username and a wrong password give the identical 401 response |
| `Users.LoginSucceeds` | server.js:88-102 | the right password returns the stored `{id, username, role}` and a token that verifies to it |
| `Users.CreateOutcome` | server.js:112-136 | the answer is 201, 400 or 500; a missing or empty field gives 400 "Dados incompletos"; with the fields present a failing store gives 500 "Erro interno"; every non-201 answer leaves the table unchanged; a 201 appends the row with the password's hash under the next id and returns `{id, username, role}` |
| `Users.CreateDuplicate` | server.js:130-131 | a stored username is refused with 400 "Usuário já existe" and the table unchanged |
| `Users.CreateSucceeds` | server.js:119-126 | a new username is appended with its password's hash under a fresh id, old rows untouched, and 201 returns `{id, username, role}` only |
| `Users.CreateKeepsWellFormed` | server.js:112-136 | create keeps usernames and ids unique |
| `Users.ListOutcome` | server.js:139-149 | a failing query gives 500; otherwise 200 with the users, without hashes, ordered by username and a permutation of the stored rows |
| `Users.ListUsersSpec` | server.js:141-144 | the list holds every stored user and nothing else, without hashes, in username order, no username twice |
| `Users.DeleteOutcome` | server.js:152-165 | one's own id gives 400 with the table unchanged; otherwise a failing store or a non-integer id gives 500 "Erro interno"; every non-204 answer leaves the table unchanged; a 204 removes exactly the rows with that id and keeps the id sequence |
| `Users.DeleteSelfRefused` | server.js:155-156 | deleting one's own id gives 400 and removes nothing, before the store is touched |
| `Users.DeleteOther` | server.js:158-160 | deleting another id answers 204 and removes exactly the rows with that id, whether or not one existed |
| `Store.UserStore.Insert` | server.js:121-124 | the insert updates the table as the store's insert does and returns the new `{id, username, role}` |
| `Store.UserStore.EnsureAdminUser` | server.js:49-70 | the table after bootstrap is the one the bootstrap function gives, with its constraints kept |
| `Store.UserStore.Login` | server.js:73-107 | the login answer is the modelled one, and the table is not modified |
| `Store.UserStore.CreateUser` | server.js:112-136 | the answer and the table after create are the modelled ones, with the constraints kept |
| `Store.UserStore.ListUsers` | server.js:139-149 | the list answer is the modelled one, and the table is not modified |
| `Store.UserStore.DeleteById` | server.js:159 | the rows left are those with another id |
| `Store.UserStore.DeleteUser` | server.js:152-165 | the answer and the table after delete are the modelled ones, with the constraints kept |
| `Server.ResourceOutcome` | server.js:169-259 | POST `/products` and POST `/locations` without a truthy name give 400 "Nome é obrigatório", and only they give 400; 500 only on a failing query |
| `Server.Serve` | server.js:73-259 | a request the middleware refuses gets its answer with the table unchanged; only an admitted POST `/users` or DELETE `/users/:id` changes the table |
| `Server.Handle` | server.js:73-259 | a request is answered and the table updated as the gate followed by the route's handler prescribe |
| `Server.ServeKeepsWellFormed` | server.js:73-165 | no request breaks unique usernames or ids |
| `Server.ResourceWritesNeedName` | server.js:192-237 | admitted POSTs to products and locations answer 400 "Nome é obrigatório" without a truthy name, 201 otherwise, and never touch the user table |
| `Server.GestorForbiddenOnUsers` | server.js:112-165 | a request with a "gestor" bearer token gets 403 on every `/users` route and changes nothing |
| `Server.FirstStartScenario` | server.js:49-136 | on an empty table bootstrap creates admin/1234, login with it returns role "admin", and its token creates "bob" as "gestor" with 201 `{id, username, role}` |

## Left out

- Express wiring, `cors`, `dotenv`, `app.listen` and the startup sequence that runs `SELECT 1` before the bootstrap: framework plumbing.
- PostgreSQL connectivity and SQL text: the table is a sequence of rows; every failure other than the unique violation is one `fault` flag per request, and where it strikes inside a handler is not distinguished.
- A failed insert does not advance the id sequence in the model, whereas PostgreSQL's sequence would skip the value; only freshness of ids is modelled.
- bcrypt internals (cost factor 10, salting, constant-time compare): `hash` and `matches` are oracles, linked only by `Sound`.
- JWT cryptography, the 8-hour expiry, the hardcoded fallback secret and the `iat`/`exp` claims that `jwt.verify` also places on `req.user`: `sign` and `verify` are oracles; signature soundness and expiry are not proved.
- `Gate.Authenticate`: the in-place assignment `req.user = user` is modelled as the identity handed to the handler, not as a mutable request object.
- Request fields are absent or strings; JSON numbers, booleans, `null` and objects, and their JavaScript truthiness, are not modelled.
- `Users.PathId`: the model assumes `Number()` and the database read the `:id` parameter alike. On PostgreSQL 16 and later, whose integer input accepts underscores between digits, a parameter such as "1_0" is NaN to `Number()` but 10 to the database, so an admin with id 10 would skip the self-delete guard and delete their own row; the model cannot express that input.
- `Users.PathId`: a path parameter that `Number()` reads as an integer but PostgreSQL refuses (such as "5.0" or "1e0") is modelled as that integer, so its 500 answer is not captured.
- `Users.SortByUsername`: `ORDER BY username` follows the database collation; the model uses code-point order.
- Products and locations: their inserts and listings beyond the `name` check and the middleware, the `|| 0` defaults of their floating-point fields, and the rows they return (`Forwarded`).
- Concurrency: async interleavings and the count-then-insert race of two processes bootstrapping at once; the model is sequential.
- Logging with `console.log` and `console.error`.
