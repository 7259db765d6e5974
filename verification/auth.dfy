/** The auth service's endpoints (`service-auth/app/main.py`) over its
    `users` table. Password hashing and checking (bcrypt) and token signing
    are not modelled: they are functions the caller supplies. */
module Auth {
  import opened Results
  import opened Tables
  import opened Tokens

  datatype User = User(id: int, username: string, hashedPassword: string, role: string)

  type Registry = Table<User>

  /** The body of a successful login. */
  datatype TokenOut = TokenOut(accessToken: Token, tokenType: string)

  type Hasher = string -> string
  /** `verify_password(plain, hashed)` */
  type PasswordCheck = (string, string) -> bool

  /** No two users share a username. */
  ghost predicate UniqueNames(reg: Registry)
  {
    forall k, k' :: k in reg.rows && k' in reg.rows && k != k' ==>
      reg.rows[k].username != reg.rows[k'].username
  }

  ghost predicate Valid(reg: Registry)
  {
    && Tables.Valid(reg)
    && (forall k :: k in reg.rows ==> reg.rows[k].id == k)
    && UniqueNames(reg)
  }

  /** The first user in `users` with that username. */
  function FirstNamed(users: seq<User>, name: string): (r: Option<User>)
    ensures r.Some? ==> r.value in users && r.value.username == name
    ensures r.None? <==> forall i :: 0 <= i < |users| ==> users[i].username != name
    ensures r.Some? ==>
              exists i :: 0 <= i < |users| && users[i] == r.value &&
                forall j :: 0 <= j < i ==> users[j].username != name
  {
    if |users| == 0 then None
    else if users[0].username == name then Some(users[0])
    else FirstNamed(users[1..], name)
  }

  /** `query(User).filter(username == name).first()` */
  function Lookup(reg: Registry, name: string): Option<User>
  {
    FirstNamed(Rows(reg), name)
  }

  /** In a valid registry the lookup finds exactly the stored user of that name. */
  lemma LookupFinds(reg: Registry, name: string)
    requires Valid(reg)
    ensures Lookup(reg, name).None? <==> forall k :: k in reg.rows ==> reg.rows[k].username != name
    ensures Lookup(reg, name).Some? ==>
              var u := Lookup(reg, name).value;
              u.id in reg.rows && reg.rows[u.id] == u && u.username == name
  {
    RowsOfValid(reg);
    RowsAreStored(reg);
    if Lookup(reg, name).None? {
      forall k | k in reg.rows
        ensures reg.rows[k].username != name
      {
        assert Rows(reg)[k - 1] == reg.rows[k];
      }
    }
  }

  /** `user_in.role or "user"`: a missing or empty role means "user". */
  function EffectiveRole(role: Option<string>): (r: string)
    ensures r != ""
    ensures role.Some? && role.value != "" ==> r == role.value
    ensures role.None? || role.value == "" ==> r == "user"
  {
    if role.Some? && role.value != "" then role.value else "user"
  }

  /** `POST /auth/register` */
  function Register(hash: Hasher, reg: Registry, username: string, password: string, role: Option<string>)
    : (out: Reply<User, Registry>)
    ensures Lookup(reg, username).Some? ==>
              out == Reply(Err(HttpError(BadRequest, "Username already registered")), reg)
    ensures out.result.Ok? <==> Lookup(reg, username).None?
    ensures out.result.Ok? ==>
              var u := out.result.value;
              && u == User(reg.nextId, username, hash(password), EffectiveRole(role))
              && Get(out.state, u.id) == Some(u)
              && SameExcept(reg, out.state, u.id)
  {
    match Lookup(reg, username)
    case Some(_) => Reply(Err(HttpError(BadRequest, "Username already registered")), reg)
    case None =>
      var user := User(reg.nextId, username, hash(password), EffectiveRole(role));
      Reply(Ok(user), Insert(reg, user))
  }

  /** Registration keeps ids dense and usernames unique, and adds exactly one user. */
  lemma RegisterPreservesValid(hash: Hasher, reg: Registry, username: string, password: string, role: Option<string>)
    requires Valid(reg)
    ensures var out := Register(hash, reg, username, password, role);
      && Valid(out.state)
      && |Rows(out.state)| == |Rows(reg)| + (if out.result.Ok? then 1 else 0)
  {
    var out := Register(hash, reg, username, password, role);
    LookupFinds(reg, username);
    RowsOfValid(reg);
    if out.result.Ok? {
      var u := out.result.value;
      assert out.state.rows == reg.rows[u.id := u] by {
        assert forall k :: k != u.id ==> Get(out.state, k) == Get(reg, k);
        assert Get(out.state, u.id) == Some(u);
      }
      InsertAppends(reg, u);
    }
  }

  /** After a successful registration the new user is the one found by name. */
  lemma RegisterThenLookup(hash: Hasher, reg: Registry, username: string, password: string, role: Option<string>)
    requires Valid(reg)
    requires Register(hash, reg, username, password, role).result.Ok?
    ensures var out := Register(hash, reg, username, password, role);
      Lookup(out.state, username) == Some(out.result.value)
  {
    var out := Register(hash, reg, username, password, role);
    var u := out.result.value;
    InsertAppends(reg, u);
    FirstNamedAppend(Rows(reg), u, username);
  }

  lemma {:induction false} FirstNamedAppend(users: seq<User>, u: User, name: string)
    requires FirstNamed(users, name).None?
    requires u.username == name
    ensures FirstNamed(users + [u], name) == Some(u)
  {
    if |users| > 0 {
      assert (users + [u])[1..] == users[1..] + [u];
      FirstNamedAppend(users[1..], u, name);
    }
  }

  /** `POST /auth/token` */
  function Login(check: PasswordCheck, encode: Encoder, reg: Registry, username: string, password: string)
    : (r: Result<TokenOut>)
    ensures r.Ok? <==>
              Lookup(reg, username).Some? && check(password, Lookup(reg, username).value.hashedPassword)
    ensures r.Err? ==> r.error == HttpError(Unauthorized, "Invalid credentials")
    ensures r.Ok? ==>
              && r.value.accessToken == encode(Claims(username, Lookup(reg, username).value.role))
              && r.value.tokenType == "bearer"
  {
    match Lookup(reg, username)
    case None => Err(HttpError(Unauthorized, "Invalid credentials"))
    case Some(user) =>
      if !check(password, user.hashedPassword) then Err(HttpError(Unauthorized, "Invalid credentials"))
      else Ok(TokenOut(encode(Claims(user.username, user.role)), "bearer"))
  }

  /** `GET /auth/me` */
  function ReadMe(decode: Decoder, reg: Registry, token: Token): (r: Result<User>)
    ensures decode(token).None? ==> r == Err(HttpError(Unauthorized, "Invalid or expired token"))
    ensures decode(token).Some? && Lookup(reg, decode(token).value.sub).None? ==>
              r == Err(HttpError(NotFound, "User not found"))
    ensures r.Ok? <==> decode(token).Some? && Lookup(reg, decode(token).value.sub).Some?
    ensures r.Ok? ==> r.value.username == decode(token).value.sub && r.value in Rows(reg)
  {
    match decode(token)
    case None => Err(HttpError(Unauthorized, "Invalid or expired token"))
    case Some(payload) =>
      match Lookup(reg, payload.sub)
      case None => Err(HttpError(NotFound, "User not found"))
      case Some(user) => Ok(user)
  }

  /** `GET /auth/verify` */
  function Verify(decode: Decoder, token: Token): (r: Result<Claims>)
    ensures r.Ok? <==> decode(token).Some?
    ensures r.Ok? ==> r.value == decode(token).value
    ensures r.Err? ==> r.error == HttpError(Unauthorized, "Invalid token")
  {
    match decode(token)
    case None => Err(HttpError(Unauthorized, "Invalid token"))
    case Some(payload) => Ok(Claims(payload.sub, payload.role))
  }

  /** A user who registered with a password that `check` accepts against
      its hash can log in with it, and the token names that user and role. */
  lemma RegisterThenLogin(
    hash: Hasher, check: PasswordCheck, encode: Encoder,
    reg: Registry, username: string, password: string, role: Option<string>)
    requires Valid(reg)
    requires check(password, hash(password))
    requires Register(hash, reg, username, password, role).result.Ok?
    ensures var out := Register(hash, reg, username, password, role);
      Login(check, encode, out.state, username, password)
        == Ok(TokenOut(encode(Claims(username, EffectiveRole(role))), "bearer"))
  {
    RegisterThenLookup(hash, reg, username, password, role);
  }

  /** The token a login issues, read back by a decoder that shares the
      signing secret, authenticates the same user through `/auth/me` and
      `/auth/verify`. */
  lemma LoginThenReadMe(
    check: PasswordCheck, encode: Encoder, decode: Decoder,
    reg: Registry, username: string, password: string)
    requires RoundTrips(encode, decode)
    requires Login(check, encode, reg, username, password).Ok?
    ensures var token := Login(check, encode, reg, username, password).value.accessToken;
      && ReadMe(decode, reg, token) == Ok(Lookup(reg, username).value)
      && Verify(decode, token) == Ok(Claims(username, Lookup(reg, username).value.role))
  {
    var user := Lookup(reg, username).value;
    assert decode(encode(Claims(username, user.role))) == Some(Claims(username, user.role));
  }
}
