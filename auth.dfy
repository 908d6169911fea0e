/** The login endpoint: it validates the body, looks the user up by login, checks the password,
    and on success creates a session (its token signed for the user's id, expiring lifetime
    seconds from now), links it to the user, persists it (which sweeps expired sessions) and
    flushes, answering with the token and its expiry. */
module Auth {
  import opened Http
  import opened Tokens
  import opened Entities
  import opened Sessions
  import Middleware

  const Required := "Логин и пароль обязательны"
  const WrongCredentials := "Неправильный логин или пароль"

  /** PHP's empty() on a body field read with a default of "": missing, "" and "0" are empty. */
  predicate Empty(v: Option<string>) {
    v.None? || v.value == "" || v.value == "0"
  }

  /** extractDataFromRequest: login and password, or code 400 when either is empty. */
  function Credentials(body: LoginBody): (r: Result<(string, string)>)
    ensures r.Ok? <==> (body.login.Some? && body.password.Some? &&
                        body.login.value !in {"", "0"} && body.password.value !in {"", "0"})
    ensures r.Ok? ==> r.value == (body.login.value, body.password.value)
    ensures r.Err? ==> r == Err(400, Required)
  {
    if Empty(body.login) || Empty(body.password) then Err(400, Required)
    else Ok((body.login.value, body.password.value))
  }

  function UserSet(users: seq<User>): set<object> {
    set u | u in users
  }

  /** findOneBy(['login' => login]) on the users table: the first user whose login the
      column's collation, the parameter same, equates with the given one (utf8mb4_unicode_ci
      folds case and accents and ignores trailing spaces). */
  function FindUser(users: seq<User>, login: string, same: (string, string) -> bool): (r: Option<User>)
    reads UserSet(users)
    ensures r.Some? ==> r.value in users && same(r.value.login, login)
    ensures r.None? <==> forall i :: 0 <= i < |users| ==> !same(users[i].login, login)
  {
    if users == [] then None
    else if same(users[0].login, login) then Some(users[0])
    else FindUser(users[1..], login, same)
  }

  /** The unique index on the login column: no two users' logins are equal under the
      collation. */
  ghost predicate UniqueLogins(users: seq<User>, same: (string, string) -> bool)
    reads UserSet(users)
  {
    forall i, j :: 0 <= i < |users| && 0 <= j < |users| && i != j ==> !same(users[i].login, users[j].login)
  }

  /** The collation relates every string to itself. */
  ghost predicate Reflexive(same: (string, string) -> bool) {
    forall x :: same(x, x)
  }

  /** A collation is an equivalence: reflexive, symmetric and transitive. */
  ghost predicate Equivalence(same: (string, string) -> bool) {
    && Reflexive(same)
    && (forall x, y :: same(x, y) ==> same(y, x))
    && (forall x, y, z :: same(x, y) && same(y, z) ==> same(x, z))
  }

  /** authorize: the user, or code 401 both when no user has the login and when the password
      does not match. */
  function Authorize(users: seq<User>, login: string, password: string, verify: (string, string) -> bool,
                     same: (string, string) -> bool): Result<User>
    reads UserSet(users)
  {
    match FindUser(users, login, same)
    case None => Err(401, WrongCredentials)
    case Some(u) => if u.VerifyPassword(password, verify) then Ok(u) else Err(401, WrongCredentials)
  }

  /** Who login lets in, or the error it answers with. */
  function LoginUser(users: seq<User>, body: LoginBody, verify: (string, string) -> bool,
                     same: (string, string) -> bool): Result<User>
    reads UserSet(users)
  {
    match Credentials(body)
    case Err(code, message) => Err(code, message)
    case Ok(c) => Authorize(users, c.0, c.1, verify, same)
  }

  /** The response of login: the error with its code, or the token for the user's id and its
      expiry. */
  function LoginResponse(users: seq<User>, body: LoginBody, verify: (string, string) -> bool,
                         same: (string, string) -> bool, s: Signer, lifetime: int, now: int): Response
    reads UserSet(users)
  {
    match LoginUser(users, body, verify, same)
    case Err(code, message) => JsonError(code, message)
    case Ok(u) => JsonToken(200, Generate(s, u.id, lifetime, now), now + lifetime)
  }

  class AuthController {
    const entityManager: EntityManager
    const listener: SessionCleanupListener
    const signer: Signer
    const lifetime: int

    constructor (em: EntityManager, listener: SessionCleanupListener, signer: Signer, lifetime: int)
      requires listener.entityManager == em
      ensures entityManager == em && this.listener == listener
      ensures this.signer == signer && this.lifetime == lifetime
    {
      entityManager := em;
      this.listener := listener;
      this.signer := signer;
      this.lifetime := lifetime;
    }

    /** createSession: a new session at time now with the token signed for userId and an
        expiry lifetime seconds later. */
    method CreateSession(userId: int, now: int) returns (session: Session)
      ensures fresh(session) && session.user == null && session.createdAt == now
      ensures session.token == Generate(signer, userId, lifetime, now)
      ensures session.expiresAt == now + lifetime
    {
      session := new Session(now);
      session.SetToken(Generate(signer, userId, lifetime, now));
      session.SetExpiresAt(now + lifetime);
    }

    /** login, in one unit of work with nothing scheduled yet. On an error nothing is written
        and no user changes. On success the authorized user gains one fresh session carrying
        the token, the table loses its expired rows and gains the session's row under a new
        id, and the response carries the token and the expiry. */
    method Login(body: LoginBody, users: seq<User>, now: int, verify: (string, string) -> bool,
                 same: (string, string) -> bool)
      returns (response: Response)
      requires listener.entityManager == entityManager
      requires entityManager.Valid() && entityManager.removals == {} && entityManager.inserts == []
      modifies entityManager, UserSet(users)
      ensures response == old(LoginResponse(users, body, verify, same, signer, lifetime, now))
      ensures entityManager.Valid() && entityManager.removals == {} && entityManager.inserts == []
      ensures var who := old(LoginUser(users, body, verify, same));
        who.Err? ==> unchanged(entityManager) && unchanged(UserSet(users))
      ensures var who := old(LoginUser(users, body, verify, same));
        who.Ok? ==>
          var u := who.value;
          var token := Generate(signer, u.id, lifetime, now);
          && entityManager.rows
             == Swept(old(entityManager.rows), now)[old(entityManager.nextId) := SessionRow(u.id, token, now, now + lifetime)]
          && entityManager.nextId == old(entityManager.nextId) + 1
          && |u.sessions| == |old(u.sessions)| + 1
          && u.sessions[..|old(u.sessions)|] == old(u.sessions)
          && var s := u.sessions[|u.sessions| - 1];
             fresh(s) && s.user == u && s.token == token && s.createdAt == now && s.expiresAt == now + lifetime
      ensures var who := old(LoginUser(users, body, verify, same));
        who.Ok? ==> forall v :: v in UserSet(users) && v != who.value ==> unchanged(v)
    {
      var who := LoginUser(users, body, verify, same);
      if who.Err? {
        return JsonError(who.code, who.message);
      }
      var user := who.value;
      var rows, nextId := entityManager.rows, entityManager.nextId;
      var session := CreateSession(user.id, now);
      user.AddSession(session);
      entityManager.Persist(SessionEntity(session), listener, now);
      entityManager.Flush();
      PersistThenFlush(rows, now, SessionRow(user.id, session.token, now, now + lifetime), nextId);
      response := JsonToken(200, session.token, session.expiresAt);
    }
  }

  /** An unknown login and a wrong password are answered identically. */
  lemma UnknownAndWrongPasswordAlike(users: seq<User>, body: LoginBody, verify: (string, string) -> bool,
                                     same: (string, string) -> bool, s: Signer, lifetime: int, now: int)
    requires Credentials(body).Ok?
    requires var c := Credentials(body).value;
      FindUser(users, c.0, same).None? || !verify(c.1, FindUser(users, c.0, same).value.password)
    ensures LoginResponse(users, body, verify, same, s, lifetime, now) == JsonError(401, WrongCredentials)
  {
  }

  /** A login or password of "0" counts as missing, even for a user whose login or password
      it is. */
  lemma ZeroIsMissing(users: seq<User>, body: LoginBody, verify: (string, string) -> bool,
                      same: (string, string) -> bool, s: Signer, lifetime: int, now: int)
    requires body.login == Some("0") || body.password == Some("0")
    ensures LoginResponse(users, body, verify, same, s, lifetime, now) == JsonError(400, Required)
  {
  }

  /** Only a user whose login the collation equates with the given one, and whose stored hash
      the password verifies against, is let in. */
  lemma LoginAdmitsOnlyOwner(users: seq<User>, body: LoginBody, verify: (string, string) -> bool,
                             same: (string, string) -> bool)
    requires LoginUser(users, body, verify, same).Ok?
    ensures var u := LoginUser(users, body, verify, same).value;
      && u in users && body.login.Some? && same(u.login, body.login.value) && body.password.Some?
      && verify(body.password.value, u.password)
  {
  }

  /** With logins unique under the collation, a login that the collation equates with a
      user's (another case, say) and that user's password let that very user in. */
  lemma {:induction false} FindUserUpToCollation(users: seq<User>, login: string, same: (string, string) -> bool, i: nat)
    requires Equivalence(same) && UniqueLogins(users, same)
    requires i < |users| && same(users[i].login, login)
    ensures FindUser(users, login, same) == Some(users[i])
    decreases i
  {
    if i > 0 {
      NoEarlierMatch(users, login, same, i);
      UniqueTail(users, same);
      FindUserUpToCollation(users[1..], login, same, i - 1);
    }
  }

  lemma NoEarlierMatch(users: seq<User>, login: string, same: (string, string) -> bool, i: nat)
    requires Equivalence(same) && UniqueLogins(users, same)
    requires 0 < i < |users| && same(users[i].login, login)
    ensures !same(users[0].login, login)
  {
    assert !same(users[0].login, users[i].login);
  }

  lemma UniqueTail(users: seq<User>, same: (string, string) -> bool)
    requires UniqueLogins(users, same) && users != []
    ensures UniqueLogins(users[1..], same)
  {
    var tail := users[1..];
    forall i, j | 0 <= i < |tail| && 0 <= j < |tail| && i != j
      ensures !same(tail[i].login, tail[j].login)
    {
      assert tail[i] == users[i + 1] && tail[j] == users[j + 1];
    }
  }

  /** The token login hands out, once its row is stored, authenticates as the user it was
      issued to from the moment of issue up to (not including) its expiry, and is refused as
      expired from then on while its row stays in the table. */
  lemma IssuedTokenAuthenticates(u: User, s: Signer, lifetime: int, issued: int, rows: Rows, id: nat,
                                 same: (string, string) -> bool, req: Request, now: int,
                                 handler: Request -> Response)
    requires Sound(s) && Reflexive(same)
    requires id in rows && rows[id] == SessionRow(u.id, Generate(s, u.id, lifetime, issued), issued, issued + lifetime)
    requires req.auth != [] && req.auth[0] == Generate(s, u.id, lifetime, issued)
    requires issued <= now
    ensures now < issued + lifetime ==>
      Middleware.Invoke(req, rows, same, s, now, handler) == handler(req.(userId := Some(u.id)))
    ensures issued + lifetime <= now ==>
      Middleware.Invoke(req, rows, same, s, now, handler) == JsonError(401, BadToken + Expired)
  {
    assert same(rows[id].token, req.auth[0]);
    assert Middleware.SessionExists(rows, req.auth[0], same);
    if now < issued + lifetime {
      GeneratedDecodes(s, u.id, lifetime, issued, now);
    } else {
      GeneratedOutsideWindow(s, u.id, lifetime, issued, now);
    }
  }
}
