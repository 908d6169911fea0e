/** The authentication middleware in front of the storage routes: it takes the first value of
    the `auth` header, requires a stored session whose token the column's collation equates
    with it, decodes the presented
    token, and hands the request on with the token's userId as an attribute. Every failure on
    the way is answered with status 401 and the failure's message. */
module Middleware {
  import opened Http
  import opened Tokens
  import opened Sessions

  const NoToken := "Токен отсутствует в заголовках запроса"
  const NoSession := "Сессия не найдена"

  /** The tokens of the stored sessions: all the session lookup can see. */
  function StoredTokens(rows: Rows): set<string> {
    set id | id in rows :: rows[id].token
  }

  /** findOneBy(['token' => token]) finds a row. The database compares the column under its
      collation, the parameter same (utf8mb4_unicode_ci, which folds case and accents and
      ignores trailing spaces), not as exact strings. */
  predicate SessionExists(rows: Rows, token: string, same: (string, string) -> bool) {
    exists id | id in rows :: same(rows[id].token, token)
  }

  /** The presented token matches one of the stored tokens under the collation. */
  predicate Matches(stored: set<string>, token: string, same: (string, string) -> bool) {
    exists t | t in stored :: same(t, token)
  }

  /** extractTokenFromRequest, checkSessionExists and decodeToken in that order; an error
      carries the code its exception was raised with (none for a missing header, 401 for a
      missing session, 400 from the token service). */
  function Authenticate(auth: seq<string>, rows: Rows, same: (string, string) -> bool, s: Signer, now: int): Result<int> {
    if auth == [] then Err(0, NoToken)
    else if !SessionExists(rows, auth[0], same) then Err(401, NoSession)
    else
      match Decode(s, auth[0], now)
      case Err(code, message) => Err(code, message)
      case Ok(c) => Ok(c.userId)
  }

  /** __invoke: any failure becomes a 401 error response with its message; otherwise the next
      handler receives the request with the userId attribute set. */
  function Invoke(req: Request, rows: Rows, same: (string, string) -> bool, s: Signer, now: int,
                  handler: Request -> Response): Response {
    match Authenticate(req.auth, rows, same, s, now)
    case Err(_, message) => JsonError(401, message)
    case Ok(userId) => handler(req.(userId := Some(userId)))
  }

  /** A request without an `auth` header is refused before anything else is looked at. */
  lemma MissingHeaderRefused(req: Request, rows: Rows, same: (string, string) -> bool, s: Signer, now: int,
                             handler: Request -> Response)
    requires req.auth == []
    ensures Invoke(req, rows, same, s, now, handler) == JsonError(401, NoToken)
  {
  }

  /** Only the first value of the header is used: further values change nothing. */
  lemma OnlyFirstValue(auth: seq<string>, rows: Rows, same: (string, string) -> bool, s: Signer, now: int)
    requires auth != []
    ensures Authenticate(auth, rows, same, s, now) == Authenticate(auth[..1], rows, same, s, now)
  {
  }

  /** The session lookup comes first: a token that matches no stored session is refused with
      that message, whether or not it would decode. */
  lemma UnknownSessionRefused(req: Request, rows: Rows, same: (string, string) -> bool, s: Signer, now: int,
                              handler: Request -> Response)
    requires req.auth != [] && !Matches(StoredTokens(rows), req.auth[0], same)
    ensures Invoke(req, rows, same, s, now, handler) == JsonError(401, NoSession)
  {
    SessionExistsByTokens(rows, req.auth[0], same);
  }

  /** A token matching a stored one that fails to decode is answered with 401, not with the
      token service's 400, and with the service's message. The decoded token is the presented
      one, which under the collation need not be the stored one. */
  lemma DecodeFailureIs401(req: Request, rows: Rows, same: (string, string) -> bool, s: Signer, now: int,
                           handler: Request -> Response)
    requires req.auth != [] && Matches(StoredTokens(rows), req.auth[0], same)
    requires Decode(s, req.auth[0], now).Err?
    ensures Decode(s, req.auth[0], now).code == 400
    ensures Invoke(req, rows, same, s, now, handler) == JsonError(401, Decode(s, req.auth[0], now).message)
    ensures BadToken <= Invoke(req, rows, same, s, now, handler).error
  {
    SessionExistsByTokens(rows, req.auth[0], same);
  }

  /** A token matching a stored one that decodes lets the request through, with the token's
      userId and nothing else changed. */
  lemma AcceptedPassesUserId(req: Request, rows: Rows, same: (string, string) -> bool, s: Signer, now: int,
                             handler: Request -> Response)
    requires req.auth != [] && Matches(StoredTokens(rows), req.auth[0], same)
    requires Decode(s, req.auth[0], now).Ok?
    ensures Invoke(req, rows, same, s, now, handler)
         == handler(req.(userId := Some(Decode(s, req.auth[0], now).value.userId)))
  {
    SessionExistsByTokens(rows, req.auth[0], same);
  }

  /** The stored sessions matter only through their tokens: their expiry and their owner are
      never consulted, so two tables with the same tokens authenticate alike. */
  lemma OnlyTokensMatter(auth: seq<string>, rows: Rows, other: Rows, same: (string, string) -> bool,
                         s: Signer, now: int)
    requires StoredTokens(rows) == StoredTokens(other)
    ensures Authenticate(auth, rows, same, s, now) == Authenticate(auth, other, same, s, now)
  {
    if auth != [] {
      SessionExistsByTokens(rows, auth[0], same);
      SessionExistsByTokens(other, auth[0], same);
    }
  }

  lemma SessionExistsByTokens(rows: Rows, token: string, same: (string, string) -> bool)
    ensures SessionExists(rows, token, same) <==> Matches(StoredTokens(rows), token, same)
  {
    if Matches(StoredTokens(rows), token, same) {
      var t :| t in StoredTokens(rows) && same(t, token);
      var id :| id in rows && rows[id].token == t;
      assert same(rows[id].token, token);
    }
    if SessionExists(rows, token, same) {
      var id :| id in rows && same(rows[id].token, token);
      assert rows[id].token in StoredTokens(rows);
    }
  }
}
