/** The token service: generateToken signs the claims {iat, exp = iat + lifetime, data}, and
    decodeToken checks a token's signature and its time window (JSON Web Token, RFC 7519,
    signed with HS256 as in section 3.2 of RFC 7518). The signature scheme itself is not
    modelled: it is a pair of functions, the signer and the reader, and the statements below
    hold for any reader that recovers what the signer signed. */
module Tokens {
  import opened Http

  /** The claims generateToken signs: issued-at, expiry, and the payload's userId. */
  datatype Claims = Claims(iat: int, exp: int, userId: int)

  /** What the reader makes of a token's text: the claims of a well-formed token with a
      valid signature, or the library's reason for refusing it. */
  datatype Verified = Verified(claims: Claims) | Refused(reason: string)

  /** HS256 with the configured secret: sign produces the compact token, read verifies one,
      and formatTime renders a timestamp for the library's "not yet valid" message. */
  datatype Signer = Signer(sign: Claims -> string, read: string -> Verified, formatTime: int -> string)

  /** The reader accepts what the signer produced and recovers its claims. */
  ghost predicate Sound(s: Signer) {
    forall c :: s.read(s.sign(c)) == Verified(c)
  }

  const BadToken := "Некорректный токен: "
  const IssuedLater := "Cannot handle token with iat prior to "
  const Expired := "Expired token"

  /** generateToken(['userId' => userId], lifetime) at time now. */
  function Generate(s: Signer, userId: int, lifetime: int, now: int): string {
    s.sign(Claims(now, now + lifetime, userId))
  }

  /** decodeToken at time now: the reader's refusal, a token issued after now, or a token
      whose expiry is not after now, each become code 400 with the library's message after
      the service's prefix. */
  function Decode(s: Signer, token: string, now: int): (r: Result<Claims>)
    ensures r.Err? ==> r.code == 400 && BadToken <= r.message
  {
    match s.read(token)
    case Refused(reason) => Err(400, BadToken + reason)
    case Verified(c) =>
      if c.iat > now then Err(400, BadToken + IssuedLater + s.formatTime(c.iat))
      else if now >= c.exp then Err(400, BadToken + Expired)
      else Ok(c)
  }

  /** A decoded token is within its window: issued no later than now and expiring after now. */
  lemma DecodedIsLive(s: Signer, token: string, now: int)
    ensures var r := Decode(s, token, now);
      r.Ok? <==> (s.read(token).Verified? && s.read(token).claims.iat <= now < s.read(token).claims.exp)
    ensures var r := Decode(s, token, now); r.Ok? ==> r.value == s.read(token).claims
  {
  }

  /** A generated token decodes, at any time from its issue up to (not including) its expiry,
      to the claims it was generated with. */
  lemma GeneratedDecodes(s: Signer, userId: int, lifetime: int, issued: int, now: int)
    requires Sound(s) && issued <= now < issued + lifetime
    ensures Decode(s, Generate(s, userId, lifetime, issued), now) == Ok(Claims(issued, issued + lifetime, userId))
  {
    assert s.read(s.sign(Claims(issued, issued + lifetime, userId))) == Verified(Claims(issued, issued + lifetime, userId));
  }

  /** From its expiry on, a generated token is refused as expired; before its issue, as not
      yet valid. */
  lemma GeneratedOutsideWindow(s: Signer, userId: int, lifetime: int, issued: int, now: int)
    requires Sound(s) && (now < issued || issued + lifetime <= now)
    ensures var r := Decode(s, Generate(s, userId, lifetime, issued), now);
      && r.Err? && r.code == 400
      && (now < issued ==> r.message == BadToken + IssuedLater + s.formatTime(issued))
      && (issued <= now ==> r.message == BadToken + Expired)
  {
    assert s.read(s.sign(Claims(issued, issued + lifetime, userId))) == Verified(Claims(issued, issued + lifetime, userId));
  }
}
