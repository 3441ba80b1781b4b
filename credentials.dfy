/** Tokens as config/auth.js issues them and as the passport-jwt strategy accepts them.
    Signing and signature checking are not modelled: a `Token` value stands for a token
    signed with the server key, and a forged or malformed header is an absent one. */
module Credentials {
  import opened Wrappers

  /** A token's payload, which the strategy passes through unchanged as `req.user`. */
  datatype Claims = Claims(id: int, email: string, role: Option<string>)

  /** A signed token: its payload, and its `iat` and `exp` times in seconds. */
  datatype Token = Token(claims: Claims, issuedAt: int, expiresAt: int)

  /** expiresIn: '24h'. */
  const TOKEN_LIFETIME: int := 24 * 60 * 60

  /** generateToken(user): signs `{id, email}` and nothing else, for 24 hours from `now`. */
  function GenerateToken(id: int, email: string, now: int): Token
  {
    Token(Claims(id, email, None), now, now + TOKEN_LIFETIME)
  }

  /** The JWT strategy: a token that has not reached its `exp` time authenticates, and its
      payload becomes `req.user`; a missing or expired token leaves the request unauthenticated. */
  function Authenticate(header: Option<Token>, now: int): (user: Option<Claims>)
    ensures user.Some? <==> header.Some? && now < header.value.expiresAt
    ensures user.Some? ==> user.value == header.value.claims
  {
    match header
    case None => None
    case Some(t) => if now < t.expiresAt then Some(t.claims) else None
  }

  /** A bcrypt hash (hashPassword: 10 salt rounds), modelled by the password it was made from;
      the random salt and bcrypt's 72-byte input limit are not modelled. */
  datatype PasswordHash = Bcrypt(secret: string)

  function HashPassword(password: string): PasswordHash
  {
    Bcrypt(password)
  }

  /** comparePassword: bcrypt.compare of a password against a stored hash. */
  predicate ComparePassword(password: string, hash: PasswordHash)
  {
    hash.secret == password
  }

  /** What bcrypt.compare rejects with when the stored hash is NULL rather than a string. */
  const COMPARE_NULL_HASH_ERROR: string := "Illegal arguments: string, object"

  /** A token this code issues authenticates for exactly 24 hours, as {id, email} with no role. */
  lemma IssuedTokenLifetime(id: int, email: string, issued: int, now: int)
    ensures Authenticate(Some(GenerateToken(id, email, issued)), now)
         == if now < issued + TOKEN_LIFETIME then Some(Claims(id, email, None)) else None
  {
  }
}
