/**
 * The two libraries the auth routes call into, reduced to what the handlers
 * rely on: a password hasher (bcryptjs) and a token issuer (jsonwebtoken).
 */
module Crypto {
  import opened Wrappers
  import opened Users

  /**
   * A password hasher as a pair of functions; which functions they are is
   * up to the caller. Salting and the cost factor are inside `hash`.
   */
  datatype Hasher = Hasher(hash: string -> string, verify: (string, string) -> bool)

  /** The one property of bcrypt the handlers depend on: a password verifies against its own hash. */
  ghost predicate Sound(h: Hasher) {
    forall p :: h.verify(p, h.hash(p))
  }

  /** The claims both handlers put into a token. */
  datatype Claims = Claims(userId: nat, role: Role)

  /** A signed token, kept abstract: its claims and the secret it was signed with. */
  datatype Token = Token(claims: Claims, secret: string)

  /** Fallback secret of the register handler. */
  const RegisterFallbackSecret: string := "your-secret-key"

  /** Fallback secret of the login handler. */
  const LoginFallbackSecret: string := "secretkey"

  /** `process.env.JWT_SECRET || fallback`: the environment value unless it is unset or empty. */
  function SecretFor(env: Option<string>, fallback: string): (s: string)
    ensures env.Some? && env.value != "" ==> s == env.value
    ensures env.None? || env.value == "" ==> s == fallback
  {
    if env.Some? && env.value != "" then env.value else fallback
  }

  /** `jwt.sign({ userId, role }, secret, ...)`, with the expiry left out. */
  function Sign(c: Claims, secret: string): Token {
    Token(c, secret)
  }
}
