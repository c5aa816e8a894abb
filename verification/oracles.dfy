/**
  The two cryptographic libraries the handlers call, as oracles passed in by the caller:
  token signing and verification (the signing secret is part of the oracle) and password
  hashing. Their internals are not modelled; the predicates below state the only facts the
  handlers rely on.
*/
module Oracles {
  import opened Wrappers
  import opened Adapter

  /** The claims the login handler puts into a token. */
  datatype Claims = Claims(sub: Value, email: string, role: Value)

  /** A decoded token: the claims plus the issue and expiry times, in seconds. */
  datatype Payload = Payload(claims: Claims, iat: int, exp: int)

  /** `expiresIn: '1h'`. */
  const TokenLifetime: int := 3600

  /** `sign(claims, iat, lifetime)` and `verify(token, now)`; `None` is a thrown verification error. */
  datatype Jwt = Jwt(sign: (Claims, int, int) -> string, verify: (string, int) -> Option<Payload>)

  /**
    A token never contains a space (it is base64url text joined by dots), and verifying a token
    the oracle signed gives back its payload until it expires, and fails from then on.
  */
  ghost predicate JwtSound(j: Jwt) {
    && (forall c, iat, life :: ' ' !in j.sign(c, iat, life))
    && (forall c, iat, life, now :: j.verify(j.sign(c, iat, life), now) ==
          if now < iat + life then Some(Payload(c, iat, iat + life)) else None)
  }

  /** The bcrypt cost factor passed by the sign-up handler. */
  const BcryptCost: nat := 10

  /** `hash(password, cost, salt)`, where the salt stands for the library's randomness, and `compare(password, hash)`. */
  datatype Hasher = Hasher(hash: (string, nat, int) -> string, compare: (string, string) -> bool)

  /** A password always matches its own hash. */
  ghost predicate HasherSound(h: Hasher) {
    forall p, cost, salt :: h.compare(p, h.hash(p, cost, salt))
  }
}
