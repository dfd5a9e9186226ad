/** Token claims, the two token kinds, and the JSON Web Token library (RFC 7519), which
    the model treats as an oracle: signing, verification and decoding are parameters. */
module Tokens {
  import opened Wrappers

  /** A user role. Its values are defined with the user entity, outside this model, and
      nothing modelled here inspects them. */
  datatype Role = Role(code: int)

  /** The claims a token carries: subject id, role and `type`. */
  datatype Payload = Payload(sub: int, role: Role, typ: string)

  const AccessType: string := "access"
  const RefreshType: string := "refresh"

  /** Lifetime of an access token, in seconds. */
  const AccessLifetime: nat := 300

  /** Lifetime of a refresh token ('24h'), in seconds. */
  const RefreshLifetime: nat := 24 * 60 * 60

  /** The arguments of a signing call: claims, secret and lifetime in seconds. */
  datatype SignRequest = SignRequest(claims: Payload, secret: string, expiresIn: nat)

  /** What verifying a token under a secret yields: the payload, a TokenExpiredError, or
      any other error. */
  datatype Verdict = Verified(payload: Payload) | Expired | Invalid

  /** The JWT library: signing, verification under a secret, and decoding without
      verification, which yields nothing for a string that is not a token. */
  datatype Jwt = Jwt(
    sign: SignRequest -> string,
    verify: (string, string) -> Verdict,
    decode: string -> Option<Payload>)

  /** The access and refresh secrets from configuration. */
  datatype Secrets = Secrets(access: string, refresh: string)

  /** An ideal HMAC-signed JWT library (a JWS per RFC 7515 carrying RFC 7519 claims),
      observed before the token expires: a signed token verifies under its own secret to
      its claims, its signature is invalid under any other secret, it decodes to its claims
      without verification, and (being three base64url parts joined by dots) it contains
      no space. */
  ghost predicate Ideal(jwt: Jwt) {
    && (forall req :: jwt.verify(jwt.sign(req), req.secret) == Verified(req.claims))
    && (forall req: SignRequest, secret: string :: secret != req.secret ==> jwt.verify(jwt.sign(req), secret) == Invalid)
    && (forall req :: jwt.decode(jwt.sign(req)) == Some(req.claims))
    && (forall req :: ' ' !in jwt.sign(req))
  }
}
