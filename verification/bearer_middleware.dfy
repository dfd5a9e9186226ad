/** The bearer-token middleware: decides, for each request, whether to continue without a
    user, continue with the verified payload attached, or fail with Unauthorized. */
module BearerTokenMiddleware {
  import opened Wrappers
  import opened Errors
  import opened Strings
  import opened Tokens

  /** Continue to the handler (with `req.user` set or not), or fail the request. */
  datatype Decision = Next(user: Option<Payload>) | Reject(error: Error)

  /** The token of an `Authorization` header: the header must contain exactly one space,
      and the token is everything after it; the first word is ignored. */
  function ValidateBearerToken(raw: string): (r: Result<string, Error>)
    ensures r.Ok? <==> multiset(raw)[' '] == 1
    ensures r.Err? ==> r.error == BadRequest(MalformedToken)
    ensures r.Ok? ==>
              && ' ' !in r.value
              && |r.value| < |raw|
              && raw[|raw| - |r.value| - 1] == ' '
              && raw[|raw| - |r.value|..] == r.value
  {
    var parts := Split(raw, ' ');
    if |parts| != 2 then Err(BadRequest(MalformedToken))
    else
      assert raw == parts[0] + [' '] + parts[1];
      Ok(parts[1])
  }

  /** The secret to verify with, chosen from the unverified `type` claim. */
  function SecretFor(decoded: Payload, secrets: Secrets): string {
    if decoded.typ == RefreshType then secrets.refresh else secrets.access
  }

  /** The middleware. No (or an empty) header: continue without a user. Any error inside
      the guarded block other than an expired token, including a malformed header or an
      undecodable token, also continues without a user. An expired token fails with
      Unauthorized. A verified token attaches exactly its payload. */
  function Use(header: Option<string>, jwt: Jwt, secrets: Secrets): (r: Decision)
    ensures header.None? || header == Some("") ==> r == Next(None)
    ensures header.Some? && multiset(header.value)[' '] != 1 ==> r == Next(None)
    ensures r.Reject? ==> r.error == Unauthorized(TokenExpired)
    ensures header.Some? && multiset(header.value)[' '] == 1 ==>
              var token := ValidateBearerToken(header.value).value;
              match jwt.decode(token)
              case None => r == Next(None)
              case Some(decoded) =>
                match jwt.verify(token, SecretFor(decoded, secrets))
                case Verified(payload) => r == Next(Some(payload))
                case Expired => r == Reject(Unauthorized(TokenExpired))
                case Invalid => r == Next(None)
  {
    match header
    case None => Next(None)
    case Some(raw) =>
      if raw == "" then Next(None)
      else match ValidateBearerToken(raw)
        case Err(_) => Next(None)
        case Ok(token) =>
          match jwt.decode(token)
          case None => Next(None)
          case Some(decoded) =>
            match jwt.verify(token, SecretFor(decoded, secrets))
            case Verified(payload) => Next(Some(payload))
            case Expired => Reject(Unauthorized(TokenExpired))
            case Invalid => Next(None)
  }
}
