/** The authentication service: credential and token parsing, registration, password
    checks and token issuance. Base64/UTF-8 decoding, bcrypt and the JWT library are
    parameters. */
module AuthService {
  import opened Wrappers
  import opened Errors
  import opened Strings
  import opened Tokens

  datatype Credentials = Credentials(email: string, password: string)

  datatype User = User(id: int, email: string, passwordHash: string, role: Role)

  /** The users table, keyed by its unique email, and the next auto-increment id. */
  datatype Users = Users(byEmail: map<string, User>, nextId: int)

  /** bcrypt: `hash` (with the salt and cost of the call folded in) and `compare`. */
  datatype Hasher = Hasher(hash: string -> string, compare: (string, string) -> bool)

  /** A password always matches its own hash. */
  ghost predicate Sound(h: Hasher) {
    forall p :: h.compare(p, h.hash(p))
  }

  /** The two tokens handed out at login. */
  datatype LoginTokens = LoginTokens(refreshToken: string, accessToken: string)

  /** Parses `<scheme> <base64(email:password)>`. The header must contain exactly one space
      and the decoded payload exactly one colon, so an email or password containing a
      colon is rejected; the scheme word is never looked at. */
  function ParseBasicToken(raw: string, base64Decode: string -> string): (r: Result<Credentials, Error>)
    ensures r.Ok? <==>
              multiset(raw)[' '] == 1 && multiset(base64Decode(Split(raw, ' ')[1]))[':'] == 1
    ensures r.Err? ==> r.error == BadRequest(MalformedToken)
    ensures r.Ok? ==> ':' !in r.value.email && ':' !in r.value.password
    ensures r.Ok? ==> base64Decode(Split(raw, ' ')[1]) == r.value.email + ":" + r.value.password
  {
    var parts := Split(raw, ' ');
    if |parts| != 2 then Err(BadRequest(MalformedToken))
    else
      var decoded := base64Decode(parts[1]);
      var fields := Split(decoded, ':');
      if |fields| != 2 then Err(BadRequest(MalformedToken))
      else
        assert Join(fields, ':') == fields[0] + [':'] + fields[1];
        Ok(Credentials(fields[0], fields[1]))
  }

  /** With a codec whose decoding undoes its encoding and whose output has no space,
      parsing a header built from a space-free scheme and colon-free credentials gives
      back those credentials. */
  lemma BasicRoundTrip(scheme: string, email: string, password: string,
                       encode: string -> string, decode: string -> string)
    requires ' ' !in scheme && ':' !in email && ':' !in password
    requires forall s :: decode(encode(s)) == s
    requires forall s :: ' ' !in encode(s)
    ensures ParseBasicToken(scheme + " " + encode(email + ":" + password), decode)
              == Ok(Credentials(email, password))
  {
    var token := encode(email + ":" + password);
    SplitPair(scheme, ' ', token);
    SplitPair(email, ':', password);
  }

  /** A password containing a colon can never be presented: its header is rejected. */
  lemma ColonInPasswordRejected(scheme: string, email: string, password: string,
                                encode: string -> string, decode: string -> string)
    requires ' ' !in scheme && ':' in password
    requires forall s :: decode(encode(s)) == s
    requires forall s :: ' ' !in encode(s)
    ensures ParseBasicToken(scheme + " " + encode(email + ":" + password), decode)
              == Err(BadRequest(MalformedToken))
  {
    var payload := email + ":" + password;
    var token := encode(payload);
    SplitPair(scheme, ' ', token);
    assert multiset(payload) == multiset(email) + multiset(":") + multiset(password);
    assert multiset(payload)[':'] >= 2;
  }

  /** Registers the credentials of a Basic header: fails with BadRequest and adds nothing
      when the header is malformed or the email is taken; otherwise stores exactly one
      user with the hashed password, the next id and the default role, and returns it. */
  function Register(users: Users, raw: string, base64Decode: string -> string, hasher: Hasher, defaultRole: Role)
    : (r: Outcome<Users, User>)
    ensures r.result.Err? ==> r.store == users
    ensures ParseBasicToken(raw, base64Decode).Err? ==> r.result == Err(BadRequest(MalformedToken))
    ensures ParseBasicToken(raw, base64Decode).Ok? ==>
              var c := ParseBasicToken(raw, base64Decode).value;
              && (c.email in users.byEmail ==> r.result == Err(BadRequest(AlreadyRegistered)))
              && (c.email !in users.byEmail ==>
                    && r.result == Ok(User(users.nextId, c.email, hasher.hash(c.password), defaultRole))
                    && r.store == Users(users.byEmail[c.email := r.result.value], users.nextId + 1))
  {
    match ParseBasicToken(raw, base64Decode)
    case Err(e) => Outcome(users, Err(e))
    case Ok(c) =>
      if c.email in users.byEmail then Outcome(users, Err(BadRequest(AlreadyRegistered)))
      else
        var user := User(users.nextId, c.email, hasher.hash(c.password), defaultRole);
        var saved := Users(users.byEmail[c.email := user], users.nextId + 1);
        Outcome(saved, Ok(saved.byEmail[c.email]))
  }

  /** Checks a password: succeeds with the stored user exactly when the email is known and
      the password matches its hash; an unknown email and a wrong password fail with the
      same error. */
  function Authenticate(users: Users, email: string, password: string, hasher: Hasher): (r: Result<User, Error>)
    ensures r.Ok? <==> email in users.byEmail && hasher.compare(password, users.byEmail[email].passwordHash)
    ensures r.Ok? ==> r.value == users.byEmail[email]
    ensures r.Err? ==> r.error == BadRequest(WrongLoginInfo)
  {
    if email !in users.byEmail then Err(BadRequest(WrongLoginInfo))
    else
      var user := users.byEmail[email];
      if !hasher.compare(password, user.passwordHash) then Err(BadRequest(WrongLoginInfo))
      else Ok(user)
  }

  /** After a successful registration the same credentials authenticate, yielding the user
      just stored. */
  lemma RegisterThenAuthenticate(users: Users, raw: string, base64Decode: string -> string, hasher: Hasher, defaultRole: Role)
    requires Sound(hasher)
    requires Register(users, raw, base64Decode, hasher, defaultRole).result.Ok?
    ensures var registered := Register(users, raw, base64Decode, hasher, defaultRole);
            var c := ParseBasicToken(raw, base64Decode).value;
            && Authenticate(registered.store, c.email, c.password, hasher) == Ok(registered.result.value)
            && registered.result.value.email == c.email
  {
  }

  /** The signing call for a user: the claims carry the user's id and role, and the token
      kind selects type, secret and lifetime together. */
  function IssueToken(user: User, isRefreshToken: bool, secrets: Secrets): (r: SignRequest)
    ensures r.claims.sub == user.id && r.claims.role == user.role
    ensures isRefreshToken ==>
              r.claims.typ == RefreshType && r.secret == secrets.refresh && r.expiresIn == RefreshLifetime
    ensures !isRefreshToken ==>
              r.claims.typ == AccessType && r.secret == secrets.access && r.expiresIn == AccessLifetime
  {
    SignRequest(
      Payload(user.id, user.role, if isRefreshToken then RefreshType else AccessType),
      if isRefreshToken then secrets.refresh else secrets.access,
      if isRefreshToken then RefreshLifetime else AccessLifetime)
  }

  /** Parses a Basic header, authenticates, and issues a refresh token and an access token
      for the same stored user. */
  function Login(users: Users, raw: string, base64Decode: string -> string, hasher: Hasher, jwt: Jwt, secrets: Secrets)
    : (r: Result<LoginTokens, Error>)
    ensures ParseBasicToken(raw, base64Decode).Err? ==> r == Err(BadRequest(MalformedToken))
    ensures ParseBasicToken(raw, base64Decode).Ok? ==>
              var c := ParseBasicToken(raw, base64Decode).value;
              && (r.Ok? <==> c.email in users.byEmail && hasher.compare(c.password, users.byEmail[c.email].passwordHash))
              && (r.Err? ==> r.error == BadRequest(WrongLoginInfo))
              && (r.Ok? ==>
                    var user := users.byEmail[c.email];
                    && r.value.refreshToken == jwt.sign(IssueToken(user, true, secrets))
                    && r.value.accessToken == jwt.sign(IssueToken(user, false, secrets)))
  {
    match ParseBasicToken(raw, base64Decode)
    case Err(e) => Err(e)
    case Ok(c) =>
      match Authenticate(users, c.email, c.password, hasher)
      case Err(e) => Err(e)
      case Ok(user) =>
        Ok(LoginTokens(jwt.sign(IssueToken(user, true, secrets)), jwt.sign(IssueToken(user, false, secrets))))
  }

  /** Checks the `type` claim against the expected kind. */
  function CheckTokenType(payload: Payload, isRefreshToken: bool): Result<Payload, Error> {
    if isRefreshToken then
      if payload.typ != RefreshType then Err(BadRequest(RefreshTokenExpected)) else Ok(payload)
    else
      if payload.typ != AccessType then Err(BadRequest(AccessTokenExpected)) else Ok(payload)
  }

  /** `parseBearerToken` as written: the header must contain exactly one space; the token
      is verified with the refresh secret whatever kind is expected, and a library error
      escapes; then the `type` claim must be the expected kind. */
  function ParseBearerToken(raw: string, isRefreshToken: bool, jwt: Jwt, secrets: Secrets): (r: Result<Payload, Error>)
    ensures multiset(raw)[' '] != 1 ==> r == Err(BadRequest(MalformedToken))
    ensures multiset(raw)[' '] == 1 ==>
              var verdict := jwt.verify(Split(raw, ' ')[1], secrets.refresh);
              && (verdict.Expired? ==> r == Err(TokenRejected(TokenExpired)))
              && (verdict.Invalid? ==> r == Err(TokenRejected(TokenInvalid)))
              && (verdict.Verified? ==>
                    r == if verdict.payload.typ == (if isRefreshToken then RefreshType else AccessType)
                         then Ok(verdict.payload)
                         else Err(BadRequest(if isRefreshToken then RefreshTokenExpected else AccessTokenExpected)))
  {
    var parts := Split(raw, ' ');
    if |parts| != 2 then Err(BadRequest(MalformedToken))
    else
      match jwt.verify(parts[1], secrets.refresh)
      case Expired => Err(TokenRejected(TokenExpired))
      case Invalid => Err(TokenRejected(TokenInvalid))
      case Verified(payload) => CheckTokenType(payload, isRefreshToken)
  }

  /** As written, a genuine access token never parses as an access token: it is verified
      with the refresh secret, under which its signature is invalid. */
  lemma AccessTokenRejectedAsWritten(jwt: Jwt, secrets: Secrets, user: User, scheme: string)
    requires Ideal(jwt) && secrets.access != secrets.refresh
    requires ' ' !in scheme
    ensures ParseBearerToken(scheme + " " + jwt.sign(IssueToken(user, false, secrets)), false, jwt, secrets)
              == Err(TokenRejected(TokenInvalid))
  {
    var token := jwt.sign(IssueToken(user, false, secrets));
    SplitPair(scheme, ' ', token);
  }

  /** `parseBearerToken` as evidently intended: the secret follows the expected kind; the
      rest of the decision is the one written. */
  function ParseBearerTokenIntended(raw: string, isRefreshToken: bool, jwt: Jwt, secrets: Secrets)
    : (r: Result<Payload, Error>)
    ensures multiset(raw)[' '] != 1 ==> r == Err(BadRequest(MalformedToken))
    ensures multiset(raw)[' '] == 1 ==>
              var verdict := jwt.verify(Split(raw, ' ')[1], if isRefreshToken then secrets.refresh else secrets.access);
              && (verdict.Expired? ==> r == Err(TokenRejected(TokenExpired)))
              && (verdict.Invalid? ==> r == Err(TokenRejected(TokenInvalid)))
              && (verdict.Verified? ==>
                    r == if verdict.payload.typ == (if isRefreshToken then RefreshType else AccessType)
                         then Ok(verdict.payload)
                         else Err(BadRequest(if isRefreshToken then RefreshTokenExpected else AccessTokenExpected)))
    ensures r.Ok? <==>
              && multiset(raw)[' '] == 1
              && var verdict := jwt.verify(Split(raw, ' ')[1], if isRefreshToken then secrets.refresh else secrets.access);
                 && verdict.Verified?
                 && verdict.payload.typ == (if isRefreshToken then RefreshType else AccessType)
  {
    var parts := Split(raw, ' ');
    if |parts| != 2 then Err(BadRequest(MalformedToken))
    else
      match jwt.verify(parts[1], if isRefreshToken then secrets.refresh else secrets.access)
      case Expired => Err(TokenRejected(TokenExpired))
      case Invalid => Err(TokenRejected(TokenInvalid))
      case Verified(payload) => CheckTokenType(payload, isRefreshToken)
  }

  /** With the secret chosen by kind, a token issued for either kind parses as that kind
      to exactly the claims it was issued with, and is refused as the other kind: by its
      signature when the secrets differ, by its type claim when they agree. */
  lemma IssuedTokenParsesAsItsKind(jwt: Jwt, secrets: Secrets, user: User, isRefreshToken: bool, scheme: string)
    requires Ideal(jwt)
    requires ' ' !in scheme
    ensures var request := IssueToken(user, isRefreshToken, secrets);
            var header := scheme + " " + jwt.sign(request);
            && ParseBearerTokenIntended(header, isRefreshToken, jwt, secrets) == Ok(request.claims)
            && ParseBearerTokenIntended(header, !isRefreshToken, jwt, secrets).Err?
  {
    var token := jwt.sign(IssueToken(user, isRefreshToken, secrets));
    SplitPair(scheme, ' ', token);
  }
}
