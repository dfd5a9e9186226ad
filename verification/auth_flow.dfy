/** End-to-end properties of the token flow: login, the middleware and the guard together. */
module AuthFlow {
  import opened Wrappers
  import opened Strings
  import opened Tokens
  import opened AuthService
  import opened BearerTokenMiddleware
  import opened AuthGuard

  /** A token issued for either kind, presented after any space-free scheme word, is
      verified by the middleware under the secret of its own kind and attached as the
      request user with exactly its claims; the guard then admits the request to a
      non-public handler exactly when it is an access token. */
  lemma IssuedTokenAuthenticates(jwt: Jwt, secrets: Secrets, user: User, isRefreshToken: bool, scheme: string)
    requires Ideal(jwt)
    requires ' ' !in scheme
    ensures var request := IssueToken(user, isRefreshToken, secrets);
            var decision := Use(Some(scheme + " " + jwt.sign(request)), jwt, secrets);
            && decision == Next(Some(request.claims))
            && CanActivate(false, decision.user) == !isRefreshToken
  {
    var request := IssueToken(user, isRefreshToken, secrets);
    var token := jwt.sign(request);
    SplitPair(scheme, ' ', token);
    assert multiset(scheme + [' '] + token)[' '] == 1;
  }

  /** Logging in with the header that registered an account succeeds and yields the
      tokens issued for the registered user. */
  lemma RegisterThenLogin(users: Users, header: string, decode: string -> string,
                          hasher: Hasher, defaultRole: Role, jwt: Jwt, secrets: Secrets)
    requires Sound(hasher)
    requires Register(users, header, decode, hasher, defaultRole).result.Ok?
    ensures var registered := Register(users, header, decode, hasher, defaultRole);
            var user := registered.result.value;
            Login(registered.store, header, decode, hasher, jwt, secrets)
              == Ok(LoginTokens(jwt.sign(IssueToken(user, true, secrets)), jwt.sign(IssueToken(user, false, secrets))))
  {
    RegisterThenAuthenticate(users, header, decode, hasher, defaultRole);
  }

  /** Registering with a Basic header built from colon-free credentials succeeds for a
      new email, and logging in with the same header then yields the tokens issued for
      the user just stored. */
  lemma RegisterThenLoginWithHeader(users: Users, scheme: string, email: string, password: string,
                                    encode: string -> string, decode: string -> string,
                                    hasher: Hasher, defaultRole: Role, jwt: Jwt, secrets: Secrets)
    requires ' ' !in scheme && ':' !in email && ':' !in password
    requires forall s :: decode(encode(s)) == s
    requires forall s :: ' ' !in encode(s)
    requires Sound(hasher)
    requires email !in users.byEmail
    ensures var header := scheme + " " + encode(email + ":" + password);
            var registered := Register(users, header, decode, hasher, defaultRole);
            && registered.result.Ok?
            && registered.result.value.email == email
            && var user := registered.result.value;
               Login(registered.store, header, decode, hasher, jwt, secrets)
                 == Ok(LoginTokens(jwt.sign(IssueToken(user, true, secrets)), jwt.sign(IssueToken(user, false, secrets))))
  {
    var header := scheme + " " + encode(email + ":" + password);
    BasicRoundTrip(scheme, email, password, encode, decode);
    RegisterThenLogin(users, header, decode, hasher, defaultRole, jwt, secrets);
  }

  /** With the conventional scheme word, the access token of a user opens non-public
      handlers; together with the lemmas above, the access token obtained at login is the
      one that opens them. */
  lemma AccessTokenAdmitted(jwt: Jwt, secrets: Secrets, user: User)
    requires Ideal(jwt)
    ensures CanActivate(false, Use(Some(BearerHeader(jwt.sign(IssueToken(user, false, secrets)))), jwt, secrets).user)
  {
    IssuedTokenAuthenticates(jwt, secrets, user, false, "Bearer");
  }

  /** With the conventional scheme word, the refresh token of a user does not open
      non-public handlers. */
  lemma RefreshTokenRefused(jwt: Jwt, secrets: Secrets, user: User)
    requires Ideal(jwt)
    ensures !CanActivate(false, Use(Some(BearerHeader(jwt.sign(IssueToken(user, true, secrets)))), jwt, secrets).user)
  {
    IssuedTokenAuthenticates(jwt, secrets, user, true, "Bearer");
  }

  /** The header a client sends with a token. */
  function BearerHeader(token: string): string {
    "Bearer" + " " + token
  }
}
