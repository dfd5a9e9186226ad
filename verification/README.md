# Netflix catalog backend — a Dafny model of its core

This project models the core of a small NestJS backend for a movie catalog:

- the movie service and its transactional writes;
- the movie entity's schema constraints;
- the create and update movie DTOs;
- the authentication service (Basic credential parsing, registration, password checks, token issuance, Bearer token parsing);
- the bearer-token middleware;
- the global auth guard;
- the pagination helpers of the common service;
- the director service.

Every operation is a pure function over immutable data. The relational store is a record of maps, one per table, plus the auto-increment counters (`Catalog.Store`). The users table is a map from email to user (`AuthService.Users`). A write returns an `Outcome(store, result)`. A query-runner transaction is `Catalog.Transaction`: on any error it hands back the store as it was before the work.

The schema's constraints are collected in `Catalog.Valid`:

- foreign keys resolve;
- titles are unique;
- a movie's detail is its own;
- keys lie below their counters.

Three external libraries enter only as parameters with stated hypotheses:

- **The JWT library** is `Tokens.Jwt`. `Tokens.Ideal` says it behaves as an ideal HMAC-signed JWT (a JWS, RFC 7515, carrying RFC 7519 claims): a token verifies under its own secret to its claims, its signature is invalid under any other secret, and it decodes to its claims without verification.
- **bcrypt** is `AuthService.Hasher`, with `Sound`: a password matches its own hash.
- **Base64/UTF-8 decoding** is a `string -> string` function. The round-trip lemmas take an encoder that it inverts.

JavaScript's `split` on one character is `Strings.Split`. It is proved to be the inverse of `Strings.Join`, and its number of parts is one more than the number of separators.

Behaviours of the code worth knowing, which the model follows:

- **Scheme word and colons.** The scheme word of an `Authorization` header is never checked. A Basic payload with more than one colon is rejected, so a password containing `:` can never be used.
- **Listing.** `getManyMovies` applies no pagination.
- **Guard.** The guard checks only that the request user's `type` is `access`. It consults no role, and it denies rather than raising Unauthorized.
- **Failed authentication in the middleware.** A missing, malformed or invalid token lets the request continue without a user. Only an expired token fails.
- **Empty genre list on update.** The update DTO rejects an empty `genreIds` list, so an update cannot clear a movie's genres.
- **Deleting a movie.** The delete removes the detail row explicitly rather than by cascade.
- **Director removal.** A director that some movie still refers to cannot be removed: the movie's director column is a non-nullable foreign key with no delete action, so the database refuses the delete (`DirectorService.Remove` fails with `QueryFailed(DirectorReferenced)`). Any other id is deleted, or ignored if absent, and returned.
- **`take` of zero.** The query builder adds no LIMIT for a falsy `take`, so a zero `take` means "all rows".
- **Cursor `id` of zero.** A cursor `id` of `0` is falsy and filters nothing.

## Model

| member | source | states |
|---|---|---|
| Catalog.Valid | netflix/src/movie/entity/movie.entity.ts:12-46 | the schema's constraints on a store: a movie's detail, director and genres all exist (required one-to-one and many-to-one, many-to-many join), no two movies share a title (unique column) or a detail (one-to-one join column), and every key lies below its auto-increment counter; every write lemma below preserves it |
| Catalog.Transaction | netflix/src/movie/movie.service.ts:63-99 | the outcome of the work is passed through; on an error the store is the one before the work (rollback), on success the work's store (commit) |
| MovieDto.ValidateCreate | netflix/src/movie/dto/create-movie.dto.ts:3-19 | a create body is accepted exactly when title and detail are sent, not `null` and non-empty, the director id sent and not `null`, and the genre list sent, not `null` and non-empty; the accepted DTO carries the body's values and meets `ValidCreate`; otherwise BadRequest |
| MovieDto.ValidateUpdate | netflix/src/movie/dto/update-movie.dto.ts:3-20 | an update body is accepted exactly when no field sent with a value is empty (no empty title, detail or genre list); a field left out or sent as `null` is not checked; the DTO carries the body's fields unchanged, `null` included, and meets `ValidUpdate` |
| MovieService.GetManyMovies | netflix/src/movie/movie.service.ts:25-34 | a movie is listed exactly when the filter is absent or empty or its title contains the filter at some position; listed movies are the stored ones; the count equals the number listed, with no pagination |
| MovieService.GetMovieById | netflix/src/movie/movie.service.ts:51-60 | an unknown id yields none, not an error; a known id yields the movie with its own detail, its director and exactly its genres joined |
| MovieService.FoundCountMatches | netflix/src/movie/movie.service.ts:76-82 | the number of distinct existing genres the `In(ids)` query finds equals the requested length exactly when every id exists and none repeats; the genres found are then exactly the requested ids |
| MovieService.ResolveGenres | netflix/src/movie/movie.service.ts:76-82 | the count comparison succeeds exactly when every requested id exists and none repeats, and then resolves to the set of requested ids |
| MovieService.CreateMovie | netflix/src/movie/movie.service.ts:62-100 | an unknown director fails with NotFound(director), a missing or repeated genre with NotFound(genre), a taken title with the unique constraint error, each leaving the store unchanged; success happens exactly when none applies and adds exactly one movie under a fresh id and one detail under a fresh id, with the requested title, text, director and genres, directors and genres untouched |
| MovieService.UpdateMovie | netflix/src/movie/movie.service.ts:102-188 | an unknown movie, an unknown truthy director id, or an unresolvable genre list fails with the matching NotFound; after those lookups a `null` title fails the not-null constraint and a title held by another movie fails the unique constraint; every failure leaves the store unchanged, and success happens exactly when none applies; then only the supplied title, truthy director, truthy detail (in place) and genre set (replaced wholesale) change; the reloaded movie is returned, carrying the looked-up genres, and no genres when none were sent |
| MovieService.DeleteMovie | netflix/src/movie/movie.service.ts:190-206 | an unknown id fails with NotFound and changes nothing; otherwise the movie and its own detail are removed, directors and genres stay, and the id is returned |
| MovieService.CreateMovieKeepsValid | netflix/src/movie/entity/movie.entity.ts:15-46 | a create keeps every schema constraint: references resolve, titles stay unique, the new detail is the movie's own |
| MovieService.UpdateMovieKeepsValid | netflix/src/movie/entity/movie.entity.ts:15-46 | an update keeps every schema constraint |
| MovieService.DeleteMovieKeepsValid | netflix/src/movie/entity/movie.entity.ts:27-36 | a delete keeps every schema constraint, because the removed detail belonged to no other movie (one-to-one) |
| MovieService.DeleteUndoesCreate | netflix/src/movie/movie.service.ts:190-206 | deleting a movie just created succeeds and restores the movies, details, directors and genres tables |
| MovieService.CreatedMovieIsVisible | netflix/src/movie/movie.service.ts:51-93 | a created movie is found by id with exactly the requested title, detail text, director and genres |
| MovieService.UpdateIsIdempotent | netflix/src/movie/movie.service.ts:117-180 | repeating a successful update changes nothing further and returns the same movie |
| DirectorService.Create | netflix/src/director/director.service.ts:14-16 | the body's fields are stored as one new director under a fresh key; the other directors and the other tables are unchanged |
| DirectorService.CreatedDirectorIsFound | netflix/src/director/director.service.ts:14-24 | a director just created is found under its key with exactly the body's fields, and is listed by `findAll` |
| DirectorService.FindAll | netflix/src/director/director.service.ts:18-20 | returns exactly the stored directors |
| DirectorService.FindOne | netflix/src/director/director.service.ts:22-24 | returns the stored director for a known id and none otherwise |
| DirectorService.Update | netflix/src/director/director.service.ts:26-45 | on a known id only the supplied fields are overwritten and the reloaded record returned; on an unknown id nothing changes, nothing is returned, and no error is raised |
| DirectorService.Remove | netflix/src/director/director.service.ts:47-59 | a director still referenced by a movie is refused by the foreign key with the store unchanged; any other id is removed (if present) and returned, with no NotFound |
| DirectorService.DirectorWritesKeepValid | netflix/src/movie/entity/movie.entity.ts:38-46 | director create, update and remove keep every schema constraint; for removal this rests on the required director reference |
| DirectorService.RemoveUndoesCreate | netflix/src/director/director.service.ts:14-59 | removing a director just created succeeds and restores the directors table |
| DirectorService.UnknownDirectorNotReported | netflix/src/director/director.service.ts:26-59 | as written, update and remove of an unknown id raise no NotFound: update returns none, remove returns the id, and the store is unchanged |
| DirectorService.UpdateIntended | netflix/src/director/director.service.ts:26-45 | with the existence check awaited, NotFound happens exactly for an unknown id and changes nothing; otherwise the result agrees with the update as written |
| DirectorService.RemoveIntended | netflix/src/director/director.service.ts:47-59 | with the existence check awaited, NotFound happens exactly for an unknown id; success happens exactly for a known, unreferenced id, and removes exactly that director |
| Pagination.PageOf | netflix/src/common/common.service.ts:11-18 | page `p` holds the rows at positions `(p-1)*take` onward, at most `take` of them, as many as remain up to `take`, none past the end; a zero `take` gives every row |
| Pagination.PagesTile | netflix/src/common/common.service.ts:11-18 | pages `1..k` concatenated are exactly the first `k*take` rows, so pages neither overlap nor skip rows |
| Pagination.Where | netflix/src/common/common.service.ts:20-27 | a row passes exactly when the cursor is falsy, or its id is above the cursor for ascending order and below it otherwise |
| Pagination.CursorPage | netflix/src/common/common.service.ts:20-33 | the page is ordered by id in the requested direction, has at most `take` rows, all past the cursor, and is an initial segment: a qualifying row left out comes after every row returned and only when the page is full |
| Pagination.SuffixIsCursorQuery | netflix/src/common/common.service.ts:20-33 | querying with the id at position `m - 1` of an ordered result yields exactly the rows after that position |
| Pagination.CursorPagesChain | netflix/src/common/common.service.ts:20-33 | re-querying with the last id of a page returns the next page: both pages together equal the page of twice the size, with no overlap |
| Ordering.Sort | netflix/src/common/common.service.ts:29 | the ordering by id is strictly increasing (ascending) or decreasing, with the same rows |
| Strings.Split | netflix/src/auth/auth.service.ts:19-29 | splitting on one character gives one more part than there are separators, the parts hold no separator, and joining them back gives the input |
| Strings.SplitJoin | netflix/src/auth/auth.service.ts:19-29 | splitting the join of separator-free parts gives back those parts |
| Strings.ContainsMeansOccurs | netflix/src/movie/movie.service.ts:30-31 | the `%title%` match holds exactly when the filter occurs in the title at some position |
| AuthService.ParseBasicToken | netflix/src/auth/auth.service.ts:18-39 | accepted exactly when the header has one space and the decoded second part has one colon, else BadRequest; the scheme word is not examined; the credentials are colon-free and the decoded payload is `email:password` |
| AuthService.BasicRoundTrip | netflix/src/auth/auth.service.ts:18-39 | with an ideal codec, a header built from a space-free scheme and colon-free credentials parses back to those credentials |
| AuthService.ColonInPasswordRejected | netflix/src/auth/auth.service.ts:26-31 | a password containing a colon is always rejected with BadRequest |
| AuthService.Register | netflix/src/auth/auth.service.ts:67-88 | a malformed header or a taken email fails with BadRequest and adds nothing; otherwise exactly one user is stored with the hashed password, the next id and the default role, and returned |
| AuthService.Authenticate | netflix/src/auth/auth.service.ts:90-106 | succeeds with the stored user exactly when the email is known and the password matches its hash; an unknown email and a wrong password fail with the same error |
| AuthService.RegisterThenAuthenticate | netflix/src/auth/auth.service.ts:67-106 | after a registration, the same credentials authenticate as the user just stored |
| AuthService.IssueToken | netflix/src/auth/auth.service.ts:108-120 | the claims carry the user's id and role; refresh means type `refresh`, the refresh secret and 24 hours; access means type `access`, the access secret and 300 seconds |
| AuthService.Login | netflix/src/auth/auth.service.ts:122-131 | a malformed header fails with BadRequest; otherwise login succeeds exactly when authentication does, and returns a refresh token and an access token issued for the same stored user |
| AuthService.ParseBearerToken | netflix/src/auth/auth.service.ts:41-65 | a header without exactly one space fails with BadRequest; the token is verified with the refresh secret whatever kind is expected; an expired or invalid token fails with the library error, and a verified one whose type differs from the expected kind fails with BadRequest |
| AuthService.AccessTokenRejectedAsWritten | netflix/src/auth/auth.service.ts:50-52 | as written, with distinct secrets, a genuine access token never parses as an access token: its signature is invalid under the refresh secret |
| AuthService.ParseBearerTokenIntended | netflix/src/auth/auth.service.ts:41-65 | the decision of `parseBearerToken` with the secret chosen by kind: a header without exactly one space fails with BadRequest; an expired or invalid token fails with the library error; a verified token is accepted exactly when its type is the expected kind, else BadRequest |
| AuthService.IssuedTokenParsesAsItsKind | netflix/src/auth/auth.service.ts:41-65 | with the secret chosen by kind, a token issued for either kind parses as that kind to exactly its claims, and is refused as the other kind |
| BearerTokenMiddleware.ValidateBearerToken | netflix/src/auth/middleware/bearer-token.middleware.ts:38-48 | accepted exactly when the header has one space, else BadRequest; the token is everything after that space and the first word is ignored |
| BearerTokenMiddleware.Use | netflix/src/auth/middleware/bearer-token.middleware.ts:13-36 | no header, a malformed header, an undecodable or otherwise invalid token: continue without a user; the secret follows the unverified decoded type; an expired token: Unauthorized; a verified token: continue with exactly its payload |
| AuthGuard.CanActivate | netflix/src/auth/guard/auth.guard.ts:11-25 | public handlers are allowed; otherwise allowed exactly when there is a request user whose type is `access` |
| AuthGuard.RoleIsNeverConsulted | netflix/src/auth/guard/auth.guard.ts:11-25 | the decision does not depend on the user's role or subject |
| AuthFlow.IssuedTokenAuthenticates | netflix/src/auth/middleware/bearer-token.middleware.ts:21-28 | a token issued for either kind is attached by the middleware with exactly its claims, and the guard then opens non-public handlers exactly for an access token |
| AuthFlow.RegisterThenLogin | netflix/src/auth/auth.service.ts:67-131 | logging in with the header that registered an account yields the tokens issued for the registered user |
| AuthFlow.RegisterThenLoginWithHeader | netflix/src/auth/auth.service.ts:18-131 | with colon-free credentials and a new email, registration succeeds and login with the same header yields that user's tokens |
| AuthFlow.AccessTokenAdmitted | netflix/src/auth/guard/auth.guard.ts:11-25 | `Bearer <access token>` opens non-public handlers |
| AuthFlow.RefreshTokenRefused | netflix/src/auth/guard/auth.guard.ts:11-25 | `Bearer <refresh token>` does not open non-public handlers |

## Left out

- HTTP, controllers, decorators, `req`/`next` plumbing and `jwt.strategy.ts`: routing and library wiring with no logic of their own.
- The JWT cryptography and the clock: the library is an oracle, and expiry is only the `Expired` verdict. The lifetimes are stated as the values passed to signing.
- bcrypt: `Hasher` stands for it, with the configured cost and the salt folded into `hash`.
- Base64 and UTF-8 decoding: a decoding function is a parameter; Node's lenient decoder is not modelled.
- Role values: `user.entity.ts` is not part of this model, so a role is an opaque code, taken as a parameter for the default role.
- `get-movies.dto.ts`, `create-director.dto.ts` and the pagination DTOs: validation declarations over fields the model treats as given. Director fields are opaque strings.
- The unused `movies` and `idCounter` fields of the movie service: dead state.
- The query builder's `where` overwrite, connection pooling and query runners.
- Real database sequences are not rolled back with a transaction: the model's counters are part of the store and are, so a failed create does not use up keys.
- The two deletes of `deleteMovie` are not awaited and run outside a transaction; they are modelled as one sequential delete, without interleaving or partial failure.
- AuthService.ParseBasicToken: a request without an `Authorization` header hands `undefined` to the controller, and the `split` call then throws a TypeError that the framework answers with status 500; the model takes the header as a string, so this crash is not modelled, and neither is it for `Register` and `Login`, which call this parser first.
- AuthService.ParseBearerToken: the same TypeError on a missing header is not modelled.
- MovieService.GetManyMovies: SQL `LIKE` case sensitivity and the `%`/`_` wildcards inside the filter are not modelled; the match is a plain substring test.
- MovieService.UpdateMovie: when no genre ids are sent, the reloaded movie is saved with its genres set to `undefined`; the stored genres are modelled as unchanged, assuming the ORM skips an undefined relation when saving. The returned movie carries no genres in that case, and the model says so.
- MovieService.UpdateMovie: an `update` with no column values (no title and no truthy director id) is modelled as a write of nothing. `Movie` extends `BaseTable`, and base-table.entity.ts is not part of this model. If that base declares no update-date or version column, the ORM finds nothing to set and rejects the query; that rejection is not modelled. If it declares one (movie.entity.ts imports both decorators), the ORM sets that column and the write of nothing is what happens.
- DirectorService.Update: the same holds for an empty patch, since director.entity.ts is not part of this model either.
- MovieService.GetMovieById: requires a store that meets the schema's constraints, so that every join finds its row; the left joins on dangling references are not modelled.
- Pagination.PageOf: requires `page >= 1` and `take >= 0`; nothing in the code checks them, and the query builder's handling of a negative offset is not modelled.
- Pagination.CursorPage: models the query over a table of distinct primary keys only; the other columns of each row are not modelled.

## Findings

| source | as written | input that shows it | evidently intended | confidence | as-written member | corrected member |
|---|---|---|---|---|---|---|
| netflix/src/auth/auth.service.ts:50-52 | `parseBearerToken` verifies every token with the refresh secret, whatever `isRefreshToken` says | `Bearer <token issued by issueToken(user, false)>` with `isRefreshToken = false` and distinct access and refresh secrets: verification fails with an invalid signature | verify with the access secret when an access token is expected | high; not executed | AuthService.AccessTokenRejectedAsWritten | AuthService.IssuedTokenParsesAsItsKind |
| netflix/src/director/director.service.ts:27-33 | `update` tests `!director` on a `findOne` that is not awaited; the pending promise is always truthy | `update(99, {name: 'x'})` with no director 99: no NotFound; updates nothing and returns null | NotFound for an unknown id | high; not executed | DirectorService.UnknownDirectorNotReported | DirectorService.UpdateIntended |
| netflix/src/director/director.service.ts:48-54 | `remove` tests `!director` on a `findOne` that is not awaited; the pending promise is always truthy | `remove(99)` with no director 99: no NotFound; returns 99 | NotFound for an unknown id | high; not executed | DirectorService.UnknownDirectorNotReported | DirectorService.RemoveIntended |
