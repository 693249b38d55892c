# Authentication flows of a FastAPI credential service, modelled in Dafny

This project models the decision logic of a small credential service: user
registration, login with a bearer token, and password reset in three steps
(request, confirm, complete). Each HTTP handler becomes a pure function from
an in-memory user store and a request to an `Outcome`. An `Outcome` holds the
reply (a success value or an error tag), the store afterwards, and the reset
mail handed to the mail sender, if any.

- `wrappers.dfy`: `Option` and `Result`.
- `crypto.dfy` (module `Crypto`): the password hasher and the token service,
  both abstract.
  - A digest is the constructor `Hash(password, salt)`, so `Verify` is digest
    equality.
  - A salt is any string of length 32.
  - A token is a JWT carrying its claims, the key it was signed with and its
    algorithm, or any malformed string.
  - `Decode` accepts only key `"secret"` under `"HS256"`.
- `models.dfy` (module `Models`): the `User` record and its column bounds
  (username 50, full name 100, email 100, phone 15, salt 32).
  - The store is a sequence of users in insertion order plus an
    auto-increment id counter that starts at 1.
  - `Find` is the ORM's `filter(...).first()`.
  - `Valid` is the table invariant: usernames, emails and ids are unique, and
    every row fits its columns.
- `auth.dfy` (module `Auth`): the five flows and the `Handle` dispatcher.
  - Randomness and the clock enter as `Env(salt, now)`.
  - The timestamps are logical clock readings.
- `properties.dfy` (module `AuthProperties`): the invariant kept by every
  request, frame properties, and round trips between the flows.
- `traces.dfy` (module `Traces`): sequences of requests, and what holds in
  every store they reach.

Behaviours of the code a reader may not expect:

- Registration replies with the whole created record, digest and salt
  included. The reply model is built from the `User` table with no
  exclusions (schemas.py:11, main.py:62).
- Reset completion looks the user up by the email in the request body. It
  never compares that user with the token's subject (main.py:162-172).
  `ForeignTokenResetsAccount` proves this.
- Reset tokens are not single-use (`ResetTokenReusable`), and no token
  carries an expiry (main.py:93, main.py:112).
- Reset confirmation reads `data["sub"]` inside its `try` (main.py:129).
  The `except jwt.JWTError` clause (main.py:130) does not catch the
  `KeyError` that a missing `sub` raises. A correctly signed token without
  a subject therefore ends in a server error. That case is the tag
  `MissingSubject`.
- The ORM checks column lengths when it saves a row (models.py:19-24). A
  registration whose username, full name, email or phone is too long fails
  with `ValidationFailed`. That check comes after both duplicate checks,
  at `User.create` (main.py:54).
- The code calls `passlib.pwd.hash` and `passlib.pwd.verify` (main.py:53,
  main.py:89, main.py:170). The `passlib.pwd` module provides the `genword`
  generator but no `hash` and no `verify`. As written, those calls fail with
  a server error once the lookups before them pass. No registration would
  store a row, and no login for an existing username would get past the
  password check. The model instead uses the salted hash and verify pair
  that the comments at main.py:52-53 and main.py:89 describe.

## Model

| member | source | states |
|---|---|---|
| Crypto.VerifyHash | main.py:52-53 | a password hashed under a salt verifies against that digest and salt |
| Crypto.VerifyRejectsOtherPassword | main.py:89-90 | a digest never verifies a password other than the one it was made from |
| Crypto.DistinctSaltsDistinctDigests | main.py:52-53 | one password under two different salts gives two different digests |
| Crypto.Issue | main.py:93 | an issued token decodes to exactly the claim `sub` = the given id |
| Crypto.DecodeRejects | main.py:127-131 | a token fails to decode exactly when it is malformed, signed with another key, or uses another algorithm |
| Models.Find | main.py:46 | the lookup returns the earliest matching user, and returns nothing exactly when no user matches |
| Models.UniqueMatchIsFirst | models.py:19-21 | in a valid store, the user holding a username, email or id is the only match for it |
| Auth.Register | main.py:46-62 | a taken email fails first, then a taken username, and failures leave the store unchanged; success happens exactly when neither is taken and the fields fit. It appends one active user with the next id, the request's profile, the fresh salt, a digest that verifies the password, and both timestamps set to now |
| Auth.Login | main.py:86-94 | an unknown username and a wrong password give the credentials error; the inactive check applies only after the password verifies; success gives a `bearer` token for the user's id; the store is unchanged |
| Auth.PasswordReset | main.py:108-114 | an unknown email fails with the email error; otherwise a reset token for the user's id is mailed to the user's address; the store is unchanged |
| Auth.PasswordResetConfirm | main.py:127-135 | an undecodable token is invalid, a token with no subject is a server error, an unknown subject is user-not-found, and a known one redirects to the reset page; the store is unchanged |
| Auth.PasswordResetComplete | main.py:162-174 | an undecodable token and then an unknown email fail without changing the store; otherwise only the emailed user's digest, salt and update time change, and the new password verifies |
| AuthProperties.AppendKeepsValid | models.py:19-24 | appending a row whose username, email and id are new keeps every key unique and every row within its bounds |
| AuthProperties.RegisterPreservesValid | main.py:46-61 | a registration keeps usernames, emails and ids unique |
| AuthProperties.ReplaceKeepsValid | models.py:19-24 | rewriting a user's digest and salt keeps the store invariant |
| AuthProperties.ResetCompletePreservesValid | main.py:166-173 | a reset completion keeps the store invariant |
| AuthProperties.HandlePreservesValid | models.py:19-24 | every request keeps usernames, emails and ids unique and rows within their bounds |
| AuthProperties.ReadOnlyFlows | main.py:86-135 | login, reset request and reset confirmation never modify the store |
| AuthProperties.HandleKeepsAccounts | models.py:25-27 | no request changes an existing user's id, username, profile, active flag or creation time; the store only grows at its end, by active rows created now |
| AuthProperties.LoginOutcome | main.py:86-94 | on a valid store, login succeeds exactly for the right password of an active user. A wrong password is exactly the credentials error, the right password of an inactive user is exactly the inactive error, and the token's subject is the user's id |
| AuthProperties.LoginHidesUnknownUsername | main.py:86-90 | an unknown username and a wrong password give the identical error and the detail "Incorrect username or password" |
| AuthProperties.InactiveUserGetsNoToken | main.py:89-92 | an inactive user never gets a token: the right password gives the inactive error, a wrong one the credentials error |
| AuthProperties.RegisterThenLogin | main.py:52-94 | after registering, logging in with the same username and password yields a token for the new id |
| AuthProperties.RegisterEmailTwiceRejected | main.py:46-48 | after an email is registered, every later registration with it fails with the email error and leaves the store unchanged, whatever its other fields |
| AuthProperties.ResetRequestThenConfirm | main.py:108-135 | the mailed reset token goes to the requested address and passes confirmation |
| AuthProperties.ResetIgnoresTokenSubject | main.py:162-168 | reset completion gives the same outcome for any two tokens that decode |
| AuthProperties.ForeignTokenResetsAccount | main.py:162-173 | a reset token issued to one user resets the password of another user named by email, and leaves the token's own user untouched |
| AuthProperties.ResetThenLogin | main.py:169-173 | after a reset, the new password logs in (or meets the inactive check) and every other password is refused |
| AuthProperties.ResetTokenReusable | main.py:127-173 | after a completed reset, the same token still passes confirmation and completes another reset |
| AuthProperties.SampleSession | test_main.py:29-62 | from the empty table, register `testuser`. Login succeeds with the right password and is refused with the same credentials error for a wrong password and for an unknown username. A reset request succeeds for the registered email and is refused for an unknown one |
| Traces.RunPreservesValid | models.py:19-24 | every store reached from a valid one by any sequence of requests is valid |
| Traces.ReachableStoresValid | models.py:19-21 | every store reached from the empty table has unique usernames, emails and ids |
| Traces.RunKeepsAccounts | models.py:26-27 | along any sequence of requests, no user is removed or reordered, and ids, usernames, profiles, active flags and creation times never change |
| Traces.RunKeepsUsersActive | models.py:25 | no flow clears the active flag, so a table of active users stays all active |
| Traces.ReachableUsersActive | main.py:91-92 | from the empty table every user is active, so login never answers "User is inactive" unless a row was deactivated outside these flows |

## Left out

- HTTP routing, status codes and the redirect response object are left out. They are framework glue, so a reply is an error tag with its detail text, or a plain success value.
- The request schemas are plain records. Their field validation happens in the framework.
- Real cryptography is left out: salted hashing, `genword`, and `jwt.encode`/`jwt.decode` with their signatures. The digest and the token are constructors, and a salt is a parameter. `passlib.pwd` provides `genword` but no `hash` or `verify`, so main.py:53, main.py:89 and main.py:170 fail with a server error as written. The model assumes the salted hash/verify pair that the comments at main.py:52-53 describe. These hold of that assumption, not of the code as written: the success case of Auth.Register, everything in Auth.Login after the username lookup, the success case of Auth.PasswordResetComplete, and AuthProperties.RegisterThenLogin, AuthProperties.ResetThenLogin and AuthProperties.SampleSession.
- Claim checks inside the JWT library are not modelled. Crypto.Decode accepts any correctly signed token and returns its claims, an integer `sub` included. Which package `import jwt` loads decides how the live service behaves:
  - Under python-jose, which provides `jwt.JWTError`, decoding rejects every `sub` that is not a string, and the rejection is a `JWTError`. The service signs integer subjects (main.py:93, main.py:112), so confirmation and completion would answer "Invalid token" to every token the service itself issues. A null `sub` would get "Invalid token" too.
  - Under PyJWT before 2.10, an integer `sub` decodes, but that package has no `JWTError`, so an invalid token would end in a server error instead of "Invalid token".
  - The source does not say which package it uses. AuthProperties.ResetRequestThenConfirm, AuthProperties.ResetTokenReusable and AuthProperties.ForeignTokenResetsAccount hold of the token abstraction here, not of either package.
- Token subjects are modelled as natural numbers or absent. The signing key is a constant in the source, so a client can sign a `sub` that is null, negative or a string. With a package that let a null `sub` through decoding, it would reach the id lookup and answer "User not found", which the model cannot express. Ids are unbounded here, but the table's implicit primary key is a fixed-width integer column. A signed subject outside that column's range makes the id lookup at main.py:132 fail in the database driver, a server error. For the same token the model answers "User not found".
- Salt freshness is not modelled. The generator's randomness is outside the model, so the claim that a salt is never reused cannot be stated. Two different salts do give different digests.
- `send_reset_email` is a no-op. The model records its arguments as the outcome's `mail`.
- Async suspension and concurrent requests are left out. Flows run one after another, so the table's unique constraints never fire at write time; the checks before each write already catch duplicates.
- Real timestamps are replaced by a clock reading passed in. The model assumes no monotonicity, so it does not claim `createdAt <= updatedAt`.
- Models.Fits: does not check the 200-character bound on the stored password. The digest is opaque, so its encoded length is unknown.
- Models.Find: `first()` has no ordering clause, so the row it returns is modelled as the earliest in insertion order. Under the uniqueness invariant at most one row matches anyway.
- Token expiry is left out. No issued token carries an `exp` claim.
- The commented-out earlier versions of the handlers are left out. They are not live code.
