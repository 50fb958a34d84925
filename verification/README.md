# Authentication core of go-auth-api, modelled in Dafny

This project models the authentication core of a JWT-based Go service:
`AuthService` (register, login, logout, profile lookup, forgot/reset
password) together with the repository operations that give its three
stores their meaning:

- the **user table**: a sequence of rows in primary-key order, each holding
  an opaque profile (first name, last name, user name), an email and a
  password hash, with unique email and unique user name;
- the **reset table**: one record per email (the primary key), each holding a
  token (a unique column) and an expiry;
- the **blacklist**: revoked tokens, each with its expiry. The primary key is
  the token string exactly as the client presented it.

Every operation is a pure function from a `Store` and its inputs to a
`Result`. A failure carries no store, so the caller keeps the old one. The
exception is `ForgotPassword`: there the email sender can fail after the
record was stored, so its outcome carries a store on every path. Nothing in
the model reads a clock or a random source. The current time (`now`, unix
seconds), the 32 random bytes behind a reset token and the sender's success
are all parameters. The secret and both token lifetimes form a `Config`.

External libraries are replaced by small definitions that keep only what the
service relies on:

- bcrypt becomes `Crypto.Hash` (the cost-10 prefix `$2a$10$` followed by the
  password) and `Crypto.Verify`. The model proves that a hash verifies
  exactly its own password and never equals the plaintext.
- `hex.EncodeToString` becomes `Crypto.HexEncode`, lower-case and two digits
  per byte, with an inverse `Crypto.HexDecode`.
- A JWT becomes `Jwt.Token`: either `Garbled` text or a `Signed` value that
  records its algorithm, its `{sub, exp}` claims and the key that signed it.
  Both carry the text the client sent, because that text, not the decoded
  token, is what the blacklist stores. Several texts can decode to the same
  signed token.
  The recorded key stands for the signing key up to HMAC's key equivalence
  (HMAC zero-pads a short key and hashes a long one, so distinct byte strings
  can act as one key). HMAC is taken to be unforgeable, so a signature
  verifies under the secret exactly when it was made with an equivalent key.
- `jwt.Parse` becomes `Jwt.Parse`, which requires the HMAC family, the
  service secret and `now <= exp`.

## Choices where the source is inconsistent

- `ResetPassword` calls `InvalidateResetToken` (internal/service/auth.go:159).
  That method is neither declared in the repository interface nor
  implemented. The model deletes every reset record holding the token. This
  is the reading that makes a second reset with the same token fail, as
  test/integration/auth_integration_test.go:226-228 expects.
- The service writes `Name`/`Email` fields. The user model and the request
  types use first name, last name, user name and email. The model keeps the
  profile opaque (`UserRepository.Profile`) and keys everything on email, as
  the service does. Because the table has a unique `user_name` column,
  `Register` with a fresh email can still fail at `Create` when the user name
  is taken.
- Blacklist insertion is not idempotent. The code uses `db.Create` on a
  primary key, so adding a token that is already present fails. The model
  follows the code: logging out twice with the same token fails the second
  time (`AuthProperties.LogoutTwiceFails`).
- `FindEmailByResetToken`, and so `ResetPassword`, require the reset table's
  unique index on `token` to hold (internal/model/password-reset.go:7). The
  database guarantees it, and every operation that changes the table is
  proved to preserve it.
- Login looks users up by email, as `AuthService.Login` does, not by a
  user-name-or-email identifier. `FindByUserNameOrEmail` is modelled on its
  own.

## Behaviour the proofs bring out

- Tokens depend only on the email, the clock second and the configuration.
  Two logins of one user in the same second therefore receive the same pair.
  Once the first session logs out, the second session's access token is
  already revoked, and logging it out fails
  (`AuthProperties.SameSecondLoginsShareTokens`).
- `Parse` accepts a token in its expiry second, but the blacklist stops
  listing it in that same second, because it compares with a strict
  `now < expiry` (`AuthProperties.RevocationLapsesAtExpirySecond`).
- Revocation is by spelling. Another text that decodes to the same signed
  token parses exactly as the revoked one did, is not blacklisted, and can be
  logged out in turn (`AuthProperties.RespelledTokenNotRevoked`).

## Model

| member | source | states |
|---|---|---|
| Crypto.Hash | internal/service/auth.go:48-56 | the stored hash is never the plaintext, and it verifies a password exactly when that is the password it was made from |
| Crypto.HexEncode | internal/service/auth.go:127 | a reset token has two characters per random byte, all lower-case hex digits |
| Crypto.HexRoundTrip | internal/service/auth.go:123-127 | hex encoding loses nothing: decoding the token gives back the random bytes |
| Crypto.HexDecode | internal/service/auth.go:127 | text decodes exactly when it has even length and only lower-case hex digits, giving one byte per two characters |
| Crypto.HexDecodeRoundTrip | internal/service/auth.go:127 | text that decodes re-encodes to itself, so the decodable texts are exactly the possible reset tokens |
| Crypto.HexEncodeInjective | internal/service/auth.go:123-127 | distinct random values give distinct reset tokens, and only they do |
| Jwt.Parse | internal/service/auth.go:90-99 | a token is accepted exactly when it is signed with an HMAC algorithm under the service secret and not past its expiry; the accepted claims are the token's own |
| Jwt.ParseIssued | internal/service/auth.go:172-185 | an issued token parses back to its subject and expiry up to its expiry second, and is refused as expired afterwards |
| Jwt.ParseRejectsForeignKey | internal/service/auth.go:90-95 | a token signed with any key not equivalent to the secret is refused as having an invalid signature |
| Jwt.ParseIgnoresSpelling | internal/service/auth.go:90-99 | two texts of the same signed token (same algorithm, claims and key) get the same Parse result |
| UserRepository.FirstMatch | internal/repository/user.go:39-53 | the index found is the first row, in key order, that matches; none is found only when no row matches |
| UserRepository.Create | internal/repository/user.go:32-37 | an insert succeeds exactly when neither the email nor the user name is taken; it appends the row and keeps both keys unique; otherwise it fails with a unique violation |
| UserRepository.FindByEmail | internal/repository/user.go:39-45 | succeeds exactly when some row has the email, returning that row; otherwise "user not found" |
| UserRepository.FindByUserNameOrEmail | internal/repository/user.go:47-53 | succeeds exactly when some row has the identifier as user name or email, returning the first such row; otherwise "user not found" |
| UserRepository.UpdatePassword | internal/repository/user.go:72-74 | only the password hash of rows with that email changes; every other row and every other field is unchanged, and the keys stay unique |
| UserRepository.UpdatePasswordThenFind | internal/repository/user.go:72-74 | after an update, a lookup by that email sees the new hash with the same profile, and lookups of every other email are unchanged |
| UserRepository.CreateThenGetAll | internal/repository/user.go:76-82 | a created user is listed by GetAll, the list grows by one, and the user is found by email |
| UserRepository.TwoCreatesListTwo | internal/repository/user.go:76-89 | after RemoveAll, two creates of distinct users make GetAll list exactly those two, each once, in no promised order |
| UserRepository.RemoveAllForgetsEveryone | internal/repository/user.go:84-89 | after RemoveAll nothing is listed and every email lookup fails with "user not found" |
| ResetRepository.StorePasswordResetToken | internal/repository/user.go:55-62 | an upsert keyed by email: it succeeds exactly when the email is not blank and no other email holds the token; that email then holds exactly the new token and expiry and other records are unchanged; a blank email is refused by the NOT NULL key, and a token held elsewhere by the unique column |
| ResetRepository.FindEmailByResetToken | internal/repository/user.go:64-70 | returns the owning email exactly when some record holds the token with an expiry strictly after now; otherwise "invalid or expired reset token" |
| ResetRepository.InvalidateResetToken | internal/service/auth.go:159 | removes exactly the records holding the token, keeps every other record unchanged, and keeps tokens unique |
| ResetRepository.InvalidatedNeverRedeemable | internal/service/auth.go:159 | an invalidated token is never redeemable again at any time, and every other token keeps its status |
| ResetRepository.StoreThenFind | internal/repository/user.go:55-70 | a stored token is redeemable for its email exactly until its expiry, and the token it replaced is no longer redeemable |
| ResetRepository.LapsedStaysLapsed | internal/repository/user.go:64-70 | a token that cannot be redeemed now cannot be redeemed at any later time |
| BlacklistRepository.Add | internal/repository/black-list.go:18-34 | insertion keyed by the exact token text succeeds exactly when that text is not blank and not yet stored, records exactly the given expiry and leaves other entries unchanged; a blank text is refused by the NOT NULL key and a stored one by the primary key |
| BlacklistRepository.NeverAddedNotBlacklisted | internal/repository/black-list.go:36-40 | a token that was never added is not blacklisted |
| BlacklistRepository.RevocationLapses | internal/repository/black-list.go:41 | once a stored token's expiry has passed it stays not blacklisted at every later time |
| BlacklistRepository.AddThenBlacklisted | internal/repository/black-list.go:28-41 | after adding a token it is blacklisted exactly while now is before the given expiry, and every other token keeps its status |
| Errors.Message | internal/service/auth.go:45 | the core chooses its own message text exactly for the already-exists, not-found, invalid-credentials and invalid-reset-token errors |
| AuthService.Register | internal/service/auth.go:38-69 | a taken email fails with "user already exists" and a taken user name with a unique violation, with no store change; otherwise exactly one user with the hashed password is appended and a token pair is issued for the email, expiring at now plus each lifetime |
| AuthService.Login | internal/service/auth.go:71-87 | succeeds exactly when the email is stored and its row's hash verifies the password; an unknown email fails with "user not found" and a wrong password with "invalid credentials"; a success returns the stored row with that email and tokens issued for it; no store changes |
| AuthService.Logout | internal/service/auth.go:89-107 | succeeds exactly when Parse accepts the token and its text is not blank and not yet blacklisted; a refused token leaves every store unchanged and reports the reason; an accepted token whose text is already blacklisted gets the primary key's unique violation; on success the blacklist gains exactly that text with the token's own expiry |
| AuthService.GetUserProfile | internal/service/auth.go:109-115 | returns the stored user with that email, else "user not found" |
| AuthService.ForgotPassword | internal/service/auth.go:117-142 | an unknown email fails with "user not found", changes nothing and sends no mail; a success stores a 64-character hex token that decodes to the random bytes, for that email, expiring in one hour, and mails that same token to that email; a sender failure still keeps the stored record and reports a delivery failure; a store the database refuses (the blank email, or a token another email holds) reports the database's error, changes nothing and sends no mail |
| AuthService.ResetPassword | internal/service/auth.go:144-164 | an unknown or expired token fails with "invalid or expired reset token" and changes nothing; otherwise the owner's hash becomes the hash of the new password and the token is consumed |
| AuthProperties.RegisterThenLogin | internal/service/auth.go:38-87 | after a registration the stored hash is not the plaintext, and a login succeeds exactly for the registered password, any other failing with "invalid credentials" |
| AuthProperties.LoginTokensVerify | internal/service/auth.go:168-196 | both issued tokens verify under the secret with the user's email as subject until now plus their lifetime, and are refused as expired afterwards |
| AuthProperties.LogoutRevokesUntilExpiry | internal/service/auth.go:101-103 | a logged-out token's text is blacklisted exactly until the token's own expiry, and no other text's status changes |
| AuthProperties.RespelledTokenNotRevoked | internal/service/auth.go:89-103 | after a logout, another text of the same signed token parses the same, is not blacklisted, and can itself be logged out exactly when that text is not blank |
| AuthProperties.FailureMessages | internal/service/auth.go:43-79 | a taken email gives "user already exists", a failed login gives "invalid credentials" for a known email and "user not found" otherwise, and a failed reset gives "invalid or expired reset token" |
| AuthProperties.LogoutTwiceFails | internal/repository/black-list.go:28-34 | a second logout with the same token is refused |
| AuthProperties.RevocationLapsesAtExpirySecond | internal/repository/black-list.go:41 | in a token's expiry second Parse still accepts it while the blacklist no longer lists it |
| AuthProperties.SameSecondLoginsShareTokens | internal/service/auth.go:168-183 | two logins in the same second receive the same access token, so after the first logout the second session's token is already revoked and cannot be logged out |
| AuthProperties.ForgotThenReset | internal/service/auth.go:117-164 | a token from ForgotPassword redeems exactly before the one-hour expiry, and redemption stores the hash of the new password for that email |
| AuthProperties.ResetSingleUse | internal/service/auth.go:155-163 | once a reset token is redeemed, every later attempt with it fails with "invalid or expired reset token" |
| AuthProperties.ExpiredResetStaysRefused | internal/repository/user.go:64-70 | a refused reset is refused again at every later time if no new token is stored |
| AuthProperties.NewerRequestSupersedes | internal/repository/user.go:55-62 | a second ForgotPassword for the same email makes the earlier token unredeemable |
| AuthProperties.ResetThenLogin | internal/service/auth.go:144-164 | after a reset the owner logs in exactly with the new password; the old one gets "invalid credentials" |
| AuthProperties.EndToEnd | internal/service/auth.go:38-164 | register, login, profile, logout (token revoked), forgot, reset: the new password logs in, the old one does not, and the reset token is spent |

## Left out

- HTTP controllers, routing, the authentication middleware and request binding are not modelled. This includes the password length and confirmation checks, which happen at binding time and not in the service. The service never calls the commented-out password policy.
- SMTP delivery is not modelled. The sender is represented by the list of `(to, token)` calls and a boolean saying whether it succeeded.
- Database, driver and transport failures are not modelled, nor are the error paths they would take (for example `GetAll`'s error return). The model does cover the database's unique and primary-key constraints, because the service's behaviour depends on them.
- bcrypt's random salt and its own failures (such as over-long passwords) are not modelled, nor are `crypto/rand` failures. `Hash` is deterministic and always succeeds, and the random bytes arrive as an input.
- `AuthService.Logout`: a validly signed token without an `exp` claim makes the source panic on a type assertion. The model gives every token an expiry, so that path does not exist.
- `Jwt.Parse`: the JWT library treats `exp == 0` as an absent claim and so accepts such a token at any time; the model compares every expiry with `now`. The library's other claim checks (`nbf`, `iat`) are not modelled. Neither is the base64url/JSON layer: which texts decode to which signed token is left open, and only the text issued by `Jwt.Issue` is fixed.
- `Crypto.Verify`: bcrypt compares only the first 72 bytes of a password, so two passwords sharing those bytes verify against each other's hash. The model compares whole passwords. `Crypto.Hash`, `AuthService.Login` (its if-and-only-if), `AuthProperties.RegisterThenLogin`, `AuthProperties.ResetThenLogin` and `AuthProperties.EndToEnd` (the old password failing) rely on that, and hold in the source only for passwords of at most 72 bytes.
- `Crypto.Hash`: the stand-in is the bcrypt prefix followed by the password itself. Real bcrypt stores a 60-byte salted digest whatever the password length. The model promises only what the service relies on: the hash is not the plaintext and verifies exactly its own password.
- The `log.Printf` of the reset token after a successful send (internal/service/auth.go:139) is not modelled. It has no effect on the stores or the result.
- `UserRepository.GetAll`: `db.Find` has no ORDER BY, so the database may return rows in any order. The model returns them in key order, and its lemmas promise only which rows are listed and how often (`TwoCreatesListTwo` compares multisets).
- Sub-second time is not modelled. The clock counts whole seconds, so the truncation performed by `Unix()` does not arise.
- Concurrency (last-write-wins between simultaneous requests) is not modelled. Each operation is one atomic step.
- `ResetPassword`'s partial failure is not modelled: in the source, the password update can succeed and the invalidation then fail. The in-memory stores cannot fail, so no such path arises.
- `Jwt.Issue` has no contract beyond the fields of the token it builds. What issuing promises is stated by `Jwt.ParseIssued`: the token parses back to its subject and expiry through its expiry second and is refused as expired afterwards.
- `BlacklistRepository.IsBlacklisted` has no contract of its own. Its behaviour is stated by `NeverAddedNotBlacklisted`, `RevocationLapses` and `AddThenBlacklisted`.
- `Jwt.ParseRejectsForeignKey`: the model treats distinct key strings as distinct HMAC keys. In the source, a key that differs from the secret only by trailing zero bytes (within the hash block), or a long key whose digest is the secret, signs tokens the secret verifies.
- `UserRepository.GetAll` and `UserRepository.RemoveAll` have no contracts of their own. What they promise is stated by `CreateThenGetAll`, `TwoCreatesListTwo` and `RemoveAllForgetsEveryone`.
- `AuthService.GenerateTokens` has no contract of its own. What it issues is stated through `Register`, `Login` and `LoginTokensVerify`.
- `AuthService.GenerateTokens` (and `AuthService.IssuedFor`): the source reads the clock twice (internal/service/auth.go:169-170), once per token. A call that straddles a second boundary gives the refresh token an expiry one second later than `now` plus its lifetime. The model takes both expiries from a single `now`.
- The user service and user controller (a pass-through to `GetAll`), configuration loading and the startup code are not modelled.
