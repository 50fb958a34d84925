/** The errors the authentication core can report. */
module Errors {

  import opened Results

  /** Why the JWT library refused a bearer token. */
  datatype JwtError =
    | Malformed                // not a three-segment signed token
    | UnexpectedSigningMethod  // the key function refused a non-HMAC algorithm
    | SignatureInvalid         // the HMAC does not verify under the service secret
    | Expired                  // the `exp` claim lies in the past

  datatype AuthError =
    | UserAlreadyExists            // Register on an email that is already taken
    | UserNotFound                 // no user row with that email
    | InvalidCredentials           // the password does not match the stored hash
    | InvalidOrExpiredResetToken   // no unexpired reset record holds the token
    | TokenRejected(cause: JwtError)
    | UniqueViolation              // the database refused a duplicate primary or unique key
    | NullPrimaryKey               // gorm left a blank primary key out of an INSERT and the NOT NULL key refused it
    | DeliveryFailed               // the email sender reported an error

  /** The human-readable message of an error, when the core itself chooses it;
      `None` when the text comes from a library (JWT, database, SMTP). */
  function Message(e: AuthError): (m: Option<string>)
    ensures m.Some? <==> (e.UserAlreadyExists? || e.UserNotFound? || e.InvalidCredentials? || e.InvalidOrExpiredResetToken?)
  {
    match e
    case UserAlreadyExists => Some("user already exists")
    case UserNotFound => Some("user not found")
    case InvalidCredentials => Some("invalid credentials")
    case InvalidOrExpiredResetToken => Some("invalid or expired reset token")
    case _ => None
  }
}
