/** `AuthService`: registration, login, logout, profile lookup and the
    password-reset flow, as pure transitions over the three stores.
    The clock (`now`, unix seconds), the 32 random bytes of a reset token and
    the outcome of the email sender are inputs; the secret and both token
    lifetimes come from the configuration. */
module AuthService {

  import opened Results
  import opened Errors
  import opened Crypto
  import opened Jwt
  import opened UserRepository
  import opened ResetRepository
  import opened BlacklistRepository

  /** `jwt.secret`, `jwt.access_token_expiry` and `jwt.refresh_token_expiry`,
      the lifetimes in seconds. */
  datatype Config = Config(secret: string, accessTtl: int, refreshTtl: int)

  datatype Store = Store(users: UserTable, resets: ResetTable, blacklist: Blacklist)

  /** The database constraints every store satisfies. */
  predicate Valid(st: Store)
  {
    KeysUnique(st.users) && TokensUnique(st.resets)
  }

  datatype TokenPair = TokenPair(access: Token, refresh: Token)

  /** What Register and Login hand back: the user row and fresh tokens. */
  datatype Session = Session(user: User, tokens: TokenPair)

  /** One call of `SendPasswordResetEmail(to, token)`. */
  datatype Mail = Mail(to: string, token: string)

  /** Lifetime of a reset token: one hour. */
  const ResetTokenLifetime: int := 3600

  /** Number of random bytes behind a reset token. */
  const ResetTokenBytes: nat := 32

  /** Both tokens are HS256-signed with the secret for `email`, expiring one
      lifetime after `now`. */
  predicate IssuedFor(pair: TokenPair, cfg: Config, email: string, now: int)
  {
    && pair.access == Issue(email, now + cfg.accessTtl, cfg.secret)
    && pair.refresh == Issue(email, now + cfg.refreshTtl, cfg.secret)
  }

  /** `generateTokens`. */
  function GenerateTokens(cfg: Config, email: string, now: int): (pair: TokenPair)
  {
    TokenPair(Issue(email, now + cfg.accessTtl, cfg.secret), Issue(email, now + cfg.refreshTtl, cfg.secret))
  }

  /** `Register`: refuse a taken email; otherwise store the user with the
      hashed password and issue a token pair. A failure leaves every store as
      it was (the caller keeps the old `Store`). */
  function Register(st: Store, cfg: Config, profile: Profile, email: string, password: string, now: int)
    : (r: Result<(Store, Session), AuthError>)
    ensures HasEmail(st.users, email) ==> r == Failure(UserAlreadyExists)
    ensures !HasEmail(st.users, email) && HasUserName(st.users, profile.userName) ==> r == Failure(UniqueViolation)
    ensures r.Success? <==> !HasEmail(st.users, email) && !HasUserName(st.users, profile.userName)
    ensures r.Success? ==>
      var user := User(profile, email, Hash(password));
      && r.value.0 == st.(users := st.users + [user])
      && r.value.1.user == user
      && IssuedFor(r.value.1.tokens, cfg, email, now)
    ensures Valid(st) && r.Success? ==> Valid(r.value.0)
  {
    match FindByEmail(st.users, email)
    case Success(_) => Failure(UserAlreadyExists)
    case Failure(_) =>
      var user := User(profile, email, Hash(password));
      match Create(st.users, user)
      case Failure(e) => Failure(e)
      case Success(users) => Success((st.(users := users), Session(user, GenerateTokens(cfg, email, now))))
  }

  /** `Login`: the user with that email whose stored hash verifies the
      password gets a fresh token pair. No store changes. */
  function Login(st: Store, cfg: Config, email: string, password: string, now: int): (r: Result<Session, AuthError>)
    ensures !HasEmail(st.users, email) ==> r == Failure(UserNotFound)
    ensures HasEmail(st.users, email) && !Verify(FindByEmail(st.users, email).value.passwordHash, password)
      ==> r == Failure(InvalidCredentials)
    ensures r.Success? <==> HasEmail(st.users, email) && Verify(FindByEmail(st.users, email).value.passwordHash, password)
    ensures r.Success? ==>
      && r.value.user in st.users
      && r.value.user.email == email
      && Verify(r.value.user.passwordHash, password)
      && IssuedFor(r.value.tokens, cfg, email, now)
    ensures KeysUnique(st.users) && r.Success? ==>
      forall i :: 0 <= i < |st.users| && st.users[i].email == email ==> r.value.user == st.users[i]
  {
    match FindByEmail(st.users, email)
    case Failure(e) => Failure(e)
    case Success(user) =>
      if !Verify(user.passwordHash, password) then Failure(InvalidCredentials)
      else Success(Session(user, GenerateTokens(cfg, user.email, now)))
  }

  /** `Logout`: the exact text of a token that parses under the secret is
      blacklisted until the token's own expiry; anything else is refused and
      the blacklist is unchanged. */
  function Logout(st: Store, cfg: Config, token: Token, now: int): (r: Result<Store, AuthError>)
    ensures Parse(token, cfg.secret, now).Failure? ==> r == Failure(TokenRejected(Parse(token, cfg.secret, now).error))
    ensures r.Success? <==> Parse(token, cfg.secret, now).Success? && token.text != "" && token.text !in st.blacklist
    ensures Parse(token, cfg.secret, now).Success? && token.text == "" ==> r == Failure(NullPrimaryKey)
    ensures Parse(token, cfg.secret, now).Success? && token.text != "" && token.text in st.blacklist
      ==> r == Failure(UniqueViolation)
    ensures r.Success? ==>
      && r.value.users == st.users && r.value.resets == st.resets
      && r.value.blacklist == st.blacklist[token.text := token.claims.exp]
    ensures Valid(st) && r.Success? ==> Valid(r.value)
  {
    match Parse(token, cfg.secret, now)
    case Failure(e) => Failure(TokenRejected(e))
    case Success(claims) =>
      match Add(st.blacklist, token.text, claims.exp)
      case Failure(e) => Failure(e)
      case Success(blacklist) => Success(st.(blacklist := blacklist))
  }

  /** `GetUserProfile`: the user with that email, else "user not found". */
  function GetUserProfile(st: Store, email: string): (r: Result<User, AuthError>)
    ensures r.Success? <==> HasEmail(st.users, email)
    ensures r.Success? ==> r.value in st.users && r.value.email == email
    ensures r.Failure? ==> r.error == UserNotFound
  {
    FindByEmail(st.users, email)
  }

  /** Result of `ForgotPassword`. A sender failure is reported after the reset
      record was stored, so the outcome carries the store on every path. */
  datatype ForgotOutcome = ForgotOutcome(store: Store, result: Result<string, AuthError>, sent: seq<Mail>)

  /** `ForgotPassword`: for a known email, hex-encode the random bytes into a
      token, store it for that email with a one-hour expiry and mail it. */
  function ForgotPassword(st: Store, email: string, random: seq<Byte>, now: int, delivered: bool): (o: ForgotOutcome)
    requires |random| == ResetTokenBytes as int
    ensures !HasEmail(st.users, email) ==> o == ForgotOutcome(st, Failure(UserNotFound), [])
    ensures o.result.Success? <==>
      HasEmail(st.users, email) && delivered && StorePasswordResetToken(st.resets, email, HexEncode(random), now + ResetTokenLifetime).Success?
    ensures o.result.Success? ==>
      var token := o.result.value;
      && |token| == 2 * ResetTokenBytes && IsHexString(token)
      && HexDecode(token) == Some(random)
      && o.store == st.(resets := st.resets[email := ResetRecord(token, now + ResetTokenLifetime)])
      && o.sent == [Mail(email, token)]
    ensures HasEmail(st.users, email) ==>
      var token := HexEncode(random);
      var expiry := now + ResetTokenLifetime;
      match StorePasswordResetToken(st.resets, email, token, expiry)
      case Success(resets) =>
        && o.store == st.(resets := resets)
        && resets == st.resets[email := ResetRecord(token, expiry)]
        && o.sent == [Mail(email, token)]
        && (!delivered ==> o.result == Failure(DeliveryFailed))
      case Failure(_) =>
        o == ForgotOutcome(st, Failure(if email == "" then NullPrimaryKey else UniqueViolation), [])
    ensures o.sent != [] ==> HasEmail(st.users, email)
    ensures o.store.users == st.users && o.store.blacklist == st.blacklist
    ensures Valid(st) ==> Valid(o.store)
  {
    match FindByEmail(st.users, email)
    case Failure(_) => ForgotOutcome(st, Failure(UserNotFound), [])
    case Success(user) =>
      var token := HexEncode(random);
      HexRoundTrip(random);
      match StorePasswordResetToken(st.resets, user.email, token, now + ResetTokenLifetime)
      case Failure(e) => ForgotOutcome(st, Failure(e), [])
      case Success(resets) =>
        var st' := st.(resets := resets);
        var mail := [Mail(user.email, token)];
        if delivered then ForgotOutcome(st', Success(token), mail)
        else ForgotOutcome(st', Failure(DeliveryFailed), mail)
  }

  /** `ResetPassword`: a redeemable token sets its owner's hash to the hash of
      the new password and is consumed; any other token is refused and no
      store changes. */
  function ResetPassword(st: Store, token: string, newPassword: string, now: int): (r: Result<Store, AuthError>)
    requires TokensUnique(st.resets)
    ensures r.Success? <==> Redeemable(st.resets, token, now)
    ensures r.Failure? ==> r.error == InvalidOrExpiredResetToken
    ensures r.Success? ==> exists email :: (
      && email in st.resets && st.resets[email].token == token && now < st.resets[email].expiry
      && r.value.users == UpdatePassword(st.users, email, Hash(newPassword)))
    ensures r.Success? ==>
      && r.value.resets == InvalidateResetToken(st.resets, token)
      && r.value.blacklist == st.blacklist
    ensures Valid(st) && r.Success? ==> Valid(r.value)
  {
    match FindEmailByResetToken(st.resets, token, now)
    case Failure(_) => Failure(InvalidOrExpiredResetToken)
    case Success(email) =>
      var users := UpdatePassword(st.users, email, Hash(newPassword));
      Success(Store(users, InvalidateResetToken(st.resets, token), st.blacklist))
  }
}
