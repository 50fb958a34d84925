/** Properties that relate several `AuthService` calls: what a registration
    lets a later login do, how long issued tokens verify and stay revoked,
    and the life cycle of a reset token (issued, then consumed or expired). */
module AuthProperties {

  import opened Results
  import opened Errors
  import opened Crypto
  import opened Jwt
  import opened UserRepository
  import opened ResetRepository
  import opened BlacklistRepository
  import opened AuthService

  /** After a registration the stored hash is not the plaintext, and a later
      login with the same email succeeds exactly for the registered password;
      any other password gets "invalid credentials". */
  lemma RegisterThenLogin(st: Store, cfg: Config, profile: Profile, email: string, password: string, now: int,
                          attempt: string, later: int)
    requires Valid(st)
    requires Register(st, cfg, profile, email, password, now).Success?
    ensures var (st', session) := Register(st, cfg, profile, email, password, now).value;
      && session.user.passwordHash != password
      && (Login(st', cfg, email, attempt, later).Success? <==> attempt == password)
      && (attempt != password ==> Login(st', cfg, email, attempt, later) == Failure(InvalidCredentials))
  {
    var (st', session) := Register(st, cfg, profile, email, password, now).value;
    assert st'.users[|st.users|] == session.user;
  }

  /** Both tokens of a login verify under the secret, with the user's email as
      subject, up to and including their expiry second, and are refused as
      expired afterwards. */
  lemma LoginTokensVerify(st: Store, cfg: Config, email: string, password: string, now: int, t: int)
    requires Login(st, cfg, email, password, now).Success?
    ensures var pair := Login(st, cfg, email, password, now).value.tokens;
      && Parse(pair.access, cfg.secret, t)
         == (if t <= now + cfg.accessTtl then Success(Claims(email, now + cfg.accessTtl)) else Failure(Expired))
      && Parse(pair.refresh, cfg.secret, t)
         == (if t <= now + cfg.refreshTtl then Success(Claims(email, now + cfg.refreshTtl)) else Failure(Expired))
  {
  }

  /** The text of a logged-out token is blacklisted exactly until the token's
      own `exp`; the status of every other text is untouched. */
  lemma LogoutRevokesUntilExpiry(st: Store, cfg: Config, token: Token, now: int, other: string, later: int)
    requires Logout(st, cfg, token, now).Success?
    ensures var st' := Logout(st, cfg, token, now).value;
      && (IsBlacklisted(st'.blacklist, token.text, later) <==> later < token.claims.exp)
      && (other != token.text ==> IsBlacklisted(st'.blacklist, other, later) == IsBlacklisted(st.blacklist, other, later))
  {
  }

  /** Revocation is per text: another spelling of a logged-out token's signed
      content still parses, is not blacklisted, and can itself be logged out
      (unless it is the empty text, which the table never stores). */
  lemma RespelledTokenNotRevoked(st: Store, cfg: Config, token: Token, now: int, respelled: Token)
    requires Logout(st, cfg, token, now).Success?
    requires respelled.Signed? && respelled.alg == token.alg && respelled.claims == token.claims
    requires respelled.key == token.key && respelled.text != token.text
    requires respelled.text !in st.blacklist
    ensures Parse(respelled, cfg.secret, now) == Parse(token, cfg.secret, now)
    ensures !IsBlacklisted(Logout(st, cfg, token, now).value.blacklist, respelled.text, now)
    ensures Logout(Logout(st, cfg, token, now).value, cfg, respelled, now).Success? <==> respelled.text != ""
  {
  }

  /** The texts callers see for the core's own refusals: a second registration
      of an email, a wrong password, an unknown email and a spent or expired
      reset token. */
  lemma FailureMessages(st: Store, cfg: Config, profile: Profile, email: string, password: string,
                        token: string, now: int)
    requires TokensUnique(st.resets)
    ensures HasEmail(st.users, email) ==>
      Message(Register(st, cfg, profile, email, password, now).error) == Some("user already exists")
    ensures Login(st, cfg, email, password, now).Failure? ==>
      Message(Login(st, cfg, email, password, now).error)
        == Some(if HasEmail(st.users, email) then "invalid credentials" else "user not found")
    ensures ResetPassword(st, token, password, now).Failure? ==>
      Message(ResetPassword(st, token, password, now).error) == Some("invalid or expired reset token")
  {
  }

  /** Logging out a second time with the same token fails: the blacklist's
      primary key refuses the duplicate and nothing changes. */
  lemma LogoutTwiceFails(st: Store, cfg: Config, token: Token, now: int, later: int)
    requires Logout(st, cfg, token, now).Success?
    ensures Logout(Logout(st, cfg, token, now).value, cfg, token, later).Failure?
  {
  }

  /** In the expiry second itself `Parse` still accepts a logged-out token,
      while the blacklist no longer lists it. */
  lemma RevocationLapsesAtExpirySecond(st: Store, cfg: Config, token: Token, now: int)
    requires Logout(st, cfg, token, now).Success?
    ensures Parse(token, cfg.secret, token.claims.exp).Success?
    ensures !IsBlacklisted(Logout(st, cfg, token, now).value.blacklist, token.text, token.claims.exp)
  {
  }

  /** Tokens are a function of email, clock second and configuration: two
      logins of one user in the same second receive the same pair. So when
      the first session is logged out, the second one's access token is
      already blacklisted and its own logout is refused. */
  lemma SameSecondLoginsShareTokens(st: Store, cfg: Config, email: string, password: string, now: int)
    requires cfg.accessTtl > 0
    requires Login(st, cfg, email, password, now).Success?
    requires Login(st, cfg, email, password, now).value.tokens.access.text !in st.blacklist
    ensures var access := Login(st, cfg, email, password, now).value.tokens.access;
      && Logout(st, cfg, access, now).Success?
      && var st' := Logout(st, cfg, access, now).value;
      && Login(st', cfg, email, password, now).Success?
      && Login(st', cfg, email, password, now).value.tokens.access == access
      && IsBlacklisted(st'.blacklist, access.text, now)
      && Logout(st', cfg, access, now) == Failure(UniqueViolation)
  {
  }

  /** A reset token from ForgotPassword redeems exactly while the clock is
      before the one-hour expiry, and a redemption stores the hash of the new
      password for that email. */
  lemma ForgotThenReset(st: Store, email: string, random: seq<Byte>, now: int, delivered: bool,
                        newPassword: string, t: int)
    requires Valid(st)
    requires |random| == ResetTokenBytes as int
    requires ForgotPassword(st, email, random, now, delivered).result.Success?
    ensures var o := ForgotPassword(st, email, random, now, delivered);
      && (ResetPassword(o.store, o.result.value, newPassword, t).Success? <==> t < now + ResetTokenLifetime)
      && (ResetPassword(o.store, o.result.value, newPassword, t).Success? ==>
            FindByEmail(ResetPassword(o.store, o.result.value, newPassword, t).value.users, email)
            == Success(FindByEmail(st.users, email).value.(passwordHash := Hash(newPassword))))
  {
  }

  /** A reset token is single-use: once redeemed, every later attempt with it
      is refused. */
  lemma ResetSingleUse(st: Store, token: string, newPassword: string, now: int, again: string, later: int)
    requires TokensUnique(st.resets)
    requires ResetPassword(st, token, newPassword, now).Success?
    ensures ResetPassword(ResetPassword(st, token, newPassword, now).value, token, again, later)
            == Failure(InvalidOrExpiredResetToken)
  {
  }

  /** A refused reset changes nothing and is refused again at every later time
      unless a new token is stored. */
  lemma ExpiredResetStaysRefused(st: Store, token: string, newPassword: string, now: int, later: int)
    requires TokensUnique(st.resets)
    requires now <= later
    requires ResetPassword(st, token, newPassword, now).Failure?
    ensures ResetPassword(st, token, newPassword, later) == Failure(InvalidOrExpiredResetToken)
  {
  }

  /** A newer ForgotPassword for the same email supersedes the older token:
      the older one is never redeemable again. */
  lemma NewerRequestSupersedes(st: Store, email: string, r1: seq<Byte>, now1: int, r2: seq<Byte>, now2: int,
                               newPassword: string, t: int)
    requires Valid(st)
    requires |r1| == ResetTokenBytes as int && |r2| == ResetTokenBytes as int && r1 != r2
    requires ForgotPassword(st, email, r1, now1, true).result.Success?
    requires ForgotPassword(ForgotPassword(st, email, r1, now1, true).store, email, r2, now2, true).result.Success?
    ensures var o1 := ForgotPassword(st, email, r1, now1, true);
      var o2 := ForgotPassword(o1.store, email, r2, now2, true);
      ResetPassword(o2.store, o1.result.value, newPassword, t) == Failure(InvalidOrExpiredResetToken)
  {
  }

  /** After a reset, the owner logs in with the new password, and any other
      password, the old one included, gets "invalid credentials". */
  lemma ResetThenLogin(st: Store, cfg: Config, token: string, newPassword: string, now: int,
                       attempt: string, later: int)
    requires Valid(st)
    requires ResetPassword(st, token, newPassword, now).Success?
    requires HasEmail(st.users, FindEmailByResetToken(st.resets, token, now).value)
    ensures var email := FindEmailByResetToken(st.resets, token, now).value;
      var st' := ResetPassword(st, token, newPassword, now).value;
      && (Login(st', cfg, email, attempt, later).Success? <==> attempt == newPassword)
      && (attempt != newPassword ==> Login(st', cfg, email, attempt, later) == Failure(InvalidCredentials))
  {
  }

  /** The whole journey of one user: register, log in, read the profile, log
      out (the access token is then revoked), request a reset, redeem it, and
      from then on only the new password logs in and the reset token is spent. */
  lemma EndToEnd(st: Store, cfg: Config, profile: Profile, email: string, password: string,
                 newPassword: string, random: seq<Byte>, now: int)
    requires Valid(st)
    requires !HasEmail(st.users, email) && !HasUserName(st.users, profile.userName)
    requires password != newPassword
    requires cfg.accessTtl > 0
    requires |random| == ResetTokenBytes as int
    requires Issue(email, now + cfg.accessTtl, cfg.secret).text !in st.blacklist
    requires forall e :: e in st.resets && e != email ==> st.resets[e].token != HexEncode(random)
    requires email != ""
    ensures
      var reg := Register(st, cfg, profile, email, password, now);
      reg.Success? &&
      var s1 := reg.value.0;
      GetUserProfile(s1, email) == Success(reg.value.1.user) &&
      Login(s1, cfg, email, password, now).Success? &&
      var access := Login(s1, cfg, email, password, now).value.tokens.access;
      Logout(s1, cfg, access, now).Success? &&
      var s2 := Logout(s1, cfg, access, now).value;
      IsBlacklisted(s2.blacklist, access.text, now) &&
      ForgotPassword(s2, email, random, now, true).result.Success? &&
      var f := ForgotPassword(s2, email, random, now, true);
      ResetPassword(f.store, f.result.value, newPassword, now).Success? &&
      var s3 := ResetPassword(f.store, f.result.value, newPassword, now).value;
      Login(s3, cfg, email, newPassword, now).Success? &&
      Login(s3, cfg, email, password, now) == Failure(InvalidCredentials) &&
      ResetPassword(s3, f.result.value, newPassword, now) == Failure(InvalidOrExpiredResetToken)
  {
    var reg := Register(st, cfg, profile, email, password, now);
    var (s1, session) := reg.value;
    assert s1.users[|st.users|] == session.user;
    RegisterThenLogin(st, cfg, profile, email, password, now, password, now);
    var access := Login(s1, cfg, email, password, now).value.tokens.access;
    ParseIssued(email, now + cfg.accessTtl, cfg.secret, now);
    var s2 := Logout(s1, cfg, access, now).value;
    LogoutRevokesUntilExpiry(s1, cfg, access, now, access.text, now);
    assert HasEmail(s2.users, email);
    assert StorePasswordResetToken(s2.resets, email, HexEncode(random), now + ResetTokenLifetime).Success?;
    var f := ForgotPassword(s2, email, random, now, true);
    var token := f.result.value;
    ForgotThenReset(s2, email, random, now, true, newPassword, now);
    var s3 := ResetPassword(f.store, token, newPassword, now).value;
    StoreThenFind(s2.resets, email, token, now + ResetTokenLifetime, now, token);
    assert FindEmailByResetToken(f.store.resets, token, now) == Success(email);
    ResetThenLogin(f.store, cfg, token, newPassword, now, newPassword, now);
    ResetThenLogin(f.store, cfg, token, newPassword, now, password, now);
    ResetSingleUse(f.store, token, newPassword, now, newPassword, now);
  }
}
