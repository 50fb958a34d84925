/** The `password_resets` table behind `PostgresUserRepository`: one record
    per email (the primary key), each holding a token (a unique column) and
    an expiry. */
module ResetRepository {

  import opened Results
  import opened Errors

  datatype ResetRecord = ResetRecord(token: string, expiry: int)

  type ResetTable = map<string, ResetRecord>

  /** The unique index on `token`: no two emails hold the same token. */
  predicate TokensUnique(table: ResetTable)
  {
    forall e1, e2 :: e1 in table && e2 in table && table[e1].token == table[e2].token ==> e1 == e2
  }

  /** Some record holds `token` and its expiry is strictly after `now`. */
  predicate Redeemable(table: ResetTable, token: string, now: int)
  {
    exists e :: e in table && table[e].token == token && now < table[e].expiry
  }

  /** `StorePasswordResetToken`: `db.Save` upserts by email, so the new record
      replaces any earlier one for that email; the unique token column refuses
      a token another email already holds. A blank primary key makes `Save`
      take gorm's create path, which leaves the blank key out of the INSERT,
      so the NOT NULL email column refuses every record for the empty email. */
  function StorePasswordResetToken(table: ResetTable, email: string, token: string, expiry: int)
    : (r: Result<ResetTable, AuthError>)
    ensures r.Success? <==> email != "" && forall e :: e in table && e != email ==> table[e].token != token
    ensures r.Success? ==> r.value.Keys == table.Keys + {email}
    ensures r.Success? ==> r.value[email] == ResetRecord(token, expiry)
    ensures r.Success? ==> forall e :: e in table && e != email ==> r.value[e] == table[e]
    ensures r.Failure? ==> r.error == if email == "" then NullPrimaryKey else UniqueViolation
    ensures TokensUnique(table) && r.Success? ==> TokensUnique(r.value)
  {
    if email == "" then Failure(NullPrimaryKey)
    else if exists e :: e in table && e != email && table[e].token == token then Failure(UniqueViolation)
    else Success(table[email := ResetRecord(token, expiry)])
  }

  /** `FindEmailByResetToken`: the email whose record holds `token` with an
      expiry strictly after `now`, else "invalid or expired reset token". */
  function FindEmailByResetToken(table: ResetTable, token: string, now: int): (r: Result<string, AuthError>)
    requires TokensUnique(table)
    ensures r.Success? <==> Redeemable(table, token, now)
    ensures r.Success? ==> r.value in table && table[r.value].token == token && now < table[r.value].expiry
    ensures r.Failure? ==> r.error == InvalidOrExpiredResetToken
  {
    if Redeemable(table, token, now) then
      var email :| email in table && table[email].token == token && now < table[email].expiry;
      Success(email)
    else
      Failure(InvalidOrExpiredResetToken)
  }

  /** Invalidation of a consumed token: every record holding it is deleted. */
  function InvalidateResetToken(table: ResetTable, token: string): (r: ResetTable)
    ensures forall e :: e in r <==> e in table && table[e].token != token
    ensures forall e :: e in r ==> r[e] == table[e]
    ensures TokensUnique(table) ==> TokensUnique(r)
  {
    map e | e in table && table[e].token != token :: table[e]
  }

  /** An invalidated token is never redeemable again, at any time, while every
      other token keeps exactly its previous status. */
  lemma InvalidatedNeverRedeemable(table: ResetTable, token: string, other: string, now: int)
    requires TokensUnique(table)
    ensures FindEmailByResetToken(InvalidateResetToken(table, token), token, now) == Failure(InvalidOrExpiredResetToken)
    ensures other != token ==>
      FindEmailByResetToken(InvalidateResetToken(table, token), other, now) == FindEmailByResetToken(table, other, now)
  {
  }

  /** Storing a token makes it redeemable for that email exactly until its
      expiry, and the token it replaced for that email is no longer redeemable. */
  lemma StoreThenFind(table: ResetTable, email: string, token: string, expiry: int, now: int, previous: string)
    requires TokensUnique(table)
    requires StorePasswordResetToken(table, email, token, expiry).Success?
    ensures var r := StorePasswordResetToken(table, email, token, expiry).value;
      FindEmailByResetToken(r, token, now) == if now < expiry then Success(email) else Failure(InvalidOrExpiredResetToken)
    ensures email in table && table[email].token == previous && previous != token ==>
      FindEmailByResetToken(StorePasswordResetToken(table, email, token, expiry).value, previous, now).Failure?
  {
  }

  /** Once a token has lapsed it stays unredeemable at every later time. */
  lemma LapsedStaysLapsed(table: ResetTable, token: string, now: int, later: int)
    requires TokensUnique(table)
    requires now <= later
    requires FindEmailByResetToken(table, token, now).Failure?
    ensures FindEmailByResetToken(table, token, later).Failure?
  {
  }
}
