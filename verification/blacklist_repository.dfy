/** The `blacklisted_tokens` table behind `PostgresBlacklistRepository`:
    revoked tokens keyed by the token itself, each with its own expiry. */
module BlacklistRepository {

  import opened Results
  import opened Errors
  
  /** Token text (the primary key) to expiry in unix seconds. The key is the
      exact string a client presented, not what it decodes to. */
  type Blacklist = map<string, int>

  /** `Add`: `db.Create` of a new row. gorm leaves a blank primary key out of
      the INSERT, so the NOT NULL key refuses the empty text; the primary key
      refuses a token that is already present. */
  function Add(blacklist: Blacklist, token: string, expiry: int): (r: Result<Blacklist, AuthError>)
    ensures r.Success? <==> token != "" && token !in blacklist
    ensures r.Success? ==> r.value.Keys == blacklist.Keys + {token} && r.value[token] == expiry
    ensures r.Success? ==> forall t :: t in blacklist ==> r.value[t] == blacklist[t]
    ensures token == "" ==> r == Failure(NullPrimaryKey)
    ensures token != "" && token in blacklist ==> r == Failure(UniqueViolation)
  {
    if token == "" then Failure(NullPrimaryKey)
    else if token in blacklist then Failure(UniqueViolation)
    else Success(blacklist[token := expiry])
  }

  /** `IsBlacklisted`: a token that is not stored is not blacklisted; a stored
      one is blacklisted while `now` is strictly before its recorded expiry. */
  predicate IsBlacklisted(blacklist: Blacklist, token: string, now: int)
  {
    token in blacklist && now < blacklist[token]
  }

  /** A token that was never added is not blacklisted. */
  lemma NeverAddedNotBlacklisted(blacklist: Blacklist, token: string, now: int)
    requires token !in blacklist
    ensures !IsBlacklisted(blacklist, token, now)
  {
  }

  /** Once a stored token's expiry has passed it stays not blacklisted. */
  lemma RevocationLapses(blacklist: Blacklist, token: string, now: int, later: int)
    requires token in blacklist && blacklist[token] <= now <= later
    ensures !IsBlacklisted(blacklist, token, later)
  {
  }

  /** After a successful `Add`, the token is blacklisted exactly while the
      clock is before the given expiry, and every other token keeps its status. */
  lemma AddThenBlacklisted(blacklist: Blacklist, token: string, expiry: int, other: string, now: int)
    requires Add(blacklist, token, expiry).Success?
    ensures IsBlacklisted(Add(blacklist, token, expiry).value, token, now) <==> now < expiry
    ensures other != token ==>
      IsBlacklisted(Add(blacklist, token, expiry).value, other, now) == IsBlacklisted(blacklist, other, now)
  {
  }
}
