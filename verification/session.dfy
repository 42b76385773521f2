/**
 * How the handlers work together: the tokens LoginHandler issues, the refreshed token,
 * and the accounts the two signup handlers create, followed through the other handlers.
 */
module Session {
  import opened Records
  import opened Strconv
  import opened Jwt
  import opened Http
  import opened ChirpTable
  import opened UserTable
  import opened Handlers

  /** What parsing a token the server signed itself gives: its claims, an HMAC method, valid. */
  function Genuine(c: Claims): Parse {
    Parsed(c, true, true)
  }

  /**
   * The access token of a successful login posts chirps as the logged-in user, and the
   * refresh token of the same login does not post at all.
   */
  lemma LoginThenPost(u: User, pw: string, cfg: Config, issued: int, now: int, header: string, body: string, created: Result<Chirp>)
    requires Matches(u.password, pw) && |cfg.jwtSecret| > 0
    requires MinInt64 <= u.id <= MaxInt64
    requires header != "" && now <= issued + AccessLifetime
    ensures var login := LoginHandler(Some(Credentials(u.email, pw)), Ok(u), cfg, issued, true);
            && Answered(login, StatusOK)
            && var tokens := login.reply.bodies[0];
            && CreateChirpsHandler(Some(body), header, Genuine(tokens.accessToken), now, created).call
               == CallCreateChirp(u.id, body)
            && Answered(CreateChirpsHandler(Some(body), header, Genuine(tokens.refreshToken), now, created), StatusUnauthorized)
  {
    AtoiItoa(u.id);
  }

  /**
   * An unexpired access token updates the profile of the user it names; it is turned away
   * by the refresh and revoke handlers.
   */
  lemma AccessTokenRoles(id: int, issued: int, now: int, header: string, request: Credentials, updated: Result<User>,
                         signable: bool, outcome: Revocation)
    requires MinInt64 <= id <= MaxInt64
    requires header != "" && now <= issued + AccessLifetime
    ensures var p := Genuine(AccessClaims(id, issued));
            && UpdateUserHandler(header, p, now, Some(request), updated).call == CallUpdateUser(id, request.email, request.password)
            && Answered(RefreshHandler(header, p, now, signable), StatusUnauthorized)
            && RevokeHandler(header, p, now, outcome) == Exchange(NoCall, Failure(StatusUnauthorized))
  {
    AtoiItoa(id);
  }

  /** Once an hour has passed, an access token neither posts chirps nor updates the profile. */
  lemma AccessTokenExpires(id: int, issued: int, now: int, header: string, body: string, created: Result<Chirp>,
                           request: Option<Credentials>, updated: Result<User>)
    requires now > issued + AccessLifetime
    ensures var p := Genuine(AccessClaims(id, issued));
            && Answered(CreateChirpsHandler(Some(body), header, p, now, created), StatusUnauthorized)
            && Answered(UpdateUserHandler(header, p, now, request, updated), StatusUnauthorized)
  {
  }

  /**
   * A refresh token, for sixty days, yields a new token that expires an hour from the
   * request, and can be revoked; it neither posts chirps nor updates the profile. The
   * refresh handler reads nothing from the store, so revoking it does not stop it working.
   */
  lemma RefreshTokenRoles(id: int, issued: int, now: int, header: string, body: string, created: Result<Chirp>,
                          request: Option<Credentials>, updated: Result<User>, outcome: Revocation)
    requires header != "" && now <= issued + RefreshLifetime
    ensures var p := Genuine(RefreshClaims(id, issued));
            && RefreshHandler(header, p, now, true) == Exchange(NoCall, Reply([], [TokenJson(RefreshedClaims(now))]))
            && RevokeHandler(header, p, now, outcome).call == CallRevokeToken(BearerToken(header), now)
            && Answered(CreateChirpsHandler(Some(body), header, p, now, created), StatusUnauthorized)
            && Answered(UpdateUserHandler(header, p, now, request, updated), StatusUnauthorized)
  {
  }

  /**
   * The revoke handler adds no expiry check of its own: a refresh token that parsed as
   * valid is revoked even after its expiry, where the refresh handler refuses it.
   */
  lemma RevokeIgnoresExpiry(id: int, issued: int, now: int, header: string, outcome: Revocation, signable: bool)
    requires header != "" && now > issued + RefreshLifetime
    ensures var p := Genuine(RefreshClaims(id, issued));
            && RevokeHandler(header, p, now, outcome).call == CallRevokeToken(BearerToken(header), now)
            && Answered(RefreshHandler(header, p, now, signable), StatusUnauthorized)
  {
  }

  /**
   * When the store fails to record the revocation, the client of the revoke handler sees
   * 500: the 200 written after the error text is ignored.
   */
  lemma RevokeFailureSeenAs500(header: string, p: Parse, now: int, outcome: Revocation)
    requires RevokeGate(header, p) && outcome.err.Some?
    ensures Answered(RevokeHandler(header, p, now, outcome), StatusInternalServerError)
  {
    LaterStatusesIgnored(Failure(StatusInternalServerError), [StatusOK], [RevokedJson(outcome.token)]);
  }

  /**
   * The token the refresh handler issues has no issuer and no subject: it cannot post
   * chirps or be refreshed again, and the profile update, which it passes, stops at 400
   * because its empty subject is not a number.
   */
  lemma RefreshedTokenRoles(issued: int, now: int, header: string, body: string, created: Result<Chirp>,
                            request: Option<Credentials>, updated: Result<User>, signable: bool)
    requires header != "" && now <= issued + AccessLifetime
    ensures var p := Genuine(RefreshedClaims(issued));
            && Answered(CreateChirpsHandler(Some(body), header, p, now, created), StatusUnauthorized)
            && Answered(RefreshHandler(header, p, now, signable), StatusUnauthorized)
            && UpdateUserHandler(header, p, now, request, updated) == Exchange(NoCall, Failure(StatusBadRequest))
  {
  }

  /** A user created through CreateUserHandler logs in with the password they signed up with. */
  lemma SignupThenLogin(users: map<int, User>, email: string, pw: string, created: Result<User>, cfg: Config, now: int)
    requires |cfg.jwtSecret| > 0
    ensures var signup := CreateUserHandler(Some(Credentials(email, pw)), created);
            && signup.call == CallCreateUser(email, Plain(pw))
            && var stored := NewUser(users, email, signup.call.password);
            && Answered(LoginHandler(Some(Credentials(email, pw)), Ok(stored), cfg, now, true), StatusOK)
  {
  }

  /**
   * A user created through the older CreateUserHandler of internal/database/db.go, whose
   * password is hashed by the handler and again by the store, cannot log in with it.
   */
  lemma LegacySignupLocksOut(users: map<int, User>, email: string, pw: string, created: Result<User>,
                             cfg: Config, now: int, signable: bool)
    requires !HashFails(Plain(pw))
    ensures var signup := LegacyCreateUserHandler(Some(Credentials(email, pw)), created);
            && var stored := NewUser(users, email, signup.call.password);
            && Answered(LoginHandler(Some(Credentials(email, pw)), Ok(stored), cfg, now, signable), StatusUnauthorized)
  {
  }

  /**
   * When bcrypt refuses a password longer than 72 bytes, the older signup handler stores a
   * hash of the empty string instead: the account opens with the empty password and not
   * with the one chosen.
   */
  lemma LegacyLongPasswordBecomesEmpty(users: map<int, User>, email: string, pw: string, created: Result<User>)
    requires HashFails(Plain(pw))
    ensures var signup := LegacyCreateUserHandler(Some(Credentials(email, pw)), created);
            && var stored := NewUser(users, email, signup.call.password);
            && Matches(stored.password, "")
            && !Matches(stored.password, pw)
  {
  }

  /** Ids that rise strictly along a listing rise by at least one per position. */
  lemma {:induction false} StrictGap(r: seq<Chirp>, i: nat, j: nat)
    requires StrictlySortedById(r) && i <= j < |r|
    ensures r[j].id - r[i].id >= j - i
    decreases j - i
  {
    if i < j {
      StrictGap(r, i + 1, j);
    }
  }

  /** A strictly sorted listing of n chirps whose ids lie in 1..n holds chirp k + 1 at position k. */
  lemma DenseSortedPositions(r: seq<Chirp>)
    requires StrictlySortedById(r)
    requires forall i | 0 <= i < |r| :: 1 <= r[i].id <= |r|
    ensures forall i | 0 <= i < |r| :: r[i].id == i + 1
  {
    forall i | 0 <= i < |r|
      ensures r[i].id == i + 1
    {
      StrictGap(r, 0, i);
      StrictGap(r, i, |r| - 1);
    }
  }

  /**
   * With a listing sorted by id (the older GetChirps) of a table that has lost no chirp,
   * GetChirpIDHandler answers with the chirp that has the requested id.
   */
  lemma SortedListingAnswersById(chirps: map<int, Chirp>, n: nat, r: seq<Chirp>, keys: seq<int>, id: int)
    requires DenseKeys(chirps, n) && ChirpKeysMatchIds(chirps)
    requires ListsEntries(chirps, r, keys) && StrictlySortedById(r)
    requires 1 <= id <= n && id <= MaxInt64
    ensures id in chirps
    ensures GetChirpIDHandler(Itoa(id), Ok(r)) == Exchange(CallGetChirps, Reply([StatusOK], [ChirpJson(chirps[id])]))
  {
    RangeSize(n);
    ListingSize(chirps, r, keys);
    assert |chirps| == |chirps.Keys| == n;
    forall i | 0 <= i < |r|
      ensures 1 <= r[i].id <= |r|
    {
      InRange(n, keys[i]);
    }
    DenseSortedPositions(r);
    InRange(n, id);
    AtoiItoa(id);
    assert r[id - 1] == chirps[keys[id - 1]];
  }

  /**
   * With the unordered listing GetChirps produces, the same request can answer with
   * another chirp: two chirps listed in reverse, and id 1 gives chirp 2.
   */
  lemma UnorderedListingMisanswers()
    ensures var chirps := map[1 := Chirp(1, 7, "first"), 2 := Chirp(2, 7, "second")];
            var r := [Chirp(2, 7, "second"), Chirp(1, 7, "first")];
            && ListsEntries(chirps, r, [2, 1])
            && GetChirpIDHandler(Itoa(1), Ok(r)).reply == Reply([StatusOK], [ChirpJson(chirps[2])])
  {
    AtoiItoa(1);
  }
}
