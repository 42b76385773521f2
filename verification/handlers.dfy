/**
 * The HTTP handlers of internal/handlers (and the older CreateUserHandler of
 * internal/database/db.go), each as a function from what the handler reads to the
 * exchange it produces. A handler's inputs are its decoded request (None when the body is
 * not valid JSON), its Authorization header ("" when absent), what parsing the token
 * produced, the clock, and the answer of the store call it makes; that answer is only
 * consulted when the exchange records the call.
 */
module Handlers {
  import opened Records
  import opened Strconv
  import opened Jwt
  import opened Http

  /** The email and password of a login, signup or profile-update body. */
  datatype Credentials = Credentials(email: string, password: string)

  /** The body of a payment-provider webhook. */
  datatype WebhookEvent = WebhookEvent(event: string, userID: int)

  const UpgradeEvent := "user.upgraded"

  /** The handler answered (did not panic) and the client sees `status`. */
  predicate Answered(x: Exchange, status: int) {
    x.reply.Reply? && StatusOf(x.reply) == status
  }

  /** A store answer as the handler treats it: an error gives `status`, a panic aborts the handler. */
  function Refused<T>(answer: Result<T>, status: int): Reply
    requires !answer.Ok?
  {
    if answer.Panicked? then Aborted else Failure(status)
  }

  /** The header is present and its token parsed, with an HMAC method, into a valid token. */
  predicate Admitted(header: string, p: Parse) {
    header != "" && Verified(p)
  }

  /** What CreateChirpsHandler accepts: an unexpired token issued as an access token. */
  predicate AccessGate(header: string, p: Parse, now: int) {
    Admitted(header, p) && p.claims.issuer == AccessIssuer && !Expired(p.claims, now)
  }

  /** What AccessTokenHandler accepts: an unexpired token issued as a refresh token. */
  predicate RefreshGate(header: string, p: Parse, now: int) {
    Admitted(header, p) && p.claims.issuer == RefreshIssuer && !Expired(p.claims, now)
  }

  /** What RevokeTokenHandler accepts: a token issued as a refresh token, expired or not. */
  predicate RevokeGate(header: string, p: Parse) {
    Admitted(header, p) && p.claims.issuer == RefreshIssuer
  }

  /** What UpdateUserHandler accepts: an unexpired token from any issuer but the refresh one. */
  predicate UpdateGate(header: string, p: Parse, now: int) {
    Admitted(header, p) && !Expired(p.claims, now) && p.claims.issuer != RefreshIssuer
  }

  /** What WebhookHandler accepts: a header that is the API key, with or without an "ApiKey " prefix. */
  predicate KeyGate(header: string, cfg: Config) {
    header != "" && TrimPrefix(header, "ApiKey ") == cfg.apiKey
  }

  /**
   * LoginHandler: a malformed body gives 400; otherwise the user is looked up by email,
   * where a failed lookup gives 500 and a wrong password 401; an unset secret or a signing
   * failure then gives 500; success gives 200 with the user's id and email and the two
   * tokens, and never the password.
   */
  function LoginHandler(request: Option<Credentials>, lookup: Result<User>, cfg: Config, now: int, signable: bool): (x: Exchange)
    ensures request.None? <==> x == Exchange(NoCall, Failure(StatusBadRequest))
    ensures request.Some? ==> x.call == CallGetUserbyEmail(request.value.email)
    ensures x.reply.Aborted? <==> request.Some? && lookup.Panicked?
    ensures Answered(x, StatusInternalServerError) <==>
              request.Some? && (lookup.Err? || (lookup.Ok? && Matches(lookup.value.password, request.value.password)
                                                 && (|cfg.jwtSecret| == 0 || !signable)))
    ensures Answered(x, StatusUnauthorized) <==>
              request.Some? && lookup.Ok? && !Matches(lookup.value.password, request.value.password)
    ensures Answered(x, StatusOK) <==>
              request.Some? && lookup.Ok? && Matches(lookup.value.password, request.value.password)
              && |cfg.jwtSecret| > 0 && signable
    ensures Answered(x, StatusOK) ==>
              x.reply.bodies == [LoginJson(lookup.value.id, lookup.value.email,
                                           AccessClaims(lookup.value.id, now), RefreshClaims(lookup.value.id, now))]
  {
    if request.None? then Exchange(NoCall, Failure(StatusBadRequest))
    else
      var call := CallGetUserbyEmail(request.value.email);
      if !lookup.Ok? then Exchange(call, Refused(lookup, StatusInternalServerError))
      else
        var user := lookup.value;
        if !Matches(user.password, request.value.password) then Exchange(call, Failure(StatusUnauthorized))
        else if |cfg.jwtSecret| == 0 then Exchange(call, Failure(StatusInternalServerError))
        else if !signable then Exchange(call, Failure(StatusInternalServerError))
        else Exchange(call, Reply([StatusOK], [LoginJson(user.id, user.email, AccessClaims(user.id, now), RefreshClaims(user.id, now))]))
  }

  /**
   * AccessTokenHandler: only an unexpired refresh token passes, and the revocation list is
   * never consulted; the new token carries only an expiry, under the default status.
   */
  function RefreshHandler(header: string, p: Parse, now: int, signable: bool): (x: Exchange)
    ensures x.call == NoCall
    ensures Answered(x, StatusUnauthorized) <==> !RefreshGate(header, p, now)
    ensures RefreshGate(header, p, now) && !signable ==> x.reply == Failure(StatusInternalServerError)
    ensures RefreshGate(header, p, now) && signable ==> x.reply == Reply([], [TokenJson(RefreshedClaims(now))])
  {
    if header == "" then Exchange(NoCall, Failure(StatusUnauthorized))
    else if !Verified(p) then Exchange(NoCall, Failure(StatusUnauthorized))
    else if p.claims.issuer != RefreshIssuer then Exchange(NoCall, Failure(StatusUnauthorized))
    else if Expired(p.claims, now) then Exchange(NoCall, Failure(StatusUnauthorized))
    else if !signable then Exchange(NoCall, Failure(StatusInternalServerError))
    else Exchange(NoCall, Reply([], [TokenJson(RefreshedClaims(now))]))
  }

  /**
   * RevokeTokenHandler: any refresh token passes, expired or not, and its raw string is
   * revoked at `now`. A store error writes 500 but the handler goes on to write 200 and the
   * record, so the client sees 500 followed by the record.
   */
  function RevokeHandler(header: string, p: Parse, now: int, outcome: Revocation): (x: Exchange)
    ensures !RevokeGate(header, p) <==> x == Exchange(NoCall, Failure(StatusUnauthorized))
    ensures RevokeGate(header, p) ==> x.call == CallRevokeToken(BearerToken(header), now)
    ensures RevokeGate(header, p) && outcome.err.None? ==> x.reply == Reply([StatusOK], [RevokedJson(outcome.token)])
    ensures RevokeGate(header, p) && outcome.err.Some? ==>
              x.reply == Reply([StatusInternalServerError, StatusOK], [ErrorText, RevokedJson(outcome.token)])
  {
    if header == "" then Exchange(NoCall, Failure(StatusUnauthorized))
    else if !Verified(p) then Exchange(NoCall, Failure(StatusUnauthorized))
    else if p.claims.issuer != RefreshIssuer then Exchange(NoCall, Failure(StatusUnauthorized))
    else
      var call := CallRevokeToken(BearerToken(header), now);
      var record := RevokedJson(outcome.token);
      if outcome.err.Some? then Exchange(call, Reply([StatusInternalServerError, StatusOK], [ErrorText, record]))
      else Exchange(call, Reply([StatusOK], [record]))
  }

  /**
   * CreateChirpsHandler: the body is decoded before the token is looked at; only an
   * unexpired access token passes; a subject that is not a number ends the handler without
   * writing anything; the author is the token's subject and the created chirp is written
   * under the default status.
   */
  function CreateChirpsHandler(body: Option<string>, header: string, p: Parse, now: int, created: Result<Chirp>): (x: Exchange)
    ensures body.None? ==> x == Exchange(NoCall, Failure(StatusBadRequest))
    ensures Answered(x, StatusUnauthorized) <==> body.Some? && !AccessGate(header, p, now)
    ensures body.Some? && AccessGate(header, p, now) && Atoi(p.claims.subject).None? ==>
              x == Exchange(NoCall, Reply([], []))
    ensures x.call.CallCreateChirp? <==> body.Some? && AccessGate(header, p, now) && Atoi(p.claims.subject).Some?
    ensures x.call.CallCreateChirp? ==> x.call == CallCreateChirp(Atoi(p.claims.subject).value, body.value)
    ensures x.call.CallCreateChirp? && created.Ok? ==> x.reply == Reply([], [ChirpJson(created.value)])
    ensures x.call.CallCreateChirp? && created.Err? ==> x.reply == Failure(StatusInternalServerError)
    ensures x.reply.Aborted? <==> x.call.CallCreateChirp? && created.Panicked?
  {
    if body.None? then Exchange(NoCall, Failure(StatusBadRequest))
    else if header == "" then Exchange(NoCall, Failure(StatusUnauthorized))
    else if !Verified(p) then Exchange(NoCall, Failure(StatusUnauthorized))
    else if p.claims.issuer != AccessIssuer then Exchange(NoCall, Failure(StatusUnauthorized))
    else if Expired(p.claims, now) then Exchange(NoCall, Failure(StatusUnauthorized))
    else
      var author := Atoi(p.claims.subject);
      if author.None? then Exchange(NoCall, Reply([], []))
      else
        var call := CallCreateChirp(author.value, body.value);
        if !created.Ok? then Exchange(call, Refused(created, StatusInternalServerError))
        else Exchange(call, Reply([], [ChirpJson(created.value)]))
  }

  /**
   * GetChirpIDHandler (and its older copy in internal/database/db.go): a non-numeric id
   * gives 400; otherwise the answer is the element at position id - 1 of the listing, and
   * a position outside the listing panics.
   */
  function GetChirpIDHandler(idText: string, listing: Result<seq<Chirp>>): (x: Exchange)
    ensures Atoi(idText).None? <==> x == Exchange(NoCall, Failure(StatusBadRequest))
    ensures Atoi(idText).Some? ==> x.call == CallGetChirps
    ensures Atoi(idText).Some? && listing.Err? ==> x.reply == Failure(StatusInternalServerError)
    ensures Atoi(idText).Some? && listing.Ok? ==>
              var id := Atoi(idText).value;
              && (1 <= id <= |listing.value| ==> x.reply == Reply([StatusOK], [ChirpJson(listing.value[id - 1])]))
              && (!(1 <= id <= |listing.value|) ==> x.reply.Aborted?)
  {
    var id := Atoi(idText);
    if id.None? then Exchange(NoCall, Failure(StatusBadRequest))
    else if !listing.Ok? then Exchange(CallGetChirps, Refused(listing, StatusInternalServerError))
    else if 1 <= id.value <= |listing.value| then
      Exchange(CallGetChirps, Reply([StatusOK], [ChirpJson(listing.value[id.value - 1])]))
    else Exchange(CallGetChirps, Aborted)
  }

  /** GetChirpsHandler (and its older copy): the listing with 200, or 500 when it could not be read. */
  function GetChirpsHandler(listing: Result<seq<Chirp>>): (x: Exchange)
    ensures x.call == CallGetChirps
    ensures listing.Ok? ==> x.reply == Reply([StatusOK], [ChirpList(listing.value)])
    ensures listing.Err? ==> x.reply == Failure(StatusInternalServerError)
    ensures x.reply.Aborted? <==> listing.Panicked?
  {
    if !listing.Ok? then Exchange(CallGetChirps, Refused(listing, StatusInternalServerError))
    else Exchange(CallGetChirps, Reply([StatusOK], [ChirpList(listing.value)]))
  }

  /**
   * CreateUserHandler: a malformed body gives 400; the plaintext password goes to
   * CreateUser, any error of which (a taken email included) gives 500; success gives 201
   * with only the id and email.
   */
  function CreateUserHandler(request: Option<Credentials>, created: Result<User>): (x: Exchange)
    ensures request.None? <==> x == Exchange(NoCall, Failure(StatusBadRequest))
    ensures request.Some? ==> x.call == CallCreateUser(request.value.email, Plain(request.value.password))
    ensures request.Some? && created.Ok? ==> x.reply == Reply([StatusCreated], [UserJson(created.value.id, created.value.email)])
    ensures request.Some? && created.Err? ==> x.reply == Failure(StatusInternalServerError)
  {
    if request.None? then Exchange(NoCall, Failure(StatusBadRequest))
    else
      var call := CallCreateUser(request.value.email, Plain(request.value.password));
      if !created.Ok? then Exchange(call, Refused(created, StatusInternalServerError))
      else Exchange(call, Reply([StatusCreated], [UserJson(created.value.id, created.value.email)]))
  }

  /**
   * The older CreateUserHandler of internal/database/db.go: the handler hashes the password
   * and passes the hash to CreateUser, which hashes it again. When bcrypt refuses the
   * password the handler writes 500 and carries on with an empty hash.
   */
  function LegacyCreateUserHandler(request: Option<Credentials>, created: Result<User>): (x: Exchange)
    ensures request.None? <==> x == Exchange(NoCall, Failure(StatusBadRequest))
    ensures request.Some? && !HashFails(Plain(request.value.password)) ==>
              x.call == CallCreateUser(request.value.email, Hashed(Plain(request.value.password)))
    ensures request.Some? && HashFails(Plain(request.value.password)) ==>
              x.call == CallCreateUser(request.value.email, Plain(""))
              && (x.reply.Reply? ==> StatusOf(x.reply) == StatusInternalServerError)
    ensures request.Some? && created.Ok? ==>
              x.reply.Reply? && |x.reply.bodies| > 0 && x.reply.bodies[|x.reply.bodies| - 1] == UserJson(created.value.id, created.value.email)
    ensures request.Some? && !HashFails(Plain(request.value.password)) && created.Ok? ==> Answered(x, StatusCreated)
  {
    if request.None? then Exchange(NoCall, Failure(StatusBadRequest))
    else
      var refused := HashFails(Plain(request.value.password));
      var statuses := if refused then [StatusInternalServerError] else [];
      var bodies := if refused then [ErrorText] else [];
      var hash := if refused then Plain("") else Hashed(Plain(request.value.password));
      var call := CallCreateUser(request.value.email, hash);
      if created.Panicked? then Exchange(call, Aborted)
      else if created.Err? then Exchange(call, Reply(statuses + [StatusInternalServerError], bodies + [ErrorText]))
      else Exchange(call, Reply(statuses + [StatusCreated], bodies + [UserJson(created.value.id, created.value.email)]))
  }

  /**
   * UpdateUserHandler: the expiry is checked before the issuer, and only refresh tokens are
   * turned away, so tokens of any other issuer pass; a subject that is not a number gives
   * 400, then a malformed body gives 400; the user updated is the token's subject, and
   * success gives 201 with the id and email.
   */
  function UpdateUserHandler(header: string, p: Parse, now: int, request: Option<Credentials>, updated: Result<User>): (x: Exchange)
    ensures Answered(x, StatusUnauthorized) <==> !UpdateGate(header, p, now)
    ensures UpdateGate(header, p, now) && Atoi(p.claims.subject).None? ==> x == Exchange(NoCall, Failure(StatusBadRequest))
    ensures UpdateGate(header, p, now) && request.None? ==> x == Exchange(NoCall, Failure(StatusBadRequest))
    ensures x.call.CallUpdateUser? <==> UpdateGate(header, p, now) && Atoi(p.claims.subject).Some? && request.Some?
    ensures x.call.CallUpdateUser? ==>
              && x.call == CallUpdateUser(Atoi(p.claims.subject).value, request.value.email, request.value.password)
              && (updated.Ok? ==> x.reply == Reply([StatusCreated], [UserJson(updated.value.id, updated.value.email)]))
              && (updated.Err? ==> x.reply == Failure(StatusInternalServerError))
              && (updated.Panicked? ==> x.reply.Aborted?)
  {
    if header == "" then Exchange(NoCall, Failure(StatusUnauthorized))
    else if !Verified(p) then Exchange(NoCall, Failure(StatusUnauthorized))
    else if Expired(p.claims, now) then Exchange(NoCall, Failure(StatusUnauthorized))
    else if p.claims.issuer == RefreshIssuer then Exchange(NoCall, Failure(StatusUnauthorized))
    else
      var userID := Atoi(p.claims.subject);
      if userID.None? then Exchange(NoCall, Failure(StatusBadRequest))
      else if request.None? then Exchange(NoCall, Failure(StatusBadRequest))
      else
        var call := CallUpdateUser(userID.value, request.value.email, request.value.password);
        if !updated.Ok? then Exchange(call, Refused(updated, StatusInternalServerError))
        else Exchange(call, Reply([StatusCreated], [UserJson(updated.value.id, updated.value.email)]))
  }

  /**
   * WebhookHandler: the header must be the API key, an "ApiKey " prefix being optional; a
   * malformed body gives 400; any other event than "user.upgraded" writes 200 without
   * returning, and the user named in the body is upgraded whatever the event.
   */
  function WebhookHandler(header: string, cfg: Config, request: Option<WebhookEvent>, updated: Result<User>): (x: Exchange)
    ensures !KeyGate(header, cfg) <==> x == Exchange(NoCall, Failure(StatusUnauthorized))
    ensures KeyGate(header, cfg) && request.None? ==> x == Exchange(NoCall, Failure(StatusBadRequest))
    ensures KeyGate(header, cfg) && request.Some? ==> x.call == CallUpdateMembership(request.value.userID, true)
    ensures KeyGate(header, cfg) && request.Some? && request.value.event != UpgradeEvent ==>
              (x.reply.Reply? ==> StatusOf(x.reply) == StatusOK)
    ensures KeyGate(header, cfg) && request.Some? && request.value.event == UpgradeEvent ==>
              && (updated.Ok? ==> x.reply == Reply([StatusCreated], [MembershipJson(updated.value.membership)]))
              && (updated.Err? ==> x.reply == Failure(StatusInternalServerError))
    ensures x.reply.Aborted? <==> KeyGate(header, cfg) && request.Some? && updated.Panicked?
  {
    if header == "" then Exchange(NoCall, Failure(StatusUnauthorized))
    else if TrimPrefix(header, "ApiKey ") != cfg.apiKey then Exchange(NoCall, Failure(StatusUnauthorized))
    else if request.None? then Exchange(NoCall, Failure(StatusBadRequest))
    else
      var call := CallUpdateMembership(request.value.userID, true);
      var (status, body) :=
        if updated.Ok? then (StatusCreated, MembershipJson(updated.value.membership))
        else (StatusInternalServerError, ErrorText);
      if updated.Panicked? then Exchange(call, Aborted)
      else if request.value.event != UpgradeEvent then Exchange(call, Reply([StatusOK, status], [body]))
      else Exchange(call, Reply([status], [body]))
  }
}
