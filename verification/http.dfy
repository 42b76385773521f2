/**
 * What a handler does, seen from outside: the store call it makes and the response it
 * writes. A Go ResponseWriter keeps the first status written (later WriteHeader calls
 * are ignored) and answers 200 when none was written; every encoded body is appended.
 */
module Http {
  import opened Records
  import opened Jwt

  const StatusOK := 200
  const StatusCreated := 201
  const StatusBadRequest := 400
  const StatusUnauthorized := 401
  const StatusInternalServerError := 500

  /** The store operation a handler invokes, with its arguments. */
  datatype Call =
    | NoCall
    | CallGetUserbyEmail(email: string)
    | CallCreateChirp(authorID: int, body: string)
    | CallGetChirps
    | CallCreateUser(email: string, password: Secret)
    | CallUpdateUser(userID: int, newEmail: string, newPassword: string)
    | CallUpdateMembership(userID: int, membership: bool)
    | CallRevokeToken(tokenID: string, revokedAt: int)

  /** A body written to the response: the fields of each JSON shape, or an error text. */
  datatype Payload =
    | ErrorText
    | ChirpJson(chirp: Chirp)
    | ChirpList(chirps: seq<Chirp>)
    | UserJson(id: int, email: string)
    | LoginJson(userID: int, userEmail: string, accessToken: Claims, refreshToken: Claims)
    | TokenJson(token: Claims)
    | RevokedJson(revoked: RevokedToken)
    | MembershipJson(isChirpyRed: bool)
    | CleanedJson(cleanedBody: string)

  /** The statuses written, in order, and the bodies written; or a panic that aborted the handler. */
  datatype Reply = Reply(statuses: seq<int>, bodies: seq<Payload>) | Aborted

  /** A handler run: the store call made and the reply. */
  datatype Exchange = Exchange(call: Call, reply: Reply)

  /** The status the client sees: the first one written, or 200 when none was. */
  function StatusOf(r: Reply): (s: int)
    requires r.Reply?
    ensures s in r.statuses || (r.statuses == [] && s == StatusOK)
    ensures s == StatusOK <==> (r.statuses == [] || r.statuses[0] == StatusOK)
  {
    if |r.statuses| == 0 then StatusOK else r.statuses[0]
  }

  /** Once a status is written, later statuses and bodies do not change what the client sees. */
  lemma LaterStatusesIgnored(r: Reply, more: seq<int>, extra: seq<Payload>)
    requires r.Reply? && |r.statuses| > 0
    ensures StatusOf(Reply(r.statuses + more, r.bodies + extra)) == StatusOf(r)
  {
  }

  /** http.Error and respondWithError: one status and an error text. */
  function Failure(status: int): Reply {
    Reply([status], [ErrorText])
  }
}
