/** The records the store persists and the outcomes its operations return. */
module Records {

  datatype Option<+T> = None | Some(value: T)

  /** The Go `error` values the store operations return, one constructor per cause. */
  datatype Error =
    | OpenFailed        // os.Open of the database file failed
    | DecodeFailed      // the file held no JSON document (an empty file included)
    | WriteFailed       // os.Create of the database file failed
    | NotFound          // "chirp not found" / "User not found"
    | Unauthorised      // "unauthorised to delete a chirp"
    | DuplicateEmail    // "user with email ... already exists"
    | HashFailed        // bcrypt refused its input

  /** A store call returns a value, returns an error, or panics (an assignment into a nil Go map). */
  datatype Result<+T> = Ok(value: T) | Err(error: Error) | Panicked

  /**
   * A password as the store sees it: the plaintext a client sent, or a bcrypt hash of
   * another secret. Hashing is a constructor, so a hash is never equal to a plaintext
   * and hashing a hash gives a different value again.
   */
  datatype Secret = Plain(text: string) | Hashed(of: Secret)

  /** bcrypt.GenerateFromPassword refuses inputs longer than 72 bytes. */
  const MaxBcryptInput := 72

  /** Whether bcrypt.GenerateFromPassword fails on `s`; a stored hash is 60 bytes long and never does. */
  predicate HashFails(s: Secret) {
    s.Plain? && |s.text| > MaxBcryptInput
  }

  /** bcrypt.CompareHashAndPassword(stored, pw) succeeds exactly when `stored` is a hash of plaintext `pw`. */
  predicate Matches(stored: Secret, pw: string) {
    stored == Hashed(Plain(pw))
  }

  /** The id CreateChirp and CreateUser assign: one more than the number of entries (len(m) + 1). */
  function NextId<V>(m: map<int, V>): int {
    |m| + 1
  }

  /** A chirp; `id` is meant to equal the key it is stored under. */
  datatype Chirp = Chirp(id: int, authorID: int, body: string)

  /** A user account; `membership` is the "is_chirpy_red" flag. */
  datatype User = User(id: int, email: string, password: Secret, membership: bool)

  /** Go's zero-valued User{}: id 0, empty email, empty password, no membership. */
  const ZeroUser := User(0, "", Plain(""), false)

  /** Times are whole seconds since the Unix epoch; Go's zero time.Time is 1 January of year 1. */
  const ZeroTime := -62135596800

  /** An entry of the revocation list: the raw token string and when it was revoked. */
  datatype RevokedToken = RevokedToken(id: string, revokedAt: int)

  /** Go's zero-valued RevokedToken{}. */
  const ZeroToken := RevokedToken("", ZeroTime)

  /** What RevokeToken returns: a record, and an error that may accompany it. */
  datatype Revocation = Revocation(token: RevokedToken, err: Option<Error>)

  /**
   * A Go map field of the document: `Nil` is the nil map that JSON `null` (or an absent key)
   * decodes to. Reading a nil map behaves like reading an empty one; assigning into it panics.
   */
  datatype Table<V> = Nil | Made(entries: map<int, V>) {
    function Entries(): map<int, V> {
      if Nil? then map[] else entries
    }
  }

  /** The whole-document store: chirps, users and revoked tokens, each keyed by an integer. */
  datatype Document = Document(chirps: Table<Chirp>, users: Table<User>, tokens: Table<RevokedToken>)

  /** What the database file holds: nothing, bytes that do not decode, or a document. */
  datatype FileContent = Missing | Undecodable | Holds(doc: Document)
}
