/**
 * The whole-document store (internal/database): a DB names one file, and every operation
 * loads the whole document from it, changes one map of the loaded copy, and writes the
 * whole document back. The file is the `file` field; whether the path can be written is
 * the `writable` constant, so a write either always succeeds or always fails.
 */
module Database {
  import opened Records
  import opened ChirpTable
  import opened UserTable
  import opened TokenTable

  /** The document ensureDB writes when it finds no file: an empty chirps map, nil users and tokens. */
  const InitialDocument := Document(Made(map[]), Nil, Nil)

  /** The file an open with O_CREATE leaves behind: a missing file becomes an empty one. */
  function Created(f: FileContent): FileContent {
    if f.Missing? then Undecodable else f
  }

  class DB {
    /** What the database file holds. */
    var file: FileContent
    /** Whether the file can be opened for writing (os.OpenFile, os.Create). */
    const writable: bool

    constructor (file: FileContent, writable: bool)
      ensures this.file == file && this.writable == writable
    {
      this.file := file;
      this.writable := writable;
    }

    /**
     * loadDB: os.Open fails on a missing file, decoding fails on an empty or malformed one,
     * otherwise the stored document is returned. Loading changes nothing.
     */
    function LoadDB(): (r: Result<Document>)
      reads this
      ensures r.Ok? <==> file.Holds?
      ensures r.Ok? ==> file == Holds(r.value)
      ensures r.Err? ==> r.error == (if file.Missing? then OpenFailed else DecodeFailed)
    {
      match file
      case Missing => Err(OpenFailed)
      case Undecodable => Err(DecodeFailed)
      case Holds(d) => Ok(d)
    }

    /** writeDB: os.Create truncates and the whole document is encoded; nothing is merged. */
    method WriteDB(d: Document) returns (err: Option<Error>)
      modifies this`file
      ensures err.None? <==> writable
      ensures err.None? ==> LoadDB() == Ok(d)
      ensures err.Some? ==> err.value == WriteFailed && file == old(file)
    {
      if !writable {
        return Some(WriteFailed);
      }
      file := Holds(d);
      return None;
    }

    /** ensureDB: a file that exists is left alone; a missing one gets the initial document. */
    method EnsureDB() returns (err: Option<Error>)
      modifies this`file
      ensures !old(file).Missing? ==> err.None? && file == old(file)
      ensures old(file).Missing? && writable ==> err.None? && LoadDB() == Ok(InitialDocument)
      ensures old(file).Missing? && !writable ==> err == Some(WriteFailed) && file == Missing
    {
      if !file.Missing? {
        return None;
      }
      err := WriteDB(InitialDocument);
    }

    /**
     * CreateChirp: a chirp with id len(chirps) + 1 by `authorID`, stored under that id,
     * overwriting whatever chirp is already there. A nil chirps map makes the assignment panic.
     */
    method CreateChirp(authorID: int, body: string) returns (r: Result<Chirp>)
      modifies this`file
      ensures old(LoadDB()).Err? ==> r == Err(old(LoadDB()).error) && file == old(file)
      ensures old(LoadDB()).Ok? && old(LoadDB()).value.chirps.Nil? ==> r.Panicked? && file == old(file)
      ensures old(LoadDB()).Ok? && old(LoadDB()).value.chirps.Made? ==>
        var d := old(LoadDB()).value;
        var chirps := d.chirps.entries;
        if writable then
          && r == Ok(Chirp(NextId(chirps), authorID, body))
          && LoadDB() == Ok(d.(chirps := Made(AddChirp(chirps, authorID, body))))
        else
          r == Err(WriteFailed) && file == old(file)
    {
      var loaded := LoadDB();
      if !loaded.Ok? {
        return Err(loaded.error);
      }
      var d := loaded.value;
      if d.chirps.Nil? {
        return Panicked;
      }
      var id := NextId(d.chirps.entries);
      var chirp := Chirp(id, authorID, body);
      var e := WriteDB(d.(chirps := Made(d.chirps.entries[id := chirp])));
      if e.Some? {
        return Err(e.value);
      }
      return Ok(chirp);
    }

    /**
     * GetChirps: every stored chirp exactly once, in the order the map was ranged over
     * (`keys` records which key each element came from). Nothing is written.
     */
    method GetChirps() returns (r: Result<seq<Chirp>>, ghost keys: seq<int>)
      ensures LoadDB().Err? ==> r == Err(LoadDB().error)
      ensures LoadDB().Ok? ==> r.Ok? && ListsEntries(LoadDB().value.chirps.Entries(), r.value, keys)
      ensures LoadDB().Ok? ==> |r.value| == |LoadDB().value.chirps.Entries()|
    {
      var loaded := LoadDB();
      if !loaded.Ok? {
        return Err(loaded.error), [];
      }
      var m := loaded.value.chirps.Entries();
      var chirps: seq<Chirp> := [];
      keys := [];
      var rest := m.Keys;
      while rest != {}
        invariant rest <= m.Keys
        invariant |chirps| == |keys|
        invariant forall i | 0 <= i < |keys| :: keys[i] in m && keys[i] !in rest && chirps[i] == m[keys[i]]
        invariant forall i, j | 0 <= i < j < |keys| :: keys[i] != keys[j]
        invariant forall k | k in m && k !in rest :: k in keys
        decreases rest
      {
        var k := AnyKey(rest);
        chirps := chirps + [m[k]];
        keys := keys + [k];
        rest := rest - {k};
      }
      ListingSize(m, chirps, keys);
      return Ok(chirps), keys;
    }

    /**
     * The older GetChirps of internal/database/db.go: every stored chirp exactly once,
     * ordered by id. The ordering is built by repeatedly taking the remaining chirp with
     * the smallest id.
     */
    method LegacyGetChirps() returns (r: Result<seq<Chirp>>, ghost keys: seq<int>)
      ensures LoadDB().Err? ==> r == Err(LoadDB().error)
      ensures LoadDB().Ok? ==> && r.Ok?
                               && ListsEntries(LoadDB().value.chirps.Entries(), r.value, keys)
                               && SortedById(r.value)
      ensures LoadDB().Ok? && ChirpKeysMatchIds(LoadDB().value.chirps.Entries()) ==>
                StrictlySortedById(r.value)
    {
      var loaded := LoadDB();
      if !loaded.Ok? {
        return Err(loaded.error), [];
      }
      var m := loaded.value.chirps.Entries();
      var chirps: seq<Chirp> := [];
      keys := [];
      var rest := m.Keys;
      while rest != {}
        invariant rest <= m.Keys
        invariant |chirps| == |keys|
        invariant forall i | 0 <= i < |keys| :: keys[i] in m && keys[i] !in rest && chirps[i] == m[keys[i]]
        invariant forall i, j | 0 <= i < j < |keys| :: keys[i] != keys[j]
        invariant forall k | k in m && k !in rest :: k in keys
        invariant SortedById(chirps)
        invariant forall i, k | 0 <= i < |chirps| && k in rest :: chirps[i].id <= m[k].id
        decreases rest
      {
        var k := LeastIdKey(m, rest);
        chirps := chirps + [m[k]];
        keys := keys + [k];
        rest := rest - {k};
      }
      if ChirpKeysMatchIds(m) {
        SortedListingIsStrict(m, chirps, keys);
      }
      return Ok(chirps), keys;
    }

    /**
     * DeleteChirp: "chirp not found" when key `id` is absent, "unauthorised" when the chirp
     * there has another author, and otherwise the document without key `id` is written.
     */
    method DeleteChirp(authorID: int, id: int) returns (err: Option<Error>)
      modifies this`file
      ensures old(LoadDB()).Err? ==> err == Some(old(LoadDB()).error) && file == old(file)
      ensures old(LoadDB()).Ok? ==>
        var d := old(LoadDB()).value;
        var chirps := d.chirps.Entries();
        && (id !in chirps ==> err == Some(NotFound) && file == old(file))
        && (id in chirps && chirps[id].authorID != authorID ==> err == Some(Unauthorised) && file == old(file))
        && (id in chirps && chirps[id].authorID == authorID ==>
              if writable then err.None? && LoadDB() == Ok(d.(chirps := Made(RemoveChirp(chirps, id))))
              else err == Some(WriteFailed) && file == old(file))
    {
      var loaded := LoadDB();
      if !loaded.Ok? {
        return Some(loaded.error);
      }
      var d := loaded.value;
      var chirps := d.chirps.Entries();
      if id !in chirps {
        return Some(NotFound);
      }
      if chirps[id].authorID != authorID {
        return Some(Unauthorised);
      }
      err := WriteDB(d.(chirps := Made(chirps - {id})));
    }

    /**
     * CreateUser: refused when any stored user has exactly this email; otherwise the user
     * gets id len(users) + 1 and a hash of `password`. bcrypt refusing the password, a nil
     * users map (the assignment panics) and a failed write come next, in that order.
     */
    method CreateUser(email: string, password: Secret) returns (r: Result<User>)
      modifies this`file
      ensures old(LoadDB()).Err? ==> r == Err(old(LoadDB()).error) && file == old(file)
      ensures old(LoadDB()).Ok? ==>
        var d := old(LoadDB()).value;
        var users := d.users.Entries();
        && (EmailInUse(users, email) ==> r == Err(DuplicateEmail) && file == old(file))
        && (!EmailInUse(users, email) && HashFails(password) ==> r == Err(HashFailed) && file == old(file))
        && (!EmailInUse(users, email) && !HashFails(password) && d.users.Nil? ==> r.Panicked? && file == old(file))
        && (!EmailInUse(users, email) && !HashFails(password) && d.users.Made? ==>
              if writable then
                && r == Ok(NewUser(users, email, password))
                && LoadDB() == Ok(d.(users := Made(AddUser(users, email, password))))
              else r == Err(WriteFailed) && file == old(file))
    {
      var loaded := LoadDB();
      if !loaded.Ok? {
        return Err(loaded.error);
      }
      var d := loaded.value;
      var users := d.users.Entries();
      var rest := users.Keys;
      while rest != {}
        invariant rest <= users.Keys
        invariant forall k | k in users && k !in rest :: users[k].email != email
        invariant file == old(file)
        decreases rest
      {
        var k := AnyKey(rest);
        if users[k].email == email {
          return Err(DuplicateEmail);
        }
        rest := rest - {k};
      }
      var id := NextId(users);
      if HashFails(password) {
        return Err(HashFailed);
      }
      var user := User(id, email, Hashed(password), false);
      if d.users.Nil? {
        return Panicked;
      }
      var e := WriteDB(d.(users := Made(users[id := user])));
      if e.Some? {
        return Err(e.value);
      }
      return Ok(user);
    }

    /**
     * GetUserbyEmail: some stored user with exactly this email (which one, when several
     * share it, depends on map order), or "User not found".
     */
    method GetUserbyEmail(email: string) returns (r: Result<User>)
      ensures LoadDB().Err? ==> r == Err(LoadDB().error)
      ensures LoadDB().Ok? ==>
        var users := LoadDB().value.users.Entries();
        && (EmailInUse(users, email) ==> r.Ok? && r.value.email == email && Stored(users, r.value))
        && (!EmailInUse(users, email) ==> r == Err(NotFound))
    {
      var loaded := LoadDB();
      if !loaded.Ok? {
        return Err(loaded.error);
      }
      var users := loaded.value.users.Entries();
      var rest := users.Keys;
      while rest != {}
        invariant rest <= users.Keys
        invariant forall k | k in users && k !in rest :: users[k].email != email
        decreases rest
      {
        var k := AnyKey(rest);
        if users[k].email == email {
          return Ok(users[k]);
        }
        rest := rest - {k};
      }
      return Err(NotFound);
    }

    /** GetUser: some stored user whose `id` field is `userID`, or "User not found". */
    method GetUser(userID: int) returns (r: Result<User>)
      ensures LoadDB().Err? ==> r == Err(LoadDB().error)
      ensures LoadDB().Ok? ==>
        var users := LoadDB().value.users.Entries();
        && (HoldsId(users, userID) ==> r.Ok? && r.value.id == userID && Stored(users, r.value))
        && (!HoldsId(users, userID) ==> r == Err(NotFound))
    {
      var loaded := LoadDB();
      if !loaded.Ok? {
        return Err(loaded.error);
      }
      var users := loaded.value.users.Entries();
      var rest := users.Keys;
      while rest != {}
        invariant rest <= users.Keys
        invariant forall k | k in users && k !in rest :: users[k].id != userID
        decreases rest
      {
        var k := AnyKey(rest);
        if users[k].id == userID {
          return Ok(users[k]);
        }
        rest := rest - {k};
      }
      return Err(NotFound);
    }

    /**
     * UpdateUser: the user GetUser finds (`found`; the zero-valued user when it fails) gets
     * the new email and a hash of its stored password, and is stored under its own id.
     * The `password` argument is never read, emails are not checked for uniqueness, and a
     * failed write is only logged: the updated user is returned either way.
     */
    method UpdateUser(userID: int, email: string, password: string) returns (r: Result<User>, ghost found: User)
      modifies this`file
      ensures old(LoadDB()).Err? ==> r == Err(old(LoadDB()).error) && file == old(file)
      ensures old(LoadDB()).Ok? ==>
        var d := old(LoadDB()).value;
        var users := d.users.Entries();
        && FoundById(users, userID, found)
        && (HashFails(found.password) ==> r == Err(HashFailed) && file == old(file))
        && (!HashFails(found.password) && d.users.Nil? ==> r.Panicked? && file == old(file))
        && (!HashFails(found.password) && d.users.Made? ==>
              && r == Ok(Reprofiled(found, email))
              && (writable ==> LoadDB() == Ok(d.(users := Made(users[found.id := Reprofiled(found, email)]))))
              && (!writable ==> file == old(file)))
    {
      var g := GetUser(userID);
      var user := if g.Ok? then g.value else ZeroUser;
      found := user;
      var index := user.id;
      var loaded := LoadDB();
      if !loaded.Ok? {
        return Err(loaded.error), found;
      }
      var d := loaded.value;
      if HashFails(user.password) {
        return Err(HashFailed), found;
      }
      user := user.(email := email, password := Hashed(user.password));
      if d.users.Nil? {
        return Panicked, found;
      }
      var _ := WriteDB(d.(users := Made(d.users.entries[index := user])));
      return Ok(user), found;
    }

    /**
     * UpdateMembership: the user GetUser finds (`found`; the zero-valued user when it fails)
     * gets the flag and is stored under its own id. A failed write is only logged.
     */
    method UpdateMembership(userID: int, membership: bool) returns (r: Result<User>, ghost found: User)
      modifies this`file
      ensures old(LoadDB()).Err? ==> r == Err(old(LoadDB()).error) && file == old(file)
      ensures old(LoadDB()).Ok? ==>
        var d := old(LoadDB()).value;
        var users := d.users.Entries();
        && FoundById(users, userID, found)
        && (d.users.Nil? ==> r.Panicked? && file == old(file))
        && (d.users.Made? ==>
              && r == Ok(found.(membership := membership))
              && (writable ==> LoadDB() == Ok(d.(users := Made(users[found.id := found.(membership := membership)]))))
              && (!writable ==> file == old(file)))
    {
      var g := GetUser(userID);
      var user := if g.Ok? then g.value else ZeroUser;
      found := user;
      var index := user.id;
      var loaded := LoadDB();
      if !loaded.Ok? {
        return Err(loaded.error), found;
      }
      var d := loaded.value;
      user := user.(membership := membership);
      if d.users.Nil? {
        return Panicked, found;
      }
      var _ := WriteDB(d.(users := Made(d.users.entries[index := user])));
      return Ok(user), found;
    }

    /**
     * RevokeToken: every entry already recording `tokenID` is overwritten with a fresh
     * record, and the document is written after each overwrite; the first failed write is
     * returned at once. No entry is ever added. A failed load returns the zero record.
     */
    method RevokeToken(tokenID: string, revokedAt: int) returns (token: RevokedToken, err: Option<Error>)
      modifies this`file
      ensures old(LoadDB()).Err? ==> token == ZeroToken && err == Some(old(LoadDB()).error) && file == old(file)
      ensures old(LoadDB()).Ok? ==>
        var d := old(LoadDB()).value;
        var tokens := d.tokens.Entries();
        && token == RevokedToken(tokenID, revokedAt)
        && (!HasTokenId(tokens, tokenID) ==> err.None? && file == old(file))
        && (HasTokenId(tokens, tokenID) ==>
              if writable then err.None? && LoadDB() == Ok(d.(tokens := Made(RevokeMatching(tokens, tokenID, token))))
              else err == Some(WriteFailed) && file == old(file))
    {
      var loaded := LoadDB();
      if !loaded.Ok? {
        return ZeroToken, Some(loaded.error);
      }
      var d := loaded.value;
      token := RevokedToken(tokenID, revokedAt);
      var tokens := d.tokens.Entries();
      var current := tokens;
      var rest := tokens.Keys;
      ghost var wrote := false;
      while rest != {}
        invariant rest <= tokens.Keys
        invariant current.Keys == tokens.Keys
        invariant forall k | k in tokens :: current[k] == (if k !in rest && tokens[k].id == tokenID then token else tokens[k])
        invariant wrote <==> exists k | k in tokens && k !in rest :: tokens[k].id == tokenID
        invariant wrote ==> writable && file == Holds(d.(tokens := Made(current)))
        invariant !wrote ==> file == old(file)
        decreases rest
      {
        var k := AnyKey(rest);
        if tokens[k].id == tokenID {
          current := current[k := token];
          var e := WriteDB(d.(tokens := Made(current)));
          if e.Some? {
            return token, e;
          }
          wrote := true;
        }
        rest := rest - {k};
      }
      assert current.Keys == RevokeMatching(tokens, tokenID, token).Keys;
      assert forall k | k in current :: current[k] == RevokeMatching(tokens, tokenID, token)[k];
      assert current == RevokeMatching(tokens, tokenID, token);
      return token, None;
    }
  }

  /**
   * NewDB: the file is opened for reading and writing with O_CREATE, which fails when the
   * path cannot be written and otherwise creates an empty file where there was none; only
   * then does ensureDB look for the file, so it always finds one and writes nothing.
   */
  method NewDB(existing: FileContent, writable: bool) returns (db: DB?, err: Option<Error>)
    ensures !writable ==> db == null && err == Some(OpenFailed)
    ensures writable ==> && db != null && fresh(db) && err.None?
                         && db.writable && db.file == Created(existing)
    ensures writable && existing.Missing? ==> db.LoadDB() == Err(DecodeFailed)
  {
    if !writable {
      return null, Some(OpenFailed);
    }
    db := new DB(Created(existing), writable);
    err := db.EnsureDB();
    if err.Some? {
      return null, err;
    }
  }

  /** Some element of `s`: the next key a Go `for range` over a map visits, in no fixed order. */
  method AnyKey<K>(s: set<K>) returns (k: K)
    requires s != {}
    ensures k in s
  {
    k :| k in s;
  }

  /** `k` is a key in `rest` whose chirp has an id no larger than any other there. */
  predicate LeastId<K>(m: map<K, Chirp>, rest: set<K>, k: K)
    requires rest <= m.Keys
  {
    k in rest && forall j | j in rest :: m[k].id <= m[j].id
  }

  /** A key of `rest` holding the least id. */
  method LeastIdKey<K>(m: map<K, Chirp>, rest: set<K>) returns (k: K)
    requires rest != {} && rest <= m.Keys
    ensures LeastId(m, rest, k)
  {
    LeastIdExists(m, rest);
    k :| LeastId(m, rest, k);
  }

  /** Every non-empty set of keys has a key holding the least id. */
  lemma {:induction false} LeastIdExists<K>(m: map<K, Chirp>, rest: set<K>)
    requires rest != {} && rest <= m.Keys
    ensures exists k :: LeastId(m, rest, k)
    decreases rest
  {
    var x :| x in rest;
    if rest == {x} {
      assert LeastId(m, rest, x);
    } else {
      LeastIdExists(m, rest - {x});
      var y :| LeastId(m, rest - {x}, y);
      if m[x].id <= m[y].id {
        assert LeastId(m, rest, x);
      } else {
        assert LeastId(m, rest, y);
      }
    }
  }
}
