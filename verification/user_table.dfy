/**
 * The users map of the document, as CreateUser, GetUser, UpdateUser and UpdateMembership
 * read and change it (internal/database/user.go).
 */
module UserTable {
  import opened Records

  /** Some stored user has exactly this (case-sensitive) email. */
  predicate EmailInUse(users: map<int, User>, email: string) {
    exists k | k in users :: users[k].email == email
  }

  /** Some stored user has this value in its `id` field (whatever key it is stored under). */
  predicate HoldsId(users: map<int, User>, id: int) {
    exists k | k in users :: users[k].id == id
  }

  /** The user CreateUser builds: the next id, the email, a hash of the password, no membership. */
  function NewUser(users: map<int, User>, email: string, password: Secret): User {
    User(NextId(users), email, Hashed(password), false)
  }

  /** The users after a successful CreateUser. */
  function AddUser(users: map<int, User>, email: string, password: Secret): map<int, User> {
    users[NextId(users) := NewUser(users, email, password)]
  }

  /** Every user is stored under its own id. */
  ghost predicate UserKeysMatchIds(users: map<int, User>) {
    forall k | k in users :: users[k].id == k
  }

  /** Every key lies in 0..len(users): enough for len(users) + 1 to be a fresh key. */
  ghost predicate KeysBounded(users: map<int, User>) {
    forall k | k in users :: 0 <= k <= |users|
  }

  /**
   * What GetUser hands to UpdateUser and UpdateMembership: a stored user whose `id` field is
   * `id`, or, when there is none, the zero-valued user its error return carries.
   */
  ghost predicate FoundById(users: map<int, User>, id: int, u: User) {
    (Stored(users, u) && u.id == id) || (!HoldsId(users, id) && u == ZeroUser)
  }

  /** `u` is one of the stored users. */
  ghost predicate Stored(users: map<int, User>, u: User) {
    exists k | k in users :: users[k] == u
  }

  /** The user GetUser finds by id when keys match ids, or the zero-valued user. */
  function Lookup(users: map<int, User>, id: int): User {
    if id in users then users[id] else ZeroUser
  }

  /** The user UpdateUser writes back: the new email, and a hash of the previously stored password. */
  function Reprofiled(u: User, email: string): User {
    u.(email := email, password := Hashed(u.password))
  }

  /** The users after UpdateMembership when keys match ids: the looked-up user, with the flag set, under its id. */
  function SetMembership(users: map<int, User>, id: int, membership: bool): map<int, User> {
    var u := Lookup(users, id);
    users[u.id := u.(membership := membership)]
  }

  /** When every user sits under its own id, the user GetUser finds is determined: Lookup. */
  lemma FoundIsLookup(users: map<int, User>, id: int, u: User)
    requires UserKeysMatchIds(users) && FoundById(users, id, u)
    ensures u == Lookup(users, id)
  {
    if Stored(users, u) && u.id == id {
      var k :| k in users && users[k] == u;
      assert k == id;
    } else {
      forall k | k in users
        ensures k != id
      {
        assert users[k].id == k;
      }
    }
  }

  /** Lookup is always a possible GetUser outcome when keys match ids. */
  lemma LookupIsFound(users: map<int, User>, id: int)
    requires UserKeysMatchIds(users)
    ensures FoundById(users, id, Lookup(users, id))
  {
    if id !in users {
      forall k | k in users
        ensures users[k].id != id
      {
        assert users[k].id == k;
      }
    }
  }

  /** A user id that no stored user carries makes UpdateUser and UpdateMembership write at key 0. */
  lemma UnknownIdTargetsKeyZero(users: map<int, User>, id: int, u: User)
    requires FoundById(users, id, u) && !HoldsId(users, id)
    ensures u == ZeroUser && u.id == 0
  {
    if Stored(users, u) {
      var k :| k in users && users[k] == u;
      assert users[k].id != id;
    }
  }

  /** With keys bounded, CreateUser never overwrites: the new key is fresh and the bound is kept. */
  lemma AddUserIsFresh(users: map<int, User>, email: string, password: Secret)
    requires KeysBounded(users)
    ensures NextId(users) !in users
    ensures |AddUser(users, email, password)| == |users| + 1
    ensures KeysBounded(AddUser(users, email, password))
  {
  }

  /** CreateUser keeps every user under its own id. */
  lemma AddUserKeepsIds(users: map<int, User>, email: string, password: Secret)
    requires UserKeysMatchIds(users)
    ensures UserKeysMatchIds(AddUser(users, email, password))
  {
  }

  /** The phantom write at key 0 keeps keys bounded, so a later CreateUser still gets a fresh key. */
  lemma WriteAtZeroKeepsBounded(users: map<int, User>, u: User)
    requires KeysBounded(users)
    ensures KeysBounded(users[0 := u])
  {
    if 0 !in users {
      assert |users[0 := u]| == |users| + 1;
    }
  }

  /** UpdateMembership keeps every user under its own id. */
  lemma SetMembershipKeepsIds(users: map<int, User>, id: int, membership: bool)
    requires UserKeysMatchIds(users)
    ensures UserKeysMatchIds(SetMembership(users, id, membership))
  {
  }

  /**
   * UpdateMembership touches one user and only its flag: the user under the looked-up id
   * is that user with the new flag, and every other user is unchanged.
   */
  lemma SetMembershipFrame(users: map<int, User>, id: int, membership: bool)
    requires UserKeysMatchIds(users)
    ensures var after := SetMembership(users, id, membership);
      && after.Keys == users.Keys + {Lookup(users, id).id}
      && after[Lookup(users, id).id] == Lookup(users, id).(membership := membership)
      && forall k | k in users && k != Lookup(users, id).id :: after[k] == users[k]
  {
  }

  /** Two UpdateMembership calls with the same flag leave the same users as one. */
  lemma {:induction false} SetMembershipIdempotent(users: map<int, User>, id: int, membership: bool)
    requires UserKeysMatchIds(users)
    ensures SetMembership(SetMembership(users, id, membership), id, membership)
            == SetMembership(users, id, membership)
  {
    var once := SetMembership(users, id, membership);
    var u := Lookup(users, id);
    if id in users {
      assert Lookup(once, id) == u.(membership := membership);
    } else if id == 0 {
      assert Lookup(once, id) == ZeroUser.(membership := membership);
    } else {
      assert Lookup(once, id) == ZeroUser;
    }
  }

  /** A user CreateUser stores can log in with the password it was created with. */
  lemma NewUserMatches(users: map<int, User>, email: string, pw: string)
    ensures Matches(NewUser(users, email, Plain(pw)).password, pw)
    ensures NewUser(users, email, Plain(pw)).password != Plain(pw)
  {
  }

  /**
   * After UpdateUser re-hashes the stored hash of a user's password, that password no
   * longer matches: the user is locked out of their own account.
   */
  lemma ReprofiledLocksOut(u: User, email: string, pw: string)
    requires u.password == Hashed(Plain(pw))
    ensures Matches(u.password, pw)
    ensures !Matches(Reprofiled(u, email).password, pw)
  {
  }

  /** The phantom user UpdateUser writes for an unknown id logs in with the empty password. */
  lemma PhantomAcceptsEmptyPassword(email: string)
    ensures Reprofiled(ZeroUser, email).id == 0
    ensures Matches(Reprofiled(ZeroUser, email).password, "")
  {
  }
}
