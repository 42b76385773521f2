/**
 * The chirps map of the document, as CreateChirp, DeleteChirp and GetChirps change and
 * read it (internal/database/chirp.go), and the facts that follow from count-based ids.
 */
module ChirpTable {
  import opened Records

  /** The chirps after CreateChirp: a chirp with the next id, stored under that id (overwriting any chirp there). */
  function AddChirp(chirps: map<int, Chirp>, authorID: int, body: string): map<int, Chirp> {
    chirps[NextId(chirps) := Chirp(NextId(chirps), authorID, body)]
  }

  /** The chirps after a successful DeleteChirp of key `id`. */
  function RemoveChirp(chirps: map<int, Chirp>, id: int): map<int, Chirp> {
    chirps - {id}
  }

  /** Every chirp is stored under its own id. */
  ghost predicate ChirpKeysMatchIds(chirps: map<int, Chirp>) {
    forall k | k in chirps :: chirps[k].id == k
  }

  /** The integers 1..n. */
  function Range(n: nat): set<int> {
    if n == 0 then {} else Range(n - 1) + {n}
  }

  lemma {:induction false} InRange(n: nat, k: int)
    ensures k in Range(n) <==> 1 <= k <= n
  {
    if n > 0 {
      InRange(n - 1, k);
    }
  }

  /** The keys are exactly 1..n: what the table looks like while no chirp has been deleted. */
  ghost predicate DenseKeys(chirps: map<int, Chirp>, n: nat) {
    chirps.Keys == Range(n)
  }

  lemma {:induction false} RangeSize(n: nat)
    ensures |Range(n)| == n
  {
    if n > 0 {
      InRange(n - 1, n);
      RangeSize(n - 1);
    }
  }

  /** CreateChirp keeps every chirp under its own id. */
  lemma AddChirpKeepsIds(chirps: map<int, Chirp>, authorID: int, body: string)
    requires ChirpKeysMatchIds(chirps)
    ensures ChirpKeysMatchIds(AddChirp(chirps, authorID, body))
  {
  }

  /** DeleteChirp keeps every chirp under its own id. */
  lemma RemoveChirpKeepsIds(chirps: map<int, Chirp>, id: int)
    requires ChirpKeysMatchIds(chirps)
    ensures ChirpKeysMatchIds(RemoveChirp(chirps, id))
  {
  }

  /** CreateChirp adds an entry only when the next id is not already a key; otherwise the count stays. */
  lemma AddChirpCount(chirps: map<int, Chirp>, authorID: int, body: string)
    ensures NextId(chirps) in chirps ==> |AddChirp(chirps, authorID, body)| == |chirps|
    ensures NextId(chirps) !in chirps ==> |AddChirp(chirps, authorID, body)| == |chirps| + 1
  {
  }

  /** While no chirp has been deleted, the next id is fresh and creating keeps the keys dense. */
  lemma {:induction false} AddChirpToDense(chirps: map<int, Chirp>, n: nat, authorID: int, body: string)
    requires DenseKeys(chirps, n)
    ensures NextId(chirps) == n + 1 && NextId(chirps) !in chirps
    ensures DenseKeys(AddChirp(chirps, authorID, body), n + 1)
    ensures |AddChirp(chirps, authorID, body)| == |chirps| + 1
  {
    RangeSize(n);
    InRange(n, n + 1);
    assert |chirps| == |chirps.Keys| == n;
  }

  /**
   * Deleting any chirp but the newest of a dense table and then creating one reuses the
   * newest chirp's id: that chirp is overwritten and the count does not grow back.
   */
  lemma {:induction false} DeleteThenCreateOverwrites(chirps: map<int, Chirp>, n: nat, id: int, authorID: int, body: string)
    requires DenseKeys(chirps, n) && ChirpKeysMatchIds(chirps)
    requires 1 <= id < n
    ensures NextId(RemoveChirp(chirps, id)) == n && n in RemoveChirp(chirps, id)
    ensures |AddChirp(RemoveChirp(chirps, id), authorID, body)| == n - 1
    ensures AddChirp(RemoveChirp(chirps, id), authorID, body)[n] == Chirp(n, authorID, body)
    ensures chirps[n] != Chirp(n, authorID, body) ==>
              chirps[n] !in AddChirp(RemoveChirp(chirps, id), authorID, body).Values
  {
    RangeSize(n);
    InRange(n, id);
    InRange(n, n);
    var removed := RemoveChirp(chirps, id);
    assert removed.Keys == chirps.Keys - {id};
    assert |removed.Keys| == n - 1;
    var after := AddChirp(removed, authorID, body);
    assert after == removed[n := Chirp(n, authorID, body)];
    if chirps[n] != Chirp(n, authorID, body) {
      forall k | k in after
        ensures after[k] != chirps[n]
      {
        if k != n {
          assert after[k] == chirps[k] && chirps[k].id == k;
        }
      }
    }
  }

  /** The GetChirps comparator: a chirp sorts before another only when both its author id and its id are smaller. */
  predicate ListingLess(a: Chirp, b: Chirp) {
    a.authorID < b.authorID && a.id < b.id
  }

  /** Neither chirp sorts before the other. */
  predicate Incomparable(a: Chirp, b: Chirp) {
    !ListingLess(a, b) && !ListingLess(b, a)
  }

  /**
   * sort.Slice needs a strict weak ordering, in which being incomparable is transitive.
   * ListingLess is not one, so the order GetChirps produces is left unspecified.
   */
  lemma ListingLessNotStrictWeakOrder()
    ensures exists a: Chirp, b: Chirp, c: Chirp :: Incomparable(a, b) && Incomparable(b, c) && ListingLess(a, c)
  {
    var a, b, c := Chirp(1, 1, ""), Chirp(3, 0, ""), Chirp(2, 2, "");
    assert Incomparable(a, b) && Incomparable(b, c) && ListingLess(a, c);
  }

  /** No later chirp sorts before an earlier one: a listing the comparator accepts as sorted. */
  predicate NoInversions(r: seq<Chirp>) {
    forall i, j | 0 <= i < j < |r| :: !ListingLess(r[j], r[i])
  }

  /** Ascending by author id, ties broken by ascending id. */
  predicate SortedByAuthorThenId(r: seq<Chirp>) {
    forall i, j | 0 <= i < j < |r| ::
      r[i].authorID < r[j].authorID || (r[i].authorID == r[j].authorID && r[i].id < r[j].id)
  }

  /**
   * Chirps 1, 2, 3 by authors 2, 1, 2, listed in id order, have no inversion under the
   * comparator (the insertion pass sort.Slice runs on short slices leaves them in place),
   * yet they are not ordered by author: the comparator does not give author-then-id order.
   */
  lemma AuthorOrderNotGuaranteed()
    ensures NoInversions([Chirp(1, 2, "a"), Chirp(2, 1, "b"), Chirp(3, 2, "c")])
    ensures !SortedByAuthorThenId([Chirp(1, 2, "a"), Chirp(2, 1, "b"), Chirp(3, 2, "c")])
  {
    var r := [Chirp(1, 2, "a"), Chirp(2, 1, "b"), Chirp(3, 2, "c")];
    assert r[0].authorID > r[1].authorID;
  }

  /** `r` lists the values of `m` under the distinct keys `keys`, every key of `m` exactly once. */
  ghost predicate ListsEntries<V>(m: map<int, V>, r: seq<V>, keys: seq<int>) {
    && |r| == |keys|
    && (forall i | 0 <= i < |keys| :: keys[i] in m && r[i] == m[keys[i]])
    && (forall i, j | 0 <= i < j < |keys| :: keys[i] != keys[j])
    && (forall k | k in m :: k in keys)
  }

  /** A listing has exactly as many elements as the map has entries. */
  lemma {:induction false} ListingSize<V>(m: map<int, V>, r: seq<V>, keys: seq<int>)
    requires ListsEntries(m, r, keys)
    ensures |r| == |m|
    decreases |keys|
  {
    if |keys| == 0 {
      assert forall k | k in m :: k in keys;
      assert m == map[];
    } else {
      var n := |keys| - 1;
      var shorter := m - {keys[n]};
      assert ListsEntries(shorter, r[..n], keys[..n]) by {
        forall k | k in shorter
          ensures k in keys[..n]
        {
          var i :| 0 <= i < |keys| && keys[i] == k;
          assert i != n;
        }
      }
      ListingSize(shorter, r[..n], keys[..n]);
      assert m.Keys == shorter.Keys + {keys[n]};
    }
  }

  /** Ascending by id. */
  predicate SortedById(r: seq<Chirp>) {
    forall i, j | 0 <= i < j < |r| :: r[i].id <= r[j].id
  }

  /** Strictly ascending by id. */
  predicate StrictlySortedById(r: seq<Chirp>) {
    forall i, j | 0 <= i < j < |r| :: r[i].id < r[j].id
  }

  /** A listing of a table whose keys match the ids, sorted by id, is strictly sorted: no id repeats. */
  lemma SortedListingIsStrict(m: map<int, Chirp>, r: seq<Chirp>, keys: seq<int>)
    requires ListsEntries(m, r, keys) && ChirpKeysMatchIds(m) && SortedById(r)
    ensures StrictlySortedById(r)
  {
    forall i, j | 0 <= i < j < |r|
      ensures r[i].id < r[j].id
    {
      assert r[i].id == keys[i] && r[j].id == keys[j];
    }
  }
}
