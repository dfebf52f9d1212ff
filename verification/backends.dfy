/** The storage backends behind a connection: the in-memory red-black set,
    a tiered pair of backends, and a backend whose calls fail. A range scan
    is drained to the ascending sequence it yields; reading it from the back
    gives the same keys in reverse (`RedBlackSet.RangeScan`,
    `MergeIters.MergedBackwardIsReverse`). */
module Backends {
  import opened Results
  import opened Bytes
  import opened Ids
  import opened SortedKeys
  import opened StorageErrors
  import RedBlackSet
  import MergeIters

  /** `Memory` is the red-black tree set backend; `Tiered` writes to `a`
      then `b` and reads both; `Failing` stands for a durable backend whose
      I/O fails with `error` on every call, and `ReadOnly` for one that
      serves the keys it holds but fails with `error` on every write. */
  datatype Store =
    | Memory(keys: seq<Key>, id: ID)
    | Tiered(a: Store, b: Store, id: ID)
    | Failing(error: StorageError, id: ID)
    | ReadOnly(keys: seq<Key>, error: StorageError, id: ID)

  /** Every in-memory set is held in ascending order. */
  predicate Valid(s: Store)
  {
    match s
    case Memory(keys, _) => Ordered(Forward, keys)
    case Tiered(a, b, _) => Valid(a) && Valid(b)
    case Failing(_, _) => true
    case ReadOnly(keys, _, _) => Ordered(Forward, keys)
  }

  /** The error of the first backend whose reads fail, `a` before `b`. */
  function FirstFailure(s: Store): Option<StorageError>
  {
    match s
    case Memory(_, _) => None
    case Tiered(a, b, _) => if FirstFailure(a).Some? then FirstFailure(a) else FirstFailure(b)
    case Failing(e, _) => Some(e)
    case ReadOnly(_, _, _) => None
  }

  /** Every read succeeds. */
  predicate Healthy(s: Store)
  {
    FirstFailure(s).None?
  }

  /** The error of the first backend whose writes fail, `a` before `b`. */
  function WriteFailure(s: Store): Option<StorageError>
  {
    match s
    case Memory(_, _) => None
    case Tiered(a, b, _) => if WriteFailure(a).Some? then WriteFailure(a) else WriteFailure(b)
    case Failing(e, _) => Some(e)
    case ReadOnly(_, e, _) => Some(e)
  }

  /** Every write succeeds. */
  predicate Writable(s: Store)
  {
    WriteFailure(s).None?
  }

  /** Every key some in-memory part holds. */
  function Contents(s: Store): set<Key>
  {
    match s
    case Memory(keys, _) => Elems(keys)
    case Tiered(a, b, _) => Contents(a) + Contents(b)
    case Failing(_, _) => {}
    case ReadOnly(keys, _, _) => Elems(keys)
  }

  lemma ItemsOfPair(x: seq<Key>, y: seq<Key>)
    ensures MergeIters.Items([x, y]) == Elems(x) + Elems(y)
  {
    forall k | k in Elems(x) + Elems(y)
      ensures k in MergeIters.Items([x, y])
    {
      if k in x {
        assert k in [x, y][0];
      } else {
        assert k in [x, y][1];
      }
    }
  }

  /** The keys of two ascending scans merged with every equal key taken
      from both sides. */
  function MergeScans(x: seq<Key>, y: seq<Key>): (r: seq<Key>)
    requires Ordered(Forward, x) && Ordered(Forward, y)
    ensures Ordered(Forward, r)
    ensures forall k :: k in r <==> k in x || k in y
  {
    ItemsOfPair(x, y);
    assert forall k :: k in Elems(x) <==> k in x;
    assert forall k :: k in Elems(y) <==> k in y;
    MergeIters.Keys(MergeIters.Merged(Forward, [x, y]))
  }

  /** `range(lo..hi)` drained from the front. */
  function Scan(s: Store, lo: Key, hi: Key): (r: Result<seq<Key>, StorageError>)
    requires Valid(s)
    ensures r.Ok? <==> Healthy(s)
    ensures r.Err? ==> Some(r.error) == FirstFailure(s)
    ensures r.Ok? ==> Ordered(Forward, r.value)
    ensures r.Ok? ==> forall k :: k in r.value <==> k in Contents(s) && InRange(lo, hi, k)
  {
    match s
    case Memory(keys, _) =>
      RedBlackSet.RangeScan(keys, lo, hi);
      Ok(RedBlackSet.DrainForward(RedBlackSet.Range(keys, lo, hi)))
    case Tiered(a, b, _) =>
      var ra :- Scan(a, lo, hi);
      var rb :- Scan(b, lo, hi);
      Ok(MergeScans(ra, rb))
    case Failing(e, _) => Err(e)
    case ReadOnly(keys, _, _) =>
      RedBlackSet.RangeScan(keys, lo, hi);
      Ok(RedBlackSet.DrainForward(RedBlackSet.Range(keys, lo, hi)))
  }

  /** A range that covers every key of an in-memory set yields the set. */
  lemma ScanCoversAll(keys: seq<Key>, lo: Key, hi: Key)
    requires Ordered(Forward, keys)
    requires forall k | k in keys :: InRange(lo, hi, k)
    ensures RedBlackSet.DrainForward(RedBlackSet.Range(keys, lo, hi)) == keys
  {
    RedBlackSet.RangeScan(keys, lo, hi);
    var r := RedBlackSet.DrainForward(RedBlackSet.Range(keys, lo, hi));
    assert Elems(r) == Elems(keys);
    OrderedUnique(Forward, r, keys);
  }

  /** The tiered scan over `MergeIters` as written. */
  function ScanAsWritten(s: Store, lo: Key, hi: Key): Result<seq<Key>, StorageError>
    requires Valid(s)
  {
    match s
    case Memory(keys, _) => Ok(RedBlackSet.DrainForward(RedBlackSet.Range(keys, lo, hi)))
    case Tiered(a, b, _) =>
      var ra :- ScanAsWritten(a, lo, hi);
      var rb :- ScanAsWritten(b, lo, hi);
      Ok(MergeIters.Keys(MergeIters.AsWritten(Forward, [ra, rb])))
    case Failing(e, _) => Err(e)
    case ReadOnly(keys, _, _) => Ok(RedBlackSet.DrainForward(RedBlackSet.Range(keys, lo, hi)))
  }

  /** A cache `a` holding a key its backing store `b` lacks, as after an
      insert that reached `a` but failed on `b`: the scan as written loses
      the key, the intended scan keeps it. */
  lemma TieredScanLosesCachedKey()
    ensures ScanAsWritten(Tiered(Memory([[1], [2]], 1), Memory([[1]], 2), 3), [], [9]) == Ok([[1]])
    ensures Scan(Tiered(Memory([[1], [2]], 1), Memory([[1]], 2), 3), [], [9]) == Ok([[1], [2]])
  {
    ScanAsWrittenOfCache();
    ScanOfCache();
  }

  lemma ScanAsWrittenOfCache()
    ensures ScanAsWritten(Tiered(Memory([[1], [2]], 1), Memory([[1]], 2), 3), [], [9]) == Ok([[1]])
  {
    var a: seq<Key> := [[1], [2]];
    var b: seq<Key> := [[1]];
    assert Below([1], [2]) && Below([1], [9]) && Below([2], [9]);
    ScanCoversAll(a, [], [9]);
    ScanCoversAll(b, [], [9]);
    MergeIters.CachedKeyLost();
  }

  lemma ScanOfCache()
    ensures Scan(Tiered(Memory([[1], [2]], 1), Memory([[1]], 2), 3), [], [9]) == Ok([[1], [2]])
  {
    var a: seq<Key> := [[1], [2]];
    assert Below([1], [2]) && Below([1], [9]) && Below([2], [9]);
    assert Ordered(Forward, a);
    TieredScanOfSuperset(a, [[1]], [], [9], 1, 2, 3);
  }

  /** When the cache `a` holds every key of `b` and the range covers both,
      the tiered scan yields exactly the cache. */
  lemma TieredScanOfSuperset(a: seq<Key>, b: seq<Key>, lo: Key, hi: Key, ia: ID, ib: ID, id: ID)
    requires Ordered(Forward, a) && Ordered(Forward, b)
    requires forall k | k in b :: k in a
    requires forall k | k in a :: InRange(lo, hi, k)
    ensures Valid(Memory(a, ia)) && Valid(Memory(b, ib)) && Valid(Tiered(Memory(a, ia), Memory(b, ib), id))
    ensures Scan(Tiered(Memory(a, ia), Memory(b, ib), id), lo, hi) == Ok(a)
  {
    ScanCoversAll(a, lo, hi);
    ScanCoversAll(b, lo, hi);
    var merged := MergeScans(a, b);
    assert Elems(merged) == Elems(a);
    OrderedUnique(Forward, merged, a);
  }

  /** `insert(is)`: the red-black set adds every key; the tiered backend
      writes to `a`, then to `b`, stopping at the first error, so a write
      that fails on `b` has already reached `a`. */
  function Insert(s: Store, batch: seq<Key>): (r: (Store, Result<(), StorageError>))
    requires Valid(s)
    ensures Valid(r.0) && r.0.id == s.id
    ensures r.1.Ok? <==> Writable(s)
    ensures r.1.Err? ==> Some(r.1.error) == WriteFailure(s)
    ensures FirstFailure(r.0) == FirstFailure(s) && WriteFailure(r.0) == WriteFailure(s)
    ensures Writable(s) ==> Contents(r.0) == Contents(s) + Elems(batch)
    ensures Contents(s) <= Contents(r.0) <= Contents(s) + Elems(batch)
    ensures s.Tiered? && !Writable(s.a) ==> r.0.Tiered? && r.0.b == s.b
    ensures s.Tiered? && Writable(s.a) ==> r.0.Tiered? && Contents(r.0.a) == Contents(s.a) + Elems(batch)
  {
    match s
    case Memory(keys, id) =>
      var keys' := RedBlackSet.InsertAll(keys, batch);
      (Memory(keys', id), Ok(()))
    case Tiered(a, b, id) =>
      var (a', ra) := Insert(a, batch);
      if ra.Err? then (Tiered(a', b, id), ra)
      else
        var (b', rb) := Insert(b, batch);
        (Tiered(a', b', id), rb)
    case Failing(_, _) => (s, Err(s.error))
    case ReadOnly(_, _, _) => (s, Err(s.error))
  }

  /** A tiered write whose second tier refuses it leaves the batch in the
      first tier and reports the second tier's error. */
  lemma InsertStopsAtB(e: StorageError)
    ensures Valid(Tiered(Memory([], 1), ReadOnly([], e, 2), 3))
    ensures Insert(Tiered(Memory([], 1), ReadOnly([], e, 2), 3), [[1]]) ==
      (Tiered(Memory([[1]], 1), ReadOnly([], e, 2), 3), Err(e))
  {
    assert RedBlackSet.InsertAll([], [[1]]) == [[1]] by {
      var one: seq<Key> := [[1]];
      assert Ordered(Forward, one);
      OrderedUnique(Forward, RedBlackSet.InsertAll([], [[1]]), [[1]]);
    }
  }

  /** Inserting the same batch twice stores what inserting it once does. */
  lemma {:induction false} InsertIdempotent(s: Store, batch: seq<Key>)
    requires Valid(s)
    ensures Insert(Insert(s, batch).0, batch).0 == Insert(s, batch).0
  {
    match s
    case Memory(keys, id) =>
      RedBlackSet.InsertAllIdempotent(keys, batch);
    case Tiered(a, b, id) =>
      InsertIdempotent(a, batch);
      InsertIdempotent(b, batch);
    case Failing(_, _) =>
    case ReadOnly(_, _, _) =>
  }

  /** Two batches in either order store the same keys. */
  lemma {:induction false} InsertCommutes(s: Store, x: seq<Key>, y: seq<Key>)
    requires Valid(s)
    ensures Insert(Insert(s, x).0, y).0 == Insert(Insert(s, y).0, x).0
  {
    match s
    case Memory(keys, id) =>
      RedBlackSet.InsertAllCommutes(keys, x, y);
    case Tiered(a, b, id) =>
      InsertCommutes(a, x, y);
      InsertCommutes(b, x, y);
    case Failing(_, _) =>
    case ReadOnly(_, _, _) =>
  }
}
