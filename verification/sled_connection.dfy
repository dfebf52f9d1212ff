/** The sled connection of the crate's first revision
    (`src/sled/connection.rs`). The sled tree is a map from keys to values.
    Each datom key maps to the empty value. The latest t is kept under the
    key [255]. The transactor lock is the key [254], which holds "Locked"
    while a transaction runs. A transaction writes its keys one at a time,
    then the new t, then removes the lock. */
module SledConnections {
  import opened Results
  import opened Bytes
  import opened Ids
  import opened Values
  import opened Datoms
  import opened Errors
  import opened EntityResults
  import opened OldValues
  import opened LegacySerial
  import opened LegacyEids
  import Connections
  import Builtins

  type Tree = map<seq<byte>, seq<byte>>

  const LATEST_T: seq<byte> := [255]
  const TRANSACTOR_LOCK: seq<byte> := [254]
  /** The lock's value, the string "Locked". */
  const LOCKED: seq<byte> := Ascii("Locked")

  /** `insert`: a datom's key in one index, with an empty value. */
  function Insert(tree: Tree, d: OldDatom, i: Index): Tree
  {
    tree[OldSerialize(d, i) := []]
  }

  /** `set_t`: t as 8 big-endian bytes under `LATEST_T`. */
  function SetT(tree: Tree, t: u64): (r: Tree)
    ensures LATEST_T in r
    ensures forall k | k in tree :: k in r
    ensures forall k | k in r && k != LATEST_T :: k in tree && r[k] == tree[k]
  {
    tree[LATEST_T := U64Bytes(t)]
  }

  predicate Locked(tree: Tree)
  {
    TRANSACTOR_LOCK in tree
  }

  /** `lock_transactor`: a compare-and-swap of the lock key from absent to
      "Locked", retried while it fails. The retries never end when nothing
      else unlocks, so a held lock is `None` here: the caller spins. */
  function Lock(tree: Tree): (r: Option<Tree>)
    ensures r.None? <==> Locked(tree)
    ensures r.Some? ==> Locked(r.value) && r.value[TRANSACTOR_LOCK] == LOCKED
    ensures r.Some? ==> forall k | k != TRANSACTOR_LOCK :: (k in r.value <==> k in tree)
    ensures r.Some? ==> forall k | k in tree :: r.value[k] == tree[k]
  {
    if Locked(tree) then None else Some(tree[TRANSACTOR_LOCK := LOCKED])
  }

  /** `unlock_transactor`: the lock key removed. */
  function Unlock(tree: Tree): (r: Tree)
    ensures !Locked(r)
    ensures forall k | k != TRANSACTOR_LOCK :: (k in r <==> k in tree)
    ensures forall k | k in r :: r[k] == tree[k]
  {
    tree - {TRANSACTOR_LOCK}
  }

  /** Locking a free tree and unlocking it again gives the tree back. */
  lemma LockUnlock(tree: Tree)
    requires !Locked(tree)
    ensures Lock(tree).Some? && Unlock(Lock(tree).value) == tree
  {
    assert Unlock(Lock(tree).value).Keys == tree.Keys;
  }

  // ---------------------------------------------------------------------------
  // latest_t, as_of and db
  // ---------------------------------------------------------------------------

  /** `latest_t`: 0 without a `LATEST_T` key; otherwise its value read as a
      big-endian u64, which must be 8 bytes long. */
  function LatestT(tree: Tree): (r: Result<u64, ConnectionError>)
    ensures LATEST_T !in tree ==> r == Ok(0)
    ensures r.Err? <==> LATEST_T in tree && |tree[LATEST_T]| != 8
    ensures r.Err? ==> r.error == InvalidData
    ensures r.Ok? && LATEST_T in tree ==> U64Bytes(r.value) == tree[LATEST_T]
  {
    if LATEST_T !in tree then Ok(0)
    else
      var bs := tree[LATEST_T];
      if |bs| != 8 then Err(InvalidData)
      else
        Pow256Widths();
        BEOfBEValue(bs);
        Ok(U64Value(bs))
  }

  /** The t `set_t` writes is the t `latest_t` reads. */
  lemma LatestTOfSetT(tree: Tree, t: u64)
    ensures LatestT(SetT(tree, t)) == Ok(t)
  {
    U64RoundTrip(t);
  }

  /** A snapshot of the sled database: the tree and a t. */
  datatype SledDatabase = SledDatabase(tree: Tree, t: u64)

  /** `as_of`: any t is accepted. */
  function AsOf(tree: Tree, t: u64): (r: SledDatabase)
    ensures r.t == t && r.tree == tree
  {
    SledDatabase(tree, t)
  }

  /** `db`: the snapshot at the latest t. */
  function Db(tree: Tree): (r: Result<SledDatabase, ConnectionError>)
    ensures r.Ok? <==> LatestT(tree).Ok?
    ensures r.Err? ==> r.error == InvalidData
    ensures r.Ok? ==> r.value.tree == tree && r.value.t == LatestT(tree).value
  {
    var t :- LatestT(tree);
    Ok(AsOf(tree, t))
  }

  // ---------------------------------------------------------------------------
  // transact
  // ---------------------------------------------------------------------------

  /** What `transact` reads of the snapshot before it for a datom's
      attribute: `unique`, then `value-type`. Either read can fail. */
  type SchemaReads = ID -> Result<(EntityResult, EntityResult), TransactionError>

  /** The keys one datom gets: EAVT and AEVT always, then AVET when the
      attribute reads as unique and VAET when it reads as a reference. A
      failed read leaves only the first two. */
  function DatomKeys(schema: SchemaReads, d: OldDatom): (ks: set<seq<byte>>)
    ensures OldSerialize(d, EAVT) in ks && OldSerialize(d, AEVT) in ks
    ensures OldSerialize(d, AVET) in ks <==> schema(d.attribute).Ok? && Connections.UniqueFlag(schema(d.attribute).value.0)
    ensures OldSerialize(d, VAET) in ks <==> schema(d.attribute).Ok? && Connections.RefFlag(schema(d.attribute).value.1)
    ensures forall k | k in ks :: k == OldSerialize(d, EAVT) || k == OldSerialize(d, AEVT) || k == OldSerialize(d, AVET) || k == OldSerialize(d, VAET)
    ensures forall k | k in ks :: |k| > 0 && k[0] <= 3
  {
    {OldSerialize(d, EAVT), OldSerialize(d, AEVT)} +
    match schema(d.attribute)
    case Err(_) => {}
    case Ok(flags) =>
      (if Connections.UniqueFlag(flags.0) then {OldSerialize(d, AVET)} else {}) +
      (if Connections.RefFlag(flags.1) then {OldSerialize(d, VAET)} else {})
  }

  /** `k` is one of the keys of one of the datoms. */
  ghost predicate NewKey(data: seq<OldDatom>, schema: SchemaReads, k: seq<byte>)
  {
    exists j | 0 <= j < |data| :: k in DatomKeys(schema, data[j])
  }

  /** Every key of every datom is in `tree` with the empty value. */
  ghost predicate HoldsKeys(tree: Tree, data: seq<OldDatom>, schema: SchemaReads)
  {
    forall j, k | 0 <= j < |data| && k in DatomKeys(schema, data[j]) :: k in tree && tree[k] == []
  }

  /** `r` is `tree` with the keys `ks` given the empty value. */
  ghost predicate PutEmpty(tree: Tree, ks: set<seq<byte>>, r: Tree)
  {
    (forall k | k in ks :: k in r && r[k] == []) &&
    (forall k | k in r :: k in tree || k in ks) &&
    (forall k | k in tree && k !in ks :: k in r && r[k] == tree[k])
  }

  /** One pass of the loop: EAVT and AEVT are inserted, then the attribute's
      schema is read, then AVET and VAET are inserted as it selects. A
      failed read is returned with the tree as it stands. */
  function WriteDatom(tree: Tree, d: OldDatom, schema: SchemaReads): (r: (Tree, Option<TransactionError>))
    ensures r.1.Some? <==> schema(d.attribute).Err?
    ensures r.1.Some? ==> schema(d.attribute) == Err(r.1.value)
  {
    var t1 := Insert(Insert(tree, d, EAVT), d, AEVT);
    match schema(d.attribute)
    case Err(e) => (t1, Some(e))
    case Ok(flags) =>
      var t2 := if Connections.UniqueFlag(flags.0) then Insert(t1, d, AVET) else t1;
      var t3 := if Connections.RefFlag(flags.1) then Insert(t2, d, VAET) else t2;
      (t3, None)
  }

  /** One pass writes exactly the datom's keys, each with the empty value. */
  lemma WriteDatomPuts(tree: Tree, d: OldDatom, schema: SchemaReads)
    ensures PutEmpty(tree, DatomKeys(schema, d), WriteDatom(tree, d, schema).0)
  {
  }

  /** The tree the datom loop leaves, and the error that stopped it. */
  datatype Written = Written(tree: Tree, failure: Option<TransactionError>)

  type Pass = (Tree, OldDatom) -> (Tree, Option<TransactionError>)

  /** The `for` loop over the datoms: one pass per datom, stopped by the
      first pass that fails, as `?` does. */
  function Loop(tree: Tree, data: seq<OldDatom>, pass: Pass): (r: Written)
    decreases |data|
  {
    if |data| == 0 then Written(tree, None)
    else
      var step := pass(tree, data[0]);
      if step.1.Some? then Written(step.0, step.1) else Loop(step.0, data[1..], pass)
  }

  /** The body of the loop of `transact`. */
  function PassOf(schema: SchemaReads): Pass
  {
    (t: Tree, d: OldDatom) => WriteDatom(t, d, schema)
  }

  /** The loop of `transact`. */
  function WriteAll(tree: Tree, data: seq<OldDatom>, schema: SchemaReads): Written
  {
    Loop(tree, data, PassOf(schema))
  }

  /** `k` is one of the keys `keys` gives one of the datoms. */
  ghost predicate AnyKey(data: seq<OldDatom>, keys: OldDatom -> set<seq<byte>>, k: seq<byte>)
  {
    exists j | 0 <= j < |data| :: k in keys(data[j])
  }

  /** A pass that writes the empty value under the keys of its datom, and
      fails or not as `fails` says of the datom. */
  ghost predicate Writes(pass: Pass, keys: OldDatom -> set<seq<byte>>, fails: OldDatom -> Option<TransactionError>)
  {
    forall t, d :: PutEmpty(t, keys(d), pass(t, d).0) && pass(t, d).1 == fails(d)
  }

  lemma AnyKeyLater(data: seq<OldDatom>, keys: OldDatom -> set<seq<byte>>)
    requires |data| > 0
    ensures forall k | AnyKey(data[1..], keys, k) :: AnyKey(data, keys, k)
    ensures forall k | k in keys(data[0]) :: AnyKey(data, keys, k)
  {
    forall k | AnyKey(data[1..], keys, k)
      ensures AnyKey(data, keys, k)
    {
      var j :| 0 <= j < |data[1..]| && k in keys(data[1..][j]);
      assert data[j + 1] == data[1..][j];
    }
  }

  /** Every key keeps its value or gets the empty one, and a key that is no
      datom's keeps its value. */
  lemma {:induction false} LoopKeeps(tree: Tree, data: seq<OldDatom>, pass: Pass, keys: OldDatom -> set<seq<byte>>, fails: OldDatom -> Option<TransactionError>)
    requires Writes(pass, keys, fails)
    ensures var r := Loop(tree, data, pass);
      (forall k | k in tree :: k in r.tree && (r.tree[k] == tree[k] || r.tree[k] == [])) &&
      (forall k | k in tree && !AnyKey(data, keys, k) :: r.tree[k] == tree[k])
    decreases |data|
  {
    if |data| > 0 {
      var step := pass(tree, data[0]);
      AnyKeyLater(data, keys);
      if step.1.None? {
        LoopKeeps(step.0, data[1..], pass, keys, fails);
      }
    }
  }

  /** The loop adds only keys of the datoms, each with the empty value. */
  lemma {:induction false} LoopAdds(tree: Tree, data: seq<OldDatom>, pass: Pass, keys: OldDatom -> set<seq<byte>>, fails: OldDatom -> Option<TransactionError>)
    requires Writes(pass, keys, fails)
    ensures var r := Loop(tree, data, pass);
      forall k | k in r.tree && k !in tree :: AnyKey(data, keys, k) && r.tree[k] == []
    decreases |data|
  {
    if |data| > 0 {
      var r := Loop(tree, data, pass);
      var step := pass(tree, data[0]);
      var t := step.0;
      AnyKeyLater(data, keys);
      if step.1.None? {
        LoopAdds(t, data[1..], pass, keys, fails);
        LoopKeeps(t, data[1..], pass, keys, fails);
        forall k | k in r.tree && k !in tree
          ensures AnyKey(data, keys, k) && r.tree[k] == []
        {
          if k !in t {
            assert AnyKey(data[1..], keys, k);
          }
        }
      }
    }
  }

  /** A completed loop met no failing datom and wrote every datom's keys. */
  lemma {:induction false} LoopCompletes(tree: Tree, data: seq<OldDatom>, pass: Pass, keys: OldDatom -> set<seq<byte>>, fails: OldDatom -> Option<TransactionError>)
    requires Writes(pass, keys, fails)
    requires Loop(tree, data, pass).failure.None?
    ensures forall j | 0 <= j < |data| :: fails(data[j]).None?
    ensures var r := Loop(tree, data, pass);
      forall j, k | 0 <= j < |data| && k in keys(data[j]) :: k in r.tree && r.tree[k] == []
    decreases |data|
  {
    if |data| > 0 {
      var r := Loop(tree, data, pass);
      var rest := data[1..];
      var t := pass(tree, data[0]).0;
      LoopCompletes(t, rest, pass, keys, fails);
      LoopKeeps(t, rest, pass, keys, fails);
      forall j | 0 <= j < |data|
        ensures fails(data[j]).None?
      {
        if j > 0 {
          assert data[j] == rest[j - 1];
        }
      }
      forall j, k | 0 <= j < |data| && k in keys(data[j])
        ensures k in r.tree && r.tree[k] == []
      {
        if j > 0 {
          assert data[j] == rest[j - 1];
        }
      }
    }
  }

  /** A stopped loop stopped at the first failing datom, with its error. */
  lemma {:induction false} LoopStops(tree: Tree, data: seq<OldDatom>, pass: Pass, keys: OldDatom -> set<seq<byte>>, fails: OldDatom -> Option<TransactionError>)
    requires Writes(pass, keys, fails)
    requires Loop(tree, data, pass).failure.Some?
    ensures exists j | 0 <= j < |data| ::
      fails(data[j]) == Loop(tree, data, pass).failure && forall j' | 0 <= j' < j :: fails(data[j']).None?
    decreases |data|
  {
    var r := Loop(tree, data, pass);
    var rest := data[1..];
    var step := pass(tree, data[0]);
    if step.1.None? {
      LoopStops(step.0, rest, pass, keys, fails);
      var j :| 0 <= j < |rest| && fails(rest[j]) == r.failure && forall j' | 0 <= j' < j :: fails(rest[j']).None?;
      assert data[j + 1] == rest[j];
      forall j' | 0 <= j' < j + 1
        ensures fails(data[j']).None?
      {
        if j' > 0 {
          assert data[j'] == rest[j' - 1];
        }
      }
    }
  }

  /** The schema read's failure, as `WriteDatom` reports it. */
  function ReadFailure(schema: SchemaReads): OldDatom -> Option<TransactionError>
  {
    (d: OldDatom) => if schema(d.attribute).Err? then Some(schema(d.attribute).error) else None
  }

  function KeysOf(schema: SchemaReads): OldDatom -> set<seq<byte>>
  {
    (d: OldDatom) => DatomKeys(schema, d)
  }

  /** Each pass of the loop of `transact` writes its datom's keys. */
  lemma PassWrites(schema: SchemaReads)
    ensures Writes(PassOf(schema), KeysOf(schema), ReadFailure(schema))
  {
    forall t, d
      ensures PutEmpty(t, KeysOf(schema)(d), PassOf(schema)(t, d).0) && PassOf(schema)(t, d).1 == ReadFailure(schema)(d)
    {
      WriteDatomPuts(t, d, schema);
    }
  }

  lemma NewKeyIsAnyKey(data: seq<OldDatom>, schema: SchemaReads, k: seq<byte>)
    ensures AnyKey(data, KeysOf(schema), k) <==> NewKey(data, schema, k)
  {
    if NewKey(data, schema, k) {
      var j :| 0 <= j < |data| && k in DatomKeys(schema, data[j]);
      assert k in KeysOf(schema)(data[j]);
    }
  }

  /** The loop of `transact` adds only keys of its datoms, each with the
      empty value; a key that is no datom's keeps its value, and any other
      keeps its value or gets the empty one. */
  lemma WriteAllWrites(tree: Tree, data: seq<OldDatom>, schema: SchemaReads)
    ensures var r := WriteAll(tree, data, schema);
      (forall k | k in r.tree && k !in tree :: NewKey(data, schema, k) && r.tree[k] == []) &&
      (forall k | k in tree :: k in r.tree && (r.tree[k] == tree[k] || r.tree[k] == [])) &&
      (forall k | k in tree && !NewKey(data, schema, k) :: r.tree[k] == tree[k])
  {
    PassWrites(schema);
    LoopKeeps(tree, data, PassOf(schema), KeysOf(schema), ReadFailure(schema));
    LoopAdds(tree, data, PassOf(schema), KeysOf(schema), ReadFailure(schema));
    forall k
      ensures AnyKey(data, KeysOf(schema), k) <==> NewKey(data, schema, k)
    {
      NewKeyIsAnyKey(data, schema, k);
    }
  }

  /** A completed loop of `transact` read every schema ... */
  lemma WriteAllReads(tree: Tree, data: seq<OldDatom>, schema: SchemaReads)
    requires WriteAll(tree, data, schema).failure.None?
    ensures forall j | 0 <= j < |data| :: schema(data[j].attribute).Ok?
  {
    PassWrites(schema);
    LoopCompletes(tree, data, PassOf(schema), KeysOf(schema), ReadFailure(schema));
    forall j | 0 <= j < |data|
      ensures schema(data[j].attribute).Ok?
    {
      assert ReadFailure(schema)(data[j]).None?;
    }
  }

  /** ... and wrote every datom's keys. */
  lemma WriteAllCompletes(tree: Tree, data: seq<OldDatom>, schema: SchemaReads)
    requires WriteAll(tree, data, schema).failure.None?
    ensures HoldsKeys(WriteAll(tree, data, schema).tree, data, schema)
  {
    PassWrites(schema);
    LoopCompletes(tree, data, PassOf(schema), KeysOf(schema), ReadFailure(schema));
    var r := WriteAll(tree, data, schema).tree;
    forall j, k | 0 <= j < |data| && k in DatomKeys(schema, data[j])
      ensures k in r && r[k] == []
    {
      assert k in KeysOf(schema)(data[j]);
    }
  }

  /** A stopped loop of `transact` stopped at the first schema read that
      failed, with that read's error. */
  lemma WriteAllStops(tree: Tree, data: seq<OldDatom>, schema: SchemaReads)
    requires WriteAll(tree, data, schema).failure.Some?
    ensures exists j | 0 <= j < |data| ::
      schema(data[j].attribute) == Err(WriteAll(tree, data, schema).failure.value) &&
      forall j' | 0 <= j' < j :: schema(data[j'].attribute).Ok?
  {
    PassWrites(schema);
    LoopStops(tree, data, PassOf(schema), KeysOf(schema), ReadFailure(schema));
    var j :| 0 <= j < |data| && ReadFailure(schema)(data[j]) == WriteAll(tree, data, schema).failure &&
      forall j' | 0 <= j' < j :: ReadFailure(schema)(data[j']).None?;
    forall j' | 0 <= j' < j
      ensures schema(data[j'].attribute).Ok?
    {
      assert ReadFailure(schema)(data[j']).None?;
    }
  }

  /** The value of `transact`: the t before and after, and the datoms. */
  datatype Committed = Committed(before: u64, after: u64, data: seq<OldDatom>)

  /** How a call ends: with a result and the tree it leaves; spinning on a
      held lock; or in a panic, when the latest t is the largest u64 and
      `t_before + 1` overflows. */
  datatype Outcome = Done(result: Result<Committed, TransactionError>, after: Tree) | Spins | Panics

  /** `transact` as written. The lock is taken, then `latest_t` read and
      the datoms computed at `t_before + 1` (`convert` stands for
      `tx.datoms(t, &before)`), then the loop runs and the new t is set.
      Every `?` inside the block returns at once, before
      `unlock_transactor`: a failure leaves the lock held. */
  function TransactAsWritten(tree: Tree, convert: u64 -> Result<seq<OldDatom>, TransactionError>, schema: SchemaReads): (o: Outcome)
    ensures o.Spins? <==> Locked(tree)
    ensures o.Done? && o.result.Ok? ==> !Locked(o.after) && o.result.value.after == o.result.value.before + 1
    ensures o.Done? && o.result.Err? ==> Locked(o.after)
  {
    match Lock(tree)
    case None => Spins
    case Some(held) =>
      match LatestT(held)
      case Err(e) => Done(Err(ConnectionFailure(e)), held)
      case Ok(tb) =>
        if tb == U64_LIMIT - 1 then Panics
        else
          var t := tb + 1;
          match convert(t)
          case Err(e) => Done(Err(e), held)
          case Ok(data) =>
            var w := WriteAll(held, data, schema);
            WriteAllKeepsLock(held, data, schema);
            if w.failure.Some? then Done(Err(w.failure.value), w.tree)
            else Done(Ok(Committed(tb, t, data)), Unlock(SetT(w.tree, t)))
  }

  /** `transact` with `unlock_transactor` run on every way out of the
      block. The keys written before a failure stay written, as sled has
      no rollback here. */
  function Transact(tree: Tree, convert: u64 -> Result<seq<OldDatom>, TransactionError>, schema: SchemaReads): (o: Outcome)
    ensures o.Spins? <==> Locked(tree)
    ensures o.Done? ==> !Locked(o.after)
  {
    match TransactAsWritten(tree, convert, schema)
    case Done(result, after) => Done(result, Unlock(after))
    case other => other
  }

  /** A committed transaction read t_before with `latest_t` and left
      t_before + 1 there, for datoms computed at t_before + 1 whose schema
      reads all succeeded. It found the lock free and leaves it free. */
  lemma TransactCommits(tree: Tree, convert: u64 -> Result<seq<OldDatom>, TransactionError>, schema: SchemaReads,
                        c: Committed, after: Tree)
    requires TransactAsWritten(tree, convert, schema) == Done(Ok(c), after)
    ensures LatestT(tree) == Ok(c.before) && LatestT(after) == Ok(c.after)
    ensures convert(c.after) == Ok(c.data) && !Locked(tree) && !Locked(after)
    ensures forall j | 0 <= j < |c.data| :: schema(c.data[j].attribute).Ok?
  {
    TransactSteps(tree, convert, schema, c, after);
    var w := WriteAll(Lock(tree).value, c.data, schema);
    WriteAllReads(Lock(tree).value, c.data, schema);
    LatestTOfSetT(w.tree, c.after);
  }

  /** The tree after a committed transaction holds every key of its datoms
      with the empty value. */
  lemma TransactWritesKeys(tree: Tree, convert: u64 -> Result<seq<OldDatom>, TransactionError>, schema: SchemaReads,
                           c: Committed, after: Tree)
    requires TransactAsWritten(tree, convert, schema) == Done(Ok(c), after)
    ensures HoldsKeys(after, c.data, schema)
  {
    TransactSteps(tree, convert, schema, c, after);
    LoopWritesKeys(Lock(tree).value, c.data, schema, c.after, after);
  }

  /** The keys a completed loop wrote survive setting the new t and
      removing the lock. */
  lemma LoopWritesKeys(held: Tree, data: seq<OldDatom>, schema: SchemaReads, t: u64, after: Tree)
    requires WriteAll(held, data, schema).failure.None?
    requires after == Unlock(SetT(WriteAll(held, data, schema).tree, t))
    ensures HoldsKeys(after, data, schema)
  {
    WriteAllCompletes(held, data, schema);
    CommitKeepsKeys(WriteAll(held, data, schema).tree, data, schema, t);
  }

  /** A committed transaction adds no key but `LATEST_T` and the keys of
      its datoms, and every other key keeps its value. */
  lemma TransactWritesNothingElse(tree: Tree, convert: u64 -> Result<seq<OldDatom>, TransactionError>, schema: SchemaReads,
                                  c: Committed, after: Tree)
    requires TransactAsWritten(tree, convert, schema) == Done(Ok(c), after)
    ensures forall k | k in after && k !in tree :: k == LATEST_T || NewKey(c.data, schema, k)
    ensures forall k | k in tree && k != LATEST_T && !NewKey(c.data, schema, k) :: k in after && after[k] == tree[k]
  {
    TransactSteps(tree, convert, schema, c, after);
    var held := Lock(tree).value;
    var w := WriteAll(held, c.data, schema);
    WriteAllWrites(held, c.data, schema);
    CommitAdds(tree, held, w.tree, c.data, schema, c.after);
    CommitKeeps(tree, held, w.tree, c.data, schema, c.after);
  }

  /** A committed call: the lock was free, `latest_t` read t_before, the
      datoms were computed at t_before + 1 and the loop completed; then
      the new t was set and the lock removed. */
  lemma TransactSteps(tree: Tree, convert: u64 -> Result<seq<OldDatom>, TransactionError>, schema: SchemaReads,
                      c: Committed, after: Tree)
    requires TransactAsWritten(tree, convert, schema) == Done(Ok(c), after)
    ensures !Locked(tree) && LatestT(tree) == Ok(c.before) && c.after == c.before + 1 && convert(c.after) == Ok(c.data)
    ensures WriteAll(Lock(tree).value, c.data, schema).failure.None?
    ensures after == Unlock(SetT(WriteAll(Lock(tree).value, c.data, schema).tree, c.after))
  {
    assert LatestT(Lock(tree).value) == LatestT(tree);
  }

  /** The map reasoning of `TransactCommits`: the loop's keys are still
      there once the new t is set and the lock removed, ... */
  lemma CommitKeepsKeys(w: Tree, data: seq<OldDatom>, schema: SchemaReads, t: u64)
    requires HoldsKeys(w, data, schema)
    ensures HoldsKeys(Unlock(SetT(w, t)), data, schema)
  {
    var after := Unlock(SetT(w, t));
    forall j, k | 0 <= j < |data| && k in DatomKeys(schema, data[j])
      ensures k in after && after[k] == []
    {
      assert k != LATEST_T && k != TRANSACTOR_LOCK by {
        assert |k| > 0 && k[0] <= 3;
      }
      assert k in w && w[k] == [];
    }
  }

  /** ... the keys added are `LATEST_T` and keys of the datoms ... */
  lemma CommitAdds(tree: Tree, held: Tree, w: Tree, data: seq<OldDatom>, schema: SchemaReads, t: u64)
    requires Lock(tree) == Some(held)
    requires forall k | k in w && k !in held :: NewKey(data, schema, k)
    ensures var after := Unlock(SetT(w, t));
      forall k | k in after && k !in tree :: k == LATEST_T || NewKey(data, schema, k)
  {
  }

  /** ... and every other key of the tree keeps its value. */
  lemma CommitKeeps(tree: Tree, held: Tree, w: Tree, data: seq<OldDatom>, schema: SchemaReads, t: u64)
    requires !Locked(tree) && Lock(tree) == Some(held)
    requires forall k | k in held :: k in w
    requires forall k | k in held && !NewKey(data, schema, k) :: w[k] == held[k]
    ensures var after := Unlock(SetT(w, t));
      forall k | k in tree && k != LATEST_T && !NewKey(data, schema, k) :: k in after && after[k] == tree[k]
  {
  }

  /** No datom key is `LATEST_T` or the lock key: its first byte is an
      index byte, at most 3. */
  lemma DatomKeyNotMeta(d: OldDatom, i: Index)
    ensures OldSerialize(d, i) != LATEST_T && OldSerialize(d, i) != TRANSACTOR_LOCK
  {
  }

  /** The loop leaves a held lock held: the lock key is no datom's. */
  lemma WriteAllKeepsLock(held: Tree, data: seq<OldDatom>, schema: SchemaReads)
    requires Locked(held)
    ensures Locked(WriteAll(held, data, schema).tree)
  {
    WriteAllWrites(held, data, schema);
  }

  /** As written, a call that fails after taking the lock leaves it
      held, and every later call spins. */
  lemma LockLeftHeldAsWritten(tree: Tree, convert: u64 -> Result<seq<OldDatom>, TransactionError>, schema: SchemaReads,
                              convert': u64 -> Result<seq<OldDatom>, TransactionError>, schema': SchemaReads)
    requires TransactAsWritten(tree, convert, schema).Done?
    requires TransactAsWritten(tree, convert, schema).result.Err?
    ensures TransactAsWritten(TransactAsWritten(tree, convert, schema).after, convert', schema') == Spins
  {
  }

  /** The datom conversion failing on an empty tree: the call fails, and
      the next transaction spins for ever. */
  lemma FailedConversionLocksOut()
    ensures var fail: u64 -> Result<seq<OldDatom>, TransactionError> := (t: u64) => Err(FailedToRetractNonexistentAttribute(0, 0));
      var noSchema: SchemaReads := (a: ID) => Err(FailedToRetractNonexistentAttribute(0, 0));
      var o := TransactAsWritten(map[], fail, noSchema);
      o == Done(Err(FailedToRetractNonexistentAttribute(0, 0)), map[TRANSACTOR_LOCK := LOCKED]) &&
      TransactAsWritten(o.after, (t: u64) => Ok([]), noSchema) == Spins
  {
    var fail: u64 -> Result<seq<OldDatom>, TransactionError> := (t: u64) => Err(FailedToRetractNonexistentAttribute(0, 0));
    var noSchema: SchemaReads := (a: ID) => Err(FailedToRetractNonexistentAttribute(0, 0));
    var held := map[TRANSACTOR_LOCK := LOCKED];
    assert Lock(map[]) == Some(held);
    assert LatestT(held) == Ok(0);
  }

  /** The corrected call does what the call as written does, and then
      removes the lock. A committed call is the same. A failure keeps its
      error and its partial writes, and frees the lock. */
  lemma TransactAgrees(tree: Tree, convert: u64 -> Result<seq<OldDatom>, TransactionError>, schema: SchemaReads)
    ensures var o, p := TransactAsWritten(tree, convert, schema), Transact(tree, convert, schema);
      (o.Done? <==> p.Done?) && (!o.Done? ==> o == p) &&
      (o.Done? ==> p.result == o.result && p.after == Unlock(o.after)) &&
      (o.Done? && o.result.Ok? ==> p == o)
  {
    var o := TransactAsWritten(tree, convert, schema);
    if o.Done? && o.result.Ok? {
      assert Unlock(o.after) == o.after;
    }
  }

  /** Once corrected, a call that ends leaves the tree free for the next
      call, whatever it did. */
  lemma TransactFreesLock(tree: Tree, convert: u64 -> Result<seq<OldDatom>, TransactionError>, schema: SchemaReads,
                          convert': u64 -> Result<seq<OldDatom>, TransactionError>, schema': SchemaReads)
    requires Transact(tree, convert, schema).Done?
    ensures !Transact(Transact(tree, convert, schema).after, convert', schema').Spins?
  {
  }

  /** After a committed call, `db` is the snapshot at the new t. */
  lemma DbAfterTransact(tree: Tree, convert: u64 -> Result<seq<OldDatom>, TransactionError>, schema: SchemaReads)
    requires Transact(tree, convert, schema).Done? && Transact(tree, convert, schema).result.Ok?
    ensures var o := Transact(tree, convert, schema);
      Db(o.after) == Ok(AsOf(o.after, o.result.value.after)) &&
      Db(tree) == Ok(AsOf(tree, o.result.value.before))
  {
    TransactAgrees(tree, convert, schema);
    var o := TransactAsWritten(tree, convert, schema);
    TransactCommits(tree, convert, schema, o.result.value, o.after);
  }

  // ---------------------------------------------------------------------------
  // Idents and the VAET index
  // ---------------------------------------------------------------------------

  /** `k` lies in an index's range: its first byte is the index's. */
  predicate InIndex(k: seq<byte>, i: Index)
  {
    |k| > 0 && k[0] == IndexByte(i)
  }

  /** `view` is what a snapshot at t reads from the tree: each VAET datom
      it holds is read from a key in the VAET range, and every key in the
      AVET range that reads as a datom no later than t is among its AVET
      datoms. */
  ghost predicate Reads(view: View, tree: Tree, t: u64)
  {
    (forall d | d in view.vaet :: exists k | k in tree && InIndex(k, VAET) :: OldDeserialize(AsWritten, k, VAET) == Parsed(d)) &&
    (forall k | k in tree && InIndex(k, AVET) ::
       (OldDeserialize(AsWritten, k, AVET).Parsed? && OldDeserialize(AsWritten, k, AVET).value.t <= t) ==>
         OldDeserialize(AsWritten, k, AVET).value in view.avet)
  }

  /** No key in the VAET range reads as a datom about `IDENT`. */
  ghost predicate NoIdentInVaet(tree: Tree)
  {
    forall k | k in tree && InIndex(k, VAET) :: !(OldDeserialize(AsWritten, k, VAET).Parsed? && OldDeserialize(AsWritten, k, VAET).value.attribute == Builtins.IDENT)
  }

  /** `IDENT` reads as a string attribute, not a reference. */
  predicate IdentNotRef(schema: SchemaReads)
  {
    schema(Builtins.IDENT).Ok? ==> !Connections.RefFlag(schema(Builtins.IDENT).value.1)
  }

  /** A datom's VAET key reads as a datom of the same attribute, or not
      at all. */
  lemma VaetReadAttribute(d: OldDatom)
    requires OldStorable(d.value)
    ensures OldDeserialize(AsWritten, OldSerialize(d, VAET), VAET).Parsed? ==>
      OldDeserialize(AsWritten, OldSerialize(d, VAET), VAET).value.attribute == d.attribute
  {
    OldDeserializeReads(AsWritten, d, VAET);
  }

  /** A VAET key among a datom's keys is its VAET key, so its attribute
      reads as a reference; unless that attribute is `IDENT`, the key does
      not read as a datom about `IDENT`. */
  lemma NewVaetKey(schema: SchemaReads, d: OldDatom, k: seq<byte>)
    requires k in DatomKeys(schema, d) && InIndex(k, VAET)
    requires OldStorable(d.value) && IdentNotRef(schema)
    ensures !(OldDeserialize(AsWritten, k, VAET).Parsed? && OldDeserialize(AsWritten, k, VAET).value.attribute == Builtins.IDENT)
  {
    assert k == OldSerialize(d, VAET);
    VaetReadAttribute(d);
  }

  /** A committed transaction whose schema reads do not make `IDENT` a
      reference adds no VAET key about `IDENT`. */
  lemma TransactKeepsIdentOutOfVaet(tree: Tree, convert: u64 -> Result<seq<OldDatom>, TransactionError>, schema: SchemaReads)
    requires NoIdentInVaet(tree) && IdentNotRef(schema)
    requires TransactAsWritten(tree, convert, schema).Done?
    requires var o := TransactAsWritten(tree, convert, schema);
      o.result.Ok? && forall j | 0 <= j < |o.result.value.data| :: OldStorable(o.result.value.data[j].value)
    ensures NoIdentInVaet(TransactAsWritten(tree, convert, schema).after)
  {
    var o := TransactAsWritten(tree, convert, schema);
    var data := o.result.value.data;
    TransactWritesNothingElse(tree, convert, schema, o.result.value, o.after);
    forall k | k in o.after && InIndex(k, VAET) && k !in tree
      ensures !(OldDeserialize(AsWritten, k, VAET).Parsed? && OldDeserialize(AsWritten, k, VAET).value.attribute == Builtins.IDENT)
    {
      if k != LATEST_T {
        var j :| 0 <= j < |data| && k in DatomKeys(schema, data[j]);
        NewVaetKey(schema, data[j], k);
      }
    }

  }

  /** As written, an ident that is no builtin's does not resolve against
      a snapshot of a tree with no VAET key about `IDENT`, whatever the
      AVET range holds. */
  lemma IdentUnresolvedAsWritten(order: seq<ID>, view: View, tree: Tree, t: u64, s: seq<byte>)
    requires TableOrder(order) && Reads(view, tree, t) && NoIdentInVaet(tree)
    requires Builtins.BuiltinByIdent(s).None?
    ensures ResolveAsWritten(order, view, Ident(s)) == Err(ResolveError.UnresolvedEID(Ident(s)))
  {
    forall d | d in view.vaet
      ensures d.attribute != Builtins.IDENT
    {
      var k :| k in tree && InIndex(k, VAET) && OldDeserialize(AsWritten, k, VAET) == Parsed(d);
    }
    IdentMissedAsWritten(order, view, s);
  }

  /** Once corrected, an ident whose datom is in the AVET range, no later
      than the snapshot, resolves. */
  lemma IdentResolvesOnceWritten(order: seq<ID>, view: View, tree: Tree, t: u64, d: OldDatom, s: seq<byte>)
    requires TableOrder(order) && Reads(view, tree, t)
    requires d.attribute == Builtins.IDENT && d.value == Plain(String(s)) && OldStorable(d.value) && d.t <= t
    requires OldSerialize(d, AVET) in tree
    ensures Resolve(order, view, Ident(s)).Ok?
  {
    AsWrittenKeyRoundTrip(d, AVET);
    assert InIndex(OldSerialize(d, AVET), AVET);
    assert d in view.avet;
    OldEqEquivalence(d.value, d.value, d.value);
    assert NamesIdent(d, s);
    ResolveIdentMeans(order, view, s);
  }

  /** A transaction names a new ident and commits, with `IDENT` read as
      unique. Once corrected, the snapshot at the new t resolves the
      ident ... */
  lemma TransactedIdentResolves(order: seq<ID>, tree: Tree, convert: u64 -> Result<seq<OldDatom>, TransactionError>, schema: SchemaReads,
                                c: Committed, after: Tree, view: View, j: nat, s: seq<byte>)
    requires TableOrder(order)
    requires TransactAsWritten(tree, convert, schema) == Done(Ok(c), after)
    requires j < |c.data| && c.data[j].attribute == Builtins.IDENT && c.data[j].value == Plain(String(s))
    requires c.data[j].t <= c.after && OldStorable(c.data[j].value)
    requires schema(Builtins.IDENT).Ok? && Connections.UniqueFlag(schema(Builtins.IDENT).value.0)
    requires Reads(view, after, c.after)
    ensures Resolve(order, view, Ident(s)).Ok?
  {
    var d := c.data[j];
    TransactWritesKeys(tree, convert, schema, c, after);
    assert OldSerialize(d, AVET) in DatomKeys(schema, d);
    IdentResolvesOnceWritten(order, view, after, c.after, d, s);
  }

  /** ... while as written it does not, when the ident is no builtin's,
      `IDENT` is not read as a reference, and the tree held no VAET key
      about `IDENT` before. */
  lemma TransactedIdentAsWritten(order: seq<ID>, tree: Tree, convert: u64 -> Result<seq<OldDatom>, TransactionError>, schema: SchemaReads,
                                 view: View, s: seq<byte>)
    requires TableOrder(order) && Builtins.BuiltinByIdent(s).None?
    requires NoIdentInVaet(tree) && IdentNotRef(schema)
    requires TransactAsWritten(tree, convert, schema).Done?
    requires var o := TransactAsWritten(tree, convert, schema);
      o.result.Ok? && (forall i | 0 <= i < |o.result.value.data| :: OldStorable(o.result.value.data[i].value)) &&
      Reads(view, o.after, o.result.value.after)
    ensures ResolveAsWritten(order, view, Ident(s)) == Err(ResolveError.UnresolvedEID(Ident(s)))
  {
    var o := TransactAsWritten(tree, convert, schema);
    TransactKeepsIdentOutOfVaet(tree, convert, schema);
    IdentUnresolvedAsWritten(order, view, o.after, o.result.value.after, s);
  }
}
