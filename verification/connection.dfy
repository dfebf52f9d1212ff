/** A connection's clock and its write path (`Connection::latest_t`,
    `as_of`, `db`, `transact_tx`, `transact`). The store is a value here: a
    transaction returns the connection as it leaves it, with the result.
    The wall-clock time a transaction records is an input. */
module Connections {
  import opened Results
  import opened Bytes
  import opened Ids
  import opened Values
  import opened SortedKeys
  import opened Datoms
  import opened Serial
  import opened Backends
  import opened Errors
  import opened Eids
  import opened Databases
  import opened EntityResults
  import opened Entities
  import opened Facts
  import opened Transactions
  import opened Schemas
  import Builtins

  // ---------------------------------------------------------------------------
  // The clock
  // ---------------------------------------------------------------------------

  /** `latest_t`: the t of the last transaction record in key order, or 0
      when there is none. A storage error is passed on as a connection
      error; a record key too short to decode panics. */
  function LatestT(c: Connection): (r: Result<u64, QueryError>)
    requires Valid(c.storage)
    ensures r.Ok? ==> Healthy(c.storage)
    ensures !Healthy(c.storage) ==> r == Err(FromStorage(FirstFailure(c.storage).value))
    ensures Healthy(c.storage) && (forall k | k in Contents(c.storage) :: !Contains(TrRange(), k)) ==> r == Ok(0)
  {
    var scan := Scan(c.storage, TrRange().from, TrRange().to);
    if scan.Err? then Err(FromStorage(scan.error))
    else if |scan.value| == 0 then Ok(0)
    else
      var last := scan.value[|scan.value| - 1];
      assert last in scan.value;
      match DeserializeTr(last)
      case Parsed(tr) => Ok(tr.t)
      case Invalid => Err(ConnectionFailed(InvalidData))
      case Panic => Err(Panicked)
  }

  /** `as_of(t)`: a snapshot at any t, which cannot fail. */
  function AsOf(c: Connection, t: u64): (r: Result<Database, ConnectionError>)
    ensures r.Ok? && r.value.connection == c && r.value.t == t
  {
    Ok(Database(c, t))
  }

  /** `db`: the snapshot at the latest t. */
  function Db(c: Connection): (r: Result<Database, QueryError>)
    requires Valid(c.storage)
    ensures r.Ok? <==> LatestT(c).Ok?
    ensures r.Ok? ==> r.value.connection == c && r.value.t == LatestT(c).value
  {
    var t :- LatestT(c);
    Ok(Database(c, t))
  }

  /** Transaction records order by their t first. */
  lemma RecordOrder(x: TransactionRecord, y: TransactionRecord)
    requires x.t < y.t
    ensures Below(SerializeTr(x), SerializeTr(y))
  {
    U64Order(x.t, y.t);
    BelowExtend(U64Bytes(x.t), U64Bytes(y.t), I64Bytes(x.millis), I64Bytes(y.millis));
    assert SerializeTr(x) == [TR_BYTE] + (U64Bytes(x.t) + I64Bytes(x.millis));
    assert SerializeTr(y) == [TR_BYTE] + (U64Bytes(y.t) + I64Bytes(y.millis));
    BelowCommonPrefix([TR_BYTE], U64Bytes(x.t) + I64Bytes(x.millis), U64Bytes(y.t) + I64Bytes(y.millis));
  }

  /** The records of a store tell that its latest t is `t`: every key in
      the record range is a record of t at most, and unless `t` is 0 one of
      them has t `t`. */
  ghost predicate Chronicle(s: Store, t: u64)
  {
    (forall k | k in Contents(s) && Contains(TrRange(), k) :: exists tr: TransactionRecord :: k == SerializeTr(tr) && tr.t <= t) &&
    (t > 0 ==> exists tr: TransactionRecord :: tr.t == t && SerializeTr(tr) in Contents(s) && Contains(TrRange(), SerializeTr(tr)))
  }

  /** The last key of an ascending sequence is above every other. */
  lemma LastIsGreatest(keys: seq<Key>, k: Key)
    requires Ordered(Forward, keys) && k in keys
    ensures k == keys[|keys| - 1] || Below(k, keys[|keys| - 1])
  {
    var j :| 0 <= j < |keys| && keys[j] == k;
    if j < |keys| - 1 {
      assert Before(Forward, keys[j], keys[|keys| - 1]);
    }
  }

  /** `latest_t` reads back the t a store's records tell. */
  lemma LatestTMeans(c: Connection, t: u64)
    requires Valid(c.storage) && Healthy(c.storage) && Chronicle(c.storage, t)
    ensures LatestT(c) == Ok(t)
  {
    var keys := Scan(c.storage, TrRange().from, TrRange().to).value;
    if t > 0 {
      var r: TransactionRecord :| r.t == t && SerializeTr(r) in Contents(c.storage) && Contains(TrRange(), SerializeTr(r));
      assert SerializeTr(r) in keys;
    }
    if |keys| > 0 {
      var m := keys[|keys| - 1];
      assert m in keys;
      var tm: TransactionRecord :| m == SerializeTr(tm) && tm.t <= t;
      TrRoundTrip(tm);
      if tm.t < t {
        var r: TransactionRecord :| r.t == t && SerializeTr(r) in Contents(c.storage) && Contains(TrRange(), SerializeTr(r));
        LastIsGreatest(keys, SerializeTr(r));
        RecordOrder(tm, r);
        BelowAsymmetric(m, SerializeTr(r));
        BelowIrreflexive(m);
        assert false;
      }
    }
  }

  /** A store without records is at t 0. */
  lemma EmptyChronicle(keys: seq<Key>, id: ID)
    requires Ordered(Forward, keys) && forall k | k in keys :: !Contains(TrRange(), k)
    ensures Chronicle(Memory(keys, id), 0)
  {
  }

  /** The connection a fresh in-memory store opens is at t 0. */
  lemma NewConnectionAtZero(id: ID, freshId: ID)
    ensures LatestT(NewConnection(Memory([], id), freshId)) == Ok(0)
  {
    EmptyChronicle([], id);
    LatestTMeans(NewConnection(Memory([], id), freshId), 0);
  }

  /** The only record key outside the record range, the range's own end, is
      timestamped one millisecond before the epoch. */
  lemma {:induction false} AllOnesValue(n: nat)
    ensures BEValue(seq(n, _ => 255)) == Pow256(n) - 1
  {
    if n > 0 {
      var s := seq(n, _ => 255);
      assert s[..n - 1] == seq(n - 1, _ => 255);
      AllOnesValue(n - 1);
    }
  }

  lemma RecordInRange(tr: TransactionRecord)
    requires tr.millis >= 0
    ensures Contains(TrRange(), SerializeTr(tr))
  {
    var k := SerializeTr(tr);
    if k == TrRange().to {
      assert k[9..] == I64Bytes(tr.millis);
      assert k[9..] == seq(8, _ => 255);
      AllOnesValue(8);
      Pow256Widths();
      I64RoundTrip(tr.millis);
      assert false;
    }
    var d: Datom :| true;
    TrRangeSelects(d, EAVT, tr);
  }

  // ---------------------------------------------------------------------------
  // The index entries of one datom
  // ---------------------------------------------------------------------------

  /** `attr_entity.get_with_options(a, true, true)` in a transaction: the
      read of schema attribute `a` on the attribute entity, cardinality and
      type skipped, its error lifted. */
  function SchemaRead(before: Database, attribute: ID, a: ID): Result<EntityResult, TransactionError>
    requires Usable(before)
  {
    Lift(GetWithOptions(Entity(before.connection, before.t, attribute), Resolved(a), true, true))
  }

  /** What the snapshot records for schema attribute `a` of entity `x`: the
      value of the decisive datom when it is an Addition, else the builtin
      table's value. */
  ghost predicate Stated(db: Database, x: ID, a: ID, v: Value)
  {
    (exists d :: Decisive(db, x, a, d) && d.datomType.Addition? && d.value == v) ||
    ((forall d | Decisive(db, x, a, d) :: d.datomType.Retraction?) && Builtins.BuiltinValue(x, a) == Some(v))
  }

  /** A schema read decided by an Addition: its value. */
  lemma SchemaReadAsserted(db: Database, x: ID, a: ID, d: Datom)
    requires Usable(db) && Healthy(db.connection.storage) && WellFormed(db.connection.storage)
    requires a != Builtins.DB_ID && a < ID_LIMIT - 1
    requires Decisive(db, x, a, d) && d.datomType.Addition?
    ensures SchemaRead(db, x, a) == Ok(Scalar(d.value))
  {
    var e := Entity(db.connection, db.t, x);
    assert Snapshot(e) == db;
    GetOneAsserted(e, Resolved(a), true, true, a, None, d);
    assert Wrap(db, None, d.value) == Scalar(d.value);
  }

  /** A schema read decided by a Retraction: the builtin table's value, if
      any. */
  lemma SchemaReadRetracted(db: Database, x: ID, a: ID, d: Datom)
    requires Usable(db) && Healthy(db.connection.storage) && WellFormed(db.connection.storage)
    requires a != Builtins.DB_ID && a < ID_LIMIT - 1
    requires Decisive(db, x, a, d) && d.datomType.Retraction?
    ensures SchemaRead(db, x, a) == Ok(Fallback(NotFound, x, a))
  {
    var e := Entity(db.connection, db.t, x);
    assert Snapshot(e) == db;
    GetOneRetracted(e, Resolved(a), true, true, a, None, d);
  }

  /** A schema read with no datom to decide it: the builtin table's value,
      if any. */
  lemma SchemaReadAbsent(db: Database, x: ID, a: ID)
    requires Usable(db) && Healthy(db.connection.storage) && WellFormed(db.connection.storage)
    requires a != Builtins.DB_ID && a < ID_LIMIT - 1
    requires forall d :: !Holds(db, x, a, d)
    ensures SchemaRead(db, x, a) == Ok(Fallback(NotFound, x, a))
  {
    var e := Entity(db.connection, db.t, x);
    assert Snapshot(e) == db;
    GetOneAbsent(e, Resolved(a), true, true, a, None);
  }

  /** With a decisive datom, the snapshot states its value when it is an
      Addition and the builtin value otherwise. */
  lemma StatedByDecisive(db: Database, x: ID, a: ID, v: Value, d: Datom)
    requires Decisive(db, x, a, d)
    ensures Stated(db, x, a, v) <==>
      if d.datomType.Addition? then d.value == v else Builtins.BuiltinValue(x, a) == Some(v)
  {
    forall d' | Decisive(db, x, a, d') ensures d' == d {
      DecisiveUnique(db, x, a, d, d');
    }
  }

  /** Some datom decides an attribute that has any datom at all. */
  lemma SomeDecisive(db: Database, x: ID, a: ID)
    requires Usable(db) && Healthy(db.connection.storage) && WellFormed(db.connection.storage)
    requires a < ID_LIMIT - 1
    ensures (exists d :: Holds(db, x, a, d)) ==> exists d :: Decisive(db, x, a, d)
  {
    DecideOneMeans(db, x, a, None);
  }

  /** A schema read an Addition decides yields a plain value exactly when
      the snapshot states it. */
  lemma SchemaReadMeansAsserted(db: Database, x: ID, a: ID, v: Value, d: Datom)
    requires Usable(db) && Healthy(db.connection.storage) && WellFormed(db.connection.storage)
    requires a != Builtins.DB_ID && a < ID_LIMIT - 1
    requires Decisive(db, x, a, d) && d.datomType.Addition?
    ensures SchemaRead(db, x, a).Ok?
    ensures SchemaRead(db, x, a) == Ok(Scalar(v)) <==> Stated(db, x, a, v)
  {
    StatedByDecisive(db, x, a, v, d);
    SchemaReadAsserted(db, x, a, d);
  }

  /** A schema read a Retraction decides yields a plain value exactly when
      the builtin table states it. */
  lemma SchemaReadMeansRetracted(db: Database, x: ID, a: ID, v: Value, d: Datom)
    requires Usable(db) && Healthy(db.connection.storage) && WellFormed(db.connection.storage)
    requires a != Builtins.DB_ID && a < ID_LIMIT - 1
    requires Decisive(db, x, a, d) && d.datomType.Retraction?
    ensures SchemaRead(db, x, a).Ok?
    ensures SchemaRead(db, x, a) == Ok(Scalar(v)) <==> Stated(db, x, a, v)
  {
    StatedByDecisive(db, x, a, v, d);
    SchemaReadRetracted(db, x, a, d);
  }

  /** A schema read no datom decides yields a plain value exactly when the
      builtin table states it. */
  lemma SchemaReadMeansAbsent(db: Database, x: ID, a: ID, v: Value)
    requires Usable(db) && Healthy(db.connection.storage) && WellFormed(db.connection.storage)
    requires a != Builtins.DB_ID && a < ID_LIMIT - 1
    requires forall d :: !Holds(db, x, a, d)
    ensures SchemaRead(db, x, a).Ok?
    ensures SchemaRead(db, x, a) == Ok(Scalar(v)) <==> Stated(db, x, a, v)
  {
    assert forall d :: !Decisive(db, x, a, d);
    SchemaReadAbsent(db, x, a);
  }

  /** A schema read on a healthy, well-formed store succeeds, and yields a
      plain value exactly when the snapshot states it. */
  lemma SchemaReadMeans(db: Database, x: ID, a: ID, v: Value)
    requires Usable(db) && Healthy(db.connection.storage) && WellFormed(db.connection.storage)
    requires a != Builtins.DB_ID && a < ID_LIMIT - 1
    ensures SchemaRead(db, x, a).Ok?
    ensures SchemaRead(db, x, a) == Ok(Scalar(v)) <==> Stated(db, x, a, v)
  {
    SomeDecisive(db, x, a);
    if exists d :: Holds(db, x, a, d) {
      var d :| Decisive(db, x, a, d);
      if d.datomType.Addition? {
        SchemaReadMeansAsserted(db, x, a, v, d);
      } else {
        SchemaReadMeansRetracted(db, x, a, v, d);
      }
    } else {
      SchemaReadMeansAbsent(db, x, a, v);
    }
  }

  /** `is_unique`: the read is the plain value `true`. */
  predicate UniqueFlag(r: EntityResult)
  {
    r == Scalar(Boolean(true))
  }

  /** `is_ref`: the read is the plain ID `TYPE_REF`. */
  predicate RefFlag(r: EntityResult)
  {
    r == Scalar(Id(Builtins.TYPE_REF))
  }

  /** The keys of one datom given the two schema reads: EAVT and AEVT
      always, AVET when the attribute is unique, VAET when it is a
      reference. */
  function Entries(d: Datom, unique: EntityResult, valueType: EntityResult): (r: seq<Key>)
    ensures forall k :: k in r <==>
      k == Serialize(d, EAVT) || k == Serialize(d, AEVT) ||
      (k == Serialize(d, AVET) && UniqueFlag(unique)) || (k == Serialize(d, VAET) && RefFlag(valueType))
  {
    [Serialize(d, EAVT), Serialize(d, AEVT)] +
    (if UniqueFlag(unique) then [Serialize(d, AVET)] else []) +
    (if RefFlag(valueType) then [Serialize(d, VAET)] else [])
  }

  /** The keys `transact_tx` writes for one datom, with the attribute's
      schema read in the snapshot before the transaction: uniqueness first,
      then the value type. */
  function IndexKeys(before: Database, d: Datom): (r: Result<seq<Key>, TransactionError>)
    requires Usable(before)
    ensures r.Ok? <==> SchemaRead(before, d.attribute, Builtins.UNIQUE).Ok? && SchemaRead(before, d.attribute, Builtins.VALUE_TYPE).Ok?
    ensures SchemaRead(before, d.attribute, Builtins.UNIQUE).Err? ==> r == Err(SchemaRead(before, d.attribute, Builtins.UNIQUE).error)
    ensures r.Ok? ==> r.value == Entries(d, SchemaRead(before, d.attribute, Builtins.UNIQUE).value, SchemaRead(before, d.attribute, Builtins.VALUE_TYPE).value)
  {
    var unique :- SchemaRead(before, d.attribute, Builtins.UNIQUE);
    var valueType :- SchemaRead(before, d.attribute, Builtins.VALUE_TYPE);
    Ok(Entries(d, unique, valueType))
  }

  /** The indexes a datom is written to: EAVT and AEVT, AVET when the
      attribute is stated unique, VAET when it is stated a reference. */
  ghost predicate Indexed(before: Database, d: Datom, i: Index)
  {
    i.EAVT? || i.AEVT? ||
    (i.AVET? && Stated(before, d.attribute, Builtins.UNIQUE, Boolean(true))) ||
    (i.VAET? && Stated(before, d.attribute, Builtins.VALUE_TYPE, Id(Builtins.TYPE_REF)))
  }

  /** A datom's keys in different indexes differ: the first byte names the
      index. */
  lemma IndexKeysDiffer(d: Datom, i: Index, j: Index)
    requires Serialize(d, i) == Serialize(d, j)
    ensures i == j
  {
    IndexByteRoundTrip(i);
    IndexByteRoundTrip(j);
  }

  /** The entries of a datom are its keys in exactly the indexes the two
      flags select. */
  lemma EntriesMeans(before: Database, d: Datom, unique: EntityResult, valueType: EntityResult)
    requires UniqueFlag(unique) <==> Stated(before, d.attribute, Builtins.UNIQUE, Boolean(true))
    requires RefFlag(valueType) <==> Stated(before, d.attribute, Builtins.VALUE_TYPE, Id(Builtins.TYPE_REF))
    ensures forall i :: Serialize(d, i) in Entries(d, unique, valueType) <==> Indexed(before, d, i)
    ensures forall k | k in Entries(d, unique, valueType) :: exists i :: k == Serialize(d, i)
  {
    forall i ensures Serialize(d, i) in Entries(d, unique, valueType) <==> Indexed(before, d, i) {
      forall j | Serialize(d, i) == Serialize(d, j) ensures i == j {
        IndexKeysDiffer(d, i, j);
      }
    }
  }

  /** On a healthy, well-formed store a datom's keys are read without error,
      and they are its keys in exactly the indexes it belongs to. */
  lemma IndexKeysMeans(before: Database, d: Datom)
    requires Usable(before) && Healthy(before.connection.storage) && WellFormed(before.connection.storage)
    ensures IndexKeys(before, d).Ok?
    ensures forall i :: Serialize(d, i) in IndexKeys(before, d).value <==> Indexed(before, d, i)
    ensures forall k | k in IndexKeys(before, d).value :: exists i :: k == Serialize(d, i)
  {
    SchemaReadMeans(before, d.attribute, Builtins.UNIQUE, Boolean(true));
    SchemaReadMeans(before, d.attribute, Builtins.VALUE_TYPE, Id(Builtins.TYPE_REF));
    var unique := SchemaRead(before, d.attribute, Builtins.UNIQUE).value;
    var valueType := SchemaRead(before, d.attribute, Builtins.VALUE_TYPE).value;
    EntriesMeans(before, d, unique, valueType);
  }

  /** The keys of a list of reads, in order, or the first failure. */
  function Concat(rs: seq<Result<seq<Key>, TransactionError>>): (r: Result<seq<Key>, TransactionError>)
    ensures r.Ok? <==> forall j | 0 <= j < |rs| :: rs[j].Ok?
    ensures r.Ok? ==> forall k :: k in r.value <==> exists j | 0 <= j < |rs| :: k in rs[j].value
    ensures r.Err? ==> exists j | 0 <= j < |rs| :: rs[j] == Err(r.error) && forall j' | 0 <= j' < j :: rs[j'].Ok?
  {
    if |rs| == 0 then Ok([])
    else
      var keys :- rs[0];
      var rest :- Concat(rs[1..]);
      assert forall j | 1 <= j < |rs| :: rs[j] == rs[1..][j - 1];
      Ok(keys + rest)
  }

  /** The keys of each datom, as read in the snapshot before. */
  function KeyReads(before: Database, data: seq<Datom>): (rs: seq<Result<seq<Key>, TransactionError>>)
    requires Usable(before)
    ensures |rs| == |data| && forall j | 0 <= j < |data| :: rs[j] == IndexKeys(before, data[j])
  {
    seq(|data|, j requires 0 <= j < |data| => IndexKeys(before, data[j]))
  }

  /** The keys of every datom of a transaction, in order; the first failed
      schema read stops it. */
  function BatchKeys(before: Database, data: seq<Datom>): Result<seq<Key>, TransactionError>
    requires Usable(before)
  {
    Concat(KeyReads(before, data))
  }

  /** The indexes a datom is written to, as a set. */
  ghost function Indexes(before: Database, d: Datom): (r: set<Index>)
    ensures forall i :: i in r <==> Indexed(before, d, i)
  {
    set i: Index | Indexed(before, d, i)
  }

  /** On a healthy, well-formed store each datom's read succeeds with its
      keys in the indexes it belongs to. */
  lemma KeyReadsMeans(before: Database, data: seq<Datom>)
    requires Usable(before) && Healthy(before.connection.storage) && WellFormed(before.connection.storage)
    ensures forall j | 0 <= j < |data| ::
      (KeyReads(before, data)[j].Ok? &&
       forall k :: k in KeyReads(before, data)[j].value <==> exists i | i in Indexes(before, data[j]) :: k == Serialize(data[j], i))
  {
    var rs := KeyReads(before, data);
    forall j | 0 <= j < |data| ensures rs[j].Ok? &&
      (forall k :: k in rs[j].value <==> exists i | i in Indexes(before, data[j]) :: k == Serialize(data[j], i))
    {
      IndexKeysMeans(before, data[j]);
    }
  }

  /** Reads that each hold one datom's keys in a set of indexes concatenate
      to the keys of all of them. */
  lemma ConcatSelects(rs: seq<Result<seq<Key>, TransactionError>>, data: seq<Datom>, sel: seq<set<Index>>)
    requires |rs| == |data| == |sel|
    requires forall j | 0 <= j < |rs| ::
      (rs[j].Ok? && forall k :: k in rs[j].value <==> exists i | i in sel[j] :: k == Serialize(data[j], i))
    ensures Concat(rs).Ok?
    ensures forall k :: k in Concat(rs).value <==>
      exists j, i | 0 <= j < |data| && i in sel[j] :: k == Serialize(data[j], i)
  {
    var items := Concat(rs).value;
    forall k ensures k in items <==> exists j, i | 0 <= j < |data| && i in sel[j] :: k == Serialize(data[j], i) {
      if k in items {
        var j :| 0 <= j < |rs| && k in rs[j].value;
        var i :| i in sel[j] && k == Serialize(data[j], i);
      }
      if exists j, i | 0 <= j < |data| && i in sel[j] :: k == Serialize(data[j], i) {
        var j, i :| 0 <= j < |data| && i in sel[j] && k == Serialize(data[j], i);
        assert k in rs[j].value;
      }
    }
  }

  /** On a healthy, well-formed store the batch is read without error and
      holds exactly each datom's keys in the indexes it belongs to. */
  lemma BatchKeysMeans(before: Database, data: seq<Datom>)
    requires Usable(before) && Healthy(before.connection.storage) && WellFormed(before.connection.storage)
    ensures BatchKeys(before, data).Ok?
    ensures forall k :: k in BatchKeys(before, data).value <==>
      exists j, i | 0 <= j < |data| && i in Indexes(before, data[j]) :: k == Serialize(data[j], i)
  {
    var rs := KeyReads(before, data);
    var sel := seq(|data|, j requires 0 <= j < |data| => Indexes(before, data[j]));
    KeyReadsMeans(before, data);
    ConcatSelects(rs, data, sel);
  }

  // ---------------------------------------------------------------------------
  // Connection::transact_tx
  // ---------------------------------------------------------------------------

  /** What a transaction returns: the snapshots at the t before it and at
      its own t, and the datoms it wrote. */
  datatype TransactionResult = TransactionResult(before: Database, after: Database, data: seq<Datom>)

  /** A clock error as the transaction reports it: a connection error as
      such, anything else as a failed query. */
  function ClockError(e: QueryError): (r: TransactionError)
    ensures e.ConnectionFailed? <==> r.ConnectionFailure?
    ensures e.ConnectionFailed? ==> r.cause == e.cause
    ensures !e.ConnectionFailed? ==> r == QueryFailed(e)
  {
    if e.ConnectionFailed? then ConnectionFailure(e.cause) else QueryFailed(e)
  }

  /** The key of the record a transaction at `t` leaves. */
  function RecordKey(t: u64, millis: i64): Key
  {
    SerializeTr(TransactionRecord(t, millis))
  }

  /** The one insert that ends a transaction: the batch and the record go
      to storage together, and the result sees the storage as it is then.
      A write the storage refuses is reported as a connection failure, and
      whatever part of the batch a first tier took stays there. */
  function Commit(c: Connection, tb: u64, data: seq<Datom>, items: seq<Key>, millis: i64): (out: (Connection, Result<TransactionResult, TransactionError>))
    requires Valid(c.storage) && tb < U64_LIMIT - 1
    ensures Valid(out.0.storage) && out.0.id == c.id && FirstFailure(out.0.storage) == FirstFailure(c.storage)
    ensures out.1.Ok? <==> Writable(c.storage)
    ensures out.1.Ok? ==> out.1 == Ok(TransactionResult(Database(out.0, tb), Database(out.0, tb + 1), data))
    ensures out.1.Ok? ==> forall k :: k in Contents(out.0.storage) <==>
      k in Contents(c.storage) || k in items || k == RecordKey(tb + 1, millis)
    ensures out.1.Err? ==> out.1.error == ConnectionFailure(Storage(WriteFailure(c.storage).value))
    ensures out.1.Err? ==> forall k | k in Contents(c.storage) :: k in Contents(out.0.storage)
    ensures out.1.Err? ==> forall k | k in Contents(out.0.storage) ::
      k in Contents(c.storage) || k in items || k == RecordKey(tb + 1, millis)
  {
    match Insert(c.storage, items + [RecordKey(tb + 1, millis)])
    case (s, Err(e)) => (Connection(s, c.id), Err(ConnectionFailure(Storage(e))))
    case (s, Ok(_)) =>
      var after := Connection(s, c.id);
      (after, Ok(TransactionResult(Database(after, tb), Database(after, tb + 1), data)))
  }

  /** A commit onto a tiered store whose first tier takes writes and whose
      second refuses them fails with the second tier's error, yet leaves
      every key of the batch and the transaction's record in the first
      tier. */
  lemma CommitPartial(c: Connection, tb: u64, data: seq<Datom>, items: seq<Key>, millis: i64)
    requires Valid(c.storage) && tb < U64_LIMIT - 1
    requires c.storage.Tiered? && Writable(c.storage.a) && !Writable(c.storage.b)
    ensures var out := Commit(c, tb, data, items, millis);
      out.1 == Err(ConnectionFailure(Storage(WriteFailure(c.storage.b).value))) &&
      out.0.storage.Tiered? &&
      RecordKey(tb + 1, millis) in Contents(out.0.storage.a) &&
      forall k | k in items :: k in Contents(out.0.storage.a)
  {
    var batch := items + [RecordKey(tb + 1, millis)];
    var ins := Insert(c.storage, batch);
    assert ins.1.Err? && !Writable(c.storage);
    assert Commit(c, tb, data, items, millis).0 == Connection(ins.0, c.id);
    assert RecordKey(tb + 1, millis) in Elems(batch);
    assert forall k | k in items :: k in Elems(batch);
  }

  /** The rest of a transaction once the datoms are made: a failure is
      passed on; else each datom's keys are read and committed. */
  function Write(c: Connection, tb: u64, datoms: Result<seq<Datom>, TransactionError>, millis: i64): (out: (Connection, Result<TransactionResult, TransactionError>))
    requires Valid(c.storage) && tb < U64_LIMIT - 1
    ensures Valid(out.0.storage) && out.0.id == c.id
    ensures datoms.Err? ==> out == (c, Err(datoms.error))
    ensures datoms.Ok? && BatchKeys(Database(c, tb), datoms.value).Ok? ==>
      out == Commit(c, tb, datoms.value, BatchKeys(Database(c, tb), datoms.value).value, millis)
    ensures out.1.Ok? ==> (datoms.Ok? && BatchKeys(Database(c, tb), datoms.value).Ok? &&
      out == Commit(c, tb, datoms.value, BatchKeys(Database(c, tb), datoms.value).value, millis))
    ensures out.1.Err? && Writable(c.storage) ==> out.0 == c
    ensures out.1.Err? && out.0 != c ==> out.1.error == ConnectionFailure(Storage(WriteFailure(c.storage).value))
  {
    match datoms
    case Err(e) => (c, Err(e))
    case Ok(data) =>
      match BatchKeys(Database(c, tb), data)
      case Err(e) => (c, Err(e))
      case Ok(items) => Commit(c, tb, data, items, millis)
  }

  /** `transact_tx`: the transaction's t is one past the latest; its facts
      become datoms against the snapshot before it; every datom is written
      to EAVT and AEVT, and to AVET and VAET as its attribute's schema
      says; the record of the transaction closes the batch, which goes to
      storage in one insert. Whatever fails before that insert leaves the
      connection as it was; an insert that fails may leave part of the
      batch in a first tier. `millis` is the wall-clock time the record
      carries; a t that cannot grow panics. */
  function TransactTx(c: Connection, tx: Transaction, millis: i64): (out: (Connection, Result<TransactionResult, TransactionError>))
    requires Valid(c.storage)
    ensures Valid(out.0.storage) && out.0.id == c.id
    ensures out.1.Err? && Writable(c.storage) ==> out.0 == c
    ensures out.1.Err? && out.0 != c ==> out.1.error == ConnectionFailure(Storage(WriteFailure(c.storage).value))
    ensures LatestT(c).Err? ==> out.1 == Err(ClockError(LatestT(c).error))
    ensures LatestT(c) == Ok(U64_LIMIT - 1) ==> out == (c, Err(QueryFailed(Panicked)))
    ensures LatestT(c).Ok? && LatestT(c).value < U64_LIMIT - 1 ==>
      out == Write(c, LatestT(c).value, TxDatoms(tx, LatestT(c).value + 1, Database(c, LatestT(c).value)), millis)
    ensures out.1.Ok? ==> Healthy(c.storage) && Writable(c.storage) && LatestT(c).Ok? && LatestT(c).value < U64_LIMIT - 1
  {
    if LatestT(c).Err? then (c, Err(ClockError(LatestT(c).error)))
    else if LatestT(c).value == U64_LIMIT - 1 then (c, Err(QueryFailed(Panicked)))
    else Write(c, LatestT(c).value, TxDatoms(tx, LatestT(c).value + 1, Database(c, LatestT(c).value)), millis)
  }

  /** A transaction that succeeds commits its datoms' keys at one past the
      latest t. */
  lemma TransactTxCommits(c: Connection, tx: Transaction, millis: i64)
    requires Valid(c.storage) && TransactTx(c, tx, millis).1.Ok?
    ensures var tb := LatestT(c).value;
      var data := TransactTx(c, tx, millis).1.value.data;
      TxDatoms(tx, tb + 1, Database(c, tb)) == Ok(data) && BatchKeys(Database(c, tb), data).Ok? &&
      TransactTx(c, tx, millis) == Commit(c, tb, data, BatchKeys(Database(c, tb), data).value, millis)
  {
  }

  /** A transaction whose datoms and keys are read commits them. */
  lemma TransactTxOk(c: Connection, tx: Transaction, millis: i64)
    requires Valid(c.storage) && Healthy(c.storage) && LatestT(c).Ok? && LatestT(c).value < U64_LIMIT - 1
    requires TxDatoms(tx, LatestT(c).value + 1, Database(c, LatestT(c).value)).Ok?
    requires BatchKeys(Database(c, LatestT(c).value), TxDatoms(tx, LatestT(c).value + 1, Database(c, LatestT(c).value)).value).Ok?
    ensures var tb := LatestT(c).value;
      var data := TxDatoms(tx, tb + 1, Database(c, tb)).value;
      TransactTx(c, tx, millis) == Commit(c, tb, data, BatchKeys(Database(c, tb), data).value, millis)
  {
  }

  /** A transaction with a fact that does not become a datom fails with
      that fact's error. */
  lemma TransactTxRejects(c: Connection, tx: Transaction, millis: i64)
    requires Valid(c.storage) && LatestT(c).Ok? && LatestT(c).value < U64_LIMIT - 1
    requires TxDatoms(tx, LatestT(c).value + 1, Database(c, LatestT(c).value)).Err?
    ensures TransactTx(c, tx, millis) == (c, Err(TxDatoms(tx, LatestT(c).value + 1, Database(c, LatestT(c).value)).error))
  {
  }

  /** On a healthy, well-formed store a transaction succeeds exactly when
      the latest t is read and can grow, every fact becomes a datom and the
      storage takes the write; a fact that does not become a datom fails
      the transaction with its error. */
  lemma TransactSucceeds(c: Connection, tx: Transaction, millis: i64)
    requires Valid(c.storage) && Healthy(c.storage) && WellFormed(c.storage)
    ensures TransactTx(c, tx, millis).1.Ok? <==> (
      Writable(c.storage) && LatestT(c).Ok? && LatestT(c).value < U64_LIMIT - 1 &&
      TxDatoms(tx, LatestT(c).value + 1, Database(c, LatestT(c).value)).Ok?)
    ensures LatestT(c).Ok? && LatestT(c).value < U64_LIMIT - 1 ==>
      var datoms := TxDatoms(tx, LatestT(c).value + 1, Database(c, LatestT(c).value));
      datoms.Err? ==> TransactTx(c, tx, millis).1 == Err(datoms.error)
  {
    if LatestT(c).Ok? && LatestT(c).value < U64_LIMIT - 1 {
      if TxDatoms(tx, LatestT(c).value + 1, Database(c, LatestT(c).value)).Ok? {
        BatchKeysMeans(Database(c, LatestT(c).value), TxDatoms(tx, LatestT(c).value + 1, Database(c, LatestT(c).value)).value);
        TransactTxOk(c, tx, millis);
      } else {
        TransactTxRejects(c, tx, millis);
      }
    }
  }

  /** What a transaction at `tb + 1` writing `data` leaves in the store of
      `after`: what `c` held, the record of the transaction, and each
      datom's key in every index it belongs to, the datoms all carrying
      the new t. */
  ghost predicate Wrote(c: Connection, tb: u64, millis: i64, data: seq<Datom>, after: Connection)
  {
    Valid(after.storage) && Healthy(after.storage) && after.id == c.id && tb < U64_LIMIT - 1 &&
    (forall d | d in data :: d.t == tb + 1) &&
    forall k :: k in Contents(after.storage) <==>
      k in Contents(c.storage) || k == RecordKey(tb + 1, millis) ||
      exists j, i | 0 <= j < |data| && i in Indexes(Database(c, tb), data[j]) :: k == Serialize(data[j], i)
  }

  /** What a successful transaction leaves in storage, and the snapshots
      it returns: the one before it and the one at its t. */
  lemma TransactWrites(c: Connection, tx: Transaction, millis: i64)
    requires Valid(c.storage) && WellFormed(c.storage) && TransactTx(c, tx, millis).1.Ok?
    ensures var out := TransactTx(c, tx, millis);
      var tb := LatestT(c).value;
      out.1.value.before == Database(out.0, tb) && out.1.value.after == Database(out.0, tb + 1) &&
      Wrote(c, tb, millis, out.1.value.data, out.0)
  {
    TransactTxCommits(c, tx, millis);
    BatchKeysMeans(Database(c, LatestT(c).value), TransactTx(c, tx, millis).1.value.data);
  }

  // ---------------------------------------------------------------------------
  // What a transaction leaves for later readers
  // ---------------------------------------------------------------------------

  /** Two datom keys are equal only for the same datom in the same index. */
  lemma DatomKeyInjective(d: Datom, i: Index, e: Datom, j: Index)
    requires Storable(d.value) && Storable(e.value) && Serialize(d, i) == Serialize(e, j)
    ensures d == e && i == j
  {
    DeserializeUnknownRoundTrip(d, i);
    DeserializeUnknownRoundTrip(e, j);
  }

  /** No datom of the store is later than `t`. */
  ghost predicate Settled(s: Store, t: u64)
  {
    forall d: Datom, i: Index | Storable(d.value) && Serialize(d, i) in Contents(s) :: d.t <= t
  }

  /** The state a connection keeps between transactions: a healthy store
      holding only datom keys and records, whose records tell that its
      latest t is `t`, with no datom later than that. */
  ghost predicate Consistent(c: Connection, t: u64)
  {
    Valid(c.storage) && Healthy(c.storage) && WellFormed(c.storage) &&
    Chronicle(c.storage, t) && Settled(c.storage, t)
  }

  /** A key written by a transaction that is neither old nor the record
      is a key of one of its datoms. */
  lemma WrittenKey(c: Connection, tb: u64, millis: i64, data: seq<Datom>, after: Connection, k: Key)
    requires Wrote(c, tb, millis, data, after)
    requires k in Contents(after.storage) && k !in Contents(c.storage) && k != RecordKey(tb + 1, millis)
    ensures exists j, i | 0 <= j < |data| && i in Indexes(Database(c, tb), data[j]) :: k == Serialize(data[j], i)
  {
  }

  /** Writing datoms of t `tb + 1` changes nothing a snapshot at or before
      `tb` sees. */
  lemma WroteKeepsPast(c: Connection, tb: u64, millis: i64, data: seq<Datom>, after: Connection, t: u64, i: Index, d: Datom)
    requires Wrote(c, tb, millis, data, after)
    requires forall e | e in data :: Storable(e.value)
    requires t <= tb
    ensures Visible(Database(after, t), i, d) <==> Visible(Database(c, t), i, d)
  {
    var k := Serialize(d, i);
    if Visible(Database(after, t), i, d) && k !in Contents(c.storage) {
      if k == RecordKey(tb + 1, millis) {
        assert false;
      }
      WrittenKey(c, tb, millis, data, after, k);
      var j, i' :| 0 <= j < |data| && i' in Indexes(Database(c, tb), data[j]) && k == Serialize(data[j], i');
      assert data[j] in data;
      DatomKeyInjective(d, i, data[j], i');
      assert false;
    }
  }

  /** Each datom written at `tb + 1` onto a store with no datom later
      than `tb` is seen at `tb + 1` in exactly the indexes it belongs to,
      and not at `tb`. */
  lemma WroteVisible(c: Connection, tb: u64, millis: i64, data: seq<Datom>, after: Connection, j: nat, i: Index)
    requires Wrote(c, tb, millis, data, after) && Settled(c.storage, tb)
    requires forall e | e in data :: Storable(e.value)
    requires j < |data|
    ensures Visible(Database(after, tb + 1), i, data[j]) <==> Indexed(Database(c, tb), data[j], i)
    ensures !Visible(Database(after, tb), i, data[j])
  {
    var d := data[j];
    var k := Serialize(d, i);
    assert d in data;
    if k in Contents(after.storage) && !Indexed(Database(c, tb), d, i) {
      if k in Contents(c.storage) {
        assert false;
      }
      if k == RecordKey(tb + 1, millis) {
        assert false;
      }
      WrittenKey(c, tb, millis, data, after, k);
      var m, i' :| 0 <= m < |data| && i' in Indexes(Database(c, tb), data[m]) && k == Serialize(data[m], i');
      assert data[m] in data;
      DatomKeyInjective(d, i, data[m], i');
      assert false;
    }
  }

  /** Writing onto a store consistent at `tb`, with a timestamp after the
      epoch, leaves it consistent at `tb + 1`. */
  lemma WroteAdvances(c: Connection, tb: u64, millis: i64, data: seq<Datom>, after: Connection)
    requires Consistent(c, tb) && millis >= 0 && Wrote(c, tb, millis, data, after)
    requires forall e | e in data :: Storable(e.value)
    ensures Consistent(after, tb + 1)
    ensures LatestT(after) == Ok(tb + 1)
  {
    var s := after.storage;
    var rec := TransactionRecord(tb + 1, millis);
    assert RecordKey(tb + 1, millis) == SerializeTr(rec);
    forall k | k in Contents(s) ensures DatomKey(k) || (|k| > 0 && k[0] == TR_BYTE) {
      if k !in Contents(c.storage) && k != SerializeTr(rec) {
        WrittenKey(c, tb, millis, data, after, k);
        var j, i :| 0 <= j < |data| && i in Indexes(Database(c, tb), data[j]) && k == Serialize(data[j], i);
        assert data[j] in data;
        DatomKeyOf(data[j], i);
      }
    }
    forall k | k in Contents(s) && Contains(TrRange(), k)
      ensures exists tr: TransactionRecord :: k == SerializeTr(tr) && tr.t <= tb + 1
    {
      if k in Contents(c.storage) {
        var tr: TransactionRecord :| k == SerializeTr(tr) && tr.t <= tb;
      } else if k != SerializeTr(rec) {
        WrittenKey(c, tb, millis, data, after, k);
        var j, i :| 0 <= j < |data| && i in Indexes(Database(c, tb), data[j]) && k == Serialize(data[j], i);
        TrRangeSelects(data[j], i, rec);
        assert false;
      }
    }
    RecordInRange(rec);
    forall d: Datom, i: Index | Storable(d.value) && Serialize(d, i) in Contents(s) ensures d.t <= tb + 1 {
      var k := Serialize(d, i);
      if k !in Contents(c.storage) && k != SerializeTr(rec) {
        WrittenKey(c, tb, millis, data, after, k);
        var j, i' :| 0 <= j < |data| && i' in Indexes(Database(c, tb), data[j]) && k == Serialize(data[j], i');
        assert data[j] in data;
        DatomKeyInjective(d, i, data[j], i');
      }
    }
    LatestTMeans(after, tb + 1);
  }

  /** A transaction changes nothing a snapshot at or before the latest t
      sees. */
  lemma TransactKeepsPast(c: Connection, tx: Transaction, millis: i64, t: u64, i: Index, d: Datom)
    requires Valid(c.storage) && WellFormed(c.storage) && TransactTx(c, tx, millis).1.Ok?
    requires forall e | e in TransactTx(c, tx, millis).1.value.data :: Storable(e.value)
    requires t <= LatestT(c).value
    ensures Visible(Database(TransactTx(c, tx, millis).0, t), i, d) <==> Visible(Database(c, t), i, d)
  {
    TransactWrites(c, tx, millis);
    WroteKeepsPast(c, LatestT(c).value, millis, TransactTx(c, tx, millis).1.value.data, TransactTx(c, tx, millis).0, t, i, d);
  }

  /** Each datom a successful transaction on a consistent connection
      writes is seen at the transaction's t in exactly the indexes it
      belongs to, and not at the t before. */
  lemma TransactVisible(c: Connection, tx: Transaction, millis: i64, t0: u64, j: nat, i: Index)
    requires Consistent(c, t0) && TransactTx(c, tx, millis).1.Ok?
    requires j < |TransactTx(c, tx, millis).1.value.data|
    requires forall e | e in TransactTx(c, tx, millis).1.value.data :: Storable(e.value)
    ensures var r := TransactTx(c, tx, millis).1.value;
      (Visible(r.after, i, r.data[j]) <==> Indexed(Database(c, t0), r.data[j], i)) &&
      !Visible(r.before, i, r.data[j])
  {
    LatestTMeans(c, t0);
    TransactWrites(c, tx, millis);
    WroteVisible(c, t0, millis, TransactTx(c, tx, millis).1.value.data, TransactTx(c, tx, millis).0, j, i);
  }

  /** A transaction on a connection consistent at `t0` leaves it
      consistent at `t0 + 1`, which `latest_t` then reads back. The
      wall-clock time is taken to be after the epoch. */
  lemma TransactAdvances(c: Connection, tx: Transaction, millis: i64, t0: u64)
    requires Consistent(c, t0) && millis >= 0 && TransactTx(c, tx, millis).1.Ok?
    requires forall e | e in TransactTx(c, tx, millis).1.value.data :: Storable(e.value)
    ensures LatestT(c) == Ok(t0) && t0 < U64_LIMIT - 1
    ensures Consistent(TransactTx(c, tx, millis).0, t0 + 1)
    ensures LatestT(TransactTx(c, tx, millis).0) == Ok(t0 + 1)
  {
    LatestTMeans(c, t0);
    TransactWrites(c, tx, millis);
    WroteAdvances(c, t0, millis, TransactTx(c, tx, millis).1.value.data, TransactTx(c, tx, millis).0);
  }

  // ---------------------------------------------------------------------------
  // Connection::transact
  // ---------------------------------------------------------------------------

  /** What `transact` accepts: a transaction, or an attribute schema that
      makes one. */
  datatype Transactable = Plain(tx: Transaction) | Schema(schema: AttributeSchema)

  /** `Transactable::tx`: a transaction is taken as it is; a schema adds
      one fact per option set, besides the one naming it, all on the
      attribute itself. */
  function TxOf(x: Transactable): (tx: Transaction)
    ensures x.Plain? ==> tx == x.tx
    ensures x.Schema? ==> tx == SchemaTx(x.schema) && |tx.facts| == 1 + Options(x.schema)
    ensures x.Schema? ==> forall j | 0 <= j < |tx.facts| ::
      tx.facts[j].Add? && tx.facts[j].entity == Resolved(x.schema.id) && tx.facts[j].attribute.Resolved?
  {
    match x
    case Plain(tx) => tx
    case Schema(s) => SchemaTxSize(s); SchemaTxOrder(s); SchemaTx(s)
  }

  /** `transact`: the transaction the transactable makes. */
  function Transact(c: Connection, x: Transactable, millis: i64): (out: (Connection, Result<TransactionResult, TransactionError>))
    requires Valid(c.storage)
    ensures Valid(out.0.storage) && out.0.id == c.id
    ensures out.1.Err? && Writable(c.storage) ==> out.0 == c
  {
    TransactTx(c, TxOf(x), millis)
  }

  /** On a healthy, well-formed store a transaction of additions between
      resolved IDs fails only when the latest t cannot be read or cannot
      grow, or the storage refuses the write; it writes each fact as the
      addition it spells out. */
  lemma TransactResolvedAdds(c: Connection, tx: Transaction, millis: i64)
    requires Valid(c.storage) && Healthy(c.storage) && WellFormed(c.storage)
    requires forall j | 0 <= j < |tx.facts| :: tx.facts[j].Add? && tx.facts[j].entity.Resolved? && tx.facts[j].attribute.Resolved?
    ensures TransactTx(c, tx, millis).1.Ok? <==> Writable(c.storage) && LatestT(c).Ok? && LatestT(c).value < U64_LIMIT - 1
    ensures TransactTx(c, tx, millis).1.Ok? ==>
      var data := TransactTx(c, tx, millis).1.value.data;
      |data| == |tx.facts| &&
      forall j | 0 <= j < |data| ::
        data[j] == Datom(tx.facts[j].entity.id, tx.facts[j].attribute.id, tx.facts[j].value, LatestT(c).value + 1, Addition)
  {
    TransactSucceeds(c, tx, millis);
    if LatestT(c).Ok? && LatestT(c).value < U64_LIMIT - 1 {
      ResolvedAddsSucceed(tx, LatestT(c).value + 1, Database(c, LatestT(c).value));
      if TransactTx(c, tx, millis).1.Ok? {
        TransactTxCommits(c, tx, millis);
      }
    }
  }

  /** On a healthy, well-formed store a schema's transaction fails only
      when the latest t cannot be read or cannot grow, or the storage
      refuses the write; it writes one
      addition per fact of the schema, on the attribute, at the new t. */
  lemma TransactSchema(c: Connection, s: AttributeSchema, millis: i64)
    requires Valid(c.storage) && Healthy(c.storage) && WellFormed(c.storage)
    ensures Transact(c, Schema(s), millis).1.Ok? <==> Writable(c.storage) && LatestT(c).Ok? && LatestT(c).value < U64_LIMIT - 1
    ensures Transact(c, Schema(s), millis).1.Ok? ==>
      var data := Transact(c, Schema(s), millis).1.value.data;
      var facts := TxOf(Schema(s)).facts;
      |data| == 1 + Options(s) &&
      forall j | 0 <= j < |data| ::
        data[j] == Datom(s.id, facts[j].attribute.id, facts[j].value, LatestT(c).value + 1, Addition)
  {
    var tx := TxOf(Schema(s));
    var out := TransactTx(c, tx, millis);
    assert Transact(c, Schema(s), millis) == out;
    TransactResolvedAdds(c, tx, millis);
    if out.1.Ok? {
      var data := out.1.value.data;
      forall j | 0 <= j < |data|
        ensures data[j] == Datom(s.id, tx.facts[j].attribute.id, tx.facts[j].value, LatestT(c).value + 1, Addition)
      {
        assert tx.facts[j].entity == Resolved(s.id);
      }
    }
  }
}
