/** A connection, the snapshot of it at one t (`Database`), and the range
    queries a snapshot answers (`Database::datoms*`). Each query scans
    exactly one key range of the connection's storage and binds the
    resulting datom iterator to the snapshot's t. */
module Databases {
  import opened Results
  import opened Bytes
  import opened Ids
  import opened Values
  import opened SortedKeys
  import opened StorageErrors
  import opened Datoms
  import opened Serial
  import opened Backends
  import opened DatomIterators
  import opened Errors

  /** A connection: its storage and the random ID drawn when it was opened
      (`ID::new()`, an input here). */
  datatype Connection = Connection(storage: Store, id: ID)

  /** `Connection == Connection`: by ID alone. */
  predicate ConnectionEq(x: Connection, y: Connection)
  {
    x.id == y.id
  }

  /** `Connection::new`: the storage as given, under a fresh ID. */
  function NewConnection(storage: Store, freshId: ID): (c: Connection)
    ensures c.storage == storage && c.id == freshId
    ensures ConnectionEq(c, c)
  {
    Connection(storage, freshId)
  }

  /** Two connections opened with different fresh IDs are unequal, even
      over the same storage. */
  lemma DistinctConnections(storage: Store, x: ID, y: ID)
    requires x != y
    ensures !ConnectionEq(NewConnection(storage, x), NewConnection(storage, y))
    ensures ConnectionEq(NewConnection(storage, x), NewConnection(storage, x))
  {
  }

  /** A view of the connection at time `t`. */
  datatype Database = Database(connection: Connection, t: u64)

  /** An entity seen through a snapshot. */
  datatype Entity = Entity(connection: Connection, t: u64, id: ID)

  /** The storage the model works with keeps its in-memory sets ordered. */
  predicate Usable(db: Database)
  {
    Valid(db.connection.storage)
  }

  // ---------------------------------------------------------------------------
  // Scanning one range
  // ---------------------------------------------------------------------------

  /** The items of a scan that met no storage error. */
  function AsItems(keys: seq<Key>): (r: seq<Item>)
    ensures |r| == |keys|
    ensures forall i | 0 <= i < |keys| :: r[i] == Ok(keys[i])
  {
    if |keys| == 0 then [] else [Ok(keys[0])] + AsItems(keys[1..])
  }

  lemma {:induction false} OkKeysOfItems(keys: seq<Key>)
    ensures OkKeys(AsItems(keys)) == keys
  {
    if |keys| > 0 {
      OkKeysOfItems(keys[1..]);
      assert AsItems(keys)[1..] == AsItems(keys[1..]);
    }
  }

  /** `storage.range(r)` wrapped in a datom iterator at the snapshot's t; a
      storage error becomes a connection error. */
  function ScanRange(db: Database, r: KeyRange): (res: Result<DatomIter, QueryError>)
    requires Usable(db)
    ensures res.Ok? <==> Healthy(db.connection.storage)
    ensures res.Err? ==> res.error == FromStorage(FirstFailure(db.connection.storage).value)
    ensures res.Ok? ==> res.value.t == db.t && Ordered(Forward, OkKeys(res.value.items))
    ensures res.Ok? ==> forall k :: k in OkKeys(res.value.items) <==> k in Contents(db.connection.storage) && Contains(r, k)
    ensures res.Ok? ==> forall i | 0 <= i < |res.value.items| :: res.value.items[i].Ok?
  {
    match Scan(db.connection.storage, r.from, r.to)
    case Ok(keys) =>
      OkKeysOfItems(keys);
      Ok(DatomIter(AsItems(keys), db.t))
    case Err(e) => Err(FromStorage(e))
  }

  /** A key whose computation panicked aborts the query. */
  function ScanParsedRange(db: Database, r: Parse<KeyRange>): (res: Result<DatomIter, QueryError>)
    requires Usable(db)
    ensures r.Parsed? ==> res == ScanRange(db, r.value)
    ensures !r.Parsed? ==> res == Err(Panicked)
  {
    if r.Parsed? then ScanRange(db, r.value) else Err(Panicked)
  }

  // ---------------------------------------------------------------------------
  // The queries
  // ---------------------------------------------------------------------------

  /** `datoms(index)`. */
  function AllDatoms(db: Database, i: Index): (res: Result<DatomIter, QueryError>)
    requires Usable(db)
    ensures res.Ok? ==> res.value.t == db.t
    ensures res.Ok? ==> forall k :: k in OkKeys(res.value.items) <==>
      k in Contents(db.connection.storage) && |k| > 0 && k[0] == IndexByte(i)
  {
    var res := ScanRange(db, IndexRange(i));
    forall k ensures Contains(IndexRange(i), k) <==> |k| > 0 && k[0] == IndexByte(i) {
      IndexRangeSelects(i, k);
    }
    res
  }

  /** `datoms_for_entity(e)`: the EAVT range of `e`. */
  function DatomsForEntity(db: Database, e: ID): (res: Result<DatomIter, QueryError>)
    requires Usable(db)
    ensures res.Ok? ==> res.value.t == db.t
    ensures e == ID_LIMIT - 1 ==> res == Err(Panicked)
    ensures e < ID_LIMIT - 1 ==> res.Ok? == Healthy(db.connection.storage)
  {
    ScanParsedRange(db, EavtEntityRange(e))
  }

  /** `datoms_for_entity_attribute(e, a)`: the EAVT range of `e` and `a`. */
  function DatomsForEntityAttribute(db: Database, e: ID, a: ID): (res: Result<DatomIter, QueryError>)
    requires Usable(db)
    ensures res.Ok? ==> res.value.t == db.t
    ensures a == ID_LIMIT - 1 ==> res == Err(Panicked)
    ensures a < ID_LIMIT - 1 ==> res.Ok? == Healthy(db.connection.storage)
  {
    ScanParsedRange(db, EavtEntityAttributeRange(e, a))
  }

  /** `datoms_for_attribute_value(a, v)`: the AVET range of `a` and `v`,
      with the range end corrected (see `Serial.AvetAttributeValueRange`). */
  function DatomsForAttributeValue(db: Database, a: ID, v: Value): (res: Result<DatomIter, QueryError>)
    requires Usable(db)
    ensures res.Ok? ==> res.value.t == db.t
    ensures res.Ok? == Healthy(db.connection.storage)
  {
    ScanRange(db, AvetAttributeValueRange(a, v))
  }

  /** `datoms_for_value_attribute(v, a)`: the VAET range of `v` and `a`,
      with the range end corrected. */
  function DatomsForValueAttribute(db: Database, v: Value, a: ID): (res: Result<DatomIter, QueryError>)
    requires Usable(db)
    ensures res.Ok? ==> res.value.t == db.t
    ensures res.Ok? == Healthy(db.connection.storage)
  {
    ScanRange(db, VaetValueAttributeRange(v, a))
  }

  // ---------------------------------------------------------------------------
  // What each query sees of a stored datom
  // ---------------------------------------------------------------------------

  /** A datom's EAVT key in the store is scanned for its entity and for no
      other. */
  lemma DatomsForEntitySees(db: Database, e: ID, d: Datom)
    requires Usable(db) && DatomsForEntity(db, e).Ok?
    requires Serialize(d, EAVT) in Contents(db.connection.storage)
    ensures Serialize(d, EAVT) in OkKeys(DatomsForEntity(db, e).value.items) <==> d.entity == e
  {
    EavtEntityRangeSelects(d, e);
  }

  /** A datom's EAVT key in the store is scanned for its entity and
      attribute and for no other pair. */
  lemma DatomsForEntityAttributeSees(db: Database, e: ID, a: ID, d: Datom)
    requires Usable(db) && DatomsForEntityAttribute(db, e, a).Ok?
    requires Serialize(d, EAVT) in Contents(db.connection.storage)
    ensures Serialize(d, EAVT) in OkKeys(DatomsForEntityAttribute(db, e, a).value.items) <==>
      d.entity == e && d.attribute == a
  {
    EavtEntityAttributeRangeSelects(d, e, a);
  }

  /** A datom's AVET key in the store is scanned for its attribute and
      value and for no other pair. */
  lemma DatomsForAttributeValueSees(db: Database, a: ID, v: Value, d: Datom)
    requires Usable(db) && DatomsForAttributeValue(db, a, v).Ok?
    requires Storable(v) && Storable(d.value)
    requires Serialize(d, AVET) in Contents(db.connection.storage)
    ensures Serialize(d, AVET) in OkKeys(DatomsForAttributeValue(db, a, v).value.items) <==>
      d.attribute == a && d.value == v
  {
    AvetAttributeValueRangeSelects(d, a, v);
  }

  /** A datom's VAET key in the store is scanned for its value and
      attribute and for no other pair. */
  lemma DatomsForValueAttributeSees(db: Database, v: Value, a: ID, d: Datom)
    requires Usable(db) && DatomsForValueAttribute(db, v, a).Ok?
    requires Storable(v) && Storable(d.value)
    requires Serialize(d, VAET) in Contents(db.connection.storage)
    ensures Serialize(d, VAET) in OkKeys(DatomsForValueAttribute(db, v, a).value.items) <==>
      d.value == v && d.attribute == a
  {
    VaetValueAttributeRangeSelects(d, v, a);
  }

  // ---------------------------------------------------------------------------
  // Draining an iterator
  // ---------------------------------------------------------------------------

  /** Every datom a `for` loop over the iterator sees, in key order; a panic
      while decoding aborts the query. */
  function ReadAll(it: DatomIter): (r: Result<seq<Datom>, QueryError>)
    ensures r.Ok? <==> Readable(it.items, it.t).Parsed?
    ensures r.Ok? ==> r.value == Readable(it.items, it.t).value
    ensures r.Err? ==> r.error == Panicked
    ensures r.Ok? ==> forall d | d in r.value :: d.t <= it.t
  {
    CollectForward(it);
    match Collect(Forward, it)
    case Parsed(ds) => Ok(ds)
    case _ => Err(Panicked)
  }

  // ---------------------------------------------------------------------------
  // What a snapshot reads from a well-formed store
  // ---------------------------------------------------------------------------

  /** A key as the write path leaves it: it reads back as a datom and an
      index, and writing that datom in that index gives the key again. */
  predicate DatomKey(k: Key)
  {
    var p := DeserializeUnknown(k);
    p.Parsed? && Storable(p.value.0.value) && Serialize(p.value.0, p.value.1) == k
  }

  /** Every stored key is a datom key or a transaction record. */
  predicate WellFormed(s: Store)
  {
    forall k | k in Contents(s) :: DatomKey(k) || (|k| > 0 && k[0] == TR_BYTE)
  }

  lemma DatomKeyOf(d: Datom, i: Index)
    requires Storable(d.value)
    ensures DatomKey(Serialize(d, i))
  {
    DeserializeUnknownRoundTrip(d, i);
  }

  /** `d` is stored in index `i` and belongs to the snapshot. */
  predicate Visible(db: Database, i: Index, d: Datom)
  {
    Storable(d.value) && Serialize(d, i) in Contents(db.connection.storage) && d.t <= db.t
  }

  /** Reading a scan of a range that lies inside one index yields exactly
      the snapshot's datoms whose key in that index lies in the range. */
  lemma ScanReads(db: Database, r: KeyRange, i: Index)
    requires Usable(db) && Healthy(db.connection.storage) && WellFormed(db.connection.storage)
    requires forall k | Contains(r, k) :: |k| > 0 && k[0] == IndexByte(i)
    ensures ReadAll(ScanRange(db, r).value).Ok?
    ensures forall d :: d in ReadAll(ScanRange(db, r).value).value <==> Visible(db, i, d) && Contains(r, Serialize(d, i))
  {
    var it := ScanRange(db, r).value;
    DecodeRange(OkKeys(it.items), db.t, Contents(db.connection.storage), r, i);
  }

  /** The keys of a range inside one index, all datom keys, decode to
      exactly the datoms whose key lies in the range. */
  lemma DecodeRange(keys: seq<Key>, t: u64, contents: set<Key>, r: KeyRange, i: Index)
    requires forall k :: k in keys <==> k in contents && Contains(r, k)
    requires forall k | k in contents :: DatomKey(k) || (|k| > 0 && k[0] == TR_BYTE)
    requires forall k | Contains(r, k) :: |k| > 0 && k[0] == IndexByte(i)
    ensures DecodePrefix(keys).Parsed?
    ensures forall d :: d in AtOrBefore(DecodePrefix(keys).value, t) <==>
      Storable(d.value) && Serialize(d, i) in contents && Contains(r, Serialize(d, i)) && d.t <= t
  {
    RangeKeysDecode(keys, contents, r, i);
    DecodeAll(keys);
    DecodedKeys(keys, DecodePrefix(keys).value, i);
  }

  lemma DecodedKeys(keys: seq<Key>, ds: seq<Datom>, i: Index)
    requires |ds| == |keys| && forall j | 0 <= j < |keys| :: Decode(keys[j]) == Parsed(ds[j])
    requires forall k | k in keys :: DatomKey(k) && k[0] == IndexByte(i)
    ensures forall d :: d in ds <==> Storable(d.value) && Serialize(d, i) in keys
  {
    forall d | d in ds ensures Storable(d.value) && Serialize(d, i) in keys {
      DecodedIsKey(keys, ds, i, d);
    }
    forall d: Datom | Storable(d.value) && Serialize(d, i) in keys ensures d in ds {
      KeyIsDecoded(keys, ds, i, d);
    }
  }

  lemma RangeKeysDecode(keys: seq<Key>, contents: set<Key>, r: KeyRange, i: Index)
    requires forall k | k in keys :: k in contents && Contains(r, k)
    requires forall k | k in contents :: DatomKey(k) || (|k| > 0 && k[0] == TR_BYTE)
    requires forall k | Contains(r, k) :: |k| > 0 && k[0] == IndexByte(i)
    ensures forall k | k in keys :: DatomKey(k) && k[0] == IndexByte(i) && Decode(k).Parsed?
  {
    forall k | k in keys ensures DatomKey(k) && k[0] == IndexByte(i) && Decode(k).Parsed? {
      assert k in contents && Contains(r, k);
    }
  }

  lemma DecodedIsKey(keys: seq<Key>, ds: seq<Datom>, i: Index, d: Datom)
    requires |ds| == |keys| && forall j | 0 <= j < |keys| :: Decode(keys[j]) == Parsed(ds[j])
    requires forall k | k in keys :: DatomKey(k) && k[0] == IndexByte(i)
    requires d in ds
    ensures Storable(d.value) && Serialize(d, i) in keys
  {
    var j :| 0 <= j < |ds| && ds[j] == d;
    var k := keys[j];
    assert k in keys;
    var p := DeserializeUnknown(k).value;
    IndexByteRoundTrip(p.1);
    IndexByteRoundTrip(i);
  }

  lemma KeyIsDecoded(keys: seq<Key>, ds: seq<Datom>, i: Index, d: Datom)
    requires |ds| == |keys| && forall j | 0 <= j < |keys| :: Decode(keys[j]) == Parsed(ds[j])
    requires Storable(d.value) && Serialize(d, i) in keys
    ensures d in ds
  {
    var j :| 0 <= j < |keys| && keys[j] == Serialize(d, i);
    DeserializeUnknownRoundTrip(d, i);
  }

  /** `a`'s key in index `i` is below `b`'s. */
  function KeyBelow(i: Index): (Datom, Datom) -> bool
  {
    (a: Datom, b: Datom) => Below(Serialize(a, i), Serialize(b, i))
  }

  /** Datoms whose keys in index `i` come in increasing order. */
  predicate InKeyOrder(ds: seq<Datom>, i: Index)
  {
    SortedBy(ds, KeyBelow(i))
  }

  /** A scan inside one index yields its datoms in that index's key order. */
  lemma ScanInOrder(db: Database, r: KeyRange, i: Index)
    requires Usable(db) && Healthy(db.connection.storage) && WellFormed(db.connection.storage)
    requires forall k | Contains(r, k) :: |k| > 0 && k[0] == IndexByte(i)
    ensures ReadAll(ScanRange(db, r).value).Ok?
    ensures InKeyOrder(ReadAll(ScanRange(db, r).value).value, i)
  {
    var it := ScanRange(db, r).value;
    DecodeRangeInOrder(OkKeys(it.items), db.t, Contents(db.connection.storage), r, i);
  }

  lemma DecodeRangeInOrder(keys: seq<Key>, t: u64, contents: set<Key>, r: KeyRange, i: Index)
    requires forall k | k in keys :: k in contents && Contains(r, k)
    requires forall k | k in contents :: DatomKey(k) || (|k| > 0 && k[0] == TR_BYTE)
    requires forall k | Contains(r, k) :: |k| > 0 && k[0] == IndexByte(i)
    requires Ordered(Forward, keys)
    ensures DecodePrefix(keys).Parsed?
    ensures InKeyOrder(AtOrBefore(DecodePrefix(keys).value, t), i)
  {
    RangeKeysDecode(keys, contents, r, i);
    DecodeAll(keys);
    DecodedInOrder(keys, DecodePrefix(keys).value, i);
    AtOrBeforeSorted(DecodePrefix(keys).value, t, KeyBelow(i));
  }

  /** Keys in order decode to datoms in key order. */
  lemma DecodedInOrder(keys: seq<Key>, ds: seq<Datom>, i: Index)
    requires |ds| == |keys| && forall j | 0 <= j < |keys| :: Decode(keys[j]) == Parsed(ds[j])
    requires forall k | k in keys :: DatomKey(k) && k[0] == IndexByte(i)
    requires Ordered(Forward, keys)
    ensures InKeyOrder(ds, i)
  {
    forall j | 0 <= j < |keys| ensures Serialize(ds[j], i) == keys[j] {
      assert keys[j] in keys;
      KeyOfDecoded(keys[j], ds[j], i);
    }
  }

  lemma KeyOfDecoded(k: Key, d: Datom, i: Index)
    requires DatomKey(k) && k[0] == IndexByte(i) && Decode(k) == Parsed(d)
    ensures Serialize(d, i) == k
  {
    var p := DeserializeUnknown(k).value;
    IndexByteRoundTrip(p.1);
    IndexByteRoundTrip(i);
  }

  /** `b`'s key in index `i` is below `a`'s: the order of a backward scan. */
  function KeyAbove(i: Index): (Datom, Datom) -> bool
  {
    (a: Datom, b: Datom) => Below(Serialize(b, i), Serialize(a, i))
  }

  /** A scan inside one index read from the back (`next_back`) yields the
      same datoms as from the front, in descending key order. */
  lemma ScanBackward(db: Database, r: KeyRange, i: Index)
    requires Usable(db) && Healthy(db.connection.storage) && WellFormed(db.connection.storage)
    requires forall k | Contains(r, k) :: |k| > 0 && k[0] == IndexByte(i)
    ensures Collect(Backward, ScanRange(db, r).value).Parsed?
    ensures forall d :: d in Collect(Backward, ScanRange(db, r).value).value <==>
      Visible(db, i, d) && Contains(r, Serialize(d, i))
    ensures SortedBy(Collect(Backward, ScanRange(db, r).value).value, KeyAbove(i))
  {
    var it := ScanRange(db, r).value;
    CollectBackward(it);
    CollectForward(DatomIter(Reverse(it.items), it.t));
    RevOkKeys(it.items);
    DecodeRangeBackward(OkKeys(it.items), db.t, Contents(db.connection.storage), r, i);
  }

  lemma DecodeRangeBackward(keys: seq<Key>, t: u64, contents: set<Key>, r: KeyRange, i: Index)
    requires forall k :: k in keys <==> k in contents && Contains(r, k)
    requires forall k | k in contents :: DatomKey(k) || (|k| > 0 && k[0] == TR_BYTE)
    requires forall k | Contains(r, k) :: |k| > 0 && k[0] == IndexByte(i)
    requires Ordered(Forward, keys)
    ensures DecodePrefix(Reverse(keys)).Parsed?
    ensures forall d :: d in AtOrBefore(DecodePrefix(Reverse(keys)).value, t) <==>
      Storable(d.value) && Serialize(d, i) in contents && Contains(r, Serialize(d, i)) && d.t <= t
    ensures SortedBy(AtOrBefore(DecodePrefix(Reverse(keys)).value, t), KeyAbove(i))
  {
    RevSameKeys(keys);
    DecodeRange(Reverse(keys), t, contents, r, i);
    DecodeReversedSorted(keys, t, contents, r, i);
  }

  lemma DecodeReversedSorted(keys: seq<Key>, t: u64, contents: set<Key>, r: KeyRange, i: Index)
    requires forall k | k in Reverse(keys) :: k in contents && Contains(r, k)
    requires forall k | k in contents :: DatomKey(k) || (|k| > 0 && k[0] == TR_BYTE)
    requires forall k | Contains(r, k) :: |k| > 0 && k[0] == IndexByte(i)
    requires Ordered(Forward, keys)
    ensures DecodePrefix(Reverse(keys)).Parsed?
    ensures SortedBy(AtOrBefore(DecodePrefix(Reverse(keys)).value, t), KeyAbove(i))
  {
    var rk := Reverse(keys);
    RangeKeysDecode(rk, contents, r, i);
    DecodeAll(rk);
    DecodedReversed(keys, DecodePrefix(rk).value, i);
    AtOrBeforeSorted(DecodePrefix(rk).value, t, KeyAbove(i));
  }

  lemma RevSameKeys(keys: seq<Key>)
    ensures forall k :: k in Reverse(keys) <==> k in keys
  {
    var rk := Reverse(keys);
    forall k | k in keys ensures k in rk {
      var j :| 0 <= j < |keys| && keys[j] == k;
      assert rk[|keys| - 1 - j] == k;
    }
  }

  /** Ascending keys read in reverse decode to datoms in descending key order. */
  lemma DecodedReversed(keys: seq<Key>, ds: seq<Datom>, i: Index)
    requires |ds| == |keys| && forall j | 0 <= j < |keys| :: Decode(Reverse(keys)[j]) == Parsed(ds[j])
    requires forall k | k in Reverse(keys) :: DatomKey(k) && k[0] == IndexByte(i)
    requires Ordered(Forward, keys)
    ensures SortedBy(ds, KeyAbove(i))
  {
    var rk := Reverse(keys);
    forall j | 0 <= j < |rk| ensures Serialize(ds[j], i) == rk[j] {
      assert rk[j] in rk;
      KeyOfDecoded(rk[j], ds[j], i);
    }
    RevDescending(keys);
    forall p, q | 0 <= p < q < |ds| ensures KeyAbove(i)(ds[p], ds[q]) {
      assert Serialize(ds[p], i) == rk[p] && Serialize(ds[q], i) == rk[q];
      assert Below(rk[q], rk[p]);
    }
  }

  lemma RevDescending(keys: seq<Key>)
    requires Ordered(Forward, keys)
    ensures forall p, q | 0 <= p < q < |keys| :: Below(Reverse(keys)[q], Reverse(keys)[p])
  {
    var rk := Reverse(keys);
    forall p, q | 0 <= p < q < |keys| ensures Below(rk[q], rk[p]) {
      assert rk[p] == keys[|keys| - 1 - p] && rk[q] == keys[|keys| - 1 - q];
    }
  }

  /** Keys between two bounds that start with the same byte start with it too. */
  lemma SameFirstByte(r: KeyRange, k: Key)
    requires |r.from| > 0 && |r.to| > 0 && r.from[0] == r.to[0]
    requires Contains(r, k)
    ensures |k| > 0 && k[0] == r.from[0]
  {
    FirstByteBounds(r.from, k);
    FirstByteBounds(r.to, k);
  }

  /** `datoms_for_entity(e)` reads every datom of `e` in the snapshot and
      nothing else. */
  lemma EntityReads(db: Database, e: ID)
    requires Usable(db) && Healthy(db.connection.storage) && WellFormed(db.connection.storage)
    requires e < ID_LIMIT - 1
    ensures DatomsForEntity(db, e).Ok? && ReadAll(DatomsForEntity(db, e).value).Ok?
    ensures forall d :: d in ReadAll(DatomsForEntity(db, e).value).value <==> Visible(db, EAVT, d) && d.entity == e
    ensures InKeyOrder(ReadAll(DatomsForEntity(db, e).value).value, EAVT)
  {
    var r := EavtEntityRange(e).value;
    forall k | Contains(r, k) ensures |k| > 0 && k[0] == IndexByte(EAVT) {
      SameFirstByte(r, k);
    }
    ScanReads(db, r, EAVT);
    ScanInOrder(db, r, EAVT);
    forall d ensures Contains(r, Serialize(d, EAVT)) <==> d.entity == e {
      EavtEntityRangeSelects(d, e);
    }
  }

  /** Read from the back, `datoms_for_entity(e)` yields the same datoms in
      descending EAVT order. */
  lemma EntityReadsBackward(db: Database, e: ID)
    requires Usable(db) && Healthy(db.connection.storage) && WellFormed(db.connection.storage)
    requires e < ID_LIMIT - 1
    ensures DatomsForEntity(db, e).Ok? && Collect(Backward, DatomsForEntity(db, e).value).Parsed?
    ensures forall d :: d in Collect(Backward, DatomsForEntity(db, e).value).value <==>
      Visible(db, EAVT, d) && d.entity == e
    ensures SortedBy(Collect(Backward, DatomsForEntity(db, e).value).value, KeyAbove(EAVT))
  {
    var r := EavtEntityRange(e).value;
    forall k | Contains(r, k) ensures |k| > 0 && k[0] == IndexByte(EAVT) {
      SameFirstByte(r, k);
    }
    ScanBackward(db, r, EAVT);
    forall d ensures Contains(r, Serialize(d, EAVT)) <==> d.entity == e {
      EavtEntityRangeSelects(d, e);
    }
  }

  /** `datoms_for_entity_attribute(e, a)` reads every datom of `e` and `a`
      in the snapshot and nothing else. */
  lemma EntityAttributeReads(db: Database, e: ID, a: ID)
    requires Usable(db) && Healthy(db.connection.storage) && WellFormed(db.connection.storage)
    requires a < ID_LIMIT - 1
    ensures DatomsForEntityAttribute(db, e, a).Ok? && ReadAll(DatomsForEntityAttribute(db, e, a).value).Ok?
    ensures forall d :: d in ReadAll(DatomsForEntityAttribute(db, e, a).value).value <==>
      Visible(db, EAVT, d) && d.entity == e && d.attribute == a
    ensures InKeyOrder(ReadAll(DatomsForEntityAttribute(db, e, a).value).value, EAVT)
  {
    var r := EavtEntityAttributeRange(e, a).value;
    forall k | Contains(r, k) ensures |k| > 0 && k[0] == IndexByte(EAVT) {
      SameFirstByte(r, k);
    }
    ScanReads(db, r, EAVT);
    ScanInOrder(db, r, EAVT);
    forall d ensures Contains(r, Serialize(d, EAVT)) <==> d.entity == e && d.attribute == a {
      EavtEntityAttributeRangeSelects(d, e, a);
    }
  }

  /** `datoms_for_attribute_value(a, v)` reads every datom of `a` and `v`
      in the snapshot's AVET index and nothing else. */
  lemma AttributeValueReads(db: Database, a: ID, v: Value)
    requires Usable(db) && Healthy(db.connection.storage) && WellFormed(db.connection.storage)
    requires Storable(v)
    ensures ReadAll(DatomsForAttributeValue(db, a, v).value).Ok?
    ensures forall d :: d in ReadAll(DatomsForAttributeValue(db, a, v).value).value <==>
      Visible(db, AVET, d) && d.attribute == a && d.value == v
    ensures InKeyOrder(ReadAll(DatomsForAttributeValue(db, a, v).value).value, AVET)
  {
    var r := AvetAttributeValueRange(a, v);
    forall k | Contains(r, k) ensures |k| > 0 && k[0] == IndexByte(AVET) {
      assert r.from[0] == r.to[0];
      SameFirstByte(r, k);
    }
    ScanReads(db, r, AVET);
    ScanInOrder(db, r, AVET);
    forall d: Datom | Storable(d.value) ensures Contains(r, Serialize(d, AVET)) <==> d.attribute == a && d.value == v {
      AvetAttributeValueRangeSelects(d, a, v);
    }
  }

  /** `datoms_for_value_attribute(v, a)` reads every datom of `v` and `a`
      in the snapshot's VAET index and nothing else. */
  lemma ValueAttributeReads(db: Database, v: Value, a: ID)
    requires Usable(db) && Healthy(db.connection.storage) && WellFormed(db.connection.storage)
    requires Storable(v)
    ensures ReadAll(DatomsForValueAttribute(db, v, a).value).Ok?
    ensures forall d :: d in ReadAll(DatomsForValueAttribute(db, v, a).value).value <==>
      Visible(db, VAET, d) && d.value == v && d.attribute == a
    ensures InKeyOrder(ReadAll(DatomsForValueAttribute(db, v, a).value).value, VAET)
  {
    var r := VaetValueAttributeRange(v, a);
    forall k | Contains(r, k) ensures |k| > 0 && k[0] == IndexByte(VAET) {
      assert r.from[0] == r.to[0];
      SameFirstByte(r, k);
    }
    ScanReads(db, r, VAET);
    ScanInOrder(db, r, VAET);
    forall d: Datom | Storable(d.value) ensures Contains(r, Serialize(d, VAET)) <==> d.value == v && d.attribute == a {
      VaetValueAttributeRangeSelects(d, v, a);
    }
  }
}
