/** Reading an entity (`Entity::get_with_options`, `get`, `reverse_get` and
    `attributes`). Every read goes through the snapshot of the entity's
    connection at the entity's t. An attribute's own cardinality and value
    type are read from its entity first; a cardinality-many attribute is
    folded over its EAVT datoms into a set of values, any other attribute
    takes the datom of greatest t. A `NotFound` falls back to the builtin
    table. */
module Entities {
  import opened Results
  import opened SortedKeys
  import opened Bytes
  import opened Ids
  import opened Values
  import opened Datoms
  import opened Serial
  import opened Backends
  import opened DatomIterators
  import opened Errors
  import opened Eids
  import opened Databases
  import opened EntityResults
  import opened Resolution
  import opened LiveSets
  import Builtins

  /** `connection.as_of(t)`, which cannot fail. */
  function Snapshot(e: Entity): Database
  {
    Database(e.connection, e.t)
  }

  // ---------------------------------------------------------------------------
  // Entity::get_with_options
  // ---------------------------------------------------------------------------

  /** A stored value as a result: a `Ref` to an entity of the same snapshot
      when the attribute's type is `TYPE_REF` and the value is an ID, else
      the value itself. */
  function Wrap(db: Database, attrType: Option<ID>, v: Value): (r: EntityResult)
    ensures r.Ref? <==> attrType == Some(Builtins.TYPE_REF) && v.Id?
    ensures r.Ref? ==> r.entity == Entity(db.connection, db.t, v.id)
    ensures !r.Ref? ==> r == Scalar(v)
  {
    if attrType == Some(Builtins.TYPE_REF) && v.Id? then Ref(Entity(db.connection, db.t, v.id))
    else Scalar(v)
  }

  /** The results of a set of values. */
  function WrapAll(db: Database, attrType: Option<ID>, vs: set<Value>): (r: set<EntityResult>)
    ensures forall v | v in vs :: Wrap(db, attrType, v) in r
    ensures forall x | x in r :: exists v | v in vs :: x == Wrap(db, attrType, v)
  {
    set v | v in vs :: Wrap(db, attrType, v)
  }

  /** What a `NotFound` becomes: the builtin table's value of the attribute
      on the entity, if it has one. */
  function Fallback(r: EntityResult, id: ID, a: ID): (out: EntityResult)
    ensures !r.NotFound? ==> out == r
    ensures r.NotFound? && Builtins.BuiltinValue(id, a).Some? ==> out == Scalar(Builtins.BuiltinValue(id, a).value)
    ensures r.NotFound? && Builtins.BuiltinValue(id, a).None? ==> out == NotFound
  {
    if !r.NotFound? then r
    else if Builtins.BuiltinValue(id, a).Some? then Scalar(Builtins.BuiltinValue(id, a).value)
    else NotFound
  }

  /** A single-valued read over the datoms found: the datom of greatest t
      decides; a Retraction, or no datom, is `NotFound`. */
  function ReadOne(db: Database, attrType: Option<ID>, ds: seq<Datom>): (r: EntityResult)
    ensures |ds| == 0 ==> r == NotFound
    ensures !r.Repeated?
  {
    match MaxByT(ds)
    case None => NotFound
    case Some(d) => if d.datomType.Retraction? then NotFound else Wrap(db, attrType, d.value)
  }

  /** A many-valued read over the datoms found: the values left by the
      add/remove fold. */
  function ReadMany(db: Database, attrType: Option<ID>, ds: seq<Datom>): (r: EntityResult)
    ensures r.Repeated?
    ensures forall v | v in Live(ds, ValueOf) :: Wrap(db, attrType, v) in r.items
  {
    Repeated(WrapAll(db, attrType, Live(ds, ValueOf)))
  }

  /** The result read from the datoms of `id` and `a`, before the fallback. */
  function Decide(db: Database, id: ID, a: ID, repeated: bool, attrType: Option<ID>): (r: Result<EntityResult, QueryError>)
    requires Usable(db)
    ensures r.Err? ==> !Healthy(db.connection.storage) || r.error == Panicked
    ensures r.Ok? ==> (r.value.Repeated? <==> repeated)
  {
    var it :- DatomsForEntityAttribute(db, id, a);
    var ds :- ReadAll(it);
    Ok(if repeated then ReadMany(db, attrType, ds) else ReadOne(db, attrType, ds))
  }

  /** The nesting depth of the reads an option pair still allows: the
      cardinality read skips both, the type read skips the cardinality. */
  function Rank(skipCardinality: bool, skipType: bool): nat
  {
    (if skipCardinality then 0 else 2) + (if skipType then 0 else 1)
  }

  /** `get_with_options`. */
  function GetWithOptions(e: Entity, attribute: EID, skipCardinality: bool, skipType: bool): (r: Result<EntityResult, QueryError>)
    requires Usable(Snapshot(e))
    ensures Resolve(Snapshot(e), attribute).Err? ==> r == Err(Resolve(Snapshot(e), attribute).error)
    ensures Resolve(Snapshot(e), attribute) == Ok(Builtins.DB_ID) ==> r == Ok(Scalar(Id(e.id)))
    ensures skipCardinality && r.Ok? ==> !r.value.Repeated?
    ensures r.Ok? && r.value.Repeated? ==>
      IsRepeated(Entity(e.connection, e.t, Resolve(Snapshot(e), attribute).value), skipCardinality) == Ok(true)
    decreases Rank(skipCardinality, skipType), 2
  {
    var db := Snapshot(e);
    var attr :- Resolve(db, attribute);
    if attr == Builtins.DB_ID then Ok(Scalar(Id(e.id)))
    else
      var attrEntity := Entity(db.connection, db.t, attr);
      var repeated :- IsRepeated(attrEntity, skipCardinality);
      var attrType :- AttributeType(attrEntity, skipType);
      var result :- Decide(db, e.id, attr, repeated, attrType);
      Ok(Fallback(result, e.id, attr))
  }

  /** `is_repeated`: unless skipped, whether the attribute's cardinality
      (read skipping its own cardinality) is a `Ref` to `CARDINALITY_MANY`. */
  function IsRepeated(attrEntity: Entity, skipCardinality: bool): (r: Result<bool, QueryError>)
    requires Usable(Snapshot(attrEntity))
    ensures skipCardinality ==> r == Ok(false)
    decreases if skipCardinality then 0 else 2, 0
  {
    if skipCardinality then Ok(false)
    else
      var c :- GetWithOptions(attrEntity, Resolved(Builtins.CARDINALITY), true, false);
      Ok(IsRefTo(c, Builtins.CARDINALITY_MANY))
  }

  /** `attribute_type`: unless skipped, the ID the attribute's value type
      (read skipping its cardinality and type) holds as a plain value. */
  function AttributeType(attrEntity: Entity, skipType: bool): (r: Result<Option<ID>, QueryError>)
    requires Usable(Snapshot(attrEntity))
    ensures skipType ==> r == Ok(None)
    decreases if skipType then 0 else 1, 0
  {
    if skipType then Ok(None)
    else
      var t :- GetWithOptions(attrEntity, Resolved(Builtins.VALUE_TYPE), true, true);
      Ok(if t.Scalar? && t.value.Id? then Some(t.value.id) else None)
  }

  /** `get`: cardinality and type both honoured. */
  function Get(e: Entity, attribute: EID): (r: Result<EntityResult, QueryError>)
    requires Usable(Snapshot(e))
    ensures Resolve(Snapshot(e), attribute).Err? ==> r == Err(Resolve(Snapshot(e), attribute).error)
    ensures Resolve(Snapshot(e), attribute) == Ok(Builtins.DB_ID) ==> r == Ok(Scalar(Id(e.id)))
  {
    GetWithOptions(e, attribute, false, false)
  }

  // ---------------------------------------------------------------------------
  // What a read finds in a well-formed store
  // ---------------------------------------------------------------------------

  /** `d` is a datom of entity `e` and attribute `a` in the snapshot. */
  predicate Holds(db: Database, e: ID, a: ID, d: Datom)
  {
    Visible(db, EAVT, d) && d.entity == e && d.attribute == a
  }

  /** `d` is the datom `max_by(by_t)` settles on: of greatest t, and of the
      datoms with that t the last in EAVT order. */
  ghost predicate Decisive(db: Database, e: ID, a: ID, d: Datom)
  {
    Holds(db, e, a, d) &&
    forall d' | Holds(db, e, a, d') ::
      d'.t < d.t || (d'.t == d.t && (d' == d || Below(Serialize(d', EAVT), Serialize(d, EAVT))))
  }

  /** Value `v` of attribute `a` on `e` stands in the snapshot: some
      Addition of it is later than every Retraction of it. */
  ghost predicate Present(db: Database, e: ID, a: ID, v: Value)
  {
    exists w :: Holds(db, e, a, w) && w.value == v && w.datomType.Addition? &&
      forall r | Holds(db, e, a, r) && r.value == v && r.datomType.Retraction? :: r.t < w.t
  }

  /** The read of a single-valued attribute: nothing when the snapshot holds
      no datom of it, else the decisive datom's value, or nothing when that
      datom is a Retraction. Exactly one datom is decisive. */
  lemma DecideOneMeans(db: Database, id: ID, a: ID, attrType: Option<ID>)
    requires Usable(db) && Healthy(db.connection.storage) && WellFormed(db.connection.storage)
    requires a < ID_LIMIT - 1
    ensures Decide(db, id, a, false, attrType).Ok?
    ensures (forall d :: !Holds(db, id, a, d)) ==> Decide(db, id, a, false, attrType) == Ok(NotFound)
    ensures (exists d :: Holds(db, id, a, d)) ==> exists d :: Decisive(db, id, a, d)
    ensures forall d | Decisive(db, id, a, d) ::
      Decide(db, id, a, false, attrType) == Ok(if d.datomType.Retraction? then NotFound else Wrap(db, attrType, d.value))
  {
    EntityAttributeReads(db, id, a);
    var ds := ReadAll(DatomsForEntityAttribute(db, id, a).value).value;
    assert Decide(db, id, a, false, attrType) == Ok(ReadOne(db, attrType, ds));
    ReadOneMeans(db, id, a, attrType, ds);
  }

  /** With a decisive datom `d`, the single-valued read is `d`'s value, or
      nothing when `d` is a Retraction. */
  lemma DecideOneDecided(db: Database, id: ID, a: ID, attrType: Option<ID>, d: Datom)
    requires Usable(db) && Healthy(db.connection.storage) && WellFormed(db.connection.storage)
    requires a < ID_LIMIT - 1
    requires Decisive(db, id, a, d)
    ensures d.datomType.Retraction? ==> Decide(db, id, a, false, attrType) == Ok(NotFound)
    ensures d.datomType.Addition? ==> Decide(db, id, a, false, attrType) == Ok(Wrap(db, attrType, d.value))
  {
    DecideOneMeans(db, id, a, attrType);
  }

  lemma ReadOneMeans(db: Database, id: ID, a: ID, attrType: Option<ID>, ds: seq<Datom>)
    requires forall d :: d in ds <==> Holds(db, id, a, d)
    requires InKeyOrder(ds, EAVT)
    ensures (forall d :: !Holds(db, id, a, d)) ==> ReadOne(db, attrType, ds) == NotFound
    ensures (exists d :: Holds(db, id, a, d)) ==> exists d :: Decisive(db, id, a, d)
    ensures forall d | Decisive(db, id, a, d) ::
      ReadOne(db, attrType, ds) == if d.datomType.Retraction? then NotFound else Wrap(db, attrType, d.value)
  {
    if |ds| > 0 {
      var i := LastMaxIndex(ds);
      DecisiveAtLastMax(db, id, a, ds, i);
      forall d | Decisive(db, id, a, d) ensures d == ds[i] {
        DecisiveUnique(db, id, a, d, ds[i]);
      }
    } else {
      assert forall d :: Holds(db, id, a, d) ==> d in ds;
    }
  }

  lemma DecisiveAtLastMax(db: Database, id: ID, a: ID, ds: seq<Datom>, i: nat)
    requires forall d :: d in ds <==> Holds(db, id, a, d)
    requires InKeyOrder(ds, EAVT)
    requires |ds| > 0 && i == LastMaxIndex(ds)
    ensures Decisive(db, id, a, ds[i])
  {
    var m := ds[i];
    assert m in ds;
    forall d' | Holds(db, id, a, d')
      ensures d'.t < m.t || (d'.t == m.t && (d' == m || Below(Serialize(d', EAVT), Serialize(m, EAVT))))
    {
      assert d' in ds;
      var j :| 0 <= j < |ds| && ds[j] == d';
      if j < i {
        assert KeyBelow(EAVT)(ds[j], m);
      } else if j > i {
        assert ds[j].t < m.t;
      }
    }
  }

  lemma DecisiveUnique(db: Database, id: ID, a: ID, d1: Datom, d2: Datom)
    requires Decisive(db, id, a, d1) && Decisive(db, id, a, d2)
    ensures d1 == d2
  {
    BelowAsymmetric(Serialize(d1, EAVT), Serialize(d2, EAVT));
  }

  /** The read of a many-valued attribute: the values that stand in the
      snapshot. This relies on EAVT order listing the datoms of one value
      in t order, Additions before Retractions at the same t. */
  lemma DecideManyMeans(db: Database, id: ID, a: ID, attrType: Option<ID>)
    requires Usable(db) && Healthy(db.connection.storage) && WellFormed(db.connection.storage)
    requires a < ID_LIMIT - 1
    ensures Decide(db, id, a, true, attrType).Ok?
    ensures exists vs :: ((forall v :: v in vs <==> Present(db, id, a, v)) &&
                          Decide(db, id, a, true, attrType) == Ok(Repeated(WrapAll(db, attrType, vs))))
  {
    EntityAttributeReads(db, id, a);
    var ds := ReadAll(DatomsForEntityAttribute(db, id, a).value).value;
    assert Decide(db, id, a, true, attrType) == Ok(ReadMany(db, attrType, ds));
    LiveValuesPresent(db, id, a, ds);
  }

  lemma LiveValuesPresent(db: Database, id: ID, a: ID, ds: seq<Datom>)
    requires forall d :: d in ds <==> Holds(db, id, a, d)
    requires InKeyOrder(ds, EAVT)
    ensures forall v :: v in Live(ds, ValueOf) <==> Present(db, id, a, v)
  {
    ValuesInTimeOrder(db, id, a, ds);
    forall v ensures v in Live(ds, ValueOf) <==> Present(db, id, a, v) {
      LiveByTime(ds, ValueOf, v);
      AssertedIsPresent(db, id, a, ds, v);
    }
  }

  lemma ValuesInTimeOrder(db: Database, id: ID, a: ID, ds: seq<Datom>)
    requires forall d :: d in ds <==> Holds(db, id, a, d)
    requires InKeyOrder(ds, EAVT)
    ensures KeyedInOrder(ds, ValueOf)
  {
    forall p, q | 0 <= p < q < |ds| && ValueOf(ds[p]) == ValueOf(ds[q]) ensures Earlier(ds[p], ds[q]) {
      assert ds[p] in ds && ds[q] in ds;
      assert KeyBelow(EAVT)(ds[p], ds[q]);
      SameFactOrder(ds[p], ds[q], EAVT);
    }
  }

  lemma AssertedIsPresent(db: Database, id: ID, a: ID, ds: seq<Datom>, v: Value)
    requires forall d :: d in ds <==> Holds(db, id, a, d)
    ensures Asserted(ds, ValueOf, v) <==> Present(db, id, a, v)
  {
    if Present(db, id, a, v) {
      var w :| Holds(db, id, a, w) && w.value == v && w.datomType.Addition? &&
        forall r | Holds(db, id, a, r) && r.value == v && r.datomType.Retraction? :: r.t < w.t;
      assert w in ds && ValueOf(w) == v;
    }
    if Asserted(ds, ValueOf, v) {
      var w :| w in ds && ValueOf(w) == v && w.datomType.Addition? &&
        forall r | r in ds && ValueOf(r) == v && r.datomType.Retraction? :: r.t < w.t;
      forall r | Holds(db, id, a, r) && r.value == v && r.datomType.Retraction? ensures r.t < w.t {
        assert r in ds;
      }
    }
  }

  /** `get_with_options` on a single-valued attribute `a` of type `ty` with
      no datom in the snapshot: the builtin value, if there is one. */
  lemma GetOneAbsent(e: Entity, attribute: EID, skipCardinality: bool, skipType: bool, a: ID, ty: Option<ID>)
    requires Usable(Snapshot(e)) && Healthy(e.connection.storage) && WellFormed(e.connection.storage)
    requires Resolve(Snapshot(e), attribute) == Ok(a) && a != Builtins.DB_ID && a < ID_LIMIT - 1
    requires IsRepeated(Entity(e.connection, e.t, a), skipCardinality) == Ok(false)
    requires AttributeType(Entity(e.connection, e.t, a), skipType) == Ok(ty)
    requires forall d :: !Holds(Snapshot(e), e.id, a, d)
    ensures GetWithOptions(e, attribute, skipCardinality, skipType) == Ok(Fallback(NotFound, e.id, a))
  {
    DecideOneMeans(Snapshot(e), e.id, a, ty);
    GetSteps(e, attribute, skipCardinality, skipType, a, false, ty);
  }

  /** `get_with_options` on a single-valued attribute `a` of type `ty` whose
      decisive datom is an Addition: that datom's value. */
  lemma GetOneAsserted(e: Entity, attribute: EID, skipCardinality: bool, skipType: bool, a: ID, ty: Option<ID>, d: Datom)
    requires Usable(Snapshot(e)) && Healthy(e.connection.storage) && WellFormed(e.connection.storage)
    requires Resolve(Snapshot(e), attribute) == Ok(a) && a != Builtins.DB_ID && a < ID_LIMIT - 1
    requires IsRepeated(Entity(e.connection, e.t, a), skipCardinality) == Ok(false)
    requires AttributeType(Entity(e.connection, e.t, a), skipType) == Ok(ty)
    requires Decisive(Snapshot(e), e.id, a, d) && d.datomType.Addition?
    ensures GetWithOptions(e, attribute, skipCardinality, skipType) == Ok(Wrap(Snapshot(e), ty, d.value))
  {
    var w := Wrap(Snapshot(e), ty, d.value);
    DecideOneDecided(Snapshot(e), e.id, a, ty, d);
    assert Fallback(w, e.id, a) == w;
    GetSteps(e, attribute, skipCardinality, skipType, a, false, ty);
  }

  /** `get_with_options` on a single-valued attribute `a` whose decisive
      datom is a Retraction: the builtin value, if there is one. */
  lemma GetOneRetracted(e: Entity, attribute: EID, skipCardinality: bool, skipType: bool, a: ID, ty: Option<ID>, d: Datom)
    requires Usable(Snapshot(e)) && Healthy(e.connection.storage) && WellFormed(e.connection.storage)
    requires Resolve(Snapshot(e), attribute) == Ok(a) && a != Builtins.DB_ID && a < ID_LIMIT - 1
    requires IsRepeated(Entity(e.connection, e.t, a), skipCardinality) == Ok(false)
    requires AttributeType(Entity(e.connection, e.t, a), skipType) == Ok(ty)
    requires Decisive(Snapshot(e), e.id, a, d) && d.datomType.Retraction?
    ensures GetWithOptions(e, attribute, skipCardinality, skipType) == Ok(Fallback(NotFound, e.id, a))
  {
    DecideOneDecided(Snapshot(e), e.id, a, ty, d);
    GetSteps(e, attribute, skipCardinality, skipType, a, false, ty);
  }

  /** Once the attribute, its cardinality and its type are read,
      `get_with_options` is the read of the datoms with the fallback. */
  lemma GetSteps(e: Entity, attribute: EID, skipCardinality: bool, skipType: bool, a: ID, repeated: bool, ty: Option<ID>)
    requires Usable(Snapshot(e))
    requires Resolve(Snapshot(e), attribute) == Ok(a) && a != Builtins.DB_ID
    requires IsRepeated(Entity(e.connection, e.t, a), skipCardinality) == Ok(repeated)
    requires AttributeType(Entity(e.connection, e.t, a), skipType) == Ok(ty)
    requires Decide(Snapshot(e), e.id, a, repeated, ty).Ok?
    ensures GetWithOptions(e, attribute, skipCardinality, skipType) ==
      Ok(Fallback(Decide(Snapshot(e), e.id, a, repeated, ty).value, e.id, a))
  {
  }

  /** `get_with_options` on a many-valued attribute `a` of type `ty`: the
      values that stand in the snapshot, as values or references; never the
      builtin table. */
  lemma GetManyMeans(e: Entity, attribute: EID, skipType: bool, a: ID, ty: Option<ID>)
    requires Usable(Snapshot(e)) && Healthy(e.connection.storage) && WellFormed(e.connection.storage)
    requires Resolve(Snapshot(e), attribute) == Ok(a) && a != Builtins.DB_ID && a < ID_LIMIT - 1
    requires IsRepeated(Entity(e.connection, e.t, a), false) == Ok(true)
    requires AttributeType(Entity(e.connection, e.t, a), skipType) == Ok(ty)
    ensures GetWithOptions(e, attribute, false, skipType).Ok?
    ensures exists vs :: ((forall v :: v in vs <==> Present(Snapshot(e), e.id, a, v)) &&
                          GetWithOptions(e, attribute, false, skipType).value == Repeated(WrapAll(Snapshot(e), ty, vs)))
  {
    DecideManyMeans(Snapshot(e), e.id, a, ty);
    GetSteps(e, attribute, false, skipType, a, true, ty);
  }

  // ---------------------------------------------------------------------------
  // Entity::reverse_get
  // ---------------------------------------------------------------------------

  /** `reverse_get`: the entities whose value of the attribute is this
      entity's ID, folded over the VAET datoms, as references. */
  function ReverseGet(e: Entity, attribute: EID): (r: Result<EntityResult, QueryError>)
    requires Usable(Snapshot(e))
    ensures Resolve(Snapshot(e), attribute).Err? ==> r == Err(Resolve(Snapshot(e), attribute).error)
    ensures r.Ok? ==> r.value.Repeated? && forall x | x in r.value.items :: x.Ref? && x.entity.connection == e.connection && x.entity.t == e.t
    ensures r.Err? && Resolve(Snapshot(e), attribute).Ok? ==> !Healthy(e.connection.storage) || r.error == Panicked
  {
    var db := Snapshot(e);
    var attr :- Resolve(db, attribute);
    var it :- DatomsForValueAttribute(db, Id(e.id), attr);
    var ds :- ReadAll(it);
    Ok(ReadReferrers(db, ds))
  }

  /** The entities left by the add/remove fold over the datoms found, as
      references of the snapshot. */
  function ReadReferrers(db: Database, ds: seq<Datom>): (r: EntityResult)
    ensures r.Repeated?
    ensures forall x | x in r.items :: x.Ref? && x.entity.connection == db.connection && x.entity.t == db.t
  {
    Repeated(set x | x in Live(ds, EntityOf) :: Ref(Entity(db.connection, db.t, x)))
  }

  /** `d` says that some entity holds `target` under attribute `a`. */
  predicate Refers(db: Database, target: ID, a: ID, d: Datom)
  {
    Visible(db, VAET, d) && d.value == Id(target) && d.attribute == a
  }

  /** Entity `x` holds `target` under `a` in the snapshot: some Addition of
      that is later than every Retraction of it. */
  ghost predicate Referrer(db: Database, target: ID, a: ID, x: ID)
  {
    exists w :: Refers(db, target, a, w) && w.entity == x && w.datomType.Addition? &&
      forall r | Refers(db, target, a, r) && r.entity == x && r.datomType.Retraction? :: r.t < w.t
  }

  /** A reverse lookup yields a reference to exactly the entities that hold
      this entity under the attribute in the snapshot. */
  lemma ReverseGetMeans(e: Entity, attribute: EID, a: ID)
    requires Usable(Snapshot(e)) && Healthy(e.connection.storage) && WellFormed(e.connection.storage)
    requires Resolve(Snapshot(e), attribute) == Ok(a)
    ensures ReverseGet(e, attribute).Ok?
    ensures forall x :: Ref(Entity(e.connection, e.t, x)) in ReverseGet(e, attribute).value.items <==>
      Referrer(Snapshot(e), e.id, a, x)
  {
    var db := Snapshot(e);
    var ds := ReverseGetReads(e, attribute, a);
    ReadReferrersMeans(db, e.id, a, ds);
  }

  /** On a healthy store `reverse_get` reads the VAET datoms of this
      entity's ID and the attribute, in key order. */
  lemma ReverseGetReads(e: Entity, attribute: EID, a: ID) returns (ds: seq<Datom>)
    requires Usable(Snapshot(e)) && Healthy(e.connection.storage) && WellFormed(e.connection.storage)
    requires Resolve(Snapshot(e), attribute) == Ok(a)
    ensures ReverseGet(e, attribute) == Ok(ReadReferrers(Snapshot(e), ds))
    ensures forall d :: d in ds <==> Refers(Snapshot(e), e.id, a, d)
    ensures InKeyOrder(ds, VAET)
  {
    var db := Snapshot(e);
    IdStorable(e.id);
    ValueAttributeReads(db, Id(e.id), a);
    ds := ReadAll(DatomsForValueAttribute(db, Id(e.id), a).value).value;
  }

  lemma ReadReferrersMeans(db: Database, target: ID, a: ID, ds: seq<Datom>)
    requires forall d :: d in ds <==> Refers(db, target, a, d)
    requires InKeyOrder(ds, VAET)
    ensures forall x :: Ref(Entity(db.connection, db.t, x)) in ReadReferrers(db, ds).items <==> Referrer(db, target, a, x)
  {
    EntitiesInTimeOrder(db, target, a, ds);
    forall x ensures x in Live(ds, EntityOf) <==> Referrer(db, target, a, x) {
      LiveByTime(ds, EntityOf, x);
      AssertedIsReferrer(db, target, a, ds, x);
    }
  }

  lemma EntitiesInTimeOrder(db: Database, target: ID, a: ID, ds: seq<Datom>)
    requires forall d :: d in ds <==> Refers(db, target, a, d)
    requires InKeyOrder(ds, VAET)
    ensures KeyedInOrder(ds, EntityOf)
  {
    forall p, q | 0 <= p < q < |ds| && EntityOf(ds[p]) == EntityOf(ds[q]) ensures Earlier(ds[p], ds[q]) {
      assert ds[p] in ds && ds[q] in ds;
      assert KeyBelow(VAET)(ds[p], ds[q]);
      SameFactOrder(ds[p], ds[q], VAET);
    }
  }

  lemma AssertedIsReferrer(db: Database, target: ID, a: ID, ds: seq<Datom>, x: ID)
    requires forall d :: d in ds <==> Refers(db, target, a, d)
    ensures Asserted(ds, EntityOf, x) <==> Referrer(db, target, a, x)
  {
    if Referrer(db, target, a, x) {
      var w :| Refers(db, target, a, w) && w.entity == x && w.datomType.Addition? &&
        forall r | Refers(db, target, a, r) && r.entity == x && r.datomType.Retraction? :: r.t < w.t;
      assert w in ds && EntityOf(w) == x;
    }
    if Asserted(ds, EntityOf, x) {
      var w :| w in ds && EntityOf(w) == x && w.datomType.Addition? &&
        forall r | r in ds && EntityOf(r) == x && r.datomType.Retraction? :: r.t < w.t;
      forall r | Refers(db, target, a, r) && r.entity == x && r.datomType.Retraction? ensures r.t < w.t {
        assert r in ds;
      }
    }
  }

  // ---------------------------------------------------------------------------
  // Entity::attributes
  // ---------------------------------------------------------------------------

  /** `attributes`, drained. The entity's datoms are read from the back; the
      first one met for an attribute (its last in EAVT order) decides it, and
      the attribute is reported when that datom is an Addition. */
  function AttributesAsWritten(e: Entity): (r: Result<seq<ID>, QueryError>)
    requires Usable(Snapshot(e))
    ensures r.Err? ==> !Healthy(e.connection.storage) || r.error == Panicked
  {
    var it :- DatomsForEntity(Snapshot(e), e.id);
    match CollectAttributes(AttributeIter(it, {}))
    case Parsed(xs) => Ok(xs)
    case _ => Err(Panicked)
  }

  /** `d` is the last datom of `x` and `a` in EAVT order. */
  ghost predicate LastOfAttribute(db: Database, x: ID, a: ID, d: Datom)
  {
    Holds(db, x, a, d) &&
    forall d' | Holds(db, x, a, d') && d' != d :: Below(Serialize(d', EAVT), Serialize(d, EAVT))
  }

  /** `d` is, among the datoms of `bs` with attribute `a`, the last in EAVT
      order. */
  predicate LastIn(bs: seq<Datom>, a: ID, d: Datom)
  {
    d in bs && d.attribute == a &&
    forall d' | d' in bs && d'.attribute == a && d' != d :: Below(Serialize(d', EAVT), Serialize(d, EAVT))
  }

  /** Over the entity's datoms, being last among them is being last in the
      snapshot. */
  lemma LastInMeans(db: Database, x: ID, a: ID, bs: seq<Datom>, d: Datom)
    requires forall d :: d in bs <==> Visible(db, EAVT, d) && d.entity == x
    ensures LastIn(bs, a, d) <==> LastOfAttribute(db, x, a, d)
  {
    if LastIn(bs, a, d) {
      forall d' | Holds(db, x, a, d') && d' != d ensures Below(Serialize(d', EAVT), Serialize(d, EAVT)) {
        assert d' in bs;
      }
    }
    if LastOfAttribute(db, x, a, d) {
      forall d' | d' in bs && d'.attribute == a && d' != d ensures Below(Serialize(d', EAVT), Serialize(d, EAVT)) {
        assert Holds(db, x, a, d');
      }
    }
  }

  /** Read from the back, the datom that decides an attribute is its last. */
  lemma DecidesThenLast(bs: seq<Datom>, a: ID, i: int)
    requires SortedBy(bs, KeyAbove(EAVT))
    requires Decides(bs, i, a)
    ensures LastIn(bs, a, bs[i])
  {
    forall d' | d' in bs && d'.attribute == a && d' != bs[i] ensures Below(Serialize(d', EAVT), Serialize(bs[i], EAVT)) {
      var j :| 0 <= j < |bs| && bs[j] == d';
      assert i < j;
      assert KeyAbove(EAVT)(bs[i], bs[j]);
    }
  }

  /** Read from the back, the last datom of an attribute decides it. */
  lemma LastThenDecides(bs: seq<Datom>, a: ID, i: int)
    requires SortedBy(bs, KeyAbove(EAVT))
    requires 0 <= i < |bs| && LastIn(bs, a, bs[i])
    ensures Decides(bs, i, a)
  {
    forall j | 0 <= j < i ensures bs[j].attribute != a {
      assert KeyAbove(EAVT)(bs[j], bs[i]);
      BelowIrreflexive(Serialize(bs[i], EAVT));
      BelowAsymmetric(Serialize(bs[i], EAVT), Serialize(bs[j], EAVT));
    }
  }

  /** Read from the back, the attributes first seen as Additions are those
      whose last datom is an Addition. */
  lemma FirstSeenLast(bs: seq<Datom>, a: ID)
    requires SortedBy(bs, KeyAbove(EAVT))
    ensures a in FirstSeen(bs, {}) <==> exists d :: LastIn(bs, a, d) && d.datomType.Addition?
  {
    FirstSeenMeans(bs, {}, a);
    if a in FirstSeen(bs, {}) {
      var i :| Decides(bs, i, a) && bs[i].datomType.Addition?;
      DecidesThenLast(bs, a, i);
    }
    if exists d :: LastIn(bs, a, d) && d.datomType.Addition? {
      var d :| LastIn(bs, a, d) && d.datomType.Addition?;
      var i :| 0 <= i < |bs| && bs[i] == d;
      LastThenDecides(bs, a, i);
    }
  }

  /** Draining `attributes` yields `FirstSeen` of the backward scan. */
  lemma AttributesAsWrittenScan(e: Entity)
    requires Usable(Snapshot(e)) && Healthy(e.connection.storage) && WellFormed(e.connection.storage)
    requires e.id < ID_LIMIT - 1
    ensures DatomsForEntity(Snapshot(e), e.id).Ok?
    ensures Collect(Backward, DatomsForEntity(Snapshot(e), e.id).value).Parsed?
    ensures AttributesAsWritten(e) == Ok(FirstSeen(Collect(Backward, DatomsForEntity(Snapshot(e), e.id).value).value, {}))
  {
    EntityReadsBackward(Snapshot(e), e.id);
    CollectAttributesIsFirstSeen(AttributeIter(DatomsForEntity(Snapshot(e), e.id).value, {}));
  }

  /** The attributes reported are exactly those whose last datom in EAVT
      order is an Addition. */
  lemma AttributesAsWrittenMeans(e: Entity)
    requires Usable(Snapshot(e)) && Healthy(e.connection.storage) && WellFormed(e.connection.storage)
    requires e.id < ID_LIMIT - 1
    ensures AttributesAsWritten(e).Ok?
    ensures forall a :: a in AttributesAsWritten(e).value <==>
      exists d :: LastOfAttribute(Snapshot(e), e.id, a, d) && d.datomType.Addition?
  {
    var db := Snapshot(e);
    EntityReadsBackward(db, e.id);
    AttributesAsWrittenScan(e);
    var bs := Collect(Backward, DatomsForEntity(db, e.id).value).value;
    forall a ensures a in FirstSeen(bs, {}) <==> exists d :: LastOfAttribute(db, e.id, a, d) && d.datomType.Addition? {
      FirstSeenLast(bs, a);
      forall d ensures LastIn(bs, a, d) <==> LastOfAttribute(db, e.id, a, d) {
        LastInMeans(db, e.id, a, bs, d);
      }
    }
  }

  /** The attributes of a set of attribute-value pairs. */
  function AttributesOf(ps: set<(ID, Value)>): (r: set<ID>)
    ensures forall p | p in ps :: p.0 in r
    ensures forall a | a in r :: exists v :: (a, v) in ps
  {
    set p | p in ps :: p.0
  }

  /** The attributes of the entity that have a value standing in the
      snapshot: the add/remove fold over the entity's datoms, keyed by
      attribute and value, as the read of a many-valued attribute does. */
  function LiveAttributes(e: Entity): (r: Result<set<ID>, QueryError>)
    requires Usable(Snapshot(e))
    ensures r.Err? ==> !Healthy(e.connection.storage) || r.error == Panicked
  {
    var it :- DatomsForEntity(Snapshot(e), e.id);
    var ds :- ReadAll(it);
    Ok(AttributesOf(Live(ds, AttributeValueOf)))
  }

  /** An attribute is listed exactly when some value of it stands in the
      snapshot. */
  lemma LiveAttributesMeans(e: Entity)
    requires Usable(Snapshot(e)) && Healthy(e.connection.storage) && WellFormed(e.connection.storage)
    requires e.id < ID_LIMIT - 1
    ensures LiveAttributes(e).Ok?
    ensures forall a :: a in LiveAttributes(e).value <==> exists v :: Present(Snapshot(e), e.id, a, v)
  {
    var db := Snapshot(e);
    EntityReads(db, e.id);
    LiveAttributesScan(e);
    var ds := ReadAll(DatomsForEntity(db, e.id).value).value;
    PairsInTimeOrder(db, e.id, ds);
    forall a ensures a in AttributesOf(Live(ds, AttributeValueOf)) <==> exists v :: Present(db, e.id, a, v) {
      forall v ensures (a, v) in Live(ds, AttributeValueOf) <==> Present(db, e.id, a, v) {
        LiveByTime(ds, AttributeValueOf, (a, v));
        AssertedPairIsPresent(db, e.id, ds, a, v);
      }
    }
  }

  /** `attributes`, corrected, is the fold over the entity's datoms. */
  lemma LiveAttributesScan(e: Entity)
    requires Usable(Snapshot(e)) && Healthy(e.connection.storage) && WellFormed(e.connection.storage)
    requires e.id < ID_LIMIT - 1
    ensures DatomsForEntity(Snapshot(e), e.id).Ok?
    ensures ReadAll(DatomsForEntity(Snapshot(e), e.id).value).Ok?
    ensures LiveAttributes(e) == Ok(AttributesOf(Live(ReadAll(DatomsForEntity(Snapshot(e), e.id).value).value, AttributeValueOf)))
  {
    EntityReads(Snapshot(e), e.id);
  }

  lemma PairsInTimeOrder(db: Database, x: ID, ds: seq<Datom>)
    requires forall d :: d in ds <==> Visible(db, EAVT, d) && d.entity == x
    requires InKeyOrder(ds, EAVT)
    ensures KeyedInOrder(ds, AttributeValueOf)
  {
    forall p, q | 0 <= p < q < |ds| && AttributeValueOf(ds[p]) == AttributeValueOf(ds[q]) ensures Earlier(ds[p], ds[q]) {
      assert ds[p] in ds && ds[q] in ds;
      assert KeyBelow(EAVT)(ds[p], ds[q]);
      SameFactOrder(ds[p], ds[q], EAVT);
    }
  }

  lemma AssertedPairIsPresent(db: Database, x: ID, ds: seq<Datom>, a: ID, v: Value)
    requires forall d :: d in ds <==> Visible(db, EAVT, d) && d.entity == x
    ensures Asserted(ds, AttributeValueOf, (a, v)) <==> Present(db, x, a, v)
  {
    if Present(db, x, a, v) {
      var w :| Holds(db, x, a, w) && w.value == v && w.datomType.Addition? &&
        forall r | Holds(db, x, a, r) && r.value == v && r.datomType.Retraction? :: r.t < w.t;
      assert w in ds && AttributeValueOf(w) == (a, v);
    }
    if Asserted(ds, AttributeValueOf, (a, v)) {
      var w :| w in ds && AttributeValueOf(w) == (a, v) && w.datomType.Addition? &&
        forall r | r in ds && AttributeValueOf(r) == (a, v) && r.datomType.Retraction? :: r.t < w.t;
      forall r | Holds(db, x, a, r) && r.value == v && r.datomType.Retraction? ensures r.t < w.t {
        assert r in ds && AttributeValueOf(r) == (a, v);
      }
      assert Holds(db, x, a, w);
    }
  }

  /** An entity's history under one attribute: `false` asserted at t 1,
      `true` asserted at t 2 and retracted at t 3. */
  function StaleHistory(x: ID, a: ID): (ds: seq<Datom>)
  {
    [Datom(x, a, Boolean(false), 1, Addition),
     Datom(x, a, Boolean(true), 2, Addition),
     Datom(x, a, Boolean(true), 3, Retraction)]
  }

  /** The value field of `false` sorts below that of `true`, and the two
      are of one length. */
  lemma BooleanFieldOrder()
    ensures |ValueField(Boolean(false))| == |ValueField(Boolean(true))|
    ensures Below(ValueField(Boolean(false)), ValueField(Boolean(true)))
  {
    var n := U64Bytes(2);
    var f, t := [BOOLEAN_TAG, 0], [BOOLEAN_TAG, 1];
    assert ValueField(Boolean(false)) == n + f;
    assert ValueField(Boolean(true)) == n + t;
    assert f[1..] == [0] && t[1..] == [1];
    BelowCommonPrefix(n, f, t);
  }

  /** In EAVT order the retraction of `true` comes after both additions. */
  lemma StaleHistoryOrder(x: ID, a: ID)
    ensures Below(Serialize(StaleHistory(x, a)[0], EAVT), Serialize(StaleHistory(x, a)[2], EAVT))
    ensures Below(Serialize(StaleHistory(x, a)[1], EAVT), Serialize(StaleHistory(x, a)[2], EAVT))
  {
    var h := StaleHistory(x, a);
    SameFactOrder(h[1], h[2], EAVT);
    var vf, vt := ValueField(Boolean(false)), ValueField(Boolean(true));
    BooleanFieldOrder();
    BelowExtend(vf, vt, TypeField(h[0]), TypeField(h[2]));
    var p := [IndexByte(EAVT)] + IdBytes(x) + IdBytes(a);
    assert Serialize(h[0], EAVT) == p + (vf + TypeField(h[0]));
    assert Serialize(h[2], EAVT) == p + (vt + TypeField(h[2]));
    BelowCommonPrefix(p, vf + TypeField(h[0]), vt + TypeField(h[2]));
  }

  /** In the stale history, `false` stands. */
  lemma StaleFalseStands(e: Entity, a: ID)
    requires forall d :: Visible(Snapshot(e), EAVT, d) && d.entity == e.id <==> d in StaleHistory(e.id, a)
    ensures Present(Snapshot(e), e.id, a, Boolean(false))
  {
    var db := Snapshot(e);
    var h := StaleHistory(e.id, a);
    assert h[0] in h;
    assert forall r | Holds(db, e.id, a, r) :: r in h;
  }

  /** In the stale history, the last datom of `a` is the retraction. */
  lemma StaleLastIsRetraction(e: Entity, a: ID, d: Datom)
    requires forall d :: Visible(Snapshot(e), EAVT, d) && d.entity == e.id <==> d in StaleHistory(e.id, a)
    requires LastOfAttribute(Snapshot(e), e.id, a, d)
    ensures d.datomType.Retraction?
  {
    var h := StaleHistory(e.id, a);
    StaleHistoryOrder(e.id, a);
    assert d in h;
    assert h[2] in h;
    if d != h[2] {
      BelowAsymmetric(Serialize(d, EAVT), Serialize(h[2], EAVT));
    }
  }

  /** The attribute iterator misses a live value: when the snapshot holds
      exactly the stale history of `a` for the entity, `false` still stands,
      yet `attributes` does not report `a`, because the last datom of `a`
      in EAVT order is the retraction of the other value `true`. */
  lemma AttributesAsWrittenMissesLiveValue(e: Entity, a: ID)
    requires Usable(Snapshot(e)) && Healthy(e.connection.storage) && WellFormed(e.connection.storage)
    requires e.id < ID_LIMIT - 1
    requires forall d :: Visible(Snapshot(e), EAVT, d) && d.entity == e.id <==> d in StaleHistory(e.id, a)
    ensures Present(Snapshot(e), e.id, a, Boolean(false))
    ensures AttributesAsWritten(e).Ok? && a !in AttributesAsWritten(e).value
    ensures LiveAttributes(e).Ok? && a in LiveAttributes(e).value
  {
    StaleFalseStands(e, a);
    LiveAttributesMeans(e);
    AttributesAsWrittenMeans(e);
    forall d | LastOfAttribute(Snapshot(e), e.id, a, d) ensures d.datomType.Retraction? {
      StaleLastIsRetraction(e, a, d);
    }
  }
}
