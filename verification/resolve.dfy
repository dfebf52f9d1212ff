/** Resolving an entity reference against a snapshot (`EID::resolve`) and
    `Database::entity`. An ident or a unique attribute value is looked up in
    the AVET index; among the datoms found, the one of greatest t decides
    (`max_by(by_t)`, which keeps the last of equal maxima), whatever its
    datom type. */
module Resolution {
  import opened Results
  import opened Bytes
  import opened Ids
  import opened Values
  import opened Datoms
  import opened Serial
  import opened Backends
  import opened DatomIterators
  import opened Errors
  import opened Eids
  import opened Databases
  import Builtins

  // ---------------------------------------------------------------------------
  // max_by(by_t)
  // ---------------------------------------------------------------------------

  /** The position `Iterator::max_by` stops at: the last datom of greatest t. */
  function LastMaxIndex(ds: seq<Datom>): (i: nat)
    requires |ds| > 0
    ensures i < |ds|
    ensures forall j | 0 <= j < |ds| :: ds[j].t <= ds[i].t
    ensures forall j | i < j < |ds| :: ds[j].t < ds[i].t
  {
    if |ds| == 1 then 0
    else
      var k := LastMaxIndex(ds[..|ds| - 1]);
      if ds[|ds| - 1].t >= ds[k].t then |ds| - 1 else k
  }

  /** The last datom of greatest t is a single position. */
  lemma LastMaxUnique(ds: seq<Datom>, i: nat)
    requires i < |ds|
    requires forall j | 0 <= j < |ds| :: ds[j].t <= ds[i].t
    requires forall j | i < j < |ds| :: ds[j].t < ds[i].t
    ensures i == LastMaxIndex(ds)
  {
    var k := LastMaxIndex(ds);
  }

  /** `max_by(by_t)`: `None` for no datoms, else a datom of greatest t. */
  function MaxByT(ds: seq<Datom>): (r: Option<Datom>)
    ensures r.None? <==> |ds| == 0
    ensures r.Some? ==> r.value in ds && forall d | d in ds :: d.t <= r.value.t
  {
    if |ds| == 0 then None else Some(ds[LastMaxIndex(ds)])
  }

  // ---------------------------------------------------------------------------
  // EID::resolve
  // ---------------------------------------------------------------------------

  /** The entity of the latest datom a lookup finds, or `UnresolvedEID`. */
  function LatestEntity(db: Database, a: ID, v: Value, eid: EID): (r: Result<ID, QueryError>)
    requires Usable(db)
    ensures r.Err? && !r.error.UnresolvedEID? ==> !Healthy(db.connection.storage) || r.error == Panicked
  {
    var it :- DatomsForAttributeValue(db, a, v);
    var ds :- ReadAll(it);
    match MaxByT(ds)
    case Some(d) => Ok(d.entity)
    case None => Err(UnresolvedEID(eid))
  }

  /** `Ident(s).resolve(db)`: a builtin ident first, else the latest
      datom asserting the ident. */
  function ResolveIdent(db: Database, s: seq<byte>): (r: Result<ID, QueryError>)
    requires Usable(db)
    ensures Builtins.BuiltinByIdent(s).Some? ==> r == Ok(Builtins.BuiltinByIdent(s).value)
    ensures r.Err? && r.error.UnresolvedEID? ==> r.error.eid == Ident(s)
  {
    match Builtins.BuiltinByIdent(s)
    case Some(id) => Ok(id)
    case None => LatestEntity(db, Builtins.IDENT, String(s), Ident(s))
  }

  /** `EID::resolve`. An `InternedIdent` resolves as the `Ident` with the
      same name (its error names that `Ident`); a `Unique` reference
      resolves its attribute first. */
  function Resolve(db: Database, eid: EID): (r: Result<ID, QueryError>)
    requires Usable(db)
    ensures eid.Resolved? ==> r == Ok(eid.id)
    ensures (eid.Ident? || eid.InternedIdent?) ==> r == ResolveIdent(db, eid.name)
    ensures eid.Unique? && Resolve(db, eid.attribute).Err? ==> r == Resolve(db, eid.attribute)
    ensures eid.Unique? && Resolve(db, eid.attribute).Ok? ==>
      r == LatestEntity(db, Resolve(db, eid.attribute).value, eid.value, eid)
    ensures r.Err? && r.error.UnresolvedEID? ==>
      r.error.eid == eid || (eid.InternedIdent? && r.error.eid == Ident(eid.name)) || eid.Unique?
    decreases eid
  {
    match eid
    case Resolved(id) => Ok(id)
    case Ident(s) => ResolveIdent(db, s)
    case InternedIdent(s) => ResolveIdent(db, s)
    case Unique(a, v) =>
      var attr :- Resolve(db, a);
      LatestEntity(db, attr, v, eid)
  }

  /** `Database::entity`: the resolved entity, seen through the same
      connection at the same t. */
  function DbEntity(db: Database, eid: EID): (r: Result<Entity, QueryError>)
    requires Usable(db)
    ensures r.Ok? <==> Resolve(db, eid).Ok?
    ensures r.Ok? ==> r.value == Entity(db.connection, db.t, Resolve(db, eid).value)
    ensures r.Err? ==> r.error == Resolve(db, eid).error
  {
    var id :- Resolve(db, eid);
    Ok(Entity(db.connection, db.t, id))
  }

  // ---------------------------------------------------------------------------
  // What a lookup finds in a well-formed store
  // ---------------------------------------------------------------------------

  /** `d` asserts, or retracts, value `v` of attribute `a` in the snapshot. */
  predicate Mentions(db: Database, a: ID, v: Value, d: Datom)
  {
    Visible(db, AVET, d) && d.attribute == a && d.value == v
  }

  /** A lookup by attribute and value finds exactly when some datom of the
      snapshot mentions them, whether it adds or retracts, and then yields
      the entity of a latest such datom. */
  lemma LatestEntityMeans(db: Database, a: ID, v: Value, eid: EID)
    requires Usable(db) && Healthy(db.connection.storage) && WellFormed(db.connection.storage)
    requires Storable(v)
    ensures LatestEntity(db, a, v, eid).Ok? <==> exists d :: Mentions(db, a, v, d)
    ensures LatestEntity(db, a, v, eid).Err? ==> LatestEntity(db, a, v, eid).error == UnresolvedEID(eid)
    ensures LatestEntity(db, a, v, eid).Ok? ==>
      exists d :: Mentions(db, a, v, d) && d.entity == LatestEntity(db, a, v, eid).value &&
        forall d' | Mentions(db, a, v, d') :: d'.t <= d.t
  {
    AttributeValueReads(db, a, v);
    var ds := ReadAll(DatomsForAttributeValue(db, a, v).value).value;
    if exists d :: Mentions(db, a, v, d) {
      var d :| Mentions(db, a, v, d);
      assert d in ds;
    }
    if |ds| > 0 {
      var w := MaxByT(ds).value;
      assert Mentions(db, a, v, w);
    }
  }

  /** An ident that is not builtin resolves exactly when some datom of the
      snapshot mentions it under `IDENT`, to the entity of a latest one. */
  lemma ResolveIdentMeans(db: Database, s: seq<byte>)
    requires Usable(db) && Healthy(db.connection.storage) && WellFormed(db.connection.storage)
    requires Storable(String(s)) && Builtins.BuiltinByIdent(s).None?
    ensures Resolve(db, Ident(s)).Ok? <==> exists d :: Mentions(db, Builtins.IDENT, String(s), d)
    ensures Resolve(db, Ident(s)).Err? ==> Resolve(db, Ident(s)).error == UnresolvedEID(Ident(s))
    ensures Resolve(db, Ident(s)).Ok? ==>
      exists d :: Mentions(db, Builtins.IDENT, String(s), d) && d.entity == Resolve(db, Ident(s)).value &&
        forall d' | Mentions(db, Builtins.IDENT, String(s), d') :: d'.t <= d.t
  {
    assert Resolve(db, Ident(s)) == LatestEntity(db, Builtins.IDENT, String(s), Ident(s));
    LatestEntityMeans(db, Builtins.IDENT, String(s), Ident(s));
  }

  /** A unique reference whose attribute resolves finds the entity of a
      latest datom of the snapshot with that attribute and value. */
  lemma ResolveUniqueMeans(db: Database, a: EID, v: Value)
    requires Usable(db) && Healthy(db.connection.storage) && WellFormed(db.connection.storage)
    requires Storable(v) && Resolve(db, a).Ok?
    ensures Resolve(db, Unique(a, v)).Ok? <==> exists d :: Mentions(db, Resolve(db, a).value, v, d)
    ensures Resolve(db, Unique(a, v)).Err? ==> Resolve(db, Unique(a, v)).error == UnresolvedEID(Unique(a, v))
    ensures Resolve(db, Unique(a, v)).Ok? ==>
      exists d :: Mentions(db, Resolve(db, a).value, v, d) && d.entity == Resolve(db, Unique(a, v)).value &&
        forall d' | Mentions(db, Resolve(db, a).value, v, d') :: d'.t <= d.t
  {
    var attr := Resolve(db, a).value;
    assert Resolve(db, Unique(a, v)) == LatestEntity(db, attr, v, Unique(a, v));
    LatestEntityMeans(db, attr, v, Unique(a, v));
  }

  /** An interned ident resolves exactly as the owned ident of the same name. */
  lemma InternedResolvesAsIdent(db: Database, s: seq<byte>)
    requires Usable(db)
    ensures Resolve(db, InternedIdent(s)) == Resolve(db, Ident(s))
  {
  }
}
