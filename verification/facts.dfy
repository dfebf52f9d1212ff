/** Facts (`Fact`) and their conversion to datoms (`Fact::datom`) against
    the snapshot a transaction starts from. */
module Facts {
  import opened Results
  import opened Bytes
  import opened Ids
  import opened Values
  import opened Datoms
  import opened Backends
  import opened Errors
  import opened Eids
  import opened Databases
  import opened EntityResults
  import opened Resolution
  import opened Entities
  import Builtins

  /** `Add(e, a, v)`, `RetractValue(e, a, v)` and `Retract(e, a)`. */
  datatype Fact =
    | Add(entity: EID, attribute: EID, value: Value)
    | RetractValue(entity: EID, attribute: EID, value: Value)
    | Retract(entity: EID, attribute: EID)

  /** What `Retract` reads: the attribute of the entity, seen through `db`. */
  function Current(db: Database, e: ID, a: ID): (r: Result<EntityResult, QueryError>)
    requires Usable(db)
    ensures Usable(Snapshot(Entity(db.connection, db.t, e)))
  {
    Get(Entity(db.connection, db.t, e), Resolved(a))
  }

  /** `Fact::datom`: the entity is resolved, then the attribute; an `Add`
      or `RetractValue` carries its own value, a `Retract` the attribute's
      current plain value, and fails when the attribute reads as anything
      else. */
  function FactDatom(f: Fact, t: u64, db: Database): (r: Result<Datom, TransactionError>)
    requires Usable(db)
    ensures r.Ok? ==> r.value.t == t
    ensures r.Ok? ==> Resolve(db, f.entity) == Ok(r.value.entity) && Resolve(db, f.attribute) == Ok(r.value.attribute)
    ensures r.Ok? ==> (r.value.datomType.Addition? <==> f.Add?)
    ensures r.Ok? && !f.Retract? ==> r.value.value == f.value
    ensures r.Ok? && f.Retract? ==> Current(db, r.value.entity, r.value.attribute) == Ok(Scalar(r.value.value))
    ensures Resolve(db, f.entity).Err? ==> r == Err(QueryFailed(Resolve(db, f.entity).error))
    ensures Resolve(db, f.entity).Ok? && Resolve(db, f.attribute).Err? ==>
      r == Err(QueryFailed(Resolve(db, f.attribute).error))
    ensures !f.Retract? && Resolve(db, f.entity).Ok? && Resolve(db, f.attribute).Ok? ==> r.Ok?
  {
    var e :- Lift(Resolve(db, f.entity));
    var a :- Lift(Resolve(db, f.attribute));
    match f
    case Add(_, _, v) => Ok(Datom(e, a, v, t, Addition))
    case RetractValue(_, _, v) => Ok(Datom(e, a, v, t, Retraction))
    case Retract(_, _) =>
      // `db.entity` of a resolved ID cannot fail
      var entity := DbEntity(db, Resolved(e)).value;
      var current :- Lift(Get(entity, Resolved(a)));
      if current.Scalar? then Ok(Datom(e, a, current.value, t, Retraction))
      else Err(FailedToRetractRepeatedAttribute(e, a))
  }

  /** Once both references resolve, a `Retract` succeeds exactly when the
      attribute reads as a plain value; a read error is passed on, and any
      other answer (`NotFound`, a `Ref`, `Repeated`) is refused. */
  lemma RetractOutcome(f: Fact, t: u64, db: Database, e: ID, a: ID)
    requires Usable(db) && f.Retract?
    requires Resolve(db, f.entity) == Ok(e) && Resolve(db, f.attribute) == Ok(a)
    ensures Current(db, e, a).Err? ==> FactDatom(f, t, db) == Err(QueryFailed(Current(db, e, a).error))
    ensures Current(db, e, a).Ok? && Current(db, e, a).value.Scalar? ==>
      FactDatom(f, t, db) == Ok(Datom(e, a, Current(db, e, a).value.value, t, Retraction))
    ensures Current(db, e, a).Ok? && !Current(db, e, a).value.Scalar? ==>
      FactDatom(f, t, db) == Err(FailedToRetractRepeatedAttribute(e, a))
  {
    assert DbEntity(db, Resolved(e)) == Ok(Entity(db.connection, db.t, e));
  }

  /** Over a well-formed store, retracting a single-valued attribute whose
      deciding datom asserts a plain value retracts exactly that value. */
  lemma RetractCurrentValue(f: Fact, t: u64, db: Database, e: ID, a: ID, ty: Option<ID>, d: Datom)
    requires Usable(db) && Healthy(db.connection.storage) && WellFormed(db.connection.storage)
    requires f.Retract? && Resolve(db, f.entity) == Ok(e) && Resolve(db, f.attribute) == Ok(a)
    requires a != Builtins.DB_ID && a < ID_LIMIT - 1
    requires IsRepeated(Entity(db.connection, db.t, a), false) == Ok(false)
    requires AttributeType(Entity(db.connection, db.t, a), false) == Ok(ty)
    requires Decisive(db, e, a, d) && d.datomType.Addition?
    requires !(ty == Some(Builtins.TYPE_REF) && d.value.Id?)
    ensures FactDatom(f, t, db) == Ok(Datom(e, a, d.value, t, Retraction))
  {
    var x := Entity(db.connection, db.t, e);
    assert Snapshot(x) == db;
    GetOneAsserted(x, Resolved(a), false, false, a, ty, d);
    RetractOutcome(f, t, db, e, a);
  }

  /** Retracting an attribute the entity has no datom of, and that the
      builtin table does not supply, fails with
      `FailedToRetractRepeatedAttribute`. */
  lemma RetractAbsentFails(f: Fact, t: u64, db: Database, e: ID, a: ID, ty: Option<ID>)
    requires Usable(db) && Healthy(db.connection.storage) && WellFormed(db.connection.storage)
    requires f.Retract? && Resolve(db, f.entity) == Ok(e) && Resolve(db, f.attribute) == Ok(a)
    requires a != Builtins.DB_ID && a < ID_LIMIT - 1
    requires IsRepeated(Entity(db.connection, db.t, a), false) == Ok(false)
    requires AttributeType(Entity(db.connection, db.t, a), false) == Ok(ty)
    requires forall d :: !Holds(db, e, a, d)
    requires Builtins.BuiltinValue(e, a).None?
    ensures FactDatom(f, t, db) == Err(FailedToRetractRepeatedAttribute(e, a))
  {
    var x := Entity(db.connection, db.t, e);
    assert Snapshot(x) == db;
    GetOneAbsent(x, Resolved(a), false, false, a, ty);
    RetractOutcome(f, t, db, e, a);
  }

  /** Retracting a cardinality-many attribute without naming a value always
      fails. */
  lemma RetractRepeatedFails(f: Fact, t: u64, db: Database, e: ID, a: ID, ty: Option<ID>)
    requires Usable(db) && Healthy(db.connection.storage) && WellFormed(db.connection.storage)
    requires f.Retract? && Resolve(db, f.entity) == Ok(e) && Resolve(db, f.attribute) == Ok(a)
    requires a != Builtins.DB_ID && a < ID_LIMIT - 1
    requires IsRepeated(Entity(db.connection, db.t, a), false) == Ok(true)
    requires AttributeType(Entity(db.connection, db.t, a), false) == Ok(ty)
    ensures FactDatom(f, t, db) == Err(FailedToRetractRepeatedAttribute(e, a))
  {
    var x := Entity(db.connection, db.t, e);
    assert Snapshot(x) == db;
    GetManyMeans(x, Resolved(a), false, a, ty);
    RetractOutcome(f, t, db, e, a);
  }
}
