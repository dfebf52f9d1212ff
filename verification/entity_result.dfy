/** What reading an attribute of an entity returns (`EntityResult`), with
    the source's hand-written equalities and hash. A `Repeated` result is
    collected from a hash set, so the order of its items is unspecified;
    it is held here as a set. */
module EntityResults {
  import opened Bytes
  import opened Ids
  import opened Values
  import opened Databases

  /** `NotFound`, `Value(v)` (here `Scalar`, to keep it apart from the type
      `Value`), `Ref(entity)` and `Repeated(items)`. */
  datatype EntityResult =
    | NotFound
    | Scalar(value: Value)
    | Ref(entity: Entity)
    | Repeated(items: set<EntityResult>)

  // ---------------------------------------------------------------------------
  // Entities
  // ---------------------------------------------------------------------------

  /** `Entity::hash`: the snapshot's t and the ID; the connection is left out. */
  function EntityHash(e: Entity): (u64, ID)
  {
    (e.t, e.id)
  }

  /** `Entity == Entity`: same connection (by its ID), same t, same ID.
      Equal entities hash equally. */
  predicate EntityEq(x: Entity, y: Entity)
    ensures EntityEq(x, y) ==> EntityHash(x) == EntityHash(y)
  {
    ConnectionEq(x.connection, y.connection) && x.t == y.t && x.id == y.id
  }

  /** Entity equality is an equivalence. */
  lemma EntityEqEquivalence(x: Entity, y: Entity, z: Entity)
    ensures EntityEq(x, x)
    ensures EntityEq(x, y) ==> EntityEq(y, x)
    ensures EntityEq(x, y) && EntityEq(y, z) ==> EntityEq(x, z)
  {
  }

  // ---------------------------------------------------------------------------
  // Results
  // ---------------------------------------------------------------------------

  /** `core::mem::discriminant`, as a number. */
  function Variant(r: EntityResult): nat
  {
    match r
    case NotFound => 0
    case Scalar(_) => 1
    case Ref(_) => 2
    case Repeated(_) => 3
  }

  /** `EntityResult::hash`: the variant alone. */
  function ResultHash(r: EntityResult): nat
  {
    Variant(r)
  }

  /** `is_ref_to(id)`. */
  predicate IsRefTo(r: EntityResult, id: ID)
  {
    r.Ref? && r.entity.id == id
  }

  /** What the source's equality looks at in a result: the variant, a
      value, an entity's connection ID, t and ID, and the items of a
      `Repeated` result. */
  datatype Compared =
    | NoValue
    | SameValue(value: Value)
    | SameEntity(connection: ID, t: u64, id: ID)
    | SameItems(items: set<Compared>)

  function Compare(r: EntityResult): (c: Compared)
    ensures Variant(r) == 0 <==> c.NoValue?
    ensures Variant(r) == 1 <==> c.SameValue?
    ensures Variant(r) == 2 <==> c.SameEntity?
    ensures Variant(r) == 3 <==> c.SameItems?
  {
    match r
    case NotFound => NoValue
    case Scalar(v) => SameValue(v)
    case Ref(e) => SameEntity(e.connection.id, e.t, e.id)
    case Repeated(xs) => SameItems(set p | p in xs :: Compare(p))
  }

  /** The compared parts of a set of items. */
  function ComparedItems(xs: set<EntityResult>): (cs: set<Compared>)
    ensures forall p | p in xs :: Compare(p) in cs
    ensures forall c | c in cs :: exists p | p in xs :: Compare(p) == c
  {
    set p | p in xs :: Compare(p)
  }

  /** `EntityResult == EntityResult`: payloads are compared within a
      variant (entities by `EntityEq`, the items of two `Repeated` results
      item by item), and results of different variants are unequal; two
      `NotFound`s are equal. */
  predicate ResultEq(x: EntityResult, y: EntityResult)
  {
    Compare(x) == Compare(y)
  }

  /** Equal results hash equally; results of different variants are never
      equal; `Value`s and `Ref`s compare their payloads. */
  lemma ResultEqMeans(x: EntityResult, y: EntityResult)
    ensures ResultEq(x, y) ==> ResultHash(x) == ResultHash(y)
    ensures Variant(x) != Variant(y) ==> !ResultEq(x, y)
    ensures x.Scalar? && y.Scalar? ==> (ResultEq(x, y) <==> x.value == y.value)
    ensures x.Ref? && y.Ref? ==> (ResultEq(x, y) <==> EntityEq(x.entity, y.entity))
    ensures x.NotFound? && y.NotFound? ==> ResultEq(x, y)
  {
  }

  /** The items `Repeated(xs)` is compared by. */
  lemma ItemsCompared(xs: set<EntityResult>)
    ensures Compare(Repeated(xs)).items == ComparedItems(xs)
  {
  }

  /** Every item of `xs` equals some item of `ys`. */
  predicate Covers(xs: set<EntityResult>, ys: set<EntityResult>)
  {
    forall p | p in xs :: exists q | q in ys :: ResultEq(p, q)
  }

  lemma CoversCompared(xs: set<EntityResult>, ys: set<EntityResult>)
    requires Covers(xs, ys)
    ensures ComparedItems(xs) <= ComparedItems(ys)
  {
    var cx := ComparedItems(xs);
    var cy := ComparedItems(ys);
    forall c | c in cx ensures c in cy {
      var p :| p in xs && Compare(p) == c;
      var q :| q in ys && ResultEq(p, q);
    }
  }

  lemma ComparedCovers(xs: set<EntityResult>, ys: set<EntityResult>)
    requires ComparedItems(xs) <= ComparedItems(ys)
    ensures Covers(xs, ys)
  {
    var cx := ComparedItems(xs);
    var cy := ComparedItems(ys);
    forall p | p in xs ensures exists q | q in ys :: ResultEq(p, q) {
      assert Compare(p) in cx;
      assert Compare(p) in cy;
      var q :| q in ys && Compare(q) == Compare(p);
      assert ResultEq(p, q);
    }
  }

  /** Two `Repeated` results are equal exactly when every item of each
      equals some item of the other. */
  lemma RepeatedEqMeans(xs: set<EntityResult>, ys: set<EntityResult>)
    ensures ResultEq(Repeated(xs), Repeated(ys)) <==> Covers(xs, ys) && Covers(ys, xs)
  {
    ItemsCompared(xs);
    ItemsCompared(ys);
    if Covers(xs, ys) && Covers(ys, xs) {
      CoversCompared(xs, ys);
      CoversCompared(ys, xs);
    }
    if ResultEq(Repeated(xs), Repeated(ys)) {
      ComparedCovers(xs, ys);
      ComparedCovers(ys, xs);
    }
  }

  /** Result equality is an equivalence. */
  lemma ResultEqEquivalence(x: EntityResult, y: EntityResult, z: EntityResult)
    ensures ResultEq(x, x)
    ensures ResultEq(x, y) ==> ResultEq(y, x)
    ensures ResultEq(x, y) && ResultEq(y, z) ==> ResultEq(x, z)
  {
  }

  /** `EntityResult == Value`: only a `Value` result with that value. */
  predicate EqValue(r: EntityResult, v: Value)
  {
    r.Scalar? && r.value == v
  }

  /** `EntityResult == Entity`: only a `Ref` to an equal entity. */
  predicate EqEntity(r: EntityResult, e: Entity)
  {
    r.Ref? && EntityEq(r.entity, e)
  }

  /** `EntityResult == ID`: `is_ref_to`. */
  predicate EqId(r: EntityResult, id: ID)
  {
    IsRefTo(r, id)
  }

  /** `EntityResult == Vec<EntityResult>`: only a `Repeated` result whose
      items match. */
  predicate EqItems(r: EntityResult, items: set<EntityResult>)
  {
    r.Repeated? && ResultEq(r, Repeated(items))
  }

  /** `From<Value>`. */
  function FromValue(v: Value): (r: EntityResult)
    ensures EqValue(r, v) && forall w | EqValue(r, w) :: w == v
  {
    Scalar(v)
  }

  /** `From<Entity>`. */
  function FromEntity(e: Entity): (r: EntityResult)
    ensures EqEntity(r, e) && EqId(r, e.id)
  {
    Ref(e)
  }

  /** Comparing with a plain value, an entity, an ID or a list holds only
      for the matching variant, and comparing with an ID is `is_ref_to`. */
  lemma CrossEqualities(r: EntityResult, v: Value, e: Entity, id: ID, items: set<EntityResult>)
    ensures EqValue(r, v) ==> ResultEq(r, FromValue(v))
    ensures EqEntity(r, e) ==> ResultEq(r, FromEntity(e))
    ensures EqId(r, id) <==> r.Ref? && r.entity.id == id
    ensures EqItems(r, items) ==> ResultEq(r, Repeated(items))
  {
  }
}
