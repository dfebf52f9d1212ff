/** Transactions (`Transaction`): a list of facts built up by appending,
    and their conversion to datoms, all at one t. */
module Transactions {
  import opened Results
  import opened Bytes
  import opened Ids
  import opened Values
  import opened Datoms
  import opened Errors
  import opened Eids
  import opened Databases
  import opened Facts

  datatype Transaction = Transaction(facts: seq<Fact>)

  /** `Transaction::new`. */
  function NewTransaction(): (tx: Transaction)
    ensures |tx.facts| == 0
  {
    Transaction([])
  }

  /** `tx` with `f` after its facts, which are kept as they were. */
  predicate Extends(r: Transaction, tx: Transaction, f: Fact)
  {
    |r.facts| == |tx.facts| + 1 && r.facts[..|tx.facts|] == tx.facts && r.facts[|tx.facts|] == f
  }

  /** `push_fact`. */
  function PushFact(tx: Transaction, f: Fact): (r: Transaction)
    ensures Extends(r, tx, f)
  {
    Transaction(tx.facts + [f])
  }

  /** `add`. */
  function AddFact(tx: Transaction, e: EID, a: EID, v: Value): (r: Transaction)
    ensures Extends(r, tx, Add(e, a, v))
  {
    PushFact(tx, Add(e, a, v))
  }

  /** `retract_value`. */
  function RetractValueFact(tx: Transaction, e: EID, a: EID, v: Value): (r: Transaction)
    ensures Extends(r, tx, RetractValue(e, a, v))
  {
    PushFact(tx, RetractValue(e, a, v))
  }

  /** `retract`. */
  function RetractFact(tx: Transaction, e: EID, a: EID): (r: Transaction)
    ensures Extends(r, tx, Retract(e, a))
  {
    PushFact(tx, Retract(e, a))
  }

  /** `order` lists the keys of `pairs`, each once: the order a `HashMap`
      happens to yield them in, which the source leaves unspecified. */
  predicate Enumerates<K(==), V>(order: seq<K>, pairs: map<K, V>)
  {
    |order| == |pairs| &&
    (forall i | 0 <= i < |order| :: order[i] in pairs) &&
    (forall i, j | 0 <= i < j < |order| :: order[i] != order[j])
  }

  /** `add_many`: one `Add` of the entity per attribute-value pair, in the
      map's iteration order `order`. */
  function AddMany(tx: Transaction, e: EID, pairs: map<EID, Value>, order: seq<EID>): (r: Transaction)
    requires Enumerates(order, pairs)
    ensures |r.facts| == |tx.facts| + |pairs|
    ensures r.facts[..|tx.facts|] == tx.facts
    ensures forall f | f in r.facts[|tx.facts|..] :: f.Add? && f.entity == e && f.attribute in pairs && f.value == pairs[f.attribute]
    ensures forall a | a in pairs :: Add(e, a, pairs[a]) in r.facts[|tx.facts|..]
  {
    var r := AddPairs(tx, e, pairs, order);
    EnumeratesAll(order, pairs);
    var added := r.facts[|tx.facts|..];
    assert forall i | 0 <= i < |order| :: added[i] == Add(e, order[i], pairs[order[i]]);
    assert forall a | a in pairs :: Add(e, a, pairs[a]) in added by {
      forall a | a in pairs ensures Add(e, a, pairs[a]) in added {
        var i :| 0 <= i < |order| && order[i] == a;
        assert added[i] == Add(e, a, pairs[a]);
      }
    }
    r
  }

  function AddPairs(tx: Transaction, e: EID, pairs: map<EID, Value>, order: seq<EID>): (r: Transaction)
    requires forall i | 0 <= i < |order| :: order[i] in pairs
    ensures |r.facts| == |tx.facts| + |order|
    ensures r.facts[..|tx.facts|] == tx.facts
    ensures forall i | 0 <= i < |order| :: r.facts[|tx.facts| + i] == Add(e, order[i], pairs[order[i]])
    decreases |order|
  {
    if |order| == 0 then tx
    else AddPairs(AddFact(tx, e, order[0], pairs[order[0]]), e, pairs, order[1..])
  }

  /** A list of distinct keys of a map, as long as the map, lists them all. */
  lemma EnumeratesAll<K, V>(order: seq<K>, pairs: map<K, V>)
    requires Enumerates(order, pairs)
    ensures forall k | k in pairs :: k in order
  {
    var listed := set i | 0 <= i < |order| :: order[i];
    DistinctListSize(order);
    var missing := pairs.Keys - listed;
    assert pairs.Keys == listed + missing && listed !! missing;
    assert |missing| == 0;
    forall k | k in pairs ensures k in order {
      assert k !in missing;
      var i :| 0 <= i < |order| && order[i] == k;
    }
  }

  /** The elements of a list of distinct elements are as many as its length. */
  lemma {:induction false} DistinctListSize<K>(order: seq<K>)
    requires forall i, j | 0 <= i < j < |order| :: order[i] != order[j]
    ensures |set i | 0 <= i < |order| :: order[i]| == |order|
  {
    if |order| > 0 {
      var rest := order[1..];
      DistinctListSize(rest);
      var s := set i | 0 <= i < |order| :: order[i];
      var s' := set i | 0 <= i < |rest| :: rest[i];
      assert s == s' + {order[0]} by {
        forall x | x in s ensures x in s' + {order[0]} {
          var i :| 0 <= i < |order| && order[i] == x;
          if i > 0 { assert rest[i - 1] == x; }
        }
      }
      assert order[0] !in s' by {
        forall i | 0 <= i < |rest| ensures rest[i] != order[0] {
          assert rest[i] == order[i + 1];
        }
      }
    }
  }

  /** `append(txable)`: the facts of `txable.tx()` after the existing ones. */
  function Append(tx: Transaction, other: Transaction): (r: Transaction)
    ensures |r.facts| == |tx.facts| + |other.facts|
    ensures r.facts[..|tx.facts|] == tx.facts && r.facts[|tx.facts|..] == other.facts
  {
    Transaction(tx.facts + other.facts)
  }

  /** `Transaction::datoms`: each fact converted in order, all at `t`; the
      first fact that fails fails the whole call. */
  function DatomsOf(facts: seq<Fact>, t: u64, db: Database): (r: Result<seq<Datom>, TransactionError>)
    requires Usable(db)
    ensures r.Ok? <==> forall i | 0 <= i < |facts| :: FactDatom(facts[i], t, db).Ok?
    ensures r.Ok? ==> |r.value| == |facts| && forall i | 0 <= i < |facts| :: FactDatom(facts[i], t, db) == Ok(r.value[i])
    ensures r.Ok? ==> forall d | d in r.value :: d.t == t
    ensures r.Err? ==> exists i | 0 <= i < |facts| ::
      (FactDatom(facts[i], t, db) == Err(r.error) && forall j | 0 <= j < i :: FactDatom(facts[j], t, db).Ok?)
  {
    if |facts| == 0 then Ok([])
    else
      var d :- FactDatom(facts[0], t, db);
      var rest :- DatomsOf(facts[1..], t, db);
      Ok([d] + rest)
  }

  function TxDatoms(tx: Transaction, t: u64, db: Database): Result<seq<Datom>, TransactionError>
    requires Usable(db)
  {
    DatomsOf(tx.facts, t, db)
  }

  /** Converting two lists of facts one after the other is converting
      their concatenation: the datoms of both, or the first failure. */
  lemma {:induction false} DatomsOfAppend(x: seq<Fact>, y: seq<Fact>, t: u64, db: Database)
    requires Usable(db)
    ensures DatomsOf(x + y, t, db) ==
      match DatomsOf(x, t, db)
      case Err(e) => Err(e)
      case Ok(dx) =>
        match DatomsOf(y, t, db)
        case Err(e) => Err(e)
        case Ok(dy) => Ok(dx + dy)
  {
    if |x| > 0 {
      assert (x + y)[0] == x[0];
      assert (x + y)[1..] == x[1..] + y;
      DatomsOfAppend(x[1..], y, t, db);
      var first := FactDatom(x[0], t, db);
      if first.Ok? {
        match DatomsOf(x[1..], t, db)
        case Err(e) =>
        case Ok(dx) =>
          match DatomsOf(y, t, db)
          case Err(e) =>
          case Ok(dy) =>
            assert [first.value] + (dx + dy) == ([first.value] + dx) + dy;
      }
    } else {
      assert x + y == y;
      if DatomsOf(y, t, db).Ok? {
        assert [] + DatomsOf(y, t, db).value == DatomsOf(y, t, db).value;
      }
    }
  }

  /** The datoms of an appended transaction follow those of the first. */
  lemma AppendDatoms(tx: Transaction, other: Transaction, t: u64, db: Database)
    requires Usable(db)
    requires TxDatoms(tx, t, db).Ok? && TxDatoms(other, t, db).Ok?
    ensures TxDatoms(Append(tx, other), t, db) == Ok(TxDatoms(tx, t, db).value + TxDatoms(other, t, db).value)
  {
    DatomsOfAppend(tx.facts, other.facts, t, db);
  }

  /** A transaction of additions between resolved IDs cannot fail: each
      fact becomes the datom it spells out. */
  lemma ResolvedAddsSucceed(tx: Transaction, t: u64, db: Database)
    requires Usable(db)
    requires forall j | 0 <= j < |tx.facts| :: tx.facts[j].Add? && tx.facts[j].entity.Resolved? && tx.facts[j].attribute.Resolved?
    ensures TxDatoms(tx, t, db).Ok? && |TxDatoms(tx, t, db).value| == |tx.facts|
    ensures forall j | 0 <= j < |tx.facts| ::
      TxDatoms(tx, t, db).value[j] == Datom(tx.facts[j].entity.id, tx.facts[j].attribute.id, tx.facts[j].value, t, Addition)
  {
    forall j | 0 <= j < |tx.facts| ensures FactDatom(tx.facts[j], t, db).Ok? {
    }
  }
}
