/** The add/remove fold the read path runs over a run of datoms in key
    order: an Addition inserts its key, a Retraction removes it. Within one
    entity, attribute and value the keys are ordered by t, so the fold
    leaves exactly the keys whose latest datom is an Addition. */
module LiveSets {
  import opened Ids
  import opened Values
  import opened Datoms

  /** The fold from the front: the set after every datom of `ds`. */
  function Live<T(==)>(ds: seq<Datom>, key: Datom -> T): set<T>
  {
    if |ds| == 0 then {}
    else
      var before := Live(ds[..|ds| - 1], key);
      var d := ds[|ds| - 1];
      if d.datomType.Retraction? then before - {key(d)} else before + {key(d)}
  }

  /** `ds[i]` is the last datom of `ds` with key `x`. */
  predicate LastWith<T(==)>(ds: seq<Datom>, key: Datom -> T, x: T, i: int)
  {
    0 <= i < |ds| && key(ds[i]) == x && forall j | i < j < |ds| :: key(ds[j]) != x
  }

  /** A key survives the fold exactly when its last datom is an Addition. */
  lemma {:induction false} LiveMeans<T>(ds: seq<Datom>, key: Datom -> T, x: T)
    ensures x in Live(ds, key) <==> exists i :: LastWith(ds, key, x, i) && ds[i].datomType.Addition?
  {
    if |ds| > 0 {
      var n := |ds| - 1;
      var init := ds[..n];
      LiveMeans(init, key, x);
      if key(ds[n]) == x {
        assert LastWith(ds, key, x, n);
        assert forall i | LastWith(ds, key, x, i) :: i == n;
      } else {
        forall i | LastWith(init, key, x, i) ensures LastWith(ds, key, x, i) {
          assert ds[i] == init[i];
          forall j | i < j < |ds| ensures key(ds[j]) != x {
            if j < n { assert ds[j] == init[j]; }
          }
        }
        forall i | LastWith(ds, key, x, i) ensures LastWith(init, key, x, i) {
          assert i < n;
          assert ds[i] == init[i];
          forall j | i < j < |init| ensures key(init[j]) != x {
            assert init[j] == ds[j];
          }
        }
      }
    }
  }

  /** Every live key is the key of some Addition in `ds`. */
  lemma LiveFromAdditions<T>(ds: seq<Datom>, key: Datom -> T, x: T)
    requires x in Live(ds, key)
    ensures exists i :: 0 <= i < |ds| && key(ds[i]) == x && ds[i].datomType.Addition?
  {
    LiveMeans(ds, key, x);
  }

  /** Datoms of `ds` with the same key appear in `Earlier` order. */
  predicate KeyedInOrder<T(==)>(ds: seq<Datom>, key: Datom -> T)
  {
    forall p, q | 0 <= p < q < |ds| && key(ds[p]) == key(ds[q]) :: Earlier(ds[p], ds[q])
  }

  /** Some Addition with key `x` is later than every Retraction with key `x`. */
  predicate Asserted<T(==)>(ds: seq<Datom>, key: Datom -> T, x: T)
  {
    exists w | w in ds :: key(w) == x && w.datomType.Addition? &&
      forall r | r in ds && key(r) == x && r.datomType.Retraction? :: r.t < w.t
  }

  lemma {:induction false} LastExists<T>(ds: seq<Datom>, key: Datom -> T, x: T, q: int)
    requires 0 <= q < |ds| && key(ds[q]) == x
    ensures exists i :: LastWith(ds, key, x, i)
    decreases |ds| - q
  {
    if forall j | q < j < |ds| :: key(ds[j]) != x {
      assert LastWith(ds, key, x, q);
    } else {
      var j :| q < j < |ds| && key(ds[j]) == x;
      LastExists(ds, key, x, j);
    }
  }

  /** When datoms of one key come in t order, a key survives the fold
      exactly when some Addition of it is not retracted at the same or a
      later t. */
  lemma LiveByTime<T>(ds: seq<Datom>, key: Datom -> T, x: T)
    requires KeyedInOrder(ds, key)
    ensures x in Live(ds, key) <==> Asserted(ds, key, x)
  {
    LiveMeans(ds, key, x);
    if x in Live(ds, key) {
      var i :| LastWith(ds, key, x, i) && ds[i].datomType.Addition?;
      forall r | r in ds && key(r) == x && r.datomType.Retraction? ensures r.t < ds[i].t {
        var p :| 0 <= p < |ds| && ds[p] == r;
        assert Earlier(ds[p], ds[i]);
      }
      assert ds[i] in ds;
    }
    if Asserted(ds, key, x) {
      var w :| w in ds && key(w) == x && w.datomType.Addition? &&
        forall r | r in ds && key(r) == x && r.datomType.Retraction? :: r.t < w.t;
      var q :| 0 <= q < |ds| && ds[q] == w;
      LastExists(ds, key, x, q);
      var i :| LastWith(ds, key, x, i);
      assert ds[i] in ds;
      assert q <= i;
      if q < i {
        assert Earlier(ds[q], ds[i]);
      }
    }
  }

  function ValueOf(d: Datom): Value { d.value }

  function EntityOf(d: Datom): ID { d.entity }

  function AttributeValueOf(d: Datom): (ID, Value) { (d.attribute, d.value) }
}
