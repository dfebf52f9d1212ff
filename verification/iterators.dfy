/** Datom iterators over a range scan (`DatomIterator`, `SledDatomIter`) and
    the attribute iterator built on them (`AttributeIterator`). A key
    iterator is a snapshot of the keys a scan yields, each possibly a
    storage error; `next` takes from its front and `next_back` from its
    back. */
module DatomIterators {
  import opened Results
  import opened Bytes
  import opened Ids
  import opened SortedKeys
  import opened StorageErrors
  import opened Datoms
  import Serial

  /** What a key iterator yields. */
  type Item = Result<Key, StorageError>

  // ---------------------------------------------------------------------------
  // Taking from either end
  // ---------------------------------------------------------------------------

  function Head<T>(dir: Direction, s: seq<T>): T
    requires |s| > 0
  {
    if dir.Forward? then s[0] else s[|s| - 1]
  }

  function Rest<T>(dir: Direction, s: seq<T>): (r: seq<T>)
    requires |s| > 0
    ensures |r| == |s| - 1
  {
    if dir.Forward? then s[1..] else s[..|s| - 1]
  }

  /** Taking from the back of `s` is taking from the front of its reverse. */
  lemma RevEnds<T>(s: seq<T>)
    requires |s| > 0
    ensures Head(Backward, s) == Head(Forward, Reverse(s))
    ensures Reverse(Rest(Backward, s)) == Rest(Forward, Reverse(s))
  {
    var r := Reverse(s);
    var a, b := Reverse(Rest(Backward, s)), Rest(Forward, r);
    forall i | 0 <= i < |a| ensures a[i] == b[i] {
      assert b[i] == r[i + 1];
    }
  }

  // ---------------------------------------------------------------------------
  // DatomIterator
  // ---------------------------------------------------------------------------

  /** `deserialize_unknown` with the index dropped. */
  function Decode(k: Key): (r: Parse<Datom>)
    ensures r.Parsed? <==> Serial.DeserializeUnknown(k).Parsed?
    ensures r.Panic? <==> Serial.DeserializeUnknown(k).Panic?
  {
    var p :- Serial.DeserializeUnknown(k);
    Parsed(p.0)
  }

  /** A datom iterator: the keys still to be read and the snapshot's t. */
  datatype DatomIter = DatomIter(items: seq<Item>, t: u64)

  /** `next` (Forward) and `next_back` (Backward). `Invalid` is the source's
      `None`: either the keys are exhausted or a key failed to decode, and
      in the latter case that key has been consumed. Storage errors are
      skipped; datoms after the snapshot are skipped. */
  function Next(dir: Direction, it: DatomIter): (r: (Parse<Datom>, DatomIter))
    ensures r.1.t == it.t
    ensures |r.1.items| <= |it.items|
    ensures r.0.Parsed? ==> |r.1.items| < |it.items| && r.0.value.t <= it.t
    ensures |it.items| == 0 ==> r.0.Invalid?
    decreases |it.items|
  {
    if |it.items| == 0 then (Invalid, it)
    else
      var rest := DatomIter(Rest(dir, it.items), it.t);
      match Head(dir, it.items)
      case Err(_) => Next(dir, rest)
      case Ok(k) =>
        match Decode(k)
        case Invalid => (Invalid, rest)
        case Panic => (Panic, rest)
        case Parsed(d) => if d.t <= it.t then (Parsed(d), rest) else Next(dir, rest)
  }

  /** Everything a `for` loop over the iterator sees: it stops at the first
      `None`; a panic aborts it. */
  function Collect(dir: Direction, it: DatomIter): (r: Parse<seq<Datom>>)
    ensures !r.Invalid?
    decreases |it.items|
  {
    var (d, it') := Next(dir, it);
    match d
    case Invalid => Parsed([])
    case Panic => Panic
    case Parsed(x) =>
      var rest :- Collect(dir, it');
      Parsed([x] + rest)
  }

  // ---------------------------------------------------------------------------
  // What a forward scan yields, stated without the iterator
  // ---------------------------------------------------------------------------

  /** The keys among the items, in order; storage errors dropped. */
  function OkKeys(items: seq<Item>): (r: seq<Key>)
    ensures |r| <= |items|
  {
    if |items| == 0 then []
    else if items[0].Ok? then [items[0].value] + OkKeys(items[1..])
    else OkKeys(items[1..])
  }

  /** The keys decoded in order up to the first that fails to decode. */
  function DecodePrefix(keys: seq<Key>): (r: Parse<seq<Datom>>)
    ensures !r.Invalid?
  {
    if |keys| == 0 then Parsed([])
    else match Decode(keys[0])
      case Invalid => Parsed([])
      case Panic => Panic
      case Parsed(d) =>
        var rest :- DecodePrefix(keys[1..]);
        Parsed([d] + rest)
  }

  /** When every key decodes, the prefix is all of them, decoded in order. */
  lemma {:induction false} DecodeAll(keys: seq<Key>)
    requires forall k | k in keys :: Decode(k).Parsed?
    ensures DecodePrefix(keys).Parsed? && |DecodePrefix(keys).value| == |keys|
    ensures forall j | 0 <= j < |keys| :: DecodePrefix(keys).value[j] == Decode(keys[j]).value
  {
    if |keys| > 0 {
      DecodeAll(keys[1..]);
    }
  }

  /** When no item is an error, the keys are all the items, in order. */
  lemma {:induction false} OkKeysAllOk(items: seq<Item>)
    requires forall j | 0 <= j < |items| :: items[j].Ok?
    ensures |OkKeys(items)| == |items|
    ensures forall j | 0 <= j < |items| :: OkKeys(items)[j] == items[j].value
  {
    if |items| > 0 {
      OkKeysAllOk(items[1..]);
    }
  }

  /** Reversing error-free items reverses their keys. */
  lemma RevOkKeys(items: seq<Item>)
    requires forall j | 0 <= j < |items| :: items[j].Ok?
    ensures OkKeys(Reverse(items)) == Reverse(OkKeys(items))
  {
    var r := Reverse(items);
    OkKeysAllOk(items);
    OkKeysAllOk(r);
    var x, y := OkKeys(r), Reverse(OkKeys(items));
    assert |x| == |y|;
    forall j | 0 <= j < |x| ensures x[j] == y[j] {
      var k := |items| - 1 - j;
      assert r[j] == items[k];
      assert y[j] == OkKeys(items)[k];
    }
  }

  /** Every datom of `ds` comes before every later one under `before`. */
  predicate SortedBy(ds: seq<Datom>, before: (Datom, Datom) -> bool)
  {
    forall p, q | 0 <= p < q < |ds| :: before(ds[p], ds[q])
  }

  /** Leaving out the datoms after the snapshot keeps the order of the rest. */
  lemma {:induction false} AtOrBeforeSorted(ds: seq<Datom>, t: u64, before: (Datom, Datom) -> bool)
    requires SortedBy(ds, before)
    ensures SortedBy(AtOrBefore(ds, t), before)
  {
    if |ds| > 0 {
      var tail := ds[1..];
      assert SortedBy(tail, before) by {
        forall p, q | 0 <= p < q < |tail| ensures before(tail[p], tail[q]) {
          assert tail[p] == ds[p + 1] && tail[q] == ds[q + 1];
        }
      }
      AtOrBeforeSorted(tail, t, before);
      if ds[0].t <= t {
        var rest := AtOrBefore(tail, t);
        var r := [ds[0]] + rest;
        forall p, q | 0 <= p < q < |r| ensures before(r[p], r[q]) {
          if p == 0 {
            assert r[q] in tail;
            var m :| 0 <= m < |tail| && tail[m] == r[q];
            assert ds[m + 1] == r[q];
          } else {
            assert r[p] == rest[p - 1] && r[q] == rest[q - 1];
          }
        }
      }
    }
  }

  /** The datoms of the snapshot `t`. */
  function AtOrBefore(ds: seq<Datom>, t: u64): (r: seq<Datom>)
    ensures forall d | d in r :: d in ds && d.t <= t
    ensures forall d | d in ds && d.t <= t :: d in r
  {
    if |ds| == 0 then []
    else if ds[0].t <= t then [ds[0]] + AtOrBefore(ds[1..], t)
    else AtOrBefore(ds[1..], t)
  }

  /** The datoms a forward scan over `items` at snapshot `t` yields. */
  function Readable(items: seq<Item>, t: u64): Parse<seq<Datom>>
  {
    var ds :- DecodePrefix(OkKeys(items));
    Parsed(AtOrBefore(ds, t))
  }

  lemma CollectSkips(dir: Direction, it: DatomIter, rest: DatomIter)
    requires |it.items| > 0 && rest == DatomIter(Rest(dir, it.items), it.t)
    requires Next(dir, it) == Next(dir, rest)
    ensures Collect(dir, it) == Collect(dir, rest)
  {
  }

  /** A forward scan yields the decodable keys' datoms of the snapshot, in
      key order, up to the first undecodable key; storage errors are
      skipped. */
  lemma {:induction false} CollectForward(it: DatomIter)
    ensures Collect(Forward, it) == Readable(it.items, it.t)
    decreases |it.items|
  {
    if |it.items| > 0 {
      var rest := DatomIter(it.items[1..], it.t);
      CollectForward(rest);
      match it.items[0]
      case Err(_) =>
        CollectSkips(Forward, it, rest);
      case Ok(k) =>
        assert OkKeys(it.items) == [k] + OkKeys(rest.items);
        assert ([k] + OkKeys(rest.items))[1..] == OkKeys(rest.items);
        match Decode(k)
        case Invalid =>
        case Panic =>
        case Parsed(d) =>
          if d.t <= it.t {
          } else {
            CollectSkips(Forward, it, rest);
          }
    }
  }

  /** `next_back` mirrors `next` over the reversed key order. */
  lemma {:induction false} NextMirror(it: DatomIter)
    ensures Next(Backward, it).0 == Next(Forward, DatomIter(Reverse(it.items), it.t)).0
    ensures Reverse(Next(Backward, it).1.items) == Next(Forward, DatomIter(Reverse(it.items), it.t)).1.items
    ensures Next(Backward, it).1.t == it.t
    decreases |it.items|
  {
    if |it.items| > 0 {
      RevEnds(it.items);
      NextMirror(DatomIter(Rest(Backward, it.items), it.t));
    }
  }

  /** Reading from the back yields what reading the reversed keys from the
      front yields. */
  lemma {:induction false} CollectBackward(it: DatomIter)
    ensures Collect(Backward, it) == Collect(Forward, DatomIter(Reverse(it.items), it.t))
    decreases |it.items|
  {
    NextMirror(it);
    var r := Next(Backward, it);
    if r.0.Parsed? {
      CollectBackward(r.1);
    }
  }

  // ---------------------------------------------------------------------------
  // AttributeIterator
  // ---------------------------------------------------------------------------

  /** An attribute iterator: the datom iterator it drains from the back and
      the attributes it has already decided. */
  datatype AttributeIter = AttributeIter(iter: DatomIter, seen: set<ID>)

  /** `AttributeIterator::next`: the datoms are read from the back; the first
      datom met for an attribute decides it, and the attribute is yielded
      only when that datom is an Addition. */
  function AttributeNext(ai: AttributeIter): (r: (Parse<ID>, AttributeIter))
    ensures ai.seen <= r.1.seen
    ensures r.0.Parsed? ==> r.0.value !in ai.seen && r.0.value in r.1.seen
    ensures |r.1.iter.items| <= |ai.iter.items|
    decreases |ai.iter.items|
  {
    var (d, it) := Next(Backward, ai.iter);
    match d
    case Invalid => (Invalid, AttributeIter(it, ai.seen))
    case Panic => (Panic, AttributeIter(it, ai.seen))
    case Parsed(x) =>
      if x.attribute in ai.seen then AttributeNext(AttributeIter(it, ai.seen))
      else if x.datomType.Addition? then (Parsed(x.attribute), AttributeIter(it, ai.seen + {x.attribute}))
      else AttributeNext(AttributeIter(it, ai.seen + {x.attribute}))
  }

  /** Every attribute a `for` loop over the attribute iterator sees. */
  function CollectAttributes(ai: AttributeIter): (r: Parse<seq<ID>>)
    ensures !r.Invalid?
    decreases |ai.iter.items|
  {
    var (a, ai') := AttributeNext(ai);
    match a
    case Invalid => Parsed([])
    case Panic => Panic
    case Parsed(x) =>
      var rest :- CollectAttributes(ai');
      Parsed([x] + rest)
  }

  /** The attributes decided by `ds`, read in order, whose deciding datom is
      an Addition; `seen` holds the attributes already decided. */
  function FirstSeen(ds: seq<Datom>, seen: set<ID>): (r: seq<ID>)
  {
    if |ds| == 0 then []
    else if ds[0].attribute in seen then FirstSeen(ds[1..], seen)
    else if ds[0].datomType.Addition? then [ds[0].attribute] + FirstSeen(ds[1..], seen + {ds[0].attribute})
    else FirstSeen(ds[1..], seen + {ds[0].attribute})
  }

  /** The datom that decides attribute `a`: the first one in `ds` with it. */
  predicate Decides(ds: seq<Datom>, i: int, a: ID)
  {
    0 <= i < |ds| && ds[i].attribute == a && forall j | 0 <= j < i :: ds[j].attribute != a
  }

  /** An attribute is reported exactly when it was not decided before and
      the first datom with it is an Addition; none is reported twice. */
  lemma {:induction false} FirstSeenMeans(ds: seq<Datom>, seen: set<ID>, a: ID)
    ensures a in FirstSeen(ds, seen) <==>
      a !in seen && exists i :: Decides(ds, i, a) && ds[i].datomType.Addition?
    ensures forall x | x in FirstSeen(ds, seen) :: x !in seen
  {
    if |ds| > 0 {
      var b := ds[0].attribute;
      var seen' := if b in seen then seen else seen + {b};
      FirstSeenMeans(ds[1..], seen', a);
      var tail := ds[1..];
      if a !in seen && a != b {
        forall i | Decides(tail, i, a) ensures Decides(ds, i + 1, a) {
          assert forall j | 0 <= j < i + 1 :: ds[j].attribute != a by {
            forall j | 0 <= j < i + 1 ensures ds[j].attribute != a {
              if j > 0 { assert ds[j] == tail[j - 1]; }
            }
          }
        }
        forall i | Decides(ds, i, a) ensures Decides(tail, i - 1, a) {
          assert i > 0;
        }
      }
      if a == b && a !in seen {
        assert Decides(ds, 0, a);
        assert forall i | Decides(ds, i, a) :: i == 0 || ds[0].attribute != a;
      }
      if a in seen || a == b {
        assert a in seen';
      }
      forall x | x in FirstSeen(ds, seen) ensures x !in seen {
        if x != b || b in seen {
          assert x in FirstSeen(tail, seen');
        }
      }
    }
  }

  lemma {:induction false} FirstSeenDistinct(ds: seq<Datom>, seen: set<ID>)
    ensures var r := FirstSeen(ds, seen); forall i, j | 0 <= i < j < |r| :: r[i] != r[j]
  {
    if |ds| > 0 {
      var b := ds[0].attribute;
      var seen' := if b in seen then seen else seen + {b};
      FirstSeenDistinct(ds[1..], seen');
      FirstSeenMeans(ds[1..], seen', b);
    }
  }

  lemma AttributeNextSkips(ai: AttributeIter, next: AttributeIter)
    requires AttributeNext(ai) == AttributeNext(next)
    requires |next.iter.items| < |ai.iter.items|
    ensures CollectAttributes(ai) == CollectAttributes(next)
  {
  }

  /** Draining the attribute iterator yields `FirstSeen` of the datoms the
      backward datom scan yields. */
  lemma {:induction false} CollectAttributesIsFirstSeen(ai: AttributeIter)
    ensures CollectAttributes(ai) == match Collect(Backward, ai.iter)
      case Parsed(ds) => Parsed(FirstSeen(ds, ai.seen))
      case _ => Panic
    decreases |ai.iter.items|
  {
    var (d, it) := Next(Backward, ai.iter);
    match d
    case Invalid =>
    case Panic =>
    case Parsed(x) =>
      var seen' := if x.attribute in ai.seen then ai.seen else ai.seen + {x.attribute};
      var next := AttributeIter(it, seen');
      CollectAttributesIsFirstSeen(next);
      if x.attribute in ai.seen || !x.datomType.Addition? {
        AttributeNextSkips(ai, next);
      }
  }
}
