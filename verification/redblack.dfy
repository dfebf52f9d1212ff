/** The in-memory backend (`RedBlackTreeSetStorage`): a persistent ordered
    set of keys, modelled as a strictly ascending sequence, with batch insert
    and a half-open range cursor that can be walked from both ends. */
module RedBlackSet {
  import opened Results
  import opened Bytes
  import opened SortedKeys
  import opened StorageErrors

  // ---------------------------------------------------------------------------
  // add_one
  // ---------------------------------------------------------------------------

  /** `add_one`: the key with a zero byte appended. */
  function AddOne(v: Key): (r: Key)
    ensures Below(v, r)
  {
    BelowProperExtension(v, [0]);
    v + [0]
  }

  /** Nothing lies strictly between `v` and `AddOne(v)`: it is the least key
      above `v`, so a scan resumed from it skips exactly `v`. */
  lemma {:induction false} AddOneIsLeast(v: Key, k: Key)
    ensures Below(v, k) <==> BelowOrEqual(AddOne(v), k)
    decreases |v|
  {
    if |v| == 0 {
      assert AddOne(v) == [0];
      if |k| > 1 && k[0] == 0 {
        assert Below(AddOne(v)[1..], k[1..]);
      }
    } else if |k| > 0 && v[0] == k[0] {
      AddOneIsLeast(v[1..], k[1..]);
      assert AddOne(v) == [v[0]] + AddOne(v[1..]);
      assert k == [k[0]] + k[1..];
    }
  }

  // ---------------------------------------------------------------------------
  // insert
  // ---------------------------------------------------------------------------

  /** Inserting one key into the set: nothing changes if it is present. */
  function InsertOne(s: seq<Key>, k: Key): (r: seq<Key>)
    requires Ordered(Forward, s)
    ensures Ordered(Forward, r)
    ensures Elems(r) == Elems(s) + {k}
  {
    if |s| == 0 then [k]
    else if s[0] == k then s
    else if Below(k, s[0]) then
      HeadAbove(s, k);
      ConsOrdered(Forward, k, s);
      [k] + s
    else
      ElemsTail(Forward, s);
      var rest := InsertOne(s[1..], k);
      BelowTotal(k, s[0]);
      HeadBelowAll(s, k, rest);
      ConsOrdered(Forward, s[0], rest);
      assert s == [s[0]] + s[1..];
      [s[0]] + rest
  }

  lemma HeadAbove(s: seq<Key>, k: Key)
    requires Ordered(Forward, s) && |s| > 0 && Below(k, s[0])
    ensures forall y | y in s :: Before(Forward, k, y)
  {
    forall y | y in s
      ensures Below(k, y)
    {
      HeadFirst(Forward, s, y);
      if y != s[0] {
        BelowTransitive(k, s[0], y);
      }
    }
  }

  lemma HeadBelowAll(s: seq<Key>, k: Key, rest: seq<Key>)
    requires Ordered(Forward, s) && |s| > 0 && Below(s[0], k)
    requires Elems(rest) == Elems(s[1..]) + {k}
    ensures forall y | y in rest :: Before(Forward, s[0], y)
  {
    forall y | y in rest
      ensures Below(s[0], y)
    {
      assert y in Elems(rest);
      if y != k {
        assert y in s[1..];
        var j :| 0 <= j < |s[1..]| && s[1..][j] == y;
        assert Before(Forward, s[0], s[j + 1]);
      }
    }
  }

  /** `insert`: the batch folded into the set one key at a time. */
  function InsertAll(s: seq<Key>, batch: seq<Key>): (r: seq<Key>)
    requires Ordered(Forward, s)
    ensures Ordered(Forward, r)
    ensures Elems(r) == Elems(s) + Elems(batch)
    decreases |batch|
  {
    if |batch| == 0 then s
    else
      assert batch == [batch[0]] + batch[1..];
      InsertAll(InsertOne(s, batch[0]), batch[1..])
  }

  /** Inserting the same batch twice leaves the set as the first insert did. */
  lemma InsertAllIdempotent(s: seq<Key>, batch: seq<Key>)
    requires Ordered(Forward, s)
    ensures InsertAll(InsertAll(s, batch), batch) == InsertAll(s, batch)
  {
    var once := InsertAll(s, batch);
    OrderedUnique(Forward, InsertAll(once, batch), once);
  }

  /** The order the keys of a batch arrive in does not matter. */
  lemma InsertAllOrderIrrelevant(s: seq<Key>, batch: seq<Key>, other: seq<Key>)
    requires Ordered(Forward, s) && Elems(batch) == Elems(other)
    ensures InsertAll(s, batch) == InsertAll(s, other)
  {
    OrderedUnique(Forward, InsertAll(s, batch), InsertAll(s, other));
  }

  /** Two batches inserted in either order give the same set. */
  lemma InsertAllCommutes(s: seq<Key>, x: seq<Key>, y: seq<Key>)
    requires Ordered(Forward, s)
    ensures InsertAll(InsertAll(s, x), y) == InsertAll(InsertAll(s, y), x)
  {
    OrderedUnique(Forward, InsertAll(InsertAll(s, x), y), InsertAll(InsertAll(s, y), x));
  }

  // ---------------------------------------------------------------------------
  // The range cursor
  // ---------------------------------------------------------------------------

  /** `RedBlackTreeSetRangeIter`: its own snapshot of the set, the bounds it
      was created with, and the last key yielded from each end. */
  datatype RangeIter = RangeIter(
    keys: seq<Key>,
    lastFront: Option<Key>,
    lastBack: Option<Key>,
    start: Key,
    end: Key)

  /** `range`: a cursor over a snapshot of the set, nothing yielded yet. */
  function Range(keys: seq<Key>, start: Key, end: Key): (it: RangeIter)
    ensures Remaining(it) == Filter(keys, start, end)
  {
    RangeIter(keys, None, None, start, end)
  }

  /** Where the next forward scan starts. */
  function Lower(it: RangeIter): Key
  {
    match it.lastFront
    case Some(x) => AddOne(x)
    case None => it.start
  }

  /** Where the next backward scan ends. */
  function Upper(it: RangeIter): Key
  {
    match it.lastBack
    case Some(x) => x
    case None => it.end
  }

  /** The keys the cursor has still to yield, in ascending order. */
  function Remaining(it: RangeIter): seq<Key>
  {
    Filter(it.keys, Lower(it), Upper(it))
  }

  /** A range whose end is below its start holds nothing. */
  lemma ReversedRangeEmpty(keys: seq<Key>, lo: Key, hi: Key)
    requires Below(hi, lo)
    ensures Filter(keys, lo, hi) == []
  {
    var f := Filter(keys, lo, hi);
    if |f| > 0 {
      assert f[0] in f;
      BelowOrEqualBelow(lo, f[0], hi);
      BelowAsymmetric(lo, hi);
    }
  }

  /** `next`: the least key of the snapshot in `Lower..Upper` (what the
      persistent set's own range iterator yields first), or nothing once the
      bounds have crossed. */
  function Next(it: RangeIter): (r: (Option<Result<Key, StorageError>>, RangeIter))
    ensures r.1.keys == it.keys
    ensures r.0.Some? ==> r.0.value.Ok? && r.0.value.value in it.keys
    ensures r.0.None? <==> forall k | k in it.keys :: !InRange(Lower(it), Upper(it), k)
  {
    var lo, hi := Lower(it), Upper(it);
    if Below(hi, lo) then
      ReversedRangeEmpty(it.keys, lo, hi);
      (None, it)
    else
      var candidates := Filter(it.keys, lo, hi);
      if |candidates| == 0 then (None, it)
      else
        assert candidates[0] in candidates;
        (Some(Ok(candidates[0])), it.(lastFront := Some(candidates[0])))
  }

  /** `next_back`: the greatest key of the snapshot in `Lower..Upper`. */
  function NextBack(it: RangeIter): (r: (Option<Result<Key, StorageError>>, RangeIter))
    ensures r.1.keys == it.keys
    ensures r.0.Some? ==> r.0.value.Ok? && r.0.value.value in it.keys
    ensures r.0.None? <==> forall k | k in it.keys :: !InRange(Lower(it), Upper(it), k)
  {
    var lo, hi := Lower(it), Upper(it);
    if Below(hi, lo) then
      ReversedRangeEmpty(it.keys, lo, hi);
      (None, it)
    else
      var candidates := Filter(it.keys, lo, hi);
      if |candidates| == 0 then (None, it)
      else
        var last := candidates[|candidates| - 1];
        assert last in candidates;
        (Some(Ok(last)), it.(lastBack := Some(last)))
  }

  /** `next` yields the first remaining key and removes exactly it. */
  lemma NextPopsFront(it: RangeIter)
    requires Ordered(Forward, it.keys)
    ensures Next(it).0.None? <==> Remaining(it) == []
    ensures Next(it).0.Some? ==>
      Remaining(it) != [] && Next(it).0.value == Ok(Remaining(it)[0]) &&
      Remaining(Next(it).1) == Remaining(it)[1..]
  {
    var lo, hi := Lower(it), Upper(it);
    var rem := Remaining(it);
    if Below(hi, lo) {
      ReversedRangeEmpty(it.keys, lo, hi);
    } else if |rem| > 0 {
      var x := rem[0];
      var after := Remaining(Next(it).1);
      assert Lower(Next(it).1) == AddOne(x) && Upper(Next(it).1) == hi;
      FilterOrdered(Forward, it.keys, lo, hi);
      FilterOrdered(Forward, it.keys, AddOne(x), hi);
      ElemsTail(Forward, rem);
      assert x in rem;
      forall k | k in it.keys
        ensures InRange(AddOne(x), hi, k) <==> (k in rem && k != x)
      {
        AddOneIsLeast(x, k);
        if InRange(AddOne(x), hi, k) {
          BelowIrreflexive(x);
          BelowOrEqualTransitive(lo, x, k);
        }
        if k in rem && k != x {
          HeadFirst(Forward, rem, k);
        }
      }
      assert Elems(after) == Elems(rem[1..]);
      OrderedUnique(Forward, after, rem[1..]);
    }
  }

  /** `next_back` yields the last remaining key and removes exactly it. */
  lemma NextBackPopsBack(it: RangeIter)
    requires Ordered(Forward, it.keys)
    ensures NextBack(it).0.None? <==> Remaining(it) == []
    ensures NextBack(it).0.Some? ==>
      Remaining(it) != [] && NextBack(it).0.value == Ok(Remaining(it)[|Remaining(it)| - 1]) &&
      Remaining(NextBack(it).1) == Remaining(it)[..|Remaining(it)| - 1]
  {
    var lo, hi := Lower(it), Upper(it);
    var rem := Remaining(it);
    if Below(hi, lo) {
      ReversedRangeEmpty(it.keys, lo, hi);
    } else if |rem| > 0 {
      var n := |rem| - 1;
      var x := rem[n];
      var after := Remaining(NextBack(it).1);
      assert Lower(NextBack(it).1) == lo && Upper(NextBack(it).1) == x;
      FilterOrdered(Forward, it.keys, lo, hi);
      FilterOrdered(Forward, it.keys, lo, x);
      ElemsInit(Forward, rem);
      assert x in rem;
      forall k | k in it.keys
        ensures InRange(lo, x, k) <==> (k in rem && k != x)
      {
        if InRange(lo, x, k) {
          BelowIrreflexive(x);
          BelowTransitive(k, x, hi);
        }
        if k in rem && k != x {
          LastLast(Forward, rem, k);
        }
      }
      assert Elems(after) == Elems(rem[..n]);
      OrderedUnique(Forward, after, rem[..n]);
    }
  }

  /** Calling `next` until it returns `None`. */
  function DrainForward(it: RangeIter): (out: seq<Key>)
    requires Ordered(Forward, it.keys)
    decreases |Remaining(it)|
  {
    NextPopsFront(it);
    match Next(it).0
    case None => []
    case Some(item) => [item.value] + DrainForward(Next(it).1)
  }

  /** Calling `next_back` until it returns `None`. */
  function DrainBackward(it: RangeIter): (out: seq<Key>)
    requires Ordered(Forward, it.keys)
    decreases |Remaining(it)|
  {
    NextBackPopsBack(it);
    match NextBack(it).0
    case None => []
    case Some(item) => [item.value] + DrainBackward(NextBack(it).1)
  }

  /** Walking forward yields exactly the remaining keys, in ascending order. */
  lemma {:induction false} DrainForwardIsRemaining(it: RangeIter)
    requires Ordered(Forward, it.keys)
    ensures DrainForward(it) == Remaining(it)
    decreases |Remaining(it)|
  {
    NextPopsFront(it);
    var rem := Remaining(it);
    if Next(it).0.Some? {
      var next := Next(it).1;
      DrainForwardIsRemaining(next);
      assert DrainForward(it) == [rem[0]] + DrainForward(next);
      HeadThenTail(rem);
    }
  }

  lemma HeadThenTail<T>(s: seq<T>)
    requires |s| > 0
    ensures [s[0]] + s[1..] == s
  {
  }

  /** Walking backward yields the same keys in descending order. */
  lemma {:induction false} DrainBackwardIsReversed(it: RangeIter)
    requires Ordered(Forward, it.keys)
    ensures DrainBackward(it) == Reverse(Remaining(it))
    decreases |Remaining(it)|
  {
    NextBackPopsBack(it);
    var rem := Remaining(it);
    if NextBack(it).0.Some? {
      var n := |rem| - 1;
      var next := NextBack(it).1;
      DrainBackwardIsReversed(next);
      assert DrainBackward(it) == [rem[n]] + DrainBackward(next);
      ReverseDropLast(rem);
    }
  }

  /** Reversing puts the last element first, before the rest reversed. */
  lemma ReverseDropLast<T>(s: seq<T>)
    requires |s| > 0
    ensures Reverse(s) == [s[|s| - 1]] + Reverse(s[..|s| - 1])
  {
    var r, t := Reverse(s), [s[|s| - 1]] + Reverse(s[..|s| - 1]);
    assert |r| == |t|;
    forall i | 0 <= i < |r|
      ensures r[i] == t[i]
    {
    }
  }

  /** A fresh cursor over `start..end` yields, walked forward, exactly the keys
      of the set in that range, ascending; walked backward, the same keys
      descending. */
  lemma RangeScan(keys: seq<Key>, start: Key, end: Key)
    requires Ordered(Forward, keys)
    ensures Ordered(Forward, DrainForward(Range(keys, start, end)))
    ensures forall k :: k in DrainForward(Range(keys, start, end)) <==> k in keys && InRange(start, end, k)
    ensures DrainBackward(Range(keys, start, end)) == Reverse(DrainForward(Range(keys, start, end)))
  {
    DrainForwardIsRemaining(Range(keys, start, end));
    DrainBackwardIsReversed(Range(keys, start, end));
    FilterOrdered(Forward, keys, start, end);
  }

  /** One call of `next` (`Forward`) or `next_back` (`Backward`). */
  function Step(it: RangeIter, dir: Direction): (r: (Option<Result<Key, StorageError>>, RangeIter))
    ensures r.1.keys == it.keys
  {
    if dir.Forward? then Next(it) else NextBack(it)
  }

  /** Either end yields a remaining key and removes exactly it, or yields
      nothing and changes nothing. */
  lemma StepRemovesYielded(it: RangeIter, dir: Direction)
    requires Ordered(Forward, it.keys)
    ensures var (item, next) := Step(it, dir);
      (item.None? ==> Remaining(next) == Remaining(it)) &&
      (item.Some? ==>
         (item.value.Ok? && item.value.value in Elems(Remaining(it)) &&
          Elems(Remaining(next)) == Elems(Remaining(it)) - {item.value.value}))
  {
    var rem := Remaining(it);
    FilterOrdered(Forward, it.keys, Lower(it), Upper(it));
    if dir.Forward? {
      NextPopsFront(it);
      if Next(it).0.Some? {
        ElemsTail(Forward, rem);
      }
    } else {
      NextBackPopsBack(it);
      if NextBack(it).0.Some? {
        ElemsInit(Forward, rem);
        assert rem[|rem| - 1] in rem;
      }
    }
  }

  /** Interleaving `next` and `next_back` calls, one per step. */
  function Walk(it: RangeIter, steps: seq<Direction>): (r: (seq<Key>, RangeIter))
    requires Ordered(Forward, it.keys)
    ensures r.1.keys == it.keys
    decreases |steps|
  {
    if |steps| == 0 then ([], it)
    else
      var (item, next) := Step(it, steps[0]);
      var (rest, last) := Walk(next, steps[1..]);
      match item
      case Some(Ok(x)) => ([x] + rest, last)
      case _ => (rest, last)
  }

  /** However the two ends are interleaved, no key is yielded twice, and
      every key in range is either yielded or still remaining. */
  lemma {:induction false} WalkYieldsEachOnce(it: RangeIter, steps: seq<Direction>)
    requires Ordered(Forward, it.keys)
    ensures Distinct(Walk(it, steps).0)
    ensures Elems(Walk(it, steps).0) !! Elems(Remaining(Walk(it, steps).1))
    ensures Elems(Walk(it, steps).0) + Elems(Remaining(Walk(it, steps).1)) == Elems(Remaining(it))
    decreases |steps|
  {
    if |steps| > 0 {
      var (item, next) := Step(it, steps[0]);
      StepRemovesYielded(it, steps[0]);
      WalkYieldsEachOnce(next, steps[1..]);
      var (rest, last) := Walk(next, steps[1..]);
      assert Walk(it, steps).1 == last;
      if item.Some? {
        var x := item.value.value;
        assert Walk(it, steps).0 == [x] + rest;
        assert x !in Elems(rest);
        DistinctCons(x, rest);
        assert Elems([x] + rest) == {x} + Elems(rest);
      } else {
        assert Walk(it, steps).0 == rest;
      }
    }
  }
}
