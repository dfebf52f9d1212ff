/** `MergeIters`: a k-way merge of ascending sources, each pulled at most one
    key ahead into a map of pending keys, from the front (`next`) or from
    the back (`next_back`). Every output is paired with the index of the
    source it came from.

    The map is keyed by the key alone, so when two sources hold the same
    pending key the later insert replaces the earlier one and that source is
    never pulled again. `AsWritten*` models this; `Merged*` is the merge
    the design evidently intends (every source whose next key is the
    smallest advances), and the tiered backend is modelled on it. */
module MergeIters {
  import opened Results
  import opened Bytes
  import opened SortedKeys

  // ---------------------------------------------------------------------------
  // Sources
  // ---------------------------------------------------------------------------

  /** Every source is an ascending run of keys. */
  predicate AllAscending(srcs: seq<seq<Key>>)
  {
    forall i | 0 <= i < |srcs| :: Ordered(Forward, srcs[i])
  }

  /** Every key held by any source. */
  function Items(srcs: seq<seq<Key>>): set<Key>
  {
    set i, k | 0 <= i < |srcs| && k in srcs[i] :: k
  }

  /** No key is held by two sources. */
  predicate Disjoint(srcs: seq<seq<Key>>)
  {
    forall i, j, x | 0 <= i < |srcs| && 0 <= j < |srcs| && i != j && x in srcs[i] :: x !in srcs[j]
  }

  function TotalLen(srcs: seq<seq<Key>>): nat
  {
    if |srcs| == 0 then 0 else |srcs[0]| + TotalLen(srcs[1..])
  }

  lemma {:induction false} TotalLenUpdate(srcs: seq<seq<Key>>, i: nat, s: seq<Key>)
    requires i < |srcs|
    ensures TotalLen(srcs[i := s]) == TotalLen(srcs) - |srcs[i]| + |s|
  {
    if i == 0 {
      assert srcs[i := s][1..] == srcs[1..];
    } else {
      TotalLenUpdate(srcs[1..], i - 1, s);
      assert srcs[i := s][1..] == srcs[1..][i - 1 := s];
    }
  }

  lemma {:induction false} TotalLenShrinks(a: seq<seq<Key>>, b: seq<seq<Key>>, i: nat)
    requires |a| == |b| && i < |a|
    requires forall j | 0 <= j < |a| :: |a[j]| <= |b[j]|
    requires |a[i]| < |b[i]|
    ensures TotalLen(a) < TotalLen(b)
  {
    if i == 0 {
      TotalLenMono(a[1..], b[1..]);
    } else {
      TotalLenShrinks(a[1..], b[1..], i - 1);
    }
  }

  lemma {:induction false} TotalLenMono(a: seq<seq<Key>>, b: seq<seq<Key>>)
    requires |a| == |b|
    requires forall j | 0 <= j < |a| :: |a[j]| <= |b[j]|
    ensures TotalLen(a) <= TotalLen(b)
  {
    if |a| > 0 {
      TotalLenMono(a[1..], b[1..]);
    }
  }

  /** One `next` (`Forward`) or `next_back` (`Backward`) on a source. */
  function Pull(dir: Direction, s: seq<Key>): (r: (Option<Key>, seq<Key>))
    ensures |s| == 0 ==> r == (None, s)
    ensures |s| > 0 ==> r.0.Some? && |r.1| == |s| - 1
  {
    if |s| == 0 then (None, s)
    else if dir.Forward? then (Some(s[0]), s[1..])
    else (Some(s[|s| - 1]), s[..|s| - 1])
  }

  /** A pull from an ascending source takes the key that comes first in scan
      order and leaves the others, all after it. */
  lemma PullFirst(dir: Direction, s: seq<Key>)
    requires Ordered(Forward, s) && |s| > 0
    ensures Pull(dir, s).0.value in s
    ensures Ordered(Forward, Pull(dir, s).1)
    ensures Elems(Pull(dir, s).1) == Elems(s) - {Pull(dir, s).0.value}
    ensures forall x | x in s :: x == Pull(dir, s).0.value || Before(dir, Pull(dir, s).0.value, x)
  {
    if dir.Forward? {
      ElemsTail(Forward, s);
      forall x | x in s
        ensures x == s[0] || Before(dir, s[0], x)
      {
        HeadFirst(Forward, s, x);
      }
    } else {
      ElemsInit(Forward, s);
      assert s[|s| - 1] in s;
      forall x | x in s
        ensures x == s[|s| - 1] || Before(dir, s[|s| - 1], x)
      {
        LastLast(Forward, s, x);
      }
    }
  }

  // ---------------------------------------------------------------------------
  // Outputs and pending entries
  // ---------------------------------------------------------------------------

  /** A key and the index of the source it was pulled from: both an entry of
      the pending map and an output of the merge. */
  datatype Entry = Entry(key: Key, from: nat)

  function Keys(s: seq<Entry>): (r: seq<Key>)
    ensures |r| == |s|
    ensures forall j | 0 <= j < |s| :: r[j] == s[j].key
  {
    if |s| == 0 then [] else [s[0].key] + Keys(s[1..])
  }

  lemma KeysCons(e: Entry, s: seq<Entry>)
    ensures Keys([e] + s) == [e.key] + Keys(s)
  {
  }

  lemma KeysTail(s: seq<Entry>)
    requires |s| > 0
    ensures Keys(s[1..]) == Keys(s)[1..]
  {
  }

  function PendingKeys(p: seq<Entry>): set<Key>
  {
    set e | e in p :: e.key
  }

  lemma PendingKeysAreKeys(p: seq<Entry>)
    ensures PendingKeys(p) == Elems(Keys(p))
  {
    forall k | k in Elems(Keys(p))
      ensures k in PendingKeys(p)
    {
      var j :| 0 <= j < |p| && Keys(p)[j] == k;
      assert p[j] in p;
    }
  }

  // ---------------------------------------------------------------------------
  // The intended merge
  // ---------------------------------------------------------------------------

  function First(dir: Direction, s: seq<Key>): Key
    requires |s| > 0
  {
    Pull(dir, s).0.value
  }

  /** The scan-order least first key among `srcs[i..]`, with the least index
      of a source that holds it. */
  function Best(dir: Direction, srcs: seq<seq<Key>>, i: nat): Option<Entry>
    requires i <= |srcs|
    decreases |srcs| - i
  {
    if i == |srcs| then None
    else
      var later := Best(dir, srcs, i + 1);
      if srcs[i] == [] then later
      else if later.Some? && Before(dir, later.value.key, First(dir, srcs[i])) then later
      else Some(Entry(First(dir, srcs[i]), i))
  }

  lemma {:induction false} BestIsLeast(dir: Direction, srcs: seq<seq<Key>>, i: nat)
    requires i <= |srcs| && AllAscending(srcs)
    ensures Best(dir, srcs, i).None? <==> forall j | i <= j < |srcs| :: srcs[j] == []
    ensures Best(dir, srcs, i).Some? ==>
      var b := Best(dir, srcs, i).value;
      i <= b.from < |srcs| && srcs[b.from] != [] && b.key == First(dir, srcs[b.from]) &&
      forall j, x | i <= j < |srcs| && x in srcs[j] :: x == b.key || Before(dir, b.key, x)
    decreases |srcs| - i
  {
    if i < |srcs| {
      BestIsLeast(dir, srcs, i + 1);
      var later := Best(dir, srcs, i + 1);
      if srcs[i] != [] {
        PullFirst(dir, srcs[i]);
        var h := First(dir, srcs[i]);
        var b := Best(dir, srcs, i).value;
        if later.Some? {
          BeforeTotal(dir, later.value.key, h);
        }
        forall j, x | i <= j < |srcs| && x in srcs[j]
          ensures x == b.key || Before(dir, b.key, x)
        {
          if j == i {
            if b.key != h && x != h {
              BeforeTransitive(dir, b.key, h, x);
            }
          } else {
            if later.value.key != b.key && x != later.value.key {
              BeforeTransitive(dir, b.key, later.value.key, x);
            }
          }
        }
      }
    }
  }

  /** What source `s` keeps when the key `k` is yielded: its first key, if
      that is `k`. */
  function DropIfFirst(dir: Direction, s: seq<Key>, k: Key): seq<Key>
  {
    if |s| > 0 && First(dir, s) == k then Pull(dir, s).1 else s
  }

  /** Every source whose first key is `k` gives it up. */
  function DropFirst(dir: Direction, srcs: seq<seq<Key>>, k: Key): (r: seq<seq<Key>>)
    ensures |r| == |srcs|
    ensures forall j | 0 <= j < |srcs| :: r[j] == DropIfFirst(dir, srcs[j], k)
  {
    seq(|srcs|, j requires 0 <= j < |srcs| => DropIfFirst(dir, srcs[j], k))
  }

  /** A source none of whose keys comes before `k` loses exactly `k`. */
  lemma DropIfFirstRemoves(dir: Direction, s: seq<Key>, k: Key)
    requires Ordered(Forward, s)
    requires forall x | x in s :: x == k || Before(dir, k, x)
    ensures Ordered(Forward, DropIfFirst(dir, s, k))
    ensures Elems(DropIfFirst(dir, s, k)) == Elems(s) - {k}
    ensures |DropIfFirst(dir, s, k)| <= |s|
  {
    if |s| > 0 {
      PullFirst(dir, s);
      var h := First(dir, s);
      if h != k {
        assert Before(dir, k, h);
        BeforeAsymmetric(dir, k, h);
        assert k !in s;
      }
    }
  }

  /** Removing `k` from every source removes it from the union. */
  lemma ItemsPointwise(a: seq<seq<Key>>, b: seq<seq<Key>>, k: Key)
    requires |a| == |b|
    requires forall j | 0 <= j < |a| :: Elems(a[j]) == Elems(b[j]) - {k}
    ensures Items(a) == Items(b) - {k}
  {
    forall x | x in Items(a)
      ensures x in Items(b) - {k}
    {
      var j :| 0 <= j < |a| && x in a[j];
      assert x in Elems(a[j]);
      assert x in b[j];
    }
    forall x | x in Items(b) - {k}
      ensures x in Items(a)
    {
      var j :| 0 <= j < |b| && x in b[j];
      assert x in Elems(a[j]);
      assert x in a[j];
    }
  }

  lemma DropFirstRemovesLeast(dir: Direction, srcs: seq<seq<Key>>, b: Entry)
    requires AllAscending(srcs) && b.from < |srcs| && srcs[b.from] != []
    requires b.key == First(dir, srcs[b.from])
    requires forall j, x | 0 <= j < |srcs| && x in srcs[j] :: x == b.key || Before(dir, b.key, x)
    ensures AllAscending(DropFirst(dir, srcs, b.key))
    ensures Items(DropFirst(dir, srcs, b.key)) == Items(srcs) - {b.key}
    ensures forall j, x | 0 <= j < |srcs| && x in DropFirst(dir, srcs, b.key)[j] :: x in srcs[j]
    ensures TotalLen(DropFirst(dir, srcs, b.key)) < TotalLen(srcs)
  {
    var r := DropFirst(dir, srcs, b.key);
    forall j | 0 <= j < |srcs|
      ensures Ordered(Forward, r[j]) && Elems(r[j]) == Elems(srcs[j]) - {b.key} && |r[j]| <= |srcs[j]|
    {
      DropIfFirstRemoves(dir, srcs[j], b.key);
    }
    forall j, x | 0 <= j < |srcs| && x in r[j]
      ensures x in srcs[j]
    {
      assert x in Elems(r[j]);
    }
    ItemsPointwise(r, srcs, b.key);
    TotalLenShrinks(r, srcs, b.from);
  }

  /** One step of the intended merge: the scan-order least key over all
      sources, tagged with the least index of a source holding it. */
  function MergedNext(dir: Direction, srcs: seq<seq<Key>>): (r: (Option<Entry>, seq<seq<Key>>))
    requires AllAscending(srcs)
  {
    match Best(dir, srcs, 0)
    case None => (None, srcs)
    case Some(b) => (Some(b), DropFirst(dir, srcs, b.key))
  }

  /** The intended merge run to exhaustion: strictly ordered in scan order,
      every key of every source exactly once, each tagged with a source
      that holds it. */
  function Merged(dir: Direction, srcs: seq<seq<Key>>): (out: seq<Entry>)
    requires AllAscending(srcs)
    ensures Ordered(dir, Keys(out))
    ensures Elems(Keys(out)) == Items(srcs)
    ensures forall j | 0 <= j < |out| :: out[j].from < |srcs| && out[j].key in srcs[out[j].from]
    decreases TotalLen(srcs)
  {
    BestIsLeast(dir, srcs, 0);
    match Best(dir, srcs, 0)
    case None =>
      assert Items(srcs) == {};
      []
    case Some(b) =>
      assert First(dir, srcs[b.from]) in srcs[b.from] by {
        PullFirst(dir, srcs[b.from]);
      }
      DropFirstRemovesLeast(dir, srcs, b);
      var rest := Merged(dir, DropFirst(dir, srcs, b.key));
      KeysCons(b, rest);
      ConsOrdered(dir, b.key, Keys(rest));
      [b] + rest
  }

  /** Merging from the back gives the forward merge's keys in reverse. */
  lemma MergedBackwardIsReverse(srcs: seq<seq<Key>>)
    requires AllAscending(srcs)
    ensures Keys(Merged(Backward, srcs)) == Reverse(Keys(Merged(Forward, srcs)))
  {
    ReverseOrdered(Keys(Merged(Forward, srcs)));
    OrderedUnique(Backward, Keys(Merged(Backward, srcs)), Reverse(Keys(Merged(Forward, srcs))));
  }

  lemma MergedUnfold(dir: Direction, srcs: seq<seq<Key>>)
    requires AllAscending(srcs)
    ensures Best(dir, srcs, 0).None? ==> Merged(dir, srcs) == []
    ensures Best(dir, srcs, 0).Some? ==>
      Merged(dir, srcs) == [Best(dir, srcs, 0).value] + Merged(dir, DropFirst(dir, srcs, Best(dir, srcs, 0).value.key))
  {
  }

  // ---------------------------------------------------------------------------
  // The merge as written
  // ---------------------------------------------------------------------------

  /** `BTreeMap::insert` on the pending map: an entry with the same key is
      replaced. The map is kept in scan order, so its head is what
      `pop_first` (forward) or `pop_last` (backward) removes. */
  function InsertReplacing(dir: Direction, p: seq<Entry>, e: Entry): (r: seq<Entry>)
    ensures forall x | x in r :: x in p || x == e
    ensures |r| <= |p| + 1
  {
    if |p| == 0 then [e]
    else if p[0].key == e.key then [e] + p[1..]
    else if Before(dir, e.key, p[0].key) then [e] + p
    else [p[0]] + InsertReplacing(dir, p[1..], e)
  }

  lemma KeyIn(s: seq<Entry>, w: Entry)
    requires w in s
    ensures w.key in Keys(s)
  {
    var j :| 0 <= j < |s| && s[j] == w;
    assert Keys(s)[j] == w.key;
  }

  /** With no pending entry of the same key, nothing is replaced: the entry
      is added and the others stay. */
  lemma {:induction false} InsertFreshMembers(dir: Direction, p: seq<Entry>, e: Entry)
    requires e.key !in PendingKeys(p)
    ensures forall x :: x in InsertReplacing(dir, p, e) <==> x in p || x == e
    ensures |InsertReplacing(dir, p, e)| == |p| + 1
  {
    if |p| > 0 {
      assert p[0] in p;
      assert p == [p[0]] + p[1..];
      if !Before(dir, e.key, p[0].key) {
        assert PendingKeys(p[1..]) <= PendingKeys(p);
        InsertFreshMembers(dir, p[1..], e);
      }
    }
  }

  /** With no pending entry of the same key, the insert keeps the map in
      scan order. */
  lemma {:induction false} InsertFreshOrdered(dir: Direction, p: seq<Entry>, e: Entry)
    requires Ordered(dir, Keys(p)) && e.key !in PendingKeys(p)
    ensures Ordered(dir, Keys(InsertReplacing(dir, p, e)))
  {
    if |p| > 0 {
      assert p[0] in p;
      if Before(dir, e.key, p[0].key) {
        forall y | y in Keys(p)
          ensures Before(dir, e.key, y)
        {
          HeadFirst(dir, Keys(p), y);
          if y != p[0].key {
            BeforeTransitive(dir, e.key, p[0].key, y);
          }
        }
        KeysCons(e, p);
        ConsOrdered(dir, e.key, Keys(p));
      } else {
        KeysTail(p);
        ElemsTail(dir, Keys(p));
        assert PendingKeys(p[1..]) <= PendingKeys(p);
        InsertFreshOrdered(dir, p[1..], e);
        InsertFreshMembers(dir, p[1..], e);
        var rest := InsertReplacing(dir, p[1..], e);
        BeforeTotal(dir, e.key, p[0].key);
        forall y | y in Keys(rest)
          ensures Before(dir, p[0].key, y)
        {
          var j :| 0 <= j < |rest| && Keys(rest)[j] == y;
          assert rest[j] in rest;
          if rest[j] != e {
            KeyIn(p[1..], rest[j]);
            assert y in Elems(Keys(p)[1..]);
            HeadFirst(dir, Keys(p), y);
          }
        }
        KeysCons(p[0], rest);
        ConsOrdered(dir, p[0].key, Keys(rest));
      }
    }
  }

  lemma InsertFresh(dir: Direction, p: seq<Entry>, e: Entry)
    requires Ordered(dir, Keys(p)) && e.key !in PendingKeys(p)
    ensures Ordered(dir, Keys(InsertReplacing(dir, p, e)))
    ensures forall x :: x in InsertReplacing(dir, p, e) <==> x in p || x == e
    ensures PendingKeys(InsertReplacing(dir, p, e)) == PendingKeys(p) + {e.key}
  {
    InsertFreshOrdered(dir, p, e);
    InsertFreshMembers(dir, p, e);
  }

  /** Every pending entry names an existing source. */
  predicate Bounded(srcs: seq<seq<Key>>, p: seq<Entry>)
  {
    forall e | e in p :: e.from < |srcs|
  }

  /** The lazy first fill of a map: one pull from every source, in index
      order, each inserted under its index. */
  function Fill(dir: Direction, srcs: seq<seq<Key>>, i: nat, p: seq<Entry>): (r: (seq<seq<Key>>, seq<Entry>))
    requires i <= |srcs| && Bounded(srcs, p)
    ensures |r.0| == |srcs| && Bounded(r.0, r.1)
    ensures |r.1| + TotalLen(r.0) <= |p| + TotalLen(srcs)
    decreases |srcs| - i
  {
    if i == |srcs| then (srcs, p)
    else
      match Pull(dir, srcs[i]).0
      case None => Fill(dir, srcs, i + 1, p)
      case Some(k) =>
        var rest := Pull(dir, srcs[i]).1;
        TotalLenUpdate(srcs, i, rest);
        Fill(dir, srcs[i := rest], i + 1, InsertReplacing(dir, p, Entry(k, i)))
  }

  /** Pop the head of the map, pull once more from the source it came from
      and insert that key under the same index. */
  function Step(dir: Direction, srcs: seq<seq<Key>>, p: seq<Entry>): (r: (Option<Entry>, seq<seq<Key>>, seq<Entry>))
    requires Bounded(srcs, p)
    ensures |r.1| == |srcs| && Bounded(r.1, r.2)
    ensures r.0.None? <==> |p| == 0
    ensures r.0.Some? ==> |r.2| + TotalLen(r.1) < |p| + TotalLen(srcs)
  {
    if |p| == 0 then (None, srcs, p)
    else
      var e := p[0];
      assert e in p;
      var rest := Pull(dir, srcs[e.from]).1;
      TotalLenUpdate(srcs, e.from, rest);
      match Pull(dir, srcs[e.from]).0
      case None => (Some(e), srcs[e.from := rest], p[1..])
      case Some(k) => (Some(e), srcs[e.from := rest], InsertReplacing(dir, p[1..], Entry(k, e.from)))
  }

  /** `MergeIters`: the sources, and the front and back maps, each filled on
      first use. */
  datatype MergeIter = MergeIter(sources: seq<seq<Key>>, frontMap: Option<seq<Entry>>, backMap: Option<seq<Entry>>)

  /** `MergeIters::new`. */
  function New(sources: seq<seq<Key>>): (m: MergeIter)
    ensures WellFormed(m)
  {
    MergeIter(sources, None, None)
  }

  predicate WellFormed(m: MergeIter)
  {
    (m.frontMap.Some? ==> Bounded(m.sources, m.frontMap.value)) &&
    (m.backMap.Some? ==> Bounded(m.sources, m.backMap.value))
  }

  function MapOf(dir: Direction, m: MergeIter): Option<seq<Entry>>
  {
    if dir.Forward? then m.frontMap else m.backMap
  }

  /** `next` (`Forward`) and `next_back` (`Backward`). */
  function NextIn(dir: Direction, m: MergeIter): (r: (Option<Entry>, MergeIter))
    requires WellFormed(m)
    ensures WellFormed(r.1) && |r.1.sources| == |m.sources|
    ensures MapOf(dir, r.1).Some?
  {
    var (srcs, p) := match MapOf(dir, m)
      case Some(p) => (m.sources, p)
      case None => Fill(dir, m.sources, 0, []);
    var (out, srcs', p') := Step(dir, srcs, p);
    if dir.Forward? then (out, MergeIter(srcs', Some(p'), m.backMap))
    else (out, MergeIter(srcs', m.frontMap, Some(p')))
  }

  /** Repeated `Step`s until the map is empty. */
  function Drain(dir: Direction, srcs: seq<seq<Key>>, p: seq<Entry>): seq<Entry>
    requires Bounded(srcs, p)
    decreases |p| + TotalLen(srcs)
  {
    var (out, srcs', p') := Step(dir, srcs, p);
    match out
    case None => []
    case Some(e) => [e] + Drain(dir, srcs', p')
  }

  /** A fresh `MergeIters` iterated in one direction until it returns `None`. */
  function AsWritten(dir: Direction, sources: seq<seq<Key>>): seq<Entry>
  {
    var (srcs, p) := Fill(dir, sources, 0, []);
    Drain(dir, srcs, p)
  }

  /** Calling `NextIn` until `None` is `AsWritten`. */
  function Collect(dir: Direction, m: MergeIter): seq<Entry>
    requires WellFormed(m) && MapOf(dir, m).Some?
    decreases |MapOf(dir, m).value| + TotalLen(m.sources)
  {
    var (out, m') := NextIn(dir, m);
    match out
    case None => []
    case Some(e) => [e] + Collect(dir, m')
  }

  lemma {:induction false} CollectIsDrain(dir: Direction, m: MergeIter)
    requires WellFormed(m) && MapOf(dir, m).Some?
    ensures Collect(dir, m) == Drain(dir, m.sources, MapOf(dir, m).value)
    decreases |MapOf(dir, m).value| + TotalLen(m.sources)
  {
    var (out, m') := NextIn(dir, m);
    if out.Some? {
      CollectIsDrain(dir, m');
    }
  }

  /** The first call fills the map; every later call steps it. */
  lemma IterateNew(dir: Direction, sources: seq<seq<Key>>)
    ensures var (out, m) := NextIn(dir, New(sources));
      [] + (if out.Some? then [out.value] + Collect(dir, m) else []) == AsWritten(dir, sources)
  {
    var (out, m) := NextIn(dir, New(sources));
    if out.Some? {
      CollectIsDrain(dir, m);
    }
  }

  // ---------------------------------------------------------------------------
  // Disjoint sources: the merge as written is the intended merge
  // ---------------------------------------------------------------------------

  predicate Listed(p: seq<Entry>, i: nat)
  {
    exists e | e in p :: e.from == i
  }

  /** At most one pending entry per source. */
  predicate OnePerSource(p: seq<Entry>)
  {
    forall e1, e2 | e1 in p && e2 in p && e1.from == e2.from :: e1 == e2
  }

  /** Every pending entry comes before what is left of its source. */
  predicate Ahead(dir: Direction, srcs: seq<seq<Key>>, p: seq<Entry>)
    requires Bounded(srcs, p)
  {
    forall e, x | e in p && x in srcs[e.from] :: Before(dir, e.key, x)
  }

  /** A source with no pending entry is exhausted. */
  predicate Covered(srcs: seq<seq<Key>>, p: seq<Entry>)
  {
    forall i | 0 <= i < |srcs| :: srcs[i] == [] || Listed(p, i)
  }

  /** Every pending key and every key left came from the same source of `orig`. */
  predicate FromOrig(orig: seq<seq<Key>>, srcs: seq<seq<Key>>, p: seq<Entry>)
    requires |srcs| == |orig| && Bounded(srcs, p)
  {
    (forall e | e in p :: e.key in orig[e.from]) &&
    (forall i, x | 0 <= i < |srcs| && x in srcs[i] :: x in orig[i])
  }

  /** The invariant of a one-direction walk, but for `Covered`. */
  predicate Partial(dir: Direction, orig: seq<seq<Key>>, srcs: seq<seq<Key>>, p: seq<Entry>)
  {
    |srcs| == |orig| && AllAscending(srcs) && Ordered(dir, Keys(p)) && Bounded(srcs, p) &&
    OnePerSource(p) && Ahead(dir, srcs, p) && FromOrig(orig, srcs, p)
  }

  /** The invariant of a one-direction walk: the map holds at most one entry
      per source, in scan order; each entry precedes everything left in its
      source; a source with no entry is exhausted; everything came from
      `orig`. */
  predicate Inv(dir: Direction, orig: seq<seq<Key>>, srcs: seq<seq<Key>>, p: seq<Entry>)
  {
    Partial(dir, orig, srcs, p) && Covered(srcs, p)
  }

  /** What is still to be yielded. */
  function Content(srcs: seq<seq<Key>>, p: seq<Entry>): set<Key>
  {
    PendingKeys(p) + Items(srcs)
  }

  lemma ItemsRemove(srcs: seq<seq<Key>>, i: nat, k: Key, rest: seq<Key>)
    requires i < |srcs| && Elems(rest) == Elems(srcs[i]) - {k}
    requires forall j | 0 <= j < |srcs| && j != i :: k !in srcs[j]
    ensures Items(srcs[i := rest]) == Items(srcs) - {k}
  {
    var r := srcs[i := rest];
    forall x | x in Items(r)
      ensures x in Items(srcs) - {k}
    {
      var j :| 0 <= j < |r| && x in r[j];
      if j == i {
        assert x in Elems(rest);
      }
    }
    forall x | x in Items(srcs) - {k}
      ensures x in Items(r)
    {
      var j :| 0 <= j < |srcs| && x in srcs[j];
      if j == i {
        assert x in Elems(rest);
      }
      assert x in r[j];
    }
  }

  /** Pulling from a source with no pending entry and inserting its key:
      with disjoint sources the key is new to the map, so nothing is lost. */
  lemma PullInto(dir: Direction, orig: seq<seq<Key>>, srcs: seq<seq<Key>>, q: seq<Entry>, i: nat)
    requires Disjoint(orig) && Partial(dir, orig, srcs, q)
    requires i < |srcs| && srcs[i] != [] && forall w | w in q :: w.from != i
    ensures Partial(dir, orig, srcs[i := Pull(dir, srcs[i]).1],
                    InsertReplacing(dir, q, Entry(Pull(dir, srcs[i]).0.value, i)))
    ensures forall w :: w in InsertReplacing(dir, q, Entry(Pull(dir, srcs[i]).0.value, i)) <==>
                        w in q || w == Entry(Pull(dir, srcs[i]).0.value, i)
    ensures Content(srcs[i := Pull(dir, srcs[i]).1],
                    InsertReplacing(dir, q, Entry(Pull(dir, srcs[i]).0.value, i))) == Content(srcs, q)
  {
    var s := srcs[i];
    PullFirst(dir, s);
    var k := Pull(dir, s).0.value;
    var rest := Pull(dir, s).1;
    var n := Entry(k, i);
    var srcs' := srcs[i := rest];
    assert k in orig[i];
    forall j | 0 <= j < |srcs| && j != i
      ensures k !in srcs[j]
    {
      assert k !in orig[j];
    }
    forall w | w in q
      ensures w.key != k
    {
      assert w.key in orig[w.from];
      assert k !in orig[w.from];
    }
    assert k !in PendingKeys(q);
    InsertFresh(dir, q, n);
    var q' := InsertReplacing(dir, q, n);
    ItemsRemove(srcs, i, k, rest);
    assert k in Items(srcs);
    forall w, x | w in q' && x in srcs'[w.from]
      ensures Before(dir, w.key, x)
    {
      if w == n {
        assert x in Elems(rest);
      }
    }
    forall j | 0 <= j < |srcs'|
      ensures Ordered(Forward, srcs'[j])
    {
    }
    forall j, x | 0 <= j < |srcs'| && x in srcs'[j]
      ensures x in orig[j]
    {
      if j == i {
        assert x in Elems(rest);
      }
    }
  }

  /** The popped entry's key is the scan-order least of what is still to be
      yielded, and it is nowhere else. */
  lemma PoppedIsLeast(dir: Direction, orig: seq<seq<Key>>, srcs: seq<seq<Key>>, p: seq<Entry>)
    requires Inv(dir, orig, srcs, p) && |p| > 0
    ensures p[0].key !in Items(srcs)
    ensures PendingKeys(p[1..]) == PendingKeys(p) - {p[0].key}
    ensures forall x | x in Content(srcs, p) - {p[0].key} :: Before(dir, p[0].key, x)
  {
    var e := p[0];
    assert e in p;
    KeysTail(p);
    ElemsTail(dir, Keys(p));
    PendingKeysAreKeys(p);
    PendingKeysAreKeys(p[1..]);
    forall x | x in Items(srcs)
      ensures Before(dir, e.key, x)
    {
      var i :| 0 <= i < |srcs| && x in srcs[i];
      assert Listed(p, i);
      var w :| w in p && w.from == i;
      assert Before(dir, w.key, x);
      KeyIn(p, w);
      HeadFirst(dir, Keys(p), w.key);
      if w.key != e.key {
        BeforeTransitive(dir, e.key, w.key, x);
      }
    }
    BeforeIrreflexive(dir, e.key);
    forall y | y in PendingKeys(p[1..])
      ensures Before(dir, e.key, y)
    {
      HeadFirst(dir, Keys(p), y);
    }
  }

  /** Popping the head keeps everything but `Covered`; the other entries
      belong to other sources. */
  lemma PopPartial(dir: Direction, orig: seq<seq<Key>>, srcs: seq<seq<Key>>, p: seq<Entry>)
    requires Partial(dir, orig, srcs, p) && |p| > 0
    ensures Partial(dir, orig, srcs, p[1..])
    ensures forall w | w in p[1..] :: w in p && w.from != p[0].from
    ensures forall w | w in p && w.from != p[0].from :: w in p[1..]
  {
    assert p == [p[0]] + p[1..];
    assert p[0] in p;
    KeysTail(p);
    ElemsTail(dir, Keys(p));
    forall w | w in p[1..]
      ensures w.from != p[0].from
    {
      KeyIn(p[1..], w);
      BeforeIrreflexive(dir, p[0].key);
      HeadFirst(dir, Keys(p), w.key);
    }
  }

  /** A step pops the scan-order least key of everything not yet yielded and
      keeps the invariant. */
  lemma StepPopsLeast(dir: Direction, orig: seq<seq<Key>>, srcs: seq<seq<Key>>, p: seq<Entry>)
    requires Disjoint(orig) && Inv(dir, orig, srcs, p) && |p| > 0
    ensures Step(dir, srcs, p).0 == Some(p[0])
    ensures p[0].key in orig[p[0].from]
    ensures Inv(dir, orig, Step(dir, srcs, p).1, Step(dir, srcs, p).2)
    ensures Content(Step(dir, srcs, p).1, Step(dir, srcs, p).2) == Content(srcs, p) - {p[0].key}
    ensures forall x | x in Content(srcs, p) - {p[0].key} :: Before(dir, p[0].key, x)
  {
    var e := p[0];
    assert e in p;
    PoppedIsLeast(dir, orig, srcs, p);
    PopPartial(dir, orig, srcs, p);
    var (out, srcs', p') := Step(dir, srcs, p);
    assert Content(srcs, p[1..]) == Content(srcs, p) - {e.key};
    if srcs[e.from] == [] {
      assert srcs' == srcs && p' == p[1..];
      forall i | 0 <= i < |srcs| && srcs[i] != []
        ensures Listed(p[1..], i)
      {
        var w :| w in p && w.from == i;
        assert w in p[1..];
      }
    } else {
      PullInto(dir, orig, srcs, p[1..], e.from);
      var n := Entry(Pull(dir, srcs[e.from]).0.value, e.from);
      assert srcs' == srcs[e.from := Pull(dir, srcs[e.from]).1];
      assert p' == InsertReplacing(dir, p[1..], n);
      forall i | 0 <= i < |srcs'| && srcs'[i] != []
        ensures Listed(p', i)
      {
        if i == e.from {
          assert n in p';
        } else {
          var w :| w in p && w.from == i;
          assert w in p[1..];
          assert w in p';
        }
      }
    }
  }

  lemma DrainUnfold(dir: Direction, srcs: seq<seq<Key>>, p: seq<Entry>)
    requires Bounded(srcs, p) && |p| > 0
    ensures Drain(dir, srcs, p) == [p[0]] + Drain(dir, Step(dir, srcs, p).1, Step(dir, srcs, p).2)
  {
  }

  /** With an empty map every source is exhausted. */
  lemma EmptyMapExhausted(srcs: seq<seq<Key>>)
    requires Covered(srcs, [])
    ensures Items(srcs) == {}
  {
    forall i | 0 <= i < |srcs|
      ensures srcs[i] == []
    {
      assert !Listed([], i);
    }
  }

  lemma {:induction false} DrainIsMerge(dir: Direction, orig: seq<seq<Key>>, srcs: seq<seq<Key>>, p: seq<Entry>)
    requires Disjoint(orig) && Inv(dir, orig, srcs, p)
    ensures Ordered(dir, Keys(Drain(dir, srcs, p)))
    ensures Elems(Keys(Drain(dir, srcs, p))) == Content(srcs, p)
    decreases |p| + TotalLen(srcs)
  {
    if |p| == 0 {
      EmptyMapExhausted(srcs);
    } else {
      StepPopsLeast(dir, orig, srcs, p);
      var srcs', p' := Step(dir, srcs, p).1, Step(dir, srcs, p).2;
      DrainIsMerge(dir, orig, srcs', p');
      var rest := Drain(dir, srcs', p');
      DrainUnfold(dir, srcs, p);
      KeysCons(p[0], rest);
      ConsOrdered(dir, p[0].key, Keys(rest));
    }
  }

  /** Every output of the walk is tagged with a source that holds it. */
  lemma {:induction false} DrainProvenance(dir: Direction, orig: seq<seq<Key>>, srcs: seq<seq<Key>>, p: seq<Entry>)
    requires Disjoint(orig) && Inv(dir, orig, srcs, p)
    ensures forall j | 0 <= j < |Drain(dir, srcs, p)| ::
      Drain(dir, srcs, p)[j].from < |orig| && Drain(dir, srcs, p)[j].key in orig[Drain(dir, srcs, p)[j].from]
    decreases |p| + TotalLen(srcs)
  {
    if |p| > 0 {
      StepPopsLeast(dir, orig, srcs, p);
      var srcs', p' := Step(dir, srcs, p).1, Step(dir, srcs, p).2;
      DrainProvenance(dir, orig, srcs', p');
      DrainUnfold(dir, srcs, p);
    }
  }

  lemma FillUnfold(dir: Direction, srcs: seq<seq<Key>>, i: nat, p: seq<Entry>)
    requires i < |srcs| && Bounded(srcs, p)
    ensures srcs[i] == [] ==> Fill(dir, srcs, i, p) == Fill(dir, srcs, i + 1, p)
    ensures srcs[i] != [] ==>
      Fill(dir, srcs, i, p) ==
      Fill(dir, srcs[i := Pull(dir, srcs[i]).1], i + 1, InsertReplacing(dir, p, Entry(Pull(dir, srcs[i]).0.value, i)))
  {
  }

  /** One pull of the fill keeps its invariant. */
  /** What holds before the fill looks at source `i`: the sources before
      it, and only they, have their heads in the map. */
  predicate FillReady(dir: Direction, orig: seq<seq<Key>>, srcs: seq<seq<Key>>, i: nat, p: seq<Entry>)
  {
    Disjoint(orig) && Partial(dir, orig, srcs, p) && i <= |srcs| &&
    (forall e | e in p :: e.from < i) &&
    (forall j | 0 <= j < i :: srcs[j] == [] || Listed(p, j))
  }

  lemma FillStep(dir: Direction, orig: seq<seq<Key>>, srcs: seq<seq<Key>>, i: nat, p: seq<Entry>)
    requires FillReady(dir, orig, srcs, i, p) && i < |srcs| && srcs[i] != []
    ensures var srcs', p' := srcs[i := Pull(dir, srcs[i]).1], InsertReplacing(dir, p, Entry(Pull(dir, srcs[i]).0.value, i));
      FillReady(dir, orig, srcs', i + 1, p') &&
      Content(srcs', p') == Content(srcs, p)
  {
    PullInto(dir, orig, srcs, p, i);
    var n := Entry(Pull(dir, srcs[i]).0.value, i);
    var srcs' := srcs[i := Pull(dir, srcs[i]).1];
    var p' := InsertReplacing(dir, p, n);
    forall j | 0 <= j < i + 1 && srcs'[j] != []
      ensures Listed(p', j)
    {
      if j == i {
        assert n in p';
      } else {
        var w :| w in p && w.from == j;
        assert w in p';
      }
    }
  }

  lemma {:induction false} FillEstablishes(dir: Direction, orig: seq<seq<Key>>, srcs: seq<seq<Key>>, i: nat, p: seq<Entry>)
    requires FillReady(dir, orig, srcs, i, p)
    ensures Inv(dir, orig, Fill(dir, srcs, i, p).0, Fill(dir, srcs, i, p).1)
    decreases |srcs| - i
  {
    if i == |srcs| {
      assert Fill(dir, srcs, i, p) == (srcs, p);
    } else {
      FillUnfold(dir, srcs, i, p);
      if srcs[i] == [] {
        FillEstablishes(dir, orig, srcs, i + 1, p);
      } else {
        FillStep(dir, orig, srcs, i, p);
        FillEstablishes(dir, orig, srcs[i := Pull(dir, srcs[i]).1], i + 1,
                        InsertReplacing(dir, p, Entry(Pull(dir, srcs[i]).0.value, i)));
      }
    }
  }

  /** The fill moves keys from the sources into the map and loses none. */
  lemma {:induction false} FillKeepsContent(dir: Direction, orig: seq<seq<Key>>, srcs: seq<seq<Key>>, i: nat, p: seq<Entry>)
    requires FillReady(dir, orig, srcs, i, p)
    ensures Content(Fill(dir, srcs, i, p).0, Fill(dir, srcs, i, p).1) == Content(srcs, p)
    decreases |srcs| - i
  {
    if i < |srcs| {
      FillUnfold(dir, srcs, i, p);
      if srcs[i] == [] {
        FillKeepsContent(dir, orig, srcs, i + 1, p);
      } else {
        var srcs', p' := srcs[i := Pull(dir, srcs[i]).1], InsertReplacing(dir, p, Entry(Pull(dir, srcs[i]).0.value, i));
        assert FillReady(dir, orig, srcs', i + 1, p') && Content(srcs', p') == Content(srcs, p) by {
          FillStep(dir, orig, srcs, i, p);
        }
        FillKeepsContent(dir, orig, srcs', i + 1, p');
      }
    }
  }

  /** With no key shared between sources, the merge as written yields every
      key exactly once, in scan order, each tagged with its source. */
  lemma AsWrittenMergesDisjoint(dir: Direction, sources: seq<seq<Key>>)
    requires AllAscending(sources) && Disjoint(sources)
    ensures Ordered(dir, Keys(AsWritten(dir, sources)))
    ensures Elems(Keys(AsWritten(dir, sources))) == Items(sources)
    ensures forall j | 0 <= j < |AsWritten(dir, sources)| ::
      AsWritten(dir, sources)[j].from < |sources| &&
      AsWritten(dir, sources)[j].key in sources[AsWritten(dir, sources)[j].from]
  {
    assert PendingKeys([]) == {};
    FillEstablishes(dir, sources, sources, 0, []);
    FillKeepsContent(dir, sources, sources, 0, []);
    var (srcs, p) := Fill(dir, sources, 0, []);
    DrainIsMerge(dir, sources, srcs, p);
    DrainProvenance(dir, sources, srcs, p);
  }

  /** With no key shared between sources, the merge as written and the
      intended merge agree, source indices included. */
  lemma AsWrittenIsMergedWhenDisjoint(dir: Direction, sources: seq<seq<Key>>)
    requires AllAscending(sources) && Disjoint(sources)
    ensures AsWritten(dir, sources) == Merged(dir, sources)
  {
    var a := AsWritten(dir, sources);
    var b := Merged(dir, sources);
    AsWrittenMergesDisjoint(dir, sources);
    OrderedUnique(dir, Keys(a), Keys(b));
    forall j | 0 <= j < |a|
      ensures a[j] == b[j]
    {
      assert Keys(a)[j] == Keys(b)[j];
      var x := a[j].key;
      assert x in sources[a[j].from] && x in sources[b[j].from];
    }
  }

  // ---------------------------------------------------------------------------
  // Sources sharing a key
  // ---------------------------------------------------------------------------

  /** Sources `[1, 3]` and `[1, 2]`: the second source's 1 replaces the
      first's in the map, the first source is never pulled again, and 3 is
      lost. */
  lemma AsWrittenLosesKeys()
    ensures AsWritten(Forward, [[[1], [3]], [[1], [2]]]) == [Entry([1], 1), Entry([2], 1)]
  {
    var sources: seq<seq<Key>> := [[[1], [3]], [[1], [2]]];
    assert Below([1], [2]) && Below([1], [3]) && Below([2], [3]);
    var f1 := InsertReplacing(Forward, [], Entry([1], 0));
    assert f1 == [Entry([1], 0)];
    var s1 := sources[0 := [[3]]];
    assert Fill(Forward, sources, 0, []) == Fill(Forward, s1, 1, f1);
    var f2 := InsertReplacing(Forward, f1, Entry([1], 1));
    assert f2 == [Entry([1], 1)];
    var s2 := s1[1 := [[2]]];
    assert Fill(Forward, s1, 1, f1) == Fill(Forward, s2, 2, f2);
    assert Fill(Forward, s2, 2, f2) == (s2, f2);
    var s3 := s2[1 := []];
    assert InsertReplacing(Forward, [], Entry([2], 1)) == [Entry([2], 1)];
    assert s2 == [[[3]], [[2]]] && s3 == [[[3]], []];
    assert Pull(Forward, s2[1]) == (Some([2]), []);
    assert f2[0] in f2 && f2[1..] == [];
    assert Step(Forward, s2, f2).1 == s3;
    assert Step(Forward, s2, f2).2 == [Entry([2], 1)];
    assert Step(Forward, s2, f2) == (Some(Entry([1], 1)), s3, [Entry([2], 1)]);
    assert s3[1 := []] == s3 && [Entry([2], 1)][1..] == [];
    assert Step(Forward, s3, [Entry([2], 1)]) == (Some(Entry([2], 1)), s3, []);
    assert Drain(Forward, s3, []) == [];
    assert Drain(Forward, s3, [Entry([2], 1)]) == [Entry([2], 1)];
    assert Drain(Forward, s2, f2) == [Entry([1], 1), Entry([2], 1)];
  }

  /** Sources `[1, 2]` and `[1]`: the second source's 1 replaces the first's,
      and 2 is lost. */
  lemma CachedKeyLost()
    ensures AsWritten(Forward, [[[1], [2]], [[1]]]) == [Entry([1], 1)]
  {
    var sources: seq<seq<Key>> := [[[1], [2]], [[1]]];
    var f1 := InsertReplacing(Forward, [], Entry([1], 0));
    assert f1 == [Entry([1], 0)];
    var s1 := sources[0 := [[2]]];
    assert Fill(Forward, sources, 0, []) == Fill(Forward, s1, 1, f1);
    var f2 := InsertReplacing(Forward, f1, Entry([1], 1));
    assert f2 == [Entry([1], 1)];
    var s2 := s1[1 := []];
    assert s2 == [[[2]], []];
    assert Fill(Forward, s1, 1, f1) == Fill(Forward, s2, 2, f2);
    assert Fill(Forward, s2, 2, f2) == (s2, f2);
    assert f2[0] in f2 && f2[1..] == [] && s2[1 := []] == s2;
    assert Step(Forward, s2, f2) == (Some(Entry([1], 1)), s2, []);
    assert Drain(Forward, s2, []) == [];
  }

  /** The intended merge of the same sources keeps every key. */
  lemma MergedKeepsKeys()
    ensures Merged(Forward, [[[1], [3]], [[1], [2]]]) == [Entry([1], 0), Entry([2], 1), Entry([3], 0)]
  {
    var t0: seq<seq<Key>> := [[[1], [3]], [[1], [2]]];
    assert AllAscending(t0) by {
      assert Below([1], [3]) && Below([1], [2]);
    }
    assert Best(Forward, t0, 0) == Some(Entry([1], 0)) by {
      assert Best(Forward, t0, 1) == Some(Entry([1], 1));
    }
    assert DropFirst(Forward, t0, [1]) == [[[3]], [[2]]] by {
      assert DropFirst(Forward, t0, [1])[0] == [[3]];
      assert DropFirst(Forward, t0, [1])[1] == [[2]];
    }
    MergedUnfold(Forward, t0);
    MergedAfterOne();
  }

  lemma MergedAfterOne()
    ensures Merged(Forward, [[[3]], [[2]]]) == [Entry([2], 1), Entry([3], 0)]
  {
    var t1: seq<seq<Key>> := [[[3]], [[2]]];
    assert Best(Forward, t1, 0) == Some(Entry([2], 1)) by {
      assert Below([2], [3]);
      assert Best(Forward, t1, 2) == None;
      assert Best(Forward, t1, 1) == Some(Entry([2], 1));
    }
    assert DropFirst(Forward, t1, [2]) == [[[3]], []] by {
      assert DropFirst(Forward, t1, [2])[0] == [[3]];
      assert DropFirst(Forward, t1, [2])[1] == [];
    }
    MergedUnfold(Forward, t1);
    MergedAfterTwo();
  }

  lemma MergedAfterTwo()
    ensures Merged(Forward, [[[3]], []]) == [Entry([3], 0)]
  {
    var t2: seq<seq<Key>> := [[[3]], []];
    var t3: seq<seq<Key>> := [[], []];
    assert Best(Forward, t2, 1) == None;
    assert DropFirst(Forward, t2, [3]) == t3 by {
      assert DropFirst(Forward, t2, [3])[0] == [];
      assert DropFirst(Forward, t2, [3])[1] == [];
    }
    assert Best(Forward, t3, 1) == None;
    MergedUnfold(Forward, t2);
    MergedUnfold(Forward, t3);
  }
}
