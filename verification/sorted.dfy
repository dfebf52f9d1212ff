/** Sequences of keys in strict byte-lexicographic order, read in either
    direction: the shape of every scan the storage layer returns. */
module SortedKeys {
  import opened Bytes

  /** A key of the store: a serialized datom or a transaction record. */
  type Key = seq<byte>

  /** Which end of a range a scan starts from. */
  datatype Direction = Forward | Backward

  /** `a` comes strictly before `b` when scanning in direction `dir`. */
  predicate Before(dir: Direction, a: Key, b: Key)
  {
    if dir.Forward? then Below(a, b) else Below(b, a)
  }

  lemma BeforeIrreflexive(dir: Direction, a: Key)
    ensures !Before(dir, a, a)
  {
    BelowIrreflexive(a);
  }

  lemma BeforeAsymmetric(dir: Direction, a: Key, b: Key)
    ensures !(Before(dir, a, b) && Before(dir, b, a))
  {
    BelowAsymmetric(a, b);
  }

  lemma BeforeTransitive(dir: Direction, a: Key, b: Key, c: Key)
    requires Before(dir, a, b) && Before(dir, b, c)
    ensures Before(dir, a, c)
  {
    if dir.Forward? {
      BelowTransitive(a, b, c);
    } else {
      BelowTransitive(c, b, a);
    }
  }

  lemma BeforeTotal(dir: Direction, a: Key, b: Key)
    ensures a == b || Before(dir, a, b) || Before(dir, b, a)
  {
    BelowTotal(a, b);
  }

  /** Strictly ordered in direction `dir`: no key twice. */
  predicate Ordered(dir: Direction, s: seq<Key>)
  {
    forall i, j | 0 <= i < j < |s| :: Before(dir, s[i], s[j])
  }

  /** The set of keys a sequence holds. */
  function Elems(s: seq<Key>): set<Key>
  {
    set x | x in s
  }

  lemma ElemsOfHead(s: seq<Key>)
    ensures |s| > 0 ==> s[0] in Elems(s)
  {
  }

  /** Dropping the first key of an ordered sequence removes exactly that key. */
  lemma ElemsTail(dir: Direction, s: seq<Key>)
    requires Ordered(dir, s) && |s| > 0
    ensures Elems(s[1..]) == Elems(s) - {s[0]}
    ensures Ordered(dir, s[1..])
  {
    forall x | x in Elems(s[1..])
      ensures x != s[0]
    {
      var k :| 0 <= k < |s[1..]| && s[1..][k] == x;
      assert Before(dir, s[0], s[k + 1]);
      BeforeIrreflexive(dir, s[0]);
    }
    assert s == [s[0]] + s[1..];
  }

  /** Dropping the last key of an ordered sequence removes exactly that key. */
  lemma ElemsInit(dir: Direction, s: seq<Key>)
    requires Ordered(dir, s) && |s| > 0
    ensures Elems(s[..|s| - 1]) == Elems(s) - {s[|s| - 1]}
    ensures Ordered(dir, s[..|s| - 1])
  {
    var n := |s| - 1;
    forall x | x in Elems(s[..n])
      ensures x != s[n]
    {
      var k :| 0 <= k < n && s[k] == x;
      assert Before(dir, s[k], s[n]);
      BeforeIrreflexive(dir, s[n]);
    }
    assert s == s[..n] + [s[n]];
  }

  /** An ordered sequence is determined by its set of keys. */
  lemma {:induction false} OrderedUnique(dir: Direction, a: seq<Key>, b: seq<Key>)
    requires Ordered(dir, a) && Ordered(dir, b) && Elems(a) == Elems(b)
    ensures a == b
    decreases |a|
  {
    ElemsOfHead(a);
    ElemsOfHead(b);
    if |a| > 0 && |b| > 0 {
      var x, y := a[0], b[0];
      var j :| 0 <= j < |b| && b[j] == x;
      var i :| 0 <= i < |a| && a[i] == y;
      if j > 0 {
        assert Before(dir, y, x);
      }
      if i > 0 {
        assert Before(dir, x, y);
      }
      BeforeAsymmetric(dir, x, y);
      assert x == y;
      ElemsTail(dir, a);
      ElemsTail(dir, b);
      OrderedUnique(dir, a[1..], b[1..]);
      assert a == [x] + a[1..] && b == [y] + b[1..];
    }
  }

  function Reverse<T>(s: seq<T>): (r: seq<T>)
    ensures |r| == |s|
    ensures forall i | 0 <= i < |s| :: r[i] == s[|s| - 1 - i]
  {
    seq(|s|, i requires 0 <= i < |s| => s[|s| - 1 - i])
  }

  /** Reading an ascending sequence from the end gives a descending one with
      the same keys. */
  lemma ReverseOrdered(s: seq<Key>)
    requires Ordered(Forward, s)
    ensures Ordered(Backward, Reverse(s))
    ensures Elems(Reverse(s)) == Elems(s)
  {
    var r := Reverse(s);
    forall x | x in Elems(s)
      ensures x in Elems(r)
    {
      var k :| 0 <= k < |s| && s[k] == x;
      assert r[|s| - 1 - k] == x;
    }
  }

  // ---------------------------------------------------------------------------
  // Half-open key ranges
  // ---------------------------------------------------------------------------

  /** `lo <= k < hi`. */
  predicate InRange(lo: Key, hi: Key, k: Key)
  {
    BelowOrEqual(lo, k) && Below(k, hi)
  }

  /** The keys of `s` that lie in `lo..hi`, in their order in `s`. */
  function Filter(s: seq<Key>, lo: Key, hi: Key): (r: seq<Key>)
    ensures forall k :: k in r <==> k in s && InRange(lo, hi, k)
    ensures |r| <= |s|
  {
    if |s| == 0 then []
    else
      var rest := Filter(s[1..], lo, hi);
      assert s == [s[0]] + s[1..];
      if InRange(lo, hi, s[0]) then [s[0]] + rest else rest
  }

  /** Filtering keeps the order. */
  lemma {:induction false} FilterOrdered(dir: Direction, s: seq<Key>, lo: Key, hi: Key)
    requires Ordered(dir, s)
    ensures Ordered(dir, Filter(s, lo, hi))
  {
    if |s| > 0 {
      ElemsTail(dir, s);
      FilterOrdered(dir, s[1..], lo, hi);
      var r := Filter(s[1..], lo, hi);
      forall k | 0 <= k < |r|
        ensures Before(dir, s[0], r[k])
      {
        assert r[k] in r;
        assert r[k] in s[1..];
        var m :| 0 <= m < |s[1..]| && s[1..][m] == r[k];
        assert s[m + 1] == r[k];
      }
    }
  }

  // ---------------------------------------------------------------------------
  // Facts about ordered sequences
  // ---------------------------------------------------------------------------

  lemma BelowOrEqualTransitive(a: Key, b: Key, c: Key)
    requires BelowOrEqual(a, b) && BelowOrEqual(b, c)
    ensures BelowOrEqual(a, c)
  {
    if a != b && b != c {
      BelowTransitive(a, b, c);
    }
  }

  lemma BelowOrEqualBelow(a: Key, b: Key, c: Key)
    requires BelowOrEqual(a, b) && Below(b, c)
    ensures Below(a, c)
  {
    if a != b {
      BelowTransitive(a, b, c);
    }
  }

  /** Putting a key in front of an ordered sequence whose keys all come
      after it keeps it ordered. */
  lemma ConsOrdered(dir: Direction, x: Key, s: seq<Key>)
    requires Ordered(dir, s)
    requires forall y | y in s :: Before(dir, x, y)
    ensures Ordered(dir, [x] + s)
    ensures Elems([x] + s) == {x} + Elems(s)
  {
    var r := [x] + s;
    forall i, j | 0 <= i < j < |r|
      ensures Before(dir, r[i], r[j])
    {
      if i > 0 {
        assert r[i] == s[i - 1] && r[j] == s[j - 1];
      } else {
        assert r[j] == s[j - 1];
        assert s[j - 1] in s;
      }
    }
  }

  /** The first key of an ordered sequence comes before every other key in it. */
  lemma HeadFirst(dir: Direction, s: seq<Key>, y: Key)
    requires Ordered(dir, s) && |s| > 0 && y in s
    ensures y == s[0] || Before(dir, s[0], y)
  {
    var j :| 0 <= j < |s| && s[j] == y;
    if j > 0 {
      assert Before(dir, s[0], s[j]);
    }
  }

  /** The last key of an ordered sequence comes after every other key in it. */
  lemma LastLast(dir: Direction, s: seq<Key>, y: Key)
    requires Ordered(dir, s) && |s| > 0 && y in s
    ensures y == s[|s| - 1] || Before(dir, y, s[|s| - 1])
  {
    var j :| 0 <= j < |s| && s[j] == y;
    if j < |s| - 1 {
      assert Before(dir, s[j], s[|s| - 1]);
    }
  }

  predicate Distinct(s: seq<Key>)
  {
    forall i, j | 0 <= i < j < |s| :: s[i] != s[j]
  }

  lemma DistinctCons(x: Key, s: seq<Key>)
    requires Distinct(s) && x !in s
    ensures Distinct([x] + s)
  {
    var r := [x] + s;
    forall i, j | 0 <= i < j < |r|
      ensures r[i] != r[j]
    {
      assert r[j] == s[j - 1];
      if i > 0 {
        assert r[i] == s[i - 1];
      }
    }
  }

}
