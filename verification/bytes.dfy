/** Byte strings, their lexicographic order, and the integer encodings the
    value and key layouts are built from: fixed-width big-endian integers
    (`to_be_bytes` / `from_be_bytes` on `u64`, `i64` and `u128`) and the
    minimal big-endian two's complement form of an arbitrary-precision
    integer (`to_signed_bytes_be` / `from_signed_bytes_be`). */
module Bytes {

  type byte = x: int | 0 <= x < 256

  const U64_LIMIT: nat := 0x1_0000_0000_0000_0000
  const I64_HALF: int := 0x8000_0000_0000_0000

  type u64 = x: int | 0 <= x < U64_LIMIT
  type i64 = x: int | -I64_HALF <= x < I64_HALF

  function Pow256(n: nat): (r: nat)
    ensures r >= 1
  {
    if n == 0 then 1 else 256 * Pow256(n - 1)
  }

  /** The powers the fixed-width encodings use: 2^32, 2^64 and 2^128. */
  lemma Pow256Widths()
    ensures Pow256(4) == 0x1_0000_0000
    ensures Pow256(8) == U64_LIMIT
    ensures Pow256(16) == 0x1_0000_0000_0000_0000_0000_0000_0000_0000
  {
    assert Pow256(2) == 0x1_0000;
    assert Pow256(4) == 0x1_0000_0000;
    assert Pow256(6) == 0x1_0000_0000_0000;
    assert Pow256(8) == U64_LIMIT;
    assert Pow256(10) == 0x1_0000_0000_0000_0000_0000;
    assert Pow256(12) == 0x1_0000_0000_0000_0000_0000_0000;
    assert Pow256(14) == 0x1_0000_0000_0000_0000_0000_0000_0000;
  }

  // ---------------------------------------------------------------------------
  // Lexicographic order (Rust's `Ord` on `[u8]` and `Vec<u8>`)
  // ---------------------------------------------------------------------------

  /** `a < b` byte-lexicographically: the first differing byte decides, and a
      proper prefix is smaller than the longer string. */
  predicate Below(a: seq<byte>, b: seq<byte>)
  {
    |b| > 0 && (|a| == 0 || a[0] < b[0] || (a[0] == b[0] && Below(a[1..], b[1..])))
  }

  predicate BelowOrEqual(a: seq<byte>, b: seq<byte>)
  {
    a == b || Below(a, b)
  }

  lemma {:induction false} BelowIrreflexive(a: seq<byte>)
    ensures !Below(a, a)
  {
    if |a| > 0 {
      BelowIrreflexive(a[1..]);
    }
  }

  lemma {:induction false} BelowAsymmetric(a: seq<byte>, b: seq<byte>)
    ensures !(Below(a, b) && Below(b, a))
  {
    if |a| > 0 && |b| > 0 && a[0] == b[0] {
      BelowAsymmetric(a[1..], b[1..]);
    }
  }

  lemma {:induction false} BelowTransitive(a: seq<byte>, b: seq<byte>, c: seq<byte>)
    requires Below(a, b) && Below(b, c)
    ensures Below(a, c)
  {
    if |a| > 0 && a[0] == b[0] && b[0] == c[0] {
      BelowTransitive(a[1..], b[1..], c[1..]);
    }
  }

  lemma {:induction false} BelowTotal(a: seq<byte>, b: seq<byte>)
    ensures a == b || Below(a, b) || Below(b, a)
  {
    if |a| > 0 && |b| > 0 && a[0] == b[0] {
      BelowTotal(a[1..], b[1..]);
      if a[1..] == b[1..] {
        assert a == [a[0]] + a[1..] && b == [b[0]] + b[1..];
      }
    }
  }

  /** A shared prefix does not change the order. */
  lemma {:induction false} BelowCommonPrefix(p: seq<byte>, a: seq<byte>, b: seq<byte>)
    ensures Below(p + a, p + b) <==> Below(a, b)
  {
    if |p| > 0 {
      assert (p + a)[0] == p[0] == (p + b)[0];
      assert (p + a)[1..] == p[1..] + a;
      assert (p + b)[1..] == p[1..] + b;
      BelowCommonPrefix(p[1..], a, b);
    } else {
      assert p + a == a && p + b == b;
    }
  }

  /** Two strings of equal length that are ordered stay ordered whatever follows them. */
  lemma {:induction false} BelowExtend(a: seq<byte>, b: seq<byte>, x: seq<byte>, y: seq<byte>)
    requires |a| == |b| && Below(a, b)
    ensures Below(a + x, b + y)
  {
    if a[0] == b[0] {
      assert (a + x)[1..] == a[1..] + x;
      assert (b + y)[1..] == b[1..] + y;
      BelowExtend(a[1..], b[1..], x, y);
    }
  }

  /** A string is below every proper extension of itself. */
  lemma {:induction false} BelowProperExtension(a: seq<byte>, x: seq<byte>)
    requires |x| > 0
    ensures Below(a, a + x)
  {
    if |a| > 0 {
      assert (a + x)[1..] == a[1..] + x;
      BelowProperExtension(a[1..], x);
    }
  }

  predicate IsPrefix(a: seq<byte>, b: seq<byte>)
  {
    |a| <= |b| && b[..|a|] == a
  }

  lemma PrefixOfAppend(x: seq<byte>, rest: seq<byte>)
    ensures IsPrefix(x, x + rest)
  {
    assert (x + rest)[..|x|] == x;
  }

  lemma PrefixCons(a: seq<byte>, b: seq<byte>)
    requires |a| > 0 && |b| > 0 && a[0] == b[0]
    ensures IsPrefix(a[1..], b[1..]) ==> IsPrefix(a, b)
  {
    if IsPrefix(a[1..], b[1..]) {
      assert b[..|a|] == [b[0]] + b[1..][..|a[1..]|];
      assert a == [a[0]] + a[1..];
    }
  }

  /** If `a < b` and `a` is not a prefix of `b`, nothing that extends `a` reaches `b`. */
  lemma {:induction false} BelowNotPrefixExtend(a: seq<byte>, b: seq<byte>, x: seq<byte>)
    requires Below(a, b) && !IsPrefix(a, b)
    ensures Below(a + x, b)
  {
    if |a| > 0 && a[0] == b[0] {
      assert (a + x)[0] == a[0];
      assert (a + x)[1..] == a[1..] + x;
      PrefixCons(a, b);
      BelowNotPrefixExtend(a[1..], b[1..], x);
    } else if |a| > 0 {
      assert (a + x)[0] == a[0];
    }
  }

  /** Every extension of `a` stays at or above `a`. */
  lemma BelowOrEqualExtension(a: seq<byte>, x: seq<byte>)
    ensures BelowOrEqual(a, a + x)
  {
    if |x| > 0 {
      BelowProperExtension(a, x);
    } else {
      assert a + x == a;
    }
  }

  // ---------------------------------------------------------------------------
  // Fixed-width unsigned big-endian integers
  // ---------------------------------------------------------------------------

  /** `x` as `n` big-endian bytes, most significant byte first. */
  function BE(x: nat, n: nat): (r: seq<byte>)
    requires x < Pow256(n)
    ensures |r| == n
  {
    if n == 0 then [] else BE(x / 256, n - 1) + [x % 256]
  }

  /** Zero is written as `n` zero bytes. */
  lemma {:induction false} BEZero(n: nat)
    ensures BE(0, n) == seq(n, _ => 0)
  {
    if n > 0 {
      BEZero(n - 1);
      assert BE(0, n) == BE(0, n - 1) + [0];
    }
  }

  /** The unsigned number a big-endian byte string denotes. */
  function BEValue(bs: seq<byte>): (r: nat)
    ensures r < Pow256(|bs|)
  {
    if |bs| == 0 then 0 else BEValue(bs[..|bs| - 1]) * 256 + bs[|bs| - 1]
  }

  lemma {:induction false} BEValueOfBE(x: nat, n: nat)
    requires x < Pow256(n)
    ensures BEValue(BE(x, n)) == x
  {
    if n > 0 {
      var r := BE(x, n);
      assert r[..n - 1] == BE(x / 256, n - 1);
      BEValueOfBE(x / 256, n - 1);
    }
  }

  lemma {:induction false} BEOfBEValue(bs: seq<byte>)
    ensures BE(BEValue(bs), |bs|) == bs
  {
    if |bs| > 0 {
      var init := bs[..|bs| - 1];
      assert BEValue(bs) / 256 == BEValue(init) && BEValue(bs) % 256 == bs[|bs| - 1];
      BEOfBEValue(init);
      assert bs == init + [bs[|bs| - 1]];
    }
  }

  /** Equal-width big-endian encodings are ordered exactly as the numbers are. */
  lemma {:induction false} BEOrder(x: nat, y: nat, n: nat)
    requires x < Pow256(n) && y < Pow256(n)
    ensures Below(BE(x, n), BE(y, n)) <==> x < y
  {
    if n > 0 {
      var hx, hy := BE(x / 256, n - 1), BE(y / 256, n - 1);
      BEOrder(x / 256, y / 256, n - 1);
      if x / 256 == y / 256 {
        BelowCommonPrefix(hx, [x % 256], [y % 256]);
      } else if x / 256 < y / 256 {
        BelowExtend(hx, hy, [x % 256], [y % 256]);
      } else {
        BEOrder(y / 256, x / 256, n - 1);
        BelowExtend(hy, hx, [y % 256], [x % 256]);
        BelowAsymmetric(BE(x, n), BE(y, n));
      }
    } else {
      BelowIrreflexive([]);
    }
  }

  /** A number below 256 is zeros followed by itself. */
  lemma {:induction false} BESmall(x: nat, n: nat)
    requires x < 256 && n >= 1
    ensures x < Pow256(n) && BE(x, n) == seq(n - 1, _ => 0) + [x]
  {
    if n > 1 {
      BESmall(0, n - 1);
      assert BE(x, n) == BE(0, n - 1) + [x];
    }
  }

  lemma BEInjective(x: nat, y: nat, n: nat)
    requires x < Pow256(n) && y < Pow256(n) && BE(x, n) == BE(y, n)
    ensures x == y
  {
    BEValueOfBE(x, n);
    BEValueOfBE(y, n);
  }

  lemma ShiftSum(b: int, p: int, v: int)
    ensures (b * p + v) * 256 == b * (256 * p) + v * 256
  {
  }

  /** The big-endian value of a string with one more byte in front. */
  lemma {:induction false} BEValueCons(b: byte, bs: seq<byte>)
    ensures BEValue([b] + bs) == b * Pow256(|bs|) + BEValue(bs)
  {
    if |bs| > 0 {
      var n := |bs|;
      var init := bs[..n - 1];
      assert ([b] + bs)[..n] == [b] + init;
      assert ([b] + bs)[n] == bs[n - 1];
      BEValueCons(b, init);
      var p, v := Pow256(n - 1), BEValue(init);
      ShiftSum(b, p, v);
    }
  }

  // ---------------------------------------------------------------------------
  // u64 and i64 (`to_be_bytes` / `from_be_bytes`)
  // ---------------------------------------------------------------------------

  function U64Bytes(x: u64): (r: seq<byte>)
    ensures |r| == 8
  {
    Pow256Widths();
    BE(x, 8)
  }

  function U64Value(bs: seq<byte>): (r: u64)
    requires |bs| == 8
  {
    Pow256Widths();
    BEValue(bs)
  }

  lemma U64RoundTrip(x: u64)
    ensures U64Value(U64Bytes(x)) == x
  {
    Pow256Widths();
    BEValueOfBE(x, 8);
  }

  lemma U64Order(x: u64, y: u64)
    ensures Below(U64Bytes(x), U64Bytes(y)) <==> x < y
  {
    Pow256Widths();
    BEOrder(x, y, 8);
  }

  /** An `i64` in two's complement: the unsigned residue modulo 2^64. */
  function I64Bytes(x: i64): (r: seq<byte>)
    ensures |r| == 8
  {
    Pow256Widths();
    BE(x % U64_LIMIT, 8)
  }

  function I64Value(bs: seq<byte>): (r: i64)
    requires |bs| == 8
  {
    Pow256Widths();
    var v := BEValue(bs);
    if v >= I64_HALF then v - U64_LIMIT else v
  }

  lemma I64RoundTrip(x: i64)
    ensures I64Value(I64Bytes(x)) == x
  {
    Pow256Widths();
    BEValueOfBE(x % U64_LIMIT, 8);
  }

  // ---------------------------------------------------------------------------
  // Minimal big-endian two's complement (arbitrary precision)
  // ---------------------------------------------------------------------------

  /** The shortest big-endian two's complement form of `i`; zero is `[0]`. */
  function SignedBytes(i: int): (r: seq<byte>)
    ensures |r| >= 1
    decreases if i < 0 then -i else i
  {
    if -128 <= i < 128 then [i % 256] else SignedBytes(i / 256) + [i % 256]
  }

  /** The integer a big-endian two's complement string denotes; the empty string is zero. */
  function SignedValue(bs: seq<byte>): (r: int)
  {
    if |bs| == 0 then 0
    else if bs[0] >= 128 then BEValue(bs) - Pow256(|bs|)
    else BEValue(bs)
  }

  /** Decoding the encoding of any integer gives it back. */
  lemma {:induction false} SignedRoundTrip(i: int)
    ensures SignedValue(SignedBytes(i)) == i
    decreases if i < 0 then -i else i
  {
    if !(-128 <= i < 128) {
      var q := i / 256;
      var p := SignedBytes(q);
      var r := p + [i % 256];
      SignedRoundTrip(q);
      assert r[..|p|] == p && r[0] == p[0];
      assert BEValue(r) == BEValue(p) * 256 + i % 256;
    }
  }

  /** The encoding of `i` is as short as two's complement allows: dropping its
      first byte would leave a string that denotes another number. */
  lemma {:induction false} SignedBytesMinimal(i: int)
    ensures var r := SignedBytes(i);
      |r| == 1 || SignedValue(r[1..]) != i
    decreases if i < 0 then -i else i
  {
    if !(-128 <= i < 128) {
      var q := i / 256;
      var p := SignedBytes(q);
      var r := p + [i % 256];
      if |p| == 1 {
        // the one remaining byte denotes a number in [-128, 128), which `i` is not
        assert r[1..] == [i % 256];
      } else {
        SignedBytesMinimal(q);
        var tail := r[1..];
        assert tail[..|tail| - 1] == p[1..] && tail[0] == p[1..][0];
        assert BEValue(tail) == BEValue(p[1..]) * 256 + i % 256;
      }
    }
  }
}
