/** The value type of the crate's first revision (`src/types/value.rs`): the
    five kinds of today's `Value` plus `Repeated`, a set of values a query
    may hand back. Its byte form, its decoder, its equality, and the bytes
    its `Hash` feeds the hasher. */
module OldValues {
  import opened Results
  import opened Bytes
  import opened Ids
  import opened Values

  /** `Value` of the first revision. The five plain kinds are today's; a
      repeated value holds a set of values. */
  datatype OldValue = Plain(value: Value) | Repeated(items: set<OldValue>)

  const REPEATED_TAG: byte := 255

  /** `Value::bytes`: a plain value is written as today, a repeated one as
      the single byte 255, whatever it holds. */
  function OldBytes(v: OldValue): (r: seq<byte>)
    ensures |r| >= 1
    ensures r[0] == REPEATED_TAG <==> v.Repeated?
    ensures v.Repeated? ==> |r| == 1
  {
    match v
    case Plain(p) => ValueBytes(p)
    case Repeated(_) => [REPEATED_TAG]
  }

  // ---------------------------------------------------------------------------
  // Decoding
  // ---------------------------------------------------------------------------

  /** `Value::from_bytes` as written. The tag byte is read unchecked (an empty
      slice panics). The decimal branch reads its exponent from the first
      eight bytes of the slice, the tag included, and its mantissa from the
      ninth byte on; a slice shorter than eight bytes panics there. An ID is
      the bytes 1 to 17, a shorter slice panicking and longer ones having
      their tail ignored; a boolean is the second byte, 0 or 1, whatever
      follows it. Tags above 4 are `None`. */
  function FromBytesAsWritten(bs: seq<byte>): (r: Parse<OldValue>)
    ensures r.Panic? <==> |bs| == 0 || (bs[0] == DECIMAL_TAG && |bs| < 8)
                          || (bs[0] == ID_TAG && |bs| < 17) || (bs[0] == BOOLEAN_TAG && |bs| < 2)
    ensures r.Invalid? <==> |bs| > 0 && (bs[0] > BOOLEAN_TAG || (bs[0] == BOOLEAN_TAG && |bs| >= 2 && bs[1] > 1))
    ensures r.Parsed? ==> r.value.Plain? && Tag(r.value.value) == bs[0]
  {
    if |bs| == 0 then Panic
    else if bs[0] == STRING_TAG then Parsed(Plain(String(bs[1..])))
    else if bs[0] == INTEGER_TAG then Parsed(Plain(Integer(SignedValue(bs[1..]))))
    else if bs[0] == DECIMAL_TAG then
      if |bs| < 8 then Panic else Parsed(Plain(Decimal(SignedValue(bs[8..]), I64Value(bs[..8]))))
    else if bs[0] == ID_TAG then
      if |bs| < 17 then Panic else Parsed(Plain(Id(IdFromBytes(bs[1..17]))))
    else if bs[0] == BOOLEAN_TAG then
      if |bs| < 2 then Panic
      else if bs[1] == 0 then Parsed(Plain(Boolean(false)))
      else if bs[1] == 1 then Parsed(Plain(Boolean(true)))
      else Invalid
    else Invalid
  }

  /** `Value::from_bytes` with the decimal branch reading what `Value::bytes`
      wrote: the exponent from the eight bytes after the tag and the
      mantissa after those; a slice of fewer than nine bytes panics. Every
      other branch is the one above. */
  function OldFromBytes(bs: seq<byte>): (r: Parse<OldValue>)
    ensures r.Panic? <==> |bs| == 0 || (bs[0] == DECIMAL_TAG && |bs| < 9)
                          || (bs[0] == ID_TAG && |bs| < 17) || (bs[0] == BOOLEAN_TAG && |bs| < 2)
    ensures r.Invalid? <==> |bs| > 0 && (bs[0] > BOOLEAN_TAG || (bs[0] == BOOLEAN_TAG && |bs| >= 2 && bs[1] > 1))
    ensures r.Parsed? ==> r.value.Plain? && Tag(r.value.value) == bs[0]
  {
    if |bs| > 0 && bs[0] == DECIMAL_TAG then
      if |bs| < 9 then Panic else Parsed(Plain(Decimal(SignedValue(bs[9..]), I64Value(bs[1..9]))))
    else FromBytesAsWritten(bs)
  }

  /** The two decoders differ only on decimals. */
  lemma DecodersAgreeOffDecimals(bs: seq<byte>)
    requires |bs| == 0 || bs[0] != DECIMAL_TAG
    ensures FromBytesAsWritten(bs) == OldFromBytes(bs)
  {
  }

  /** Decoding the bytes of a plain value gives it back; a repeated value's
      single byte decodes to nothing. */
  lemma OldRoundTrip(v: OldValue)
    ensures OldFromBytes(OldBytes(v)) == if v.Plain? then Parsed(v) else Invalid
  {
    if v.Plain? {
      RoundTrip(v.value);
      var bs := ValueBytes(v.value);
      match v.value
      case Decimal(m, e) =>
        assert bs[1..9] == I64Bytes(e) && bs[9..] == SignedBytes(m);
        SignedRoundTrip(m);
        I64RoundTrip(e);
      case Id(id) =>
        assert bs[1..17] == IdBytes(id);
        IdRoundTrip(id);
      case _ =>
    }
  }

  /** Every plain value except a decimal survives the decoder as written. */
  lemma AsWrittenRoundTrip(v: Value)
    requires !v.Decimal?
    ensures FromBytesAsWritten(ValueBytes(v)) == Parsed(Plain(v))
  {
    OldRoundTrip(Plain(v));
    DecodersAgreeOffDecimals(ValueBytes(v));
  }

  /** Whatever the decoder as written reads as a decimal has the tag byte 2
      as the top byte of its exponent, so the exponent lies in
      [2 * 2^56, 3 * 2^56). */
  lemma AsWrittenDecimalScale(bs: seq<byte>)
    requires |bs| >= 8 && bs[0] == DECIMAL_TAG
    ensures FromBytesAsWritten(bs).Parsed?
    ensures var s := FromBytesAsWritten(bs).value.value.scale;
      2 * Pow256(7) <= s < 3 * Pow256(7)
  {
    var head := bs[..8];
    assert head == [DECIMAL_TAG] + head[1..];
    BEValueCons(DECIMAL_TAG, head[1..]);
    Pow256Widths();
    assert Pow256(8) == 256 * Pow256(7);
  }

  /** So a decimal whose exponent lies outside that band never comes back
      from its own bytes. */
  lemma DecimalLostAsWritten(m: int, e: i64)
    requires e < 2 * Pow256(7) || 3 * Pow256(7) <= e
    ensures FromBytesAsWritten(ValueBytes(Decimal(m, e))) != Parsed(Plain(Decimal(m, e)))
  {
    AsWrittenDecimalScale(ValueBytes(Decimal(m, e)));
  }

  /** The decimal 0 (mantissa 0, exponent 0), written as the tag and nine
      zero bytes, is read back as mantissa 0 with exponent 2^57. */
  lemma DecimalZeroMisread()
    ensures ValueBytes(Decimal(0, 0)) == [2, 0, 0, 0, 0, 0, 0, 0, 0, 0]
    ensures FromBytesAsWritten(ValueBytes(Decimal(0, 0))) == Parsed(Plain(Decimal(0, 144115188075855872)))
  {
    FixedWidthVectors();
    var bs: seq<byte> := [2, 0, 0, 0, 0, 0, 0, 0, 0, 0];
    var zeros: seq<byte> := [0, 0, 0, 0, 0, 0, 0];
    assert bs[8..] == [0, 0];
    assert SignedValue([0, 0]) == 0 by {
      assert [0, 0][..1] == [0];
    }
    assert bs[..8] == [2] + zeros;
    BEValueCons(2, zeros);
    Pow256Widths();
    BEZero(7);
    assert BE(0, 7) == zeros;
    BEValueOfBE(0, 7);
    assert Pow256(7) == 72057594037927936;
    assert I64Value(bs[..8]) == 144115188075855872;
  }

  /** Today's decoder is the stricter one: whatever it reads, the first
      revision's (corrected) decoder reads the same. */
  lemma CurrentDecoderStricter(bs: seq<byte>)
    requires FromBytes(bs).Parsed?
    ensures OldFromBytes(bs) == Parsed(Plain(FromBytes(bs).value))
  {
  }

  /** The first revision also reads an ID or a boolean with trailing bytes,
      which today's decoder refuses. */
  lemma LenientTails(id: ID)
    ensures OldFromBytes(ValueBytes(Id(id)) + [0]) == Parsed(Plain(Id(id)))
    ensures FromBytes(ValueBytes(Id(id)) + [0]).Invalid?
    ensures OldFromBytes([BOOLEAN_TAG, 1, 0]) == Parsed(Plain(Boolean(true)))
    ensures FromBytes([BOOLEAN_TAG, 1, 0]).Invalid?
  {
    var bs := ValueBytes(Id(id)) + [0];
    assert bs[1..17] == IdBytes(id);
    IdRoundTrip(id);
  }

  // ---------------------------------------------------------------------------
  // Equality and hashing
  // ---------------------------------------------------------------------------

  function Pow10(n: nat): (r: nat)
    ensures r >= 1
  {
    if n == 0 then 1 else 10 * Pow10(n - 1)
  }

  lemma {:induction false} Pow10Add(a: nat, b: nat)
    ensures Pow10(a + b) == Pow10(a) * Pow10(b)
  {
    if a > 0 {
      Pow10Add(a - 1, b);
      assert Pow10(a + b) == 10 * Pow10(a - 1 + b);
    }
  }

  /** The decimals `m * 10^-s` and `n * 10^-t` are the same number. */
  predicate SameNumber(m: int, s: int, n: int, t: int)
  {
    if s <= t then m * Pow10(t - s) == n else n * Pow10(s - t) == m
  }

  function Magnitude(m: int): nat
  {
    if m < 0 then -m else m
  }

  /** A decimal with the trailing zeros of its mantissa removed, and zero as
      (0, 0): the one representative of its number. */
  function Normalize(m: int, s: int): (r: (int, int))
    ensures m == 0 <==> r == (0, 0)
    ensures m != 0 ==> r.1 <= s && m == r.0 * Pow10(s - r.1) && r.0 % 10 != 0
    decreases Magnitude(m)
  {
    if m == 0 then (0, 0)
    else if m % 10 == 0 then
      var q := m / 10;
      assert m == 10 * q;
      assert Magnitude(q) < Magnitude(m);
      var r := Normalize(q, s - 1);
      assert q == r.0 * Pow10(s - 1 - r.1);
      assert Pow10(s - r.1) == 10 * Pow10(s - 1 - r.1);
      r
    else (m, s)
  }

  /** A multiple of 10^k, k > 0, is a multiple of 10, and its tenth is
      the multiple of 10^(k - 1). */
  lemma ScaledTenth(m: int, k: nat)
    requires k > 0
    ensures (m * Pow10(k)) % 10 == 0 && (m * Pow10(k)) / 10 == m * Pow10(k - 1)
  {
    assert m * Pow10(k) == 10 * (m * Pow10(k - 1));
  }

  /** Equal numbers have equal representatives (one direction of
      `SameNumberNormal`), shown for the narrower exponent first. */
  lemma {:induction false} NormalOfScaled(m: int, s: int, k: nat)
    ensures Normalize(m * Pow10(k), s + k) == Normalize(m, s)
    decreases k
  {
    if k > 0 && m != 0 {
      ScaledTenth(m, k);
      assert m * Pow10(k) != 0;
      NormalOfScaled(m, s, k - 1);
    }
  }

  /** Equal numbers have equal representatives. */
  lemma SameNumberSameNormal(m: int, s: int, n: int, t: int)
    requires SameNumber(m, s, n, t)
    ensures Normalize(m, s) == Normalize(n, t)
  {
    if s <= t {
      NormalOfScaled(m, s, t - s);
    } else {
      NormalOfScaled(n, t, s - t);
    }
  }

  /** A number is its representative scaled back up. */
  lemma ScaledNormal(m: int, s: int, t: int)
    requires m != 0 && s <= t
    ensures var r := Normalize(m, s);
      m * Pow10(t - s) == r.0 * Pow10(t - r.1)
  {
    var r := Normalize(m, s);
    Pow10Add(s - r.1, t - s);
    assert m * Pow10(t - s) == r.0 * (Pow10(s - r.1) * Pow10(t - s));
  }

  /** Two decimals are the same number exactly when they have the same
      representative. */
  lemma SameNumberNormal(m: int, s: int, n: int, t: int)
    ensures SameNumber(m, s, n, t) <==> Normalize(m, s) == Normalize(n, t)
  {
    if SameNumber(m, s, n, t) {
      SameNumberSameNormal(m, s, n, t);
    } else if Normalize(m, s) == Normalize(n, t) && m != 0 {
      if s <= t {
        ScaledNormal(m, s, t);
      } else {
        ScaledNormal(n, t, s);
      }
    }
  }

  /** `PartialEq for Value`: the same kind and equal payloads. Decimals are
      `BigDecimal`s, which compare by the number they denote; repeated values
      compare as sets. */
  predicate OldEq(v: OldValue, w: OldValue)
  {
    match (v, w)
    case (Plain(Decimal(m, s)), Plain(Decimal(n, t))) => SameNumber(m, s, n, t)
    case (Plain(x), Plain(y)) => x == y
    case (Repeated(a), Repeated(b)) => a == b
    case _ => false
  }

  /** Equality is an equivalence, and on everything but decimals it is
      identity. */
  lemma OldEqEquivalence(u: OldValue, v: OldValue, w: OldValue)
    ensures OldEq(v, v)
    ensures OldEq(v, w) ==> OldEq(w, v)
    ensures OldEq(u, v) && OldEq(v, w) ==> OldEq(u, w)
    ensures !(v.Plain? && v.value.Decimal?) ==> (OldEq(v, w) <==> v == w)
  {
    forall x: OldValue, y: OldValue | x.Plain? && x.value.Decimal? && y.Plain? && y.value.Decimal?
      ensures OldEq(x, y) <==> Normalize(x.value.mantissa, x.value.scale) == Normalize(y.value.mantissa, y.value.scale)
    {
      SameNumberNormal(x.value.mantissa, x.value.scale, y.value.mantissa, y.value.scale);
    }
  }

  /** The bytes `Hash for Value` writes for a plain value: `Value::bytes`,
      the exponent and mantissa as stored. */
  function HashInputAsWritten(v: Value): (r: seq<byte>)
    ensures |r| >= 1 && r[0] == Tag(v)
  {
    ValueBytes(v)
  }

  /** `1.0` (mantissa 10, exponent 1) equals `1` (mantissa 1, exponent 0),
      yet the hasher is fed different bytes for them, so a `HashSet` may
      hold both or miss one when asked for the other. */
  lemma HashSplitsEqualDecimals()
    ensures OldEq(Plain(Decimal(10, 1)), Plain(Decimal(1, 0)))
    ensures HashInputAsWritten(Decimal(10, 1)) != HashInputAsWritten(Decimal(1, 0))
  {
    ValueBytesInjective(Decimal(10, 1), Decimal(1, 0));
  }

  /** The bytes to hash for a plain value so that equal values hash alike:
      a decimal is hashed as its representative (the tag, then the
      representative's exponent and mantissa in two's complement), every
      other value as its bytes. */
  function HashInput(v: Value): (r: seq<byte>)
    ensures |r| >= 1 && r[0] == Tag(v)
  {
    match v
    case Decimal(m, s) =>
      var r := Normalize(m, s);
      [DECIMAL_TAG] + SignedBytes(r.1) + SignedBytes(r.0)
    case _ => ValueBytes(v)
  }

  /** Equal plain values feed the hasher the same bytes, and values of
      different kinds never do. */
  lemma HashAgreesWithEq(v: Value, w: Value)
    ensures OldEq(Plain(v), Plain(w)) ==> HashInput(v) == HashInput(w)
    ensures Tag(v) != Tag(w) ==> HashInput(v) != HashInput(w)
  {
    if v.Decimal? && w.Decimal? {
      SameNumberNormal(v.mantissa, v.scale, w.mantissa, w.scale);
    }
  }
}
