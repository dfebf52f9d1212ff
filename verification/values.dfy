/** Attribute values and their self-describing byte form (`Value::bytes` and
    `Value::from_bytes`): one tag byte followed by the payload. */
module Values {
  import opened Results
  import opened Bytes
  import opened Ids

  /** `Value`. A string is held as its UTF-8 bytes; a decimal as the pair
      (unscaled integer, scale) that `as_bigint_and_exponent` returns. */
  datatype Value =
    | String(text: seq<byte>)
    | Integer(integer: int)
    | Decimal(mantissa: int, scale: i64)
    | Id(id: ID)
    | Boolean(truth: bool)

  /** The bytes of a string literal, one per character: for the ASCII
      idents this model writes these are their UTF-8 bytes, what
      `Value::from(&str)` stores. */
  function Ascii(s: string): (r: seq<byte>)
    ensures |r| == |s|
  {
    seq(|s|, i requires 0 <= i < |s| => (s[i] as int) % 256)
  }

  const STRING_TAG: byte := 0
  const INTEGER_TAG: byte := 1
  const DECIMAL_TAG: byte := 2
  const ID_TAG: byte := 3
  const BOOLEAN_TAG: byte := 4

  function Tag(v: Value): byte
  {
    match v
    case String(_) => STRING_TAG
    case Integer(_) => INTEGER_TAG
    case Decimal(_, _) => DECIMAL_TAG
    case Id(_) => ID_TAG
    case Boolean(_) => BOOLEAN_TAG
  }

  /** `Value::bytes`. */
  function ValueBytes(v: Value): (r: seq<byte>)
    ensures |r| >= 1 && r[0] == Tag(v)
  {
    match v
    case String(s) => [STRING_TAG] + s
    case Integer(i) => [INTEGER_TAG] + SignedBytes(i)
    case Decimal(m, e) => [DECIMAL_TAG] + I64Bytes(e) + SignedBytes(m)
    case Id(id) => [ID_TAG] + IdBytes(id)
    case Boolean(b) => [BOOLEAN_TAG, if b then 1 else 0]
  }

  /** `Value::from_bytes`. An empty input panics (the tag byte is read
      unchecked); an unknown tag or a payload of the wrong shape is `Invalid`. */
  function FromBytes(bs: seq<byte>): (r: Parse<Value>)
    ensures r.Panic? <==> |bs| == 0
    ensures r.Parsed? ==> Tag(r.value) == bs[0]
    ensures r.Invalid? <==> |bs| > 0 && (bs[0] > BOOLEAN_TAG
                                        || (bs[0] == DECIMAL_TAG && |bs| < 9)
                                        || (bs[0] == ID_TAG && |bs| != 17)
                                        || (bs[0] == BOOLEAN_TAG && (|bs| != 2 || bs[1] > 1)))
  {
    if |bs| == 0 then Panic
    else if bs[0] == STRING_TAG then Parsed(String(bs[1..]))
    else if bs[0] == INTEGER_TAG then Parsed(Integer(SignedValue(bs[1..])))
    else if bs[0] == DECIMAL_TAG then
      if |bs| < 9 then Invalid else Parsed(Decimal(SignedValue(bs[9..]), I64Value(bs[1..9])))
    else if bs[0] == ID_TAG then
      if |bs| != 17 then Invalid else Parsed(Id(IdFromBytes(bs[1..17])))
    else if bs[0] == BOOLEAN_TAG then
      if |bs| != 2 then Invalid
      else if bs[1] == 0 then Parsed(Boolean(false))
      else if bs[1] == 1 then Parsed(Boolean(true))
      else Invalid
    else Invalid
  }

  /** Decoding the bytes of any value gives the value back. */
  lemma RoundTrip(v: Value)
    ensures FromBytes(ValueBytes(v)) == Parsed(v)
  {
    var bs := ValueBytes(v);
    match v
    case String(s) =>
      assert bs[1..] == s;
    case Integer(i) =>
      assert bs[1..] == SignedBytes(i);
      SignedRoundTrip(i);
    case Decimal(m, e) =>
      assert bs[1..9] == I64Bytes(e) && bs[9..] == SignedBytes(m);
      SignedRoundTrip(m);
      I64RoundTrip(e);
    case Id(id) =>
      assert bs[1..17] == IdBytes(id);
      IdRoundTrip(id);
    case Boolean(b) =>
  }

  /** Different values have different bytes. */
  lemma ValueBytesInjective(v: Value, w: Value)
    ensures ValueBytes(v) == ValueBytes(w) <==> v == w
  {
    if ValueBytes(v) == ValueBytes(w) {
      RoundTrip(v);
      RoundTrip(w);
    }
  }

  /** Strings, IDs and booleans have one byte form only: whatever decodes to
      one of them is exactly its encoding. Integers and decimals also decode
      from non-minimal forms (an empty integer payload is zero). */
  lemma FixedKindsCanonical(bs: seq<byte>)
    requires FromBytes(bs).Parsed? && Tag(FromBytes(bs).value) in {STRING_TAG, ID_TAG, BOOLEAN_TAG}
    ensures ValueBytes(FromBytes(bs).value) == bs
  {
    var v := FromBytes(bs).value;
    if v.Id? {
      IdBytesRoundTrip(bs[1..17]);
      assert bs == [bs[0]] + bs[1..17];
    } else if v.String? {
      assert bs == [bs[0]] + bs[1..];
    }
  }

  /** The byte forms of integers the source's unit tests fix. */
  lemma IntegerVectors()
    ensures ValueBytes(String([])) == [0]
    ensures ValueBytes(Integer(0)) == [1, 0]
    ensures ValueBytes(Integer(255)) == [1, 0, 255]
    ensures ValueBytes(Integer(127)) == [1, 127]
    ensures ValueBytes(Integer(65535)) == [1, 0, 255, 255]
    ensures ValueBytes(Integer(32767)) == [1, 127, 255]
  {
    assert SignedBytes(255) == SignedBytes(0) + [255];
    assert SignedBytes(65535) == SignedBytes(255) + [255];
    assert SignedBytes(32767) == SignedBytes(127) + [255];
  }

  /** The byte forms of the fixed-width values the source's unit tests fix. */
  lemma FixedWidthVectors()
    ensures ValueBytes(Decimal(0, 0)) == [2, 0, 0, 0, 0, 0, 0, 0, 0, 0]
    ensures ValueBytes(Id(NULL)) == [3, 0, 0, 0, 0, 0, 0, 0, 0, 0, 0, 0, 0, 0, 0, 0, 0]
    ensures ValueBytes(Boolean(true)) == [4, 1]
    ensures ValueBytes(Boolean(false)) == [4, 0]
  {
    Pow256Widths();
    BEZero(8);
    BEZero(16);
    assert I64Bytes(0) == seq(8, _ => 0) == [0, 0, 0, 0, 0, 0, 0, 0];
    assert IdBytes(NULL) == seq(16, _ => 0) == [0, 0, 0, 0, 0, 0, 0, 0, 0, 0, 0, 0, 0, 0, 0, 0];
  }

  /** The inputs the source's unit tests expect to be rejected, and the
      empty integer read as zero. */
  lemma DecodeVectors()
    ensures FromBytes([2]).Invalid?
    ensures FromBytes([3]).Invalid?
    ensures FromBytes([3, 0, 0, 0, 0, 0, 0, 0, 0, 0, 0, 0, 0, 0, 0, 0, 0, 0]).Invalid?
    ensures FromBytes([4, 3]).Invalid? && FromBytes([4]).Invalid?
    ensures FromBytes([4, 3, 0]).Invalid? && FromBytes([4, 0, 0]).Invalid?
    ensures FromBytes([5]).Invalid? && FromBytes([255]).Invalid?
    ensures FromBytes([1]) == Parsed(Integer(0))
  {
  }
}
