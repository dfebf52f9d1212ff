/** Key layouts (`serial`): how a datom is written as a key in each of the
    four indexes, how keys are read back, the transaction-record key, and
    the key ranges queries scan. Keys sort byte-lexicographically
    (`Bytes.Below`), so each range is a contiguous run of the store. */
module Serial {
  import opened Results
  import opened Bytes
  import opened Ids
  import opened Values
  import opened Datoms

  // ---------------------------------------------------------------------------
  // Writing keys
  // ---------------------------------------------------------------------------

  /** Values whose byte length fits the 8-byte length prefix. */
  predicate Storable(v: Value)
  {
    |ValueBytes(v)| < U64_LIMIT
  }

  /** An ID value is 17 bytes long, so it fits. */
  lemma IdStorable(id: ID)
    ensures Storable(Id(id))
  {
    assert |ValueBytes(Id(id))| == 17;
  }

  /** `serialize_v`: the value's byte length as a big-endian u64, then its bytes. */
  function ValueField(v: Value): (r: seq<byte>)
    ensures |r| == 8 + |ValueBytes(v)|
    ensures r[8..] == ValueBytes(v)
  {
    U64Bytes(|ValueBytes(v)| % U64_LIMIT) + ValueBytes(v)
  }

  function TypeField(d: Datom): seq<byte>
  {
    U64Bytes(d.t) + [DatomTypeByte(d.datomType)]
  }

  /** `serialize_eavt`, `serialize_aevt`, `serialize_avet` and `serialize_vaet`. */
  function Serialize(d: Datom, i: Index): (r: seq<byte>)
    ensures |r| > 0 && r[0] == IndexByte(i)
  {
    match i
    case EAVT => [IndexByte(i)] + IdBytes(d.entity) + IdBytes(d.attribute) + ValueField(d.value) + TypeField(d)
    case AEVT => [IndexByte(i)] + IdBytes(d.attribute) + IdBytes(d.entity) + ValueField(d.value) + TypeField(d)
    case AVET => [IndexByte(i)] + IdBytes(d.attribute) + ValueField(d.value) + IdBytes(d.entity) + TypeField(d)
    case VAET => [IndexByte(i)] + ValueField(d.value) + IdBytes(d.attribute) + IdBytes(d.entity) + TypeField(d)
  }

  /** The record a transaction leaves in the store: its t and its wall-clock
      time in milliseconds since the epoch. */
  datatype TransactionRecord = TransactionRecord(t: u64, millis: i64)

  const TR_BYTE: byte := 255

  /** `serialize_tr`: 255, then t and the timestamp as 8 big-endian bytes each. */
  function SerializeTr(tr: TransactionRecord): (r: seq<byte>)
    ensures |r| == 17 && r[0] == TR_BYTE
  {
    [TR_BYTE] + U64Bytes(tr.t) + I64Bytes(tr.millis)
  }

  // ---------------------------------------------------------------------------
  // Reading keys
  // ---------------------------------------------------------------------------

  /** `deserialize_byte`: the first byte; panics on an empty slice. */
  function ReadByte(bs: seq<byte>): (r: Parse<(byte, seq<byte>)>)
    ensures r.Parsed? <==> |bs| > 0
    ensures r.Parsed? ==> [r.value.0] + r.value.1 == bs
    ensures !r.Invalid?
  {
    if |bs| == 0 then Panic else Parsed((bs[0], bs[1..]))
  }

  /** `deserialize_id`: 16 bytes; a shorter slice panics. */
  function ReadId(bs: seq<byte>): (r: Parse<(ID, seq<byte>)>)
    ensures r.Parsed? <==> |bs| >= 16
    ensures r.Parsed? ==> IdBytes(r.value.0) + r.value.1 == bs
    ensures !r.Invalid?
  {
    if |bs| < 16 then Panic
    else
      IdBytesRoundTrip(bs[..16]);
      assert bs == bs[..16] + bs[16..];
      Parsed((IdFromBytes(bs[..16]), bs[16..]))
  }

  /** `deserialize_u64`: 8 bytes; a shorter slice panics. */
  function ReadU64(bs: seq<byte>): (r: Parse<(u64, seq<byte>)>)
    ensures r.Parsed? <==> |bs| >= 8
    ensures r.Parsed? ==> U64Bytes(r.value.0) + r.value.1 == bs
    ensures !r.Invalid?
  {
    if |bs| < 8 then Panic
    else
      Pow256Widths();
      BEOfBEValue(bs[..8]);
      assert bs == bs[..8] + bs[8..];
      Parsed((U64Value(bs[..8]), bs[8..]))
  }

  /** `deserialize_i64`: 8 bytes; a shorter slice panics. */
  function ReadI64(bs: seq<byte>): (r: Parse<(i64, seq<byte>)>)
    ensures r.Parsed? <==> |bs| >= 8
    ensures r.Parsed? ==> I64Bytes(r.value.0) + r.value.1 == bs
    ensures !r.Invalid?
  {
    if |bs| < 8 then Panic
    else
      Pow256Widths();
      BEOfBEValue(bs[..8]);
      assert I64Value(bs[..8]) % U64_LIMIT == U64Value(bs[..8]);
      assert bs == bs[..8] + bs[8..];
      Parsed((I64Value(bs[..8]), bs[8..]))
  }

  /** `deserialize_v`: a length, then that many bytes of value. A length past
      the end of the slice panics, and so does a zero length (the value
      decoder reads the tag of an empty slice); an undecodable value is
      `Invalid`. */
  function ReadValue(bs: seq<byte>): (r: Parse<(Value, seq<byte>)>)
    ensures r.Parsed? ==> 8 < |bs| - |r.value.1| && r.value.1 == bs[|bs| - |r.value.1|..]
    ensures r.Parsed? ==> FromBytes(bs[8..|bs| - |r.value.1|]) == Parsed(r.value.0)
  {
    var len :- ReadU64(bs);
    var n, rest := len.0, len.1;
    if n > |rest| then Panic
    else
      var v :- FromBytes(rest[..n]);
      assert rest[..n] == bs[8..8 + n] && rest[n..] == bs[8 + n..];
      Parsed((v, rest[n..]))
  }

  /** `deserialize_datom_type`: one byte that must be 0 or 1, else a panic. */
  function ReadDatomType(bs: seq<byte>): (r: Parse<(DatomType, seq<byte>)>)
    ensures r.Parsed? <==> |bs| > 0 && bs[0] <= 1
    ensures !r.Invalid?
  {
    var b :- ReadByte(bs);
    var ty :- DatomTypeFromByte(b.0);
    Parsed((ty, b.1))
  }

  /** `deserialize_eavt` and its three siblings: the fields in the index's
      order after the index byte, whose value is not checked. Bytes after
      the datom type are ignored. */
  function Deserialize(bs: seq<byte>, i: Index): (r: Parse<Datom>)
  {
    var b :- ReadByte(bs);
    match i
    case EAVT =>
      var e :- ReadId(b.1);
      var a :- ReadId(e.1);
      var v :- ReadValue(a.1);
      var t :- ReadU64(v.1);
      var ty :- ReadDatomType(t.1);
      Parsed(Datom(e.0, a.0, v.0, t.0, ty.0))
    case AEVT =>
      var a :- ReadId(b.1);
      var e :- ReadId(a.1);
      var v :- ReadValue(e.1);
      var t :- ReadU64(v.1);
      var ty :- ReadDatomType(t.1);
      Parsed(Datom(e.0, a.0, v.0, t.0, ty.0))
    case AVET =>
      var a :- ReadId(b.1);
      var v :- ReadValue(a.1);
      var e :- ReadId(v.1);
      var t :- ReadU64(e.1);
      var ty :- ReadDatomType(t.1);
      Parsed(Datom(e.0, a.0, v.0, t.0, ty.0))
    case VAET =>
      var v :- ReadValue(b.1);
      var a :- ReadId(v.1);
      var e :- ReadId(a.1);
      var t :- ReadU64(e.1);
      var ty :- ReadDatomType(t.1);
      Parsed(Datom(e.0, a.0, v.0, t.0, ty.0))
  }

  /** `deserialize_unknown`: the index is taken from the first byte. An empty
      key, or a first byte above 3 (such as a transaction record's 255),
      panics. */
  function DeserializeUnknown(bs: seq<byte>): (r: Parse<(Datom, Index)>)
    ensures r.Parsed? ==> |bs| > 0 && IndexByte(r.value.1) == bs[0]
    ensures |bs| == 0 || bs[0] > 3 ==> r.Panic?
  {
    var b :- ReadByte(bs);
    var i :- IndexFromByte(b.0);
    var d :- Deserialize(bs, i);
    Parsed((d, i))
  }

  /** `deserialize_tr`: the leading byte is skipped unread, then `t` and
      the millisecond timestamp follow as 8 big-endian bytes each; bytes
      after them are ignored. */
  function DeserializeTr(bs: seq<byte>): (r: Parse<TransactionRecord>)
    ensures |bs| < 17 ==> r.Panic?
    ensures |bs| >= 17 ==> r.Parsed?
    ensures r.Parsed? ==> U64Bytes(r.value.t) == bs[1..9] && I64Bytes(r.value.millis) == bs[9..17]
  {
    var b :- ReadByte(bs);
    var t :- ReadU64(b.1);
    var ms :- ReadI64(t.1);
    Parsed(TransactionRecord(t.0, ms.0))
  }

  // ---------------------------------------------------------------------------
  // Round trips
  // ---------------------------------------------------------------------------

  lemma ReadByteOf(b: byte, rest: seq<byte>)
    ensures ReadByte([b] + rest) == Parsed((b, rest))
  {
    assert ([b] + rest)[1..] == rest;
  }

  lemma ReadIdOf(id: ID, rest: seq<byte>)
    ensures ReadId(IdBytes(id) + rest) == Parsed((id, rest))
  {
    var bs := IdBytes(id) + rest;
    assert bs[..16] == IdBytes(id) && bs[16..] == rest;
    IdRoundTrip(id);
  }

  lemma ReadU64Of(x: u64, rest: seq<byte>)
    ensures ReadU64(U64Bytes(x) + rest) == Parsed((x, rest))
  {
    var bs := U64Bytes(x) + rest;
    assert bs[..8] == U64Bytes(x) && bs[8..] == rest;
    U64RoundTrip(x);
  }

  lemma ReadValueOf(v: Value, rest: seq<byte>)
    requires Storable(v)
    ensures ReadValue(ValueField(v) + rest) == Parsed((v, rest))
  {
    var vb := ValueBytes(v);
    var n := |vb|;
    assert n % U64_LIMIT == n;
    var tail := vb + rest;
    assert ValueField(v) + rest == U64Bytes(n) + tail;
    ReadU64Of(n, tail);
    assert tail[..n] == vb && tail[n..] == rest;
    RoundTrip(v);
  }

  lemma ReadTypeFieldOf(d: Datom, rest: seq<byte>)
    ensures ReadU64(TypeField(d) + rest) == Parsed((d.t, [DatomTypeByte(d.datomType)] + rest))
    ensures ReadDatomType([DatomTypeByte(d.datomType)] + rest) == Parsed((d.datomType, rest))
  {
    assert TypeField(d) + rest == U64Bytes(d.t) + ([DatomTypeByte(d.datomType)] + rest);
    ReadU64Of(d.t, [DatomTypeByte(d.datomType)] + rest);
    DatomTypeByteRoundTrip(d.datomType);
  }

  /** Reading a key back in its own index gives the datom that was written. */
  lemma DeserializeRoundTrip(d: Datom, i: Index)
    requires Storable(d.value)
    ensures Deserialize(Serialize(d, i), i) == Parsed(d)
  {
    ReadTypeFieldOf(d, []);
    assert TypeField(d) + [] == TypeField(d);
    match i
    case EAVT => EavtRoundTrip(d);
    case AEVT => AevtRoundTrip(d);
    case AVET => AvetRoundTrip(d);
    case VAET => VaetRoundTrip(d);
  }

  lemma EavtRoundTrip(d: Datom)
    requires Storable(d.value)
    requires ReadU64(TypeField(d)) == Parsed((d.t, [DatomTypeByte(d.datomType)]))
    requires ReadDatomType([DatomTypeByte(d.datomType)]) == Parsed((d.datomType, []))
    ensures Deserialize(Serialize(d, EAVT), EAVT) == Parsed(d)
  {
    var e, a, vf, tf := IdBytes(d.entity), IdBytes(d.attribute), ValueField(d.value), TypeField(d);
    Associate4([0], e, a, vf, tf);
    ReadByteOf(0, e + (a + (vf + tf)));
    ReadIdOf(d.entity, a + (vf + tf));
    ReadIdOf(d.attribute, vf + tf);
    ReadValueOf(d.value, tf);
  }

  lemma AevtRoundTrip(d: Datom)
    requires Storable(d.value)
    requires ReadU64(TypeField(d)) == Parsed((d.t, [DatomTypeByte(d.datomType)]))
    requires ReadDatomType([DatomTypeByte(d.datomType)]) == Parsed((d.datomType, []))
    ensures Deserialize(Serialize(d, AEVT), AEVT) == Parsed(d)
  {
    var e, a, vf, tf := IdBytes(d.entity), IdBytes(d.attribute), ValueField(d.value), TypeField(d);
    Associate4([1], a, e, vf, tf);
    ReadByteOf(1, a + (e + (vf + tf)));
    ReadIdOf(d.attribute, e + (vf + tf));
    ReadIdOf(d.entity, vf + tf);
    ReadValueOf(d.value, tf);
  }

  lemma AvetRoundTrip(d: Datom)
    requires Storable(d.value)
    requires ReadU64(TypeField(d)) == Parsed((d.t, [DatomTypeByte(d.datomType)]))
    requires ReadDatomType([DatomTypeByte(d.datomType)]) == Parsed((d.datomType, []))
    ensures Deserialize(Serialize(d, AVET), AVET) == Parsed(d)
  {
    var e, a, vf, tf := IdBytes(d.entity), IdBytes(d.attribute), ValueField(d.value), TypeField(d);
    var rest := a + (vf + (e + tf));
    assert Serialize(d, AVET) == [2] + rest by { Associate4([2], a, vf, e, tf); }
    assert ReadByte([2] + rest) == Parsed((2, rest)) by { ReadByteOf(2, rest); }
    assert ReadId(rest) == Parsed((d.attribute, vf + (e + tf))) by { ReadIdOf(d.attribute, vf + (e + tf)); }
    assert ReadValue(vf + (e + tf)) == Parsed((d.value, e + tf)) by { ReadValueOf(d.value, e + tf); }
    assert ReadId(e + tf) == Parsed((d.entity, tf)) by { ReadIdOf(d.entity, tf); }
    AvetFromReads(Serialize(d, AVET), d, rest, vf + (e + tf), e + tf, tf);
  }

  lemma VaetRoundTrip(d: Datom)
    requires Storable(d.value)
    requires ReadU64(TypeField(d)) == Parsed((d.t, [DatomTypeByte(d.datomType)]))
    requires ReadDatomType([DatomTypeByte(d.datomType)]) == Parsed((d.datomType, []))
    ensures Deserialize(Serialize(d, VAET), VAET) == Parsed(d)
  {
    var e, a, vf, tf := IdBytes(d.entity), IdBytes(d.attribute), ValueField(d.value), TypeField(d);
    var rest := vf + (a + (e + tf));
    assert Serialize(d, VAET) == [3] + rest by { Associate4([3], vf, a, e, tf); }
    assert ReadByte([3] + rest) == Parsed((3, rest)) by { ReadByteOf(3, rest); }
    assert ReadValue(rest) == Parsed((d.value, a + (e + tf))) by { ReadValueOf(d.value, a + (e + tf)); }
    assert ReadId(a + (e + tf)) == Parsed((d.attribute, e + tf)) by { ReadIdOf(d.attribute, e + tf); }
    assert ReadId(e + tf) == Parsed((d.entity, tf)) by { ReadIdOf(d.entity, tf); }
    VaetFromReads(Serialize(d, VAET), d, rest, a + (e + tf), e + tf, tf);
  }

  /** The VAET reads in order: value, attribute, entity, t, type. */
  lemma VaetFromReads(bs: seq<byte>, d: Datom, r1: seq<byte>, r2: seq<byte>, r3: seq<byte>, tf: seq<byte>)
    requires ReadByte(bs) == Parsed((3, r1))
    requires ReadValue(r1) == Parsed((d.value, r2)) && ReadId(r2) == Parsed((d.attribute, r3)) && ReadId(r3) == Parsed((d.entity, tf))
    requires ReadU64(tf) == Parsed((d.t, [DatomTypeByte(d.datomType)]))
    requires ReadDatomType([DatomTypeByte(d.datomType)]) == Parsed((d.datomType, []))
    ensures Deserialize(bs, VAET) == Parsed(d)
  {
  }

  /** The AVET reads in order: attribute, value, entity, t, type. */
  lemma AvetFromReads(bs: seq<byte>, d: Datom, r1: seq<byte>, r2: seq<byte>, r3: seq<byte>, tf: seq<byte>)
    requires ReadByte(bs) == Parsed((2, r1))
    requires ReadId(r1) == Parsed((d.attribute, r2)) && ReadValue(r2) == Parsed((d.value, r3)) && ReadId(r3) == Parsed((d.entity, tf))
    requires ReadU64(tf) == Parsed((d.t, [DatomTypeByte(d.datomType)]))
    requires ReadDatomType([DatomTypeByte(d.datomType)]) == Parsed((d.datomType, []))
    ensures Deserialize(bs, AVET) == Parsed(d)
  {
  }

  /** The index of a key is recovered from its first byte, and the datom with it. */
  lemma DeserializeUnknownRoundTrip(d: Datom, i: Index)
    requires Storable(d.value)
    ensures DeserializeUnknown(Serialize(d, i)) == Parsed((d, i))
  {
    DeserializeRoundTrip(d, i);
    IndexByteRoundTrip(i);
  }

  lemma TrRoundTrip(tr: TransactionRecord)
    ensures DeserializeTr(SerializeTr(tr)) == Parsed(tr)
  {
    var bs := SerializeTr(tr);
    assert bs[1..] == U64Bytes(tr.t) + I64Bytes(tr.millis);
    ReadU64Of(tr.t, I64Bytes(tr.millis));
    assert I64Bytes(tr.millis)[..8] == I64Bytes(tr.millis);
    I64RoundTrip(tr.millis);
  }

  // ---------------------------------------------------------------------------
  // Key ranges
  // ---------------------------------------------------------------------------

  /** A half-open range of keys `from..to`, as passed to `Storage::range`. */
  datatype KeyRange = KeyRange(from: seq<byte>, to: seq<byte>)

  predicate Contains(r: KeyRange, k: seq<byte>)
  {
    BelowOrEqual(r.from, k) && Below(k, r.to)
  }

  /** `index_range`: every key whose first byte is the index's byte. */
  function IndexRange(i: Index): KeyRange
  {
    KeyRange([IndexByte(i)], [IndexByte(i) + 1])
  }

  /** `tr_range`: from `[255]` to seventeen 255 bytes. */
  function TrRange(): KeyRange
  {
    KeyRange([TR_BYTE], seq(17, _ => TR_BYTE))
  }

  /** `eavt_entity_range`: the EAVT keys of one entity. Computing the end
      adds one to the entity as a `u128`, which overflows (a panic) for the
      largest ID. */
  function EavtEntityRange(e: ID): (r: Parse<KeyRange>)
    ensures r.Panic? <==> e == ID_LIMIT - 1
  {
    if e == ID_LIMIT - 1 then Panic
    else Parsed(KeyRange([IndexByte(EAVT)] + IdBytes(e), [IndexByte(EAVT)] + IdBytes(e + 1)))
  }

  /** `eavt_entity_attribute_range`: the EAVT keys of one entity and one
      attribute; the attribute's `u128` successor overflows for the largest ID. */
  function EavtEntityAttributeRange(e: ID, a: ID): (r: Parse<KeyRange>)
    ensures r.Panic? <==> a == ID_LIMIT - 1
  {
    if a == ID_LIMIT - 1 then Panic
    else
      var base := [IndexByte(EAVT)] + IdBytes(e);
      Parsed(KeyRange(base + IdBytes(a), base + IdBytes(a + 1)))
  }

  /** The least key above every key that starts with `from`: trailing 255
      bytes are dropped and the last remaining byte is incremented. The first
      byte is never changed; if every later byte is 255 the result is below
      `from`, an empty range. */
  function PrefixSuccessor(from: seq<byte>): (r: seq<byte>)
    ensures |r| <= |from|
    ensures |from| > 0 ==> |r| > 0 && r[0] == from[0]
  {
    if |from| <= 1 then from
    else if from[|from| - 1] < 255 then from[..|from| - 1] + [from[|from| - 1] + 1]
    else PrefixSuccessor(from[..|from| - 1])
  }

  /** The end the source computes in `avet_attribute_value_range` and
      `vaet_value_attribute_range`: scanning back from the last byte (and
      never reaching the first), 255 bytes are skipped and the first other
      byte is incremented, but the skipped 255 bytes are left in place. */
  function RangeEndAsWritten(from: seq<byte>): (r: seq<byte>)
    requires |from| > 0
    ensures |r| == |from|
  {
    BumpFrom(from, |from| - 1)
  }

  function BumpFrom(s: seq<byte>, i: nat): (r: seq<byte>)
    requires i < |s|
    ensures |r| == |s|
  {
    if i == 0 then s
    else if s[i] < 255 then s[i := s[i] + 1]
    else BumpFrom(s, i - 1)
  }

  /** `avet_attribute_value_range` with its end corrected to `PrefixSuccessor`:
      the AVET keys of one attribute and one value. */
  function AvetAttributeValueRange(a: ID, v: Value): KeyRange
  {
    var from := [IndexByte(AVET)] + IdBytes(a) + ValueField(v);
    KeyRange(from, PrefixSuccessor(from))
  }

  /** `vaet_value_attribute_range` with its end corrected to `PrefixSuccessor`:
      the VAET keys of one value and one attribute. */
  function VaetValueAttributeRange(v: Value, a: ID): KeyRange
  {
    var from := [IndexByte(VAET)] + ValueField(v) + IdBytes(a);
    KeyRange(from, PrefixSuccessor(from))
  }

  /** `avet_attribute_value_range` as the source computes it. */
  function AvetAttributeValueRangeAsWritten(a: ID, v: Value): KeyRange
  {
    var from := [IndexByte(AVET)] + IdBytes(a) + ValueField(v);
    KeyRange(from, RangeEndAsWritten(from))
  }

  /** `vaet_value_attribute_range` as the source computes it. */
  function VaetValueAttributeRangeAsWritten(v: Value, a: ID): KeyRange
  {
    var from := [IndexByte(VAET)] + ValueField(v) + IdBytes(a);
    KeyRange(from, RangeEndAsWritten(from))
  }

  // ---------------------------------------------------------------------------
  // What each range selects
  // ---------------------------------------------------------------------------

  /** An index range holds exactly the keys that start with the index's byte. */
  lemma IndexRangeSelects(i: Index, k: seq<byte>)
    ensures Contains(IndexRange(i), k) <==> |k| > 0 && k[0] == IndexByte(i)
  {
    var b := IndexByte(i);
    FirstByteBounds([b], k);
    FirstByteBounds([b + 1], k);
    if |k| > 0 && k[0] == b {
      assert k == [b] + k[1..];
      BelowOrEqualExtension([b], k[1..]);
    }
  }

  /** No datom key lies in the transaction-record range, and a record key
      lies in it unless it is the range's own end (t and timestamp both all
      ones). */
  lemma TrRangeSelects(d: Datom, i: Index, tr: TransactionRecord)
    ensures !Contains(TrRange(), Serialize(d, i))
    ensures Contains(TrRange(), SerializeTr(tr)) <==> SerializeTr(tr) != TrRange().to
  {
    var k := SerializeTr(tr);
    var top := TrRange().to;
    assert k == [TR_BYTE] + k[1..];
    BelowOrEqualExtension([TR_BYTE], k[1..]);
    if k != top {
      AllMaxAbove(k, top);
    } else {
      BelowIrreflexive(k);
    }
  }

  /** A string of 255 bytes is above every other string of its length. */
  lemma {:induction false} AllMaxAbove(k: seq<byte>, top: seq<byte>)
    requires |k| == |top| && k != top
    requires forall j :: 0 <= j < |top| ==> top[j] == 255
    ensures Below(k, top)
  {
    if k[0] == top[0] {
      assert k[1..] != top[1..] by {
        assert k == [k[0]] + k[1..] && top == [top[0]] + top[1..];
      }
      AllMaxAbove(k[1..], top[1..]);
    }
  }

  /** Splitting a range that shares a fixed-length head with the key. */
  lemma RangeHeads(p: seq<byte>, q: seq<byte>, x: seq<byte>, y: seq<byte>, z: seq<byte>)
    requires |p| == |q|
    ensures Contains(KeyRange(p + x, p + y), q + z) <==> p == q && Contains(KeyRange(x, y), z)
  {
    BelowCommonPrefix(p, x, z);
    BelowCommonPrefix(p, z, y);
    assert p + x == p + z <==> x == z by {
      if p + x == p + z {
        assert x == (p + x)[|p|..] && z == (p + z)[|p|..];
      }
    }
    if p != q {
      BelowTotal(p, q);
      if Below(p, q) {
        BelowExtend(p, q, y, z);
        BelowAsymmetric(p + y, q + z);
      } else {
        BelowExtend(q, p, z, x);
        BelowAsymmetric(p + x, q + z);
        BelowIrreflexive(p + x);
      }
    }
  }

  /** A range from one ID to its successor holds exactly the keys that
      continue with that ID. */
  lemma IdSuccessorRange(x: ID, y: ID, tail: seq<byte>)
    requires x + 1 < ID_LIMIT
    ensures Contains(KeyRange(IdBytes(x), IdBytes(x + 1)), IdBytes(y) + tail) <==> y == x
  {
    var k := IdBytes(y) + tail;
    if y == x {
      BelowOrEqualExtension(IdBytes(x), tail);
      IdOrder(x, x + 1);
      BelowExtend(IdBytes(x), IdBytes(x + 1), tail, []);
      assert IdBytes(x + 1) + [] == IdBytes(x + 1);
    } else if y < x {
      IdOrder(y, x);
      BelowExtend(IdBytes(y), IdBytes(x), tail, []);
      assert IdBytes(x) + [] == IdBytes(x);
      BelowAsymmetric(k, IdBytes(x));
      BelowIrreflexive(k);
    } else if y == x + 1 {
      BelowOrEqualExtension(IdBytes(x + 1), tail);
      BelowAsymmetric(k, IdBytes(x + 1));
      BelowIrreflexive(k);
    } else {
      IdOrder(x + 1, y);
      BelowExtend(IdBytes(x + 1), IdBytes(y), [], tail);
      assert IdBytes(x + 1) + [] == IdBytes(x + 1);
      BelowAsymmetric(k, IdBytes(x + 1));
    }
  }

  /** The entity range holds the EAVT key of a datom exactly when the datom
      is about that entity. */
  lemma EavtEntityRangeSelects(d: Datom, e: ID)
    requires EavtEntityRange(e).Parsed?
    ensures Contains(EavtEntityRange(e).value, Serialize(d, EAVT)) <==> d.entity == e
  {
    var rest := IdBytes(d.attribute) + ValueField(d.value) + TypeField(d);
    assert Serialize(d, EAVT) == [0] + (IdBytes(d.entity) + rest);
    RangeHeads([0], [0], IdBytes(e), IdBytes(e + 1), IdBytes(d.entity) + rest);
    IdSuccessorRange(e, d.entity, rest);
  }

  /** The entity-attribute range holds the EAVT key of a datom exactly when
      the datom is about that entity and that attribute. */
  lemma EavtEntityAttributeRangeSelects(d: Datom, e: ID, a: ID)
    requires EavtEntityAttributeRange(e, a).Parsed?
    ensures Contains(EavtEntityAttributeRange(e, a).value, Serialize(d, EAVT)) <==> d.entity == e && d.attribute == a
  {
    var rest := ValueField(d.value) + TypeField(d);
    var head := [0] + IdBytes(e);
    assert Serialize(d, EAVT) == ([0] + IdBytes(d.entity)) + (IdBytes(d.attribute) + rest);
    RangeHeads(head, [0] + IdBytes(d.entity), IdBytes(a), IdBytes(a + 1), IdBytes(d.attribute) + rest);
    IdBytesInjective(e, d.entity);
    assert head == [0] + IdBytes(d.entity) <==> e == d.entity by {
      if head == [0] + IdBytes(d.entity) {
        assert head[1..] == IdBytes(e) && ([0] + IdBytes(d.entity))[1..] == IdBytes(d.entity);
      }
    }
    IdSuccessorRange(a, d.attribute, rest);
  }

  /** Facts about the first byte of a string at or above another. */
  lemma FirstByteBounds(a: seq<byte>, k: seq<byte>)
    requires |a| > 0
    ensures BelowOrEqual(a, k) ==> |k| > 0 && a[0] <= k[0]
    ensures Below(k, a) ==> |k| == 0 || k[0] <= a[0]
    ensures Below(k, a) && |a| == 1 ==> |k| == 0 || k[0] < a[0]
  {
    if Below(k, a) && |a| == 1 && |k| > 0 && k[0] == a[0] {
      assert !Below(k[1..], a[1..]);
    }
  }

  /** Between `q + [c]` and `q + [c + 1]` lie exactly the extensions of `q + [c]`. */
  lemma {:induction false} BetweenSiblings(q: seq<byte>, c: byte, k: seq<byte>)
    requires c < 255
    requires BelowOrEqual(q + [c], k) && Below(k, q + [c + 1])
    ensures IsPrefix(q + [c], k)
  {
    var lo, hi := q + [c], q + [c + 1];
    FirstByteBounds(lo, k);
    FirstByteBounds(hi, k);
    if |q| == 0 {
      assert k[0] == c;
      assert k[..1] == [c];
    } else {
      assert k[0] == q[0];
      assert lo[1..] == q[1..] + [c] && hi[1..] == q[1..] + [c + 1];
      assert BelowOrEqual(q[1..] + [c], k[1..]) by {
        if lo == k {
          assert lo[1..] == k[1..];
        }
      }
      BetweenSiblings(q[1..], c, k[1..]);
      PrefixCons(lo, k);
    }
  }

  /** The keys from `q + [c]` up to `q + [c + 1]` are the extensions of `q + [c]`. */
  lemma SiblingRangeSelects(q: seq<byte>, c: byte, k: seq<byte>)
    requires c < 255
    ensures Contains(KeyRange(q + [c], q + [c + 1]), k) <==> IsPrefix(q + [c], k)
  {
    var from := q + [c];
    if IsPrefix(from, k) {
      var x := k[|from|..];
      assert k == from + x == q + ([c] + x);
      BelowOrEqualExtension(from, x);
      BelowCommonPrefix(q, [c] + x, [c + 1]);
    }
    if Contains(KeyRange(from, q + [c + 1]), k) {
      BetweenSiblings(q, c, k);
    }
  }

  /** The corrected end selects exactly the keys that start with `from`,
      provided some byte after the first is not 255. */
  lemma {:induction false} PrefixSuccessorSelects(from: seq<byte>, j: nat, k: seq<byte>)
    requires 1 <= j < |from| && from[j] < 255
    ensures Contains(KeyRange(from, PrefixSuccessor(from)), k) <==> IsPrefix(from, k)
  {
    var n := |from|;
    var q, c := from[..n - 1], from[n - 1];
    var to := PrefixSuccessor(from);
    assert from == q + [c];
    if c < 255 {
      assert to == q + [c + 1];
      SiblingRangeSelects(q, c, k);
    } else {
      assert j < n - 1 && q[j] == from[j];
      assert to == PrefixSuccessor(q);
      PrefixSuccessorSelects(q, j, k);
      BelowOrEqualExtension(q, [c]);
      if IsPrefix(from, k) {
        assert k[..n - 1] == q;
        BelowOrEqualExtension(from, k[n..]);
        assert k == from + k[n..];
      }
      if Contains(KeyRange(from, to), k) {
        if from != k {
          BelowTransitive(q, from, k);
        }
        assert IsPrefix(q, k);
        var x := k[n - 1..];
        assert k == q + x;
        BelowCommonPrefix(q, [c], x);
        assert from + [] == q + [c];
        assert BelowOrEqual([c], x) by {
          if from == k {
            assert x == [c];
          }
        }
        FirstByteBounds([c], x);
        assert k[..n] == from;
      }
    }
  }

  /** A length-prefixed value field is a prefix of another field (and
      whatever follows it) only when the values are equal. */
  lemma ValueFieldPrefix(v: Value, w: Value, rest: seq<byte>)
    requires Storable(v) && Storable(w)
    ensures IsPrefix(ValueField(v), ValueField(w) + rest) <==> v == w
  {
    if IsPrefix(ValueField(v), ValueField(w) + rest) {
      ValueFieldPrefixBytes(v, w, rest);
      ValueBytesInjective(v, w);
    }
    PrefixOfAppend(ValueField(v), rest);
  }

  lemma ValueFieldPrefixBytes(v: Value, w: Value, rest: seq<byte>)
    requires Storable(v) && Storable(w)
    requires IsPrefix(ValueField(v), ValueField(w) + rest)
    ensures ValueBytes(v) == ValueBytes(w)
  {
    ValueFieldShape(v);
    ValueFieldShape(w);
    LengthPrefixedEqual(ValueBytes(v), ValueBytes(w), rest);
  }

  lemma ValueFieldShape(v: Value)
    requires Storable(v)
    ensures ValueField(v) == U64Bytes(|ValueBytes(v)|) + ValueBytes(v)
  {
    var n := |ValueBytes(v)|;
    assert n % U64_LIMIT == n;
  }

  /** A length-prefixed byte string that is a prefix of another followed by
      anything is that other string. */
  lemma LengthPrefixedEqual(vb: seq<byte>, wb: seq<byte>, rest: seq<byte>)
    requires |vb| < U64_LIMIT && |wb| < U64_LIMIT
    requires IsPrefix(U64Bytes(|vb|) + vb, U64Bytes(|wb|) + wb + rest)
    ensures vb == wb
  {
    assert U64Bytes(|wb|) + wb + rest == U64Bytes(|wb|) + (wb + rest);
    PrefixHeads(U64Bytes(|vb|), U64Bytes(|wb|), vb, wb + rest);
    U64RoundTrip(|vb|);
    U64RoundTrip(|wb|);
    PrefixSameLength(vb, wb, rest);
  }

  /** Heads of equal length followed by tails: prefix-of splits accordingly. */
  lemma PrefixHeads(p: seq<byte>, q: seq<byte>, x: seq<byte>, y: seq<byte>)
    requires |p| == |q|
    ensures IsPrefix(p + x, q + y) <==> p == q && IsPrefix(x, y)
  {
    if IsPrefix(p + x, q + y) {
      assert (q + y)[..|p|] == q && (p + x)[..|p|] == p;
      assert (q + y)[..|p + x|][..|p|] == (q + y)[..|p|];
      assert (q + y)[|p|..][..|x|] == (q + y)[..|p + x|][|p|..];
    }
    if p == q && IsPrefix(x, y) {
      assert (q + y)[..|p + x|] == q + y[..|x|];
    }
  }

  /** The (corrected) AVET range of an attribute and a value holds a datom's
      AVET key exactly when the datom has that attribute and that value. */
  lemma AvetAttributeValueRangeSelects(d: Datom, a: ID, v: Value)
    requires Storable(v) && Storable(d.value)
    ensures Contains(AvetAttributeValueRange(a, v), Serialize(d, AVET)) <==> d.attribute == a && d.value == v
  {
    var p, q := [2] + IdBytes(a), [2] + IdBytes(d.attribute);
    var rest := IdBytes(d.entity) + TypeField(d);
    AvetShapes(d, a, v);
    PrefixSuccessorSelects(p + ValueField(v), 25, q + (ValueField(d.value) + rest));
    PrefixHeads(p, q, ValueField(v), ValueField(d.value) + rest);
    ValueFieldPrefix(v, d.value, rest);
    HeadedIdsEqual(2, a, d.attribute);
  }

  lemma AvetShapes(d: Datom, a: ID, v: Value)
    ensures var from := [2] + IdBytes(a) + ValueField(v);
      AvetAttributeValueRange(a, v) == KeyRange(from, PrefixSuccessor(from)) &&
      |from| > 25 && from[25] < 255
    ensures Serialize(d, AVET) == ([2] + IdBytes(d.attribute)) + (ValueField(d.value) + (IdBytes(d.entity) + TypeField(d)))
  {
    AvetRangeShape(a, v);
    AvetKeyShape(d);
  }

  lemma AvetRangeShape(a: ID, v: Value)
    ensures var from := [2] + IdBytes(a) + ValueField(v);
      AvetAttributeValueRange(a, v) == KeyRange(from, PrefixSuccessor(from)) &&
      |from| > 25 && from[25] < 255
  {
    AvetRangeHead(a, v);
  }

  lemma AvetKeyShape(d: Datom)
    ensures Serialize(d, AVET) == ([2] + IdBytes(d.attribute)) + (ValueField(d.value) + (IdBytes(d.entity) + TypeField(d)))
  {
    Associate4([2], IdBytes(d.attribute), ValueField(d.value), IdBytes(d.entity), TypeField(d));
  }

  lemma AvetRangeHead(a: ID, v: Value)
    ensures var from := [2] + IdBytes(a) + ValueField(v);
      |from| > 25 && from[25] < 255
  {
    var p, vf := [2] + IdBytes(a), ValueField(v);
    assert |p| == 17;
    assert (p + vf)[25] == vf[8];
    assert vf[8..][0] == ValueBytes(v)[0];
  }

  /** An index byte followed by an ID determines the ID. */
  lemma HeadedIdsEqual(b: byte, x: ID, y: ID)
    ensures [b] + IdBytes(x) == [b] + IdBytes(y) <==> x == y
  {
    if [b] + IdBytes(x) == [b] + IdBytes(y) {
      assert ([b] + IdBytes(x))[1..] == IdBytes(x);
      assert ([b] + IdBytes(y))[1..] == IdBytes(y);
      IdBytesInjective(x, y);
    }
  }

  /** The (corrected) VAET range of a value and an attribute holds a datom's
      VAET key exactly when the datom has that value and that attribute. */
  lemma VaetValueAttributeRangeSelects(d: Datom, v: Value, a: ID)
    requires Storable(v) && Storable(d.value)
    ensures Contains(VaetValueAttributeRange(v, a), Serialize(d, VAET)) <==> d.value == v && d.attribute == a
  {
    var head := ValueField(v) + IdBytes(a);
    var rest := IdBytes(d.entity) + TypeField(d);
    var tail := ValueField(d.value) + (IdBytes(d.attribute) + rest);
    VaetShapes(d, v, a);
    PrefixSuccessorSelects([3] + head, 9, [3] + tail);
    PrefixHeads([3], [3], head, tail);
    ValueThenIdPrefix(v, a, d.value, d.attribute, rest);
  }

  lemma VaetShapes(d: Datom, v: Value, a: ID)
    ensures var head := ValueField(v) + IdBytes(a);
      VaetValueAttributeRange(v, a) == KeyRange([3] + head, PrefixSuccessor([3] + head)) &&
      ([3] + head)[9] < 255
    ensures Serialize(d, VAET) == [3] + (ValueField(d.value) + (IdBytes(d.attribute) + (IdBytes(d.entity) + TypeField(d))))
  {
    VaetRangeShape(v, a);
    Associate4([3], ValueField(d.value), IdBytes(d.attribute), IdBytes(d.entity), TypeField(d));
  }

  lemma VaetRangeShape(v: Value, a: ID)
    ensures var head := ValueField(v) + IdBytes(a);
      VaetValueAttributeRange(v, a) == KeyRange([3] + head, PrefixSuccessor([3] + head)) &&
      ([3] + head)[9] < 255
  {
    var vf, ia := ValueField(v), IdBytes(a);
    assert ([3] + (vf + ia))[9] == vf[8] == ValueBytes(v)[0];
    assert [3] + vf + ia == [3] + (vf + ia);
  }

  lemma Associate4(a: seq<byte>, b: seq<byte>, c: seq<byte>, d: seq<byte>, e: seq<byte>)
    ensures a + b + c + d + e == a + (b + (c + (d + e)))
  {
  }

  lemma ValueThenIdPrefix(v: Value, a: ID, w: Value, b: ID, rest: seq<byte>)
    requires Storable(v) && Storable(w)
    ensures IsPrefix(ValueField(v) + IdBytes(a), ValueField(w) + (IdBytes(b) + rest)) <==> v == w && a == b
  {
    var vf, wf, ia, ib := ValueField(v), ValueField(w), IdBytes(a), IdBytes(b);
    var k := wf + (ib + rest);
    if IsPrefix(vf + ia, k) {
      PrefixLeft(vf, ia, k);
      ValueFieldPrefix(v, w, ib + rest);
      PrefixHeads(vf, wf, ia, ib + rest);
      PrefixSameLength(ia, ib, rest);
      IdBytesInjective(a, b);
    }
    if v == w && a == b {
      PrefixHeads(vf, wf, ia, ib + rest);
      assert (ib + rest)[..|ia|] == ia;
    }
  }

  lemma PrefixSameLength(x: seq<byte>, y: seq<byte>, rest: seq<byte>)
    requires |x| == |y| && IsPrefix(x, y + rest)
    ensures x == y
  {
    assert (y + rest)[..|y|] == y;
  }

  lemma PrefixLeft(x: seq<byte>, y: seq<byte>, k: seq<byte>)
    requires IsPrefix(x + y, k)
    ensures IsPrefix(x, k)
  {
    assert k[..|x + y|][..|x|] == k[..|x|];
  }

  // ---------------------------------------------------------------------------
  // The range ends as the source computes them
  // ---------------------------------------------------------------------------

  /** A key continuing `p` with `[1, 0]` lies between `p + [0, 255]` and
      `p + [1, 255]` without starting with `p + [0, 255]`. */
  lemma StrayBetween(p: seq<byte>, rest: seq<byte>)
    ensures Contains(KeyRange(p + [0, 255], p + [1, 255]), p + ([1, 0] + rest))
    ensures !IsPrefix(p + [0, 255], p + ([1, 0] + rest))
  {
    var key := p + ([1, 0] + rest);
    BelowCommonPrefix(p, [0, 255], [1, 0] + rest);
    assert key == (p + [1]) + ([0] + rest) && p + [1, 255] == (p + [1]) + [255];
    BelowCommonPrefix(p + [1], [0] + rest, [255]);
    assert key[|p|] == 1;
  }

  /** The source's end of a key that finishes with `0, 255`. */
  lemma EndAsWrittenOfZeroMax(p: seq<byte>)
    requires |p| > 0
    ensures RangeEndAsWritten(p + [0, 255]) == p + [1, 255]
  {
    var from := p + [0, 255];
    var n := |p|;
    assert from[n + 1] == 255 && from[n] == 0;
    assert BumpFrom(from, n + 1) == BumpFrom(from, n) == from[n := 1];
    assert from[n := 1] == p + [1, 255];
  }

  lemma AvetEndAsWritten(a: ID, p: seq<byte>)
    requires p == [2] + IdBytes(a) + U64Bytes(3) + [1]
    ensures AvetAttributeValueRangeAsWritten(a, Integer(255)) == KeyRange(p + [0, 255], p + [1, 255])
  {
    assert ValueBytes(Integer(255)) == [1, 0, 255] by {
      assert SignedBytes(255) == SignedBytes(0) + [255];
    }
    assert [2] + IdBytes(a) + ValueField(Integer(255)) == p + [0, 255];
    EndAsWrittenOfZeroMax(p);
  }

  lemma AvetKey256(d: Datom, p: seq<byte>)
    requires d.value == Integer(256)
    requires p == [2] + IdBytes(d.attribute) + U64Bytes(3) + [1]
    ensures Serialize(d, AVET) == p + ([1, 0] + (IdBytes(d.entity) + TypeField(d)))
  {
    assert SignedBytes(256) == [1, 0] by {
      assert SignedBytes(256) == SignedBytes(1) + [0];
    }
    assert ValueBytes(Integer(256)) == [1, 1, 0];
    assert ValueField(d.value) == U64Bytes(3) + [1] + [1, 0];
    AvetKeyShape(d);
    var rest := IdBytes(d.entity) + TypeField(d);
    assert ValueField(d.value) + rest == U64Bytes(3) + [1] + ([1, 0] + rest);
  }

  /** Left-over 255 bytes widen the AVET range: the range the source builds
      for an attribute and the integer 255 also holds the AVET key of every
      datom giving that attribute the integer 256, which the corrected range
      excludes. */
  lemma AvetRangeAsWrittenOverreaches(a: ID, e: ID, t: u64, ty: DatomType)
    ensures var key := Serialize(Datom(e, a, Integer(256), t, ty), AVET);
      Contains(AvetAttributeValueRangeAsWritten(a, Integer(255)), key) &&
      !Contains(AvetAttributeValueRange(a, Integer(255)), key)
  {
    var d := Datom(e, a, Integer(256), t, ty);
    var p := [2] + IdBytes(a) + U64Bytes(3) + [1];
    AvetEndAsWritten(a, p);
    AvetKey256(d, p);
    StrayBetween(p, IdBytes(e) + TypeField(d));
    AvetAttributeValueRangeSelects(d, a, Integer(255));
  }

  lemma IdBytes255And256()
    ensures IdBytes(255) == seq(14, _ => 0) + [0, 255]
    ensures IdBytes(256) == seq(14, _ => 0) + [1, 0]
  {
    Pow256Widths();
    BESmall(255, 16);
    BESmall(1, 15);
    assert BE(256, 16) == BE(1, 15) + [0];
  }

  lemma VaetEndAsWritten(p: seq<byte>)
    requires p == [3] + ValueField(Boolean(true)) + seq(14, _ => 0)
    ensures VaetValueAttributeRangeAsWritten(Boolean(true), 255) == KeyRange(p + [0, 255], p + [1, 255])
  {
    IdBytes255And256();
    assert [3] + ValueField(Boolean(true)) + IdBytes(255) == p + [0, 255];
    EndAsWrittenOfZeroMax(p);
  }

  /** Left-over 255 bytes widen the VAET range: the range the source builds
      for the value `true` and attribute 255 also holds the VAET keys of
      attribute 256 with that value, which the corrected range excludes. */
  lemma VaetRangeAsWrittenOverreaches(e: ID, t: u64, ty: DatomType)
    ensures var key := Serialize(Datom(e, 256, Boolean(true), t, ty), VAET);
      Contains(VaetValueAttributeRangeAsWritten(Boolean(true), 255), key) &&
      !Contains(VaetValueAttributeRange(Boolean(true), 255), key)
  {
    var d := Datom(e, 256, Boolean(true), t, ty);
    var p := [3] + ValueField(Boolean(true)) + seq(14, _ => 0);
    VaetEndAsWritten(p);
    IdBytes255And256();
    var rest := IdBytes(e) + TypeField(d);
    assert Serialize(d, VAET) == p + ([1, 0] + rest);
    StrayBetween(p, rest);
    VaetValueAttributeRangeSelects(d, Boolean(true), 255);
  }

  // ---------------------------------------------------------------------------
  // Order within one fact
  // ---------------------------------------------------------------------------

  /** The trailing t and type byte order two datoms as `Earlier` does. */
  lemma TypeFieldOrder(d1: Datom, d2: Datom)
    ensures Below(TypeField(d1), TypeField(d2)) <==> Earlier(d1, d2)
  {
    var u1, u2 := U64Bytes(d1.t), U64Bytes(d2.t);
    var b1, b2 := [DatomTypeByte(d1.datomType)], [DatomTypeByte(d2.datomType)];
    U64Order(d1.t, d2.t);
    U64Order(d2.t, d1.t);
    if d1.t < d2.t {
      BelowExtend(u1, u2, b1, b2);
    } else if d2.t < d1.t {
      BelowExtend(u2, u1, b2, b1);
      BelowAsymmetric(TypeField(d2), TypeField(d1));
    } else {
      BelowCommonPrefix(u1, b1, b2);
      assert b1[1..] == [] && b2[1..] == [];
    }
  }

  /** Datoms of the same entity, attribute and value sit in every index in
      `Earlier` order: their keys differ only in the trailing t and type. */
  lemma SameFactOrder(d1: Datom, d2: Datom, i: Index)
    requires d1.entity == d2.entity && d1.attribute == d2.attribute && d1.value == d2.value
    ensures Below(Serialize(d1, i), Serialize(d2, i)) <==> Earlier(d1, d2)
  {
    var p := Serialize(d1, i)[..|Serialize(d1, i)| - 9];
    assert Serialize(d1, i) == p + TypeField(d1);
    assert Serialize(d2, i) == p + TypeField(d2);
    BelowCommonPrefix(p, TypeField(d1), TypeField(d2));
    TypeFieldOrder(d1, d2);
  }
}
