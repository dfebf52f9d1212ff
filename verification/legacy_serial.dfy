/** Key layouts of the crate's first revision (`src/serial.rs`) and the key
    ranges its sled database scans (`src/sled/database.rs`). The layouts are
    today's, over datoms whose value may be repeated; reading a key back
    goes through the first revision's value decoder. */
module LegacySerial {
  import opened Results
  import opened Bytes
  import opened Ids
  import opened Values
  import opened Datoms
  import opened Serial
  import opened OldValues

  /** `Datom` of the first revision. */
  datatype OldDatom = OldDatom(entity: ID, attribute: ID, value: OldValue, t: u64, datomType: DatomType)

  /** A datom of today's kind, as the first revision holds it. */
  function Lift(d: Datom): OldDatom
  {
    OldDatom(d.entity, d.attribute, Plain(d.value), d.t, d.datomType)
  }

  /** Values whose byte length fits the 8-byte length prefix. */
  predicate OldStorable(v: OldValue)
  {
    |OldBytes(v)| < U64_LIMIT
  }

  /** `serialize_v`: the value's byte length as a big-endian u64, then its bytes. */
  function OldValueField(v: OldValue): (r: seq<byte>)
    ensures |r| == 8 + |OldBytes(v)|
    ensures r[8..] == OldBytes(v)
  {
    U64Bytes(|OldBytes(v)| % U64_LIMIT) + OldBytes(v)
  }

  function OldTypeField(d: OldDatom): seq<byte>
  {
    U64Bytes(d.t) + [DatomTypeByte(d.datomType)]
  }

  /** `serialize_eavt`, `serialize_aevt`, `serialize_avet`, `serialize_vaet`
      and `serialize`. */
  function OldSerialize(d: OldDatom, i: Index): (r: seq<byte>)
    ensures |r| > 0 && r[0] == IndexByte(i)
  {
    match i
    case EAVT => [IndexByte(i)] + IdBytes(d.entity) + IdBytes(d.attribute) + OldValueField(d.value) + OldTypeField(d)
    case AEVT => [IndexByte(i)] + IdBytes(d.attribute) + IdBytes(d.entity) + OldValueField(d.value) + OldTypeField(d)
    case AVET => [IndexByte(i)] + IdBytes(d.attribute) + OldValueField(d.value) + IdBytes(d.entity) + OldTypeField(d)
    case VAET => [IndexByte(i)] + OldValueField(d.value) + IdBytes(d.attribute) + IdBytes(d.entity) + OldTypeField(d)
  }

  /** The first revision writes a datom of today's kind under the very key
      today's code writes for it. */
  lemma SameLayouts(d: Datom, i: Index)
    ensures OldSerialize(Lift(d), i) == Serialize(d, i)
  {
    assert OldValueField(Plain(d.value)) == ValueField(d.value);
  }

  // ---------------------------------------------------------------------------
  // Reading keys
  // ---------------------------------------------------------------------------

  /** Which value decoder reads the keys: `Value::from_bytes` as written, or
      with its decimal branch corrected. */
  datatype Decoder = AsWritten | Corrected

  function DecodeValue(dec: Decoder, bs: seq<byte>): Parse<OldValue>
  {
    match dec
    case AsWritten => FromBytesAsWritten(bs)
    case Corrected => OldFromBytes(bs)
  }

  /** `deserialize_v`: a length, then that many bytes of value. A length past
      the end of the slice panics, and so does a zero length; an
      undecodable value is `None`. */
  function ReadOldValue(dec: Decoder, bs: seq<byte>): (r: Parse<(OldValue, seq<byte>)>)
    ensures r.Parsed? ==> 8 < |bs| - |r.value.1| && r.value.1 == bs[|bs| - |r.value.1|..]
    ensures r.Parsed? ==> DecodeValue(dec, bs[8..|bs| - |r.value.1|]) == Parsed(r.value.0)
  {
    var len :- ReadU64(bs);
    var n, rest := len.0, len.1;
    if n > |rest| then Panic
    else
      var v :- DecodeValue(dec, rest[..n]);
      assert rest[..n] == bs[8..8 + n] && rest[n..] == bs[8 + n..];
      Parsed((v, rest[n..]))
  }

  /** `deserialize_eavt`, `deserialize_aevt`, `deserialize_avet`,
      `deserialize_vaet` and `deserialize`: the fields in the index's order
      after the index byte, which is not checked. */
  function OldDeserialize(dec: Decoder, bs: seq<byte>, i: Index): (r: Parse<OldDatom>)
  {
    var b :- ReadByte(bs);
    match i
    case EAVT =>
      var e :- ReadId(b.1);
      var a :- ReadId(e.1);
      var v :- ReadOldValue(dec, a.1);
      var t :- ReadU64(v.1);
      var ty :- ReadDatomType(t.1);
      Parsed(OldDatom(e.0, a.0, v.0, t.0, ty.0))
    case AEVT =>
      var a :- ReadId(b.1);
      var e :- ReadId(a.1);
      var v :- ReadOldValue(dec, e.1);
      var t :- ReadU64(v.1);
      var ty :- ReadDatomType(t.1);
      Parsed(OldDatom(e.0, a.0, v.0, t.0, ty.0))
    case AVET =>
      var a :- ReadId(b.1);
      var v :- ReadOldValue(dec, a.1);
      var e :- ReadId(v.1);
      var t :- ReadU64(e.1);
      var ty :- ReadDatomType(t.1);
      Parsed(OldDatom(e.0, a.0, v.0, t.0, ty.0))
    case VAET =>
      var v :- ReadOldValue(dec, b.1);
      var a :- ReadId(v.1);
      var e :- ReadId(a.1);
      var t :- ReadU64(e.1);
      var ty :- ReadDatomType(t.1);
      Parsed(OldDatom(e.0, a.0, v.0, t.0, ty.0))
  }

  /** `deserialize_unknown`: the index is taken from the first byte; an
      empty key or a first byte above 3 panics. */
  function OldDeserializeUnknown(dec: Decoder, bs: seq<byte>): (r: Parse<(OldDatom, Index)>)
    ensures r.Parsed? ==> |bs| > 0 && IndexByte(r.value.1) == bs[0]
    ensures |bs| == 0 || bs[0] > 3 ==> r.Panic?
  {
    var b :- ReadByte(bs);
    var i :- IndexFromByte(b.0);
    var d :- OldDeserialize(dec, bs, i);
    Parsed((d, i))
  }

  // ---------------------------------------------------------------------------
  // Round trips
  // ---------------------------------------------------------------------------

  /** Neither decoder panics on the bytes of a value: a plain value's bytes
      are long enough for either, and a repeated value's byte is refused. */
  lemma DecodeWrittenValue(dec: Decoder, v: OldValue)
    ensures !DecodeValue(dec, OldBytes(v)).Panic?
    ensures dec == Corrected ==> DecodeValue(dec, OldBytes(v)) == if v.Plain? then Parsed(v) else Invalid
  {
    OldRoundTrip(v);
  }

  lemma ReadOldValueOf(dec: Decoder, v: OldValue, rest: seq<byte>)
    requires OldStorable(v)
    ensures var w := DecodeValue(dec, OldBytes(v));
      ReadOldValue(dec, OldValueField(v) + rest) == if w.Parsed? then Parsed((w.value, rest)) else Invalid
  {
    var vb := OldBytes(v);
    var n := |vb|;
    assert n % U64_LIMIT == n;
    var tail := vb + rest;
    assert OldValueField(v) + rest == U64Bytes(n) + tail;
    ReadU64Of(n, tail);
    assert tail[..n] == vb && tail[n..] == rest;
    DecodeWrittenValue(dec, v);
  }

  lemma ReadOldTypeFieldOf(d: OldDatom, rest: seq<byte>)
    ensures ReadU64(OldTypeField(d) + rest) == Parsed((d.t, [DatomTypeByte(d.datomType)] + rest))
    ensures ReadDatomType([DatomTypeByte(d.datomType)] + rest) == Parsed((d.datomType, rest))
  {
    assert OldTypeField(d) + rest == U64Bytes(d.t) + ([DatomTypeByte(d.datomType)] + rest);
    ReadU64Of(d.t, [DatomTypeByte(d.datomType)] + rest);
    DatomTypeByteRoundTrip(d.datomType);
  }

  /** Reading a key back in its own index gives the datom that was written,
      with its value as the decoder reads the value's bytes; a value the
      decoder refuses makes the whole key `None`. */
  lemma OldDeserializeReads(dec: Decoder, d: OldDatom, i: Index)
    requires OldStorable(d.value)
    ensures var w := DecodeValue(dec, OldBytes(d.value));
      OldDeserialize(dec, OldSerialize(d, i), i) == if w.Parsed? then Parsed(d.(value := w.value)) else Invalid
  {
    var tf := OldTypeField(d);
    ReadOldTypeFieldOf(d, []);
    assert tf + [] == tf;
    match i
    case EAVT => EavtReads(dec, d);
    case AEVT => AevtReads(dec, d);
    case AVET => AvetReads(dec, d);
    case VAET => VaetReads(dec, d);
  }

  lemma EavtReads(dec: Decoder, d: OldDatom)
    requires OldStorable(d.value)
    requires ReadU64(OldTypeField(d)) == Parsed((d.t, [DatomTypeByte(d.datomType)]))
    requires ReadDatomType([DatomTypeByte(d.datomType)]) == Parsed((d.datomType, []))
    ensures var w := DecodeValue(dec, OldBytes(d.value));
      OldDeserialize(dec, OldSerialize(d, EAVT), EAVT) == if w.Parsed? then Parsed(d.(value := w.value)) else Invalid
  {
    var e, a, vf, tf := IdBytes(d.entity), IdBytes(d.attribute), OldValueField(d.value), OldTypeField(d);
    Associate4([0], e, a, vf, tf);
    ReadByteOf(0, e + (a + (vf + tf)));
    ReadIdOf(d.entity, a + (vf + tf));
    ReadIdOf(d.attribute, vf + tf);
    ReadOldValueOf(dec, d.value, tf);
  }

  lemma AevtReads(dec: Decoder, d: OldDatom)
    requires OldStorable(d.value)
    requires ReadU64(OldTypeField(d)) == Parsed((d.t, [DatomTypeByte(d.datomType)]))
    requires ReadDatomType([DatomTypeByte(d.datomType)]) == Parsed((d.datomType, []))
    ensures var w := DecodeValue(dec, OldBytes(d.value));
      OldDeserialize(dec, OldSerialize(d, AEVT), AEVT) == if w.Parsed? then Parsed(d.(value := w.value)) else Invalid
  {
    var e, a, vf, tf := IdBytes(d.entity), IdBytes(d.attribute), OldValueField(d.value), OldTypeField(d);
    Associate4([1], a, e, vf, tf);
    ReadByteOf(1, a + (e + (vf + tf)));
    ReadIdOf(d.attribute, e + (vf + tf));
    ReadIdOf(d.entity, vf + tf);
    ReadOldValueOf(dec, d.value, tf);
  }

  lemma AvetReads(dec: Decoder, d: OldDatom)
    requires OldStorable(d.value)
    requires ReadU64(OldTypeField(d)) == Parsed((d.t, [DatomTypeByte(d.datomType)]))
    requires ReadDatomType([DatomTypeByte(d.datomType)]) == Parsed((d.datomType, []))
    ensures var w := DecodeValue(dec, OldBytes(d.value));
      OldDeserialize(dec, OldSerialize(d, AVET), AVET) == if w.Parsed? then Parsed(d.(value := w.value)) else Invalid
  {
    var e, a, vf, tf := IdBytes(d.entity), IdBytes(d.attribute), OldValueField(d.value), OldTypeField(d);
    Associate4([2], a, vf, e, tf);
    ReadByteOf(2, a + (vf + (e + tf)));
    ReadIdOf(d.attribute, vf + (e + tf));
    ReadOldValueOf(dec, d.value, e + tf);
    ReadIdOf(d.entity, tf);
  }

  lemma VaetReads(dec: Decoder, d: OldDatom)
    requires OldStorable(d.value)
    requires ReadU64(OldTypeField(d)) == Parsed((d.t, [DatomTypeByte(d.datomType)]))
    requires ReadDatomType([DatomTypeByte(d.datomType)]) == Parsed((d.datomType, []))
    ensures var w := DecodeValue(dec, OldBytes(d.value));
      OldDeserialize(dec, OldSerialize(d, VAET), VAET) == if w.Parsed? then Parsed(d.(value := w.value)) else Invalid
  {
    var e, a, vf, tf := IdBytes(d.entity), IdBytes(d.attribute), OldValueField(d.value), OldTypeField(d);
    Associate4([3], vf, a, e, tf);
    ReadByteOf(3, vf + (a + (e + tf)));
    ReadOldValueOf(dec, d.value, a + (e + tf));
    ReadIdOf(d.attribute, e + tf);
    ReadIdOf(d.entity, tf);
  }

  /** With the decimal branch corrected, every key of a plain datom reads
      back as that datom; a key of a repeated value is written but never
      read back. */
  lemma OldDeserializeRoundTrip(d: OldDatom, i: Index)
    requires OldStorable(d.value)
    ensures OldDeserialize(Corrected, OldSerialize(d, i), i) == if d.value.Plain? then Parsed(d) else Invalid
  {
    OldDeserializeReads(Corrected, d, i);
    DecodeWrittenValue(Corrected, d.value);
  }

  /** As written, every key whose value is plain and not a decimal reads back
      as its datom. */
  lemma AsWrittenKeyRoundTrip(d: OldDatom, i: Index)
    requires OldStorable(d.value) && d.value.Plain? && !d.value.value.Decimal?
    ensures OldDeserialize(AsWritten, OldSerialize(d, i), i) == Parsed(d)
  {
    OldDeserializeReads(AsWritten, d, i);
    AsWrittenRoundTrip(d.value.value);
  }

  /** As written, a key whose value is the decimal 0 reads back with the
      exponent 2^57 in place of 0. */
  lemma DecimalKeyMisread(d: OldDatom, i: Index)
    requires d.value == Plain(Decimal(0, 0))
    ensures OldDeserialize(AsWritten, OldSerialize(d, i), i) == Parsed(d.(value := Plain(Decimal(0, 144115188075855872))))
  {
    DecimalZeroMisread();
    OldDeserializeReads(AsWritten, d, i);
  }

  /** A key read without knowing its index gives the datom and the index. */
  lemma OldDeserializeUnknownRoundTrip(d: OldDatom, i: Index)
    requires OldStorable(d.value) && d.value.Plain?
    ensures OldDeserializeUnknown(Corrected, OldSerialize(d, i)) == Parsed((d, i))
  {
    var bs := OldSerialize(d, i);
    ReadByteOf(bs[0], bs[1..]);
    assert [bs[0]] + bs[1..] == bs;
    IndexByteRoundTrip(i);
    OldDeserializeRoundTrip(d, i);
  }

  // ---------------------------------------------------------------------------
  // Key ranges of the sled database
  // ---------------------------------------------------------------------------

  /** `avet_attribute_range`: the AVET keys of one attribute. Computing the
      end adds one to the attribute as a `u128`, which overflows (a panic)
      for the largest ID. */
  function AvetAttributeRange(a: ID): (r: Parse<KeyRange>)
    ensures r.Panic? <==> a == ID_LIMIT - 1
  {
    if a == ID_LIMIT - 1 then Panic
    else Parsed(KeyRange([IndexByte(AVET)] + IdBytes(a), [IndexByte(AVET)] + IdBytes(a + 1)))
  }

  /** The queries of `SledDatabase`, each a scan of one key range. */
  datatype Query =
    | AllDatoms(index: Index)
    | ForEntity(entity: ID)
    | ForEntityAttribute(entity: ID, attribute: ID)
    | ForAttribute(attribute: ID)

  /** The range each query of `SledDatabase` scans: `index_range` for
      `datoms`, `eavt_entity_range` for `datoms_for_entity`,
      `eavt_entity_attribute_range` for `datoms_for_entity_attribute` and
      `avet_attribute_range` for `datoms_for_attribute`. */
  function QueryRange(q: Query): (r: Parse<KeyRange>)
    ensures r.Panic? <==> (q.ForEntity? && q.entity == ID_LIMIT - 1)
                          || (q.ForEntityAttribute? && q.attribute == ID_LIMIT - 1)
                          || (q.ForAttribute? && q.attribute == ID_LIMIT - 1)
  {
    match q
    case AllDatoms(i) => Parsed(IndexRange(i))
    case ForEntity(e) => EavtEntityRange(e)
    case ForEntityAttribute(e, a) => EavtEntityAttributeRange(e, a)
    case ForAttribute(a) => AvetAttributeRange(a)
  }

  /** The keys a query is about: the index it reads and the fields it fixes. */
  predicate Selected(q: Query, d: OldDatom, i: Index)
  {
    match q
    case AllDatoms(j) => i == j
    case ForEntity(e) => i == EAVT && d.entity == e
    case ForEntityAttribute(e, a) => i == EAVT && d.entity == e && d.attribute == a
    case ForAttribute(a) => i == AVET && d.attribute == a
  }

  /** A range from a prefix and an ID to the prefix and the ID's successor
      holds exactly the keys that continue the prefix with that ID. */
  lemma PrefixedIdRange(p: seq<byte>, x: ID, k: seq<byte>)
    requires x + 1 < ID_LIMIT && |k| >= |p| + 16
    ensures Contains(KeyRange(p + IdBytes(x), p + IdBytes(x + 1)), k) <==> k[..|p|] == p && k[|p|..|p| + 16] == IdBytes(x)
  {
    var n := |p|;
    var y := IdFromBytes(k[n..n + 16]);
    IdBytesRoundTrip(k[n..n + 16]);
    assert k == k[..n] + (IdBytes(y) + k[n + 16..]);
    RangeHeads(p, k[..n], IdBytes(x), IdBytes(x + 1), IdBytes(y) + k[n + 16..]);
    IdSuccessorRange(x, y, k[n + 16..]);
    IdBytesInjective(x, y);
  }

  /** Each query's range holds the key of a datom in an index exactly when
      the query is about that datom in that index. */
  lemma QueryRangeSelects(q: Query, d: OldDatom, i: Index)
    requires QueryRange(q).Parsed?
    ensures Contains(QueryRange(q).value, OldSerialize(d, i)) <==> Selected(q, d, i)
  {
    match q
    case AllDatoms(j) =>
      IndexRangeSelects(j, OldSerialize(d, i));
      assert OldSerialize(d, i)[0] == IndexByte(j) <==> i == j;
    case ForEntity(e) => EntityRangeSelects(d, i, e);
    case ForEntityAttribute(e, a) => EntityAttributeRangeSelects(d, i, e, a);
    case ForAttribute(a) => AttributeRangeSelects(d, i, a);
  }

  lemma EntityRangeSelects(d: OldDatom, i: Index, e: ID)
    requires e + 1 < ID_LIMIT
    ensures Contains(EavtEntityRange(e).value, OldSerialize(d, i)) <==> i == EAVT && d.entity == e
  {
    PrefixedIdRange([0], e, OldSerialize(d, i));
    KeyHeads(d, i);
    IdBytesInjective(e, d.entity);
  }

  lemma EntityAttributeRangeSelects(d: OldDatom, i: Index, e: ID, a: ID)
    requires a + 1 < ID_LIMIT
    ensures Contains(EavtEntityAttributeRange(e, a).value, OldSerialize(d, i)) <==> i == EAVT && d.entity == e && d.attribute == a
  {
    var k := OldSerialize(d, i);
    var p := [0] + IdBytes(e);
    PrefixedIdRange(p, a, k);
    KeyHeads(d, i);
    assert k[..17] == p <==> k[..1] == [0] && k[1..17] == IdBytes(e) by {
      assert k[..17] == k[..1] + k[1..17];
      assert p[..1] == [0] && p[1..] == IdBytes(e);
    }
    IdBytesInjective(e, d.entity);
    IdBytesInjective(a, d.attribute);
  }

  lemma AttributeRangeSelects(d: OldDatom, i: Index, a: ID)
    requires a + 1 < ID_LIMIT
    ensures Contains(AvetAttributeRange(a).value, OldSerialize(d, i)) <==> i == AVET && d.attribute == a
  {
    PrefixedIdRange([2], a, OldSerialize(d, i));
    KeyHeads(d, i);
    IdBytesInjective(a, d.attribute);
  }

  /** Where the entity and the attribute sit in EAVT and AVET keys. */
  lemma KeyHeads(d: OldDatom, i: Index)
    ensures var k := OldSerialize(d, i);
      |k| >= 33 && k[..1] == [IndexByte(i)] &&
      (i == EAVT ==> k[1..17] == IdBytes(d.entity) && k[17..33] == IdBytes(d.attribute)) &&
      (i == AVET ==> k[1..17] == IdBytes(d.attribute))
  {
    var e, a, vf, tf := IdBytes(d.entity), IdBytes(d.attribute), OldValueField(d.value), OldTypeField(d);
    match i
    case EAVT => Heads([0], e, a, vf, tf);
    case AEVT => Heads([1], a, e, vf, tf);
    case AVET => Heads([2], a, vf, e, tf);
    case VAET => Heads([3], vf, a, e, tf);
  }

  /** The first byte and the next 16 of five pieces laid end to end. */
  lemma Heads(x: seq<byte>, y: seq<byte>, z: seq<byte>, u: seq<byte>, v: seq<byte>)
    requires |x| == 1 && |y| + |z| + |u| >= 32
    ensures var k := x + y + z + u + v;
      |k| >= 33 && k[..1] == x && (|y| == 16 ==> k[1..17] == y) && (|y| == 16 && |z| == 16 ==> k[17..33] == z)
  {
    var k := x + y + z + u + v;
    assert k == x + (y + (z + u + v));
    if |y| == 16 {
      assert k[1..17] == y;
    }
  }
}
