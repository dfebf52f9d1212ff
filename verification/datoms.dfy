/** Datoms and the two one-byte enumerations stored with them: the index a
    key belongs to (`Index`) and whether a datom adds or retracts
    (`DatomType`). */
module Datoms {
  import opened Results
  import opened Bytes
  import opened Ids
  import opened Values

  /** The four sort orders the store keeps every datom in. */
  datatype Index = EAVT | AEVT | AVET | VAET

  function IndexByte(i: Index): (r: byte)
    ensures r <= 3
  {
    match i
    case EAVT => 0
    case AEVT => 1
    case AVET => 2
    case VAET => 3
  }

  /** `Index::from_byte`: bytes above 3 panic. */
  function IndexFromByte(b: byte): (r: Parse<Index>)
    ensures r.Parsed? <==> b <= 3
    ensures r.Parsed? ==> IndexByte(r.value) == b
    ensures !r.Invalid?
  {
    if b == 0 then Parsed(EAVT)
    else if b == 1 then Parsed(AEVT)
    else if b == 2 then Parsed(AVET)
    else if b == 3 then Parsed(VAET)
    else Panic
  }

  lemma IndexByteRoundTrip(i: Index)
    ensures IndexFromByte(IndexByte(i)) == Parsed(i)
  {
  }

  datatype DatomType = Addition | Retraction

  function DatomTypeByte(t: DatomType): (r: byte)
    ensures r <= 1
  {
    match t
    case Addition => 0
    case Retraction => 1
  }

  /** `DatomType::from_byte`: bytes other than 0 and 1 panic. */
  function DatomTypeFromByte(b: byte): (r: Parse<DatomType>)
    ensures r.Parsed? <==> b <= 1
    ensures r.Parsed? ==> DatomTypeByte(r.value) == b
    ensures !r.Invalid?
  {
    if b == 0 then Parsed(Addition)
    else if b == 1 then Parsed(Retraction)
    else Panic
  }

  lemma DatomTypeByteRoundTrip(t: DatomType)
    ensures DatomTypeFromByte(DatomTypeByte(t)) == Parsed(t)
  {
  }

  /** A single fact at a single point in time. */
  datatype Datom = Datom(entity: ID, attribute: ID, value: Value, t: u64, datomType: DatomType)

  /** The order of two datoms of one fact in every index: by t, and at the
      same t the Addition (type byte 0) before the Retraction (type byte 1). */
  predicate Earlier(d1: Datom, d2: Datom)
  {
    d1.t < d2.t || (d1.t == d2.t && DatomTypeByte(d1.datomType) < DatomTypeByte(d2.datomType))
  }
}
