/** Entity identifiers (`ID`): 128-bit numbers whose byte form is the 16-byte
    big-endian UUID, so that numeric order, UUID order and key order agree. */
module Ids {
  import opened Bytes

  const ID_LIMIT: nat := 0x1_0000_0000_0000_0000_0000_0000_0000_0000
  const SECONDS_LIMIT: nat := 0x1_0000_0000

  type ID = x: int | 0 <= x < ID_LIMIT

  /** `ID::null`, the all-zero UUID. */
  const NULL: ID := 0

  /** The 16 bytes of an ID (`<[u8; 16]>::from`). */
  function IdBytes(id: ID): (r: seq<byte>)
    ensures |r| == 16
  {
    Pow256Widths();
    BE(id, 16)
  }

  /** The ID a 16-byte string denotes (`ID::from([u8; 16])`). */
  function IdFromBytes(bs: seq<byte>): (r: ID)
    requires |bs| == 16
  {
    Pow256Widths();
    BEValue(bs)
  }

  lemma IdRoundTrip(id: ID)
    ensures IdFromBytes(IdBytes(id)) == id
  {
    Pow256Widths();
    BEValueOfBE(id, 16);
  }

  lemma IdBytesRoundTrip(bs: seq<byte>)
    requires |bs| == 16
    ensures IdBytes(IdFromBytes(bs)) == bs
  {
    Pow256Widths();
    BEOfBEValue(bs);
  }

  /** Byte order of IDs is numeric order. */
  lemma IdOrder(x: ID, y: ID)
    ensures Below(IdBytes(x), IdBytes(y)) <==> x < y
  {
    Pow256Widths();
    BEOrder(x, y, 16);
  }

  lemma IdBytesInjective(x: ID, y: ID)
    ensures IdBytes(x) == IdBytes(y) <==> x == y
  {
    IdRoundTrip(x);
    IdRoundTrip(y);
  }

  /** `ID::new` (a "squuid"): a random UUID whose first four bytes are
      overwritten with the seconds since the epoch, truncated to 32 bits.
      The clock and the random UUID are parameters. */
  function NewId(secondsSinceEpoch: nat, randomUuid: seq<byte>): (r: ID)
    requires |randomUuid| == 16
    ensures IdBytes(r)[..4] == U32Bytes(secondsSinceEpoch % SECONDS_LIMIT)
    ensures IdBytes(r)[4..] == randomUuid[4..]
  {
    var bs := U32Bytes(secondsSinceEpoch % SECONDS_LIMIT) + randomUuid[4..];
    IdBytesRoundTrip(bs);
    IdFromBytes(bs)
  }

  function U32Bytes(x: nat): (r: seq<byte>)
    requires x < SECONDS_LIMIT
    ensures |r| == 4
  {
    Pow256Widths();
    BE(x, 4)
  }

  /** IDs minted in a later second (within one 32-bit epoch) sort after
      those minted earlier, whatever the random parts are. */
  lemma NewIdTimeOrdered(s1: nat, u1: seq<byte>, s2: nat, u2: seq<byte>)
    requires |u1| == 16 && |u2| == 16
    requires s1 % SECONDS_LIMIT < s2 % SECONDS_LIMIT
    ensures NewId(s1, u1) < NewId(s2, u2)
  {
    var x, y := NewId(s1, u1), NewId(s2, u2);
    Pow256Widths();
    BEOrder(s1 % SECONDS_LIMIT, s2 % SECONDS_LIMIT, 4);
    var kx, ky := IdBytes(x), IdBytes(y);
    assert kx == kx[..4] + kx[4..] && ky == ky[..4] + ky[4..];
    BelowExtend(kx[..4], ky[..4], kx[4..], ky[4..]);
    IdOrder(x, y);
  }
}
