/** The 80-byte block header and its wire form. */
module Header {
  import opened Words

  const HEADER_SIZE := 80

  datatype BlockHeader = BlockHeader(
    nVersion: i32,
    hashPrevBlock: Uint256,
    hashMerkleRoot: Uint256,
    nTime: u32,
    nBits: u32,
    nNonce: u32)

  /** static_cast between int32_t and uint32_t. */
  function ToU32(x: i32): u32 { if x < 0 then x + TWO32 else x }

  function ToI32(x: u32): i32 { if x < 0x8000_0000 then x else x - TWO32 }

  lemma SignRoundTrip(x: u32)
    ensures ToU32(ToI32(x)) == x
  {}

  function Serialize(h: BlockHeader): (r: Bytes)
    ensures |r| == HEADER_SIZE
  {
    LE(ToU32(h.nVersion), 4) + h.hashPrevBlock + h.hashMerkleRoot + LE(h.nTime, 4) + LE(h.nBits, 4) + LE(h.nNonce, 4)
  }

  /** Deserialize: false on short input, otherwise the first 80 bytes. */
  function Parse(data: Bytes): BlockHeader
    requires |data| >= HEADER_SIZE
  {
    BlockHeader(ToI32(ReadU32(data, 0)), data[4..36], data[36..68],
                ReadU32(data, 68), ReadU32(data, 72), ReadU32(data, 76))
  }

  /** Where the fields stand: the words little-endian, the version in two's complement. */
  lemma FieldsStand(h: BlockHeader)
    ensures var s := Serialize(h);
      && (ReadU32(s, 0) - h.nVersion) % 0x1_0000_0000 == 0
      && s[4..36] == h.hashPrevBlock && s[36..68] == h.hashMerkleRoot
      && ReadU32(s, 68) == h.nTime && ReadU32(s, 72) == h.nBits && ReadU32(s, 76) == h.nNonce
  {
    hide LE, ReadU32;
    var s := Serialize(h);
    assert s[0..4] == LE(ToU32(h.nVersion), 4);
    assert s[68..72] == LE(h.nTime, 4);
    assert s[72..76] == LE(h.nBits, 4);
    assert s[76..80] == LE(h.nNonce, 4);
    U32RoundTrip(ToU32(h.nVersion), s, 0);
    U32RoundTrip(h.nTime, s, 68);
    U32RoundTrip(h.nBits, s, 72);
    U32RoundTrip(h.nNonce, s, 76);
  }

  /** A header comes back from its wire form, whatever follows it. */
  lemma ParseSerialize(h: BlockHeader, suffix: Bytes)
    ensures Parse(Serialize(h) + suffix) == h
  {
    hide LE, ReadU32;
    var d := Serialize(h) + suffix;
    assert d[0..4] == LE(ToU32(h.nVersion), 4);
    assert d[4..36] == h.hashPrevBlock;
    assert d[36..68] == h.hashMerkleRoot;
    assert d[68..72] == LE(h.nTime, 4);
    assert d[72..76] == LE(h.nBits, 4);
    assert d[76..80] == LE(h.nNonce, 4);
    U32RoundTrip(ToU32(h.nVersion), d, 0);
    U32RoundTrip(h.nTime, d, 68);
    U32RoundTrip(h.nBits, d, 72);
    U32RoundTrip(h.nNonce, d, 76);
  }

  /** Every 80 bytes are the wire form of the header they parse to, so no two byte strings share
      a header. */
  lemma SerializeParse(data: Bytes)
    requires |data| >= HEADER_SIZE
    ensures Serialize(Parse(data)) == data[..HEADER_SIZE]
  {
    hide ReadU32, LE;
    U32Written(data, 0);
    U32Written(data, 68);
    U32Written(data, 72);
    U32Written(data, 76);
    SignRoundTrip(ReadU32(data, 0));
    assert data[..80] == data[0..4] + data[4..36] + data[36..68] + data[68..72] + data[72..76] + data[76..80];
  }
}
