/** SHA-256 (FIPS 180-4): the hash over a whole message, and the streaming object that buffers
    partial blocks and pads at the end. */
module Sha256 {
  import opened Radix
  import opened Words

  // ---- section 4.1.2: functions on 32-bit words ----

  function Rotr(x: bv32, n: nat): bv32
    requires 0 < n < 32
  {
    (x >> n) | (x << (32 - n))
  }

  /** Addition modulo 2^32. */
  function Add(x: bv32, y: bv32): bv32 { x + y }

  function Ch(x: bv32, y: bv32, z: bv32): bv32 { (x & y) ^ (!x & z) }
  function Maj(x: bv32, y: bv32, z: bv32): bv32 { (x & y) ^ (x & z) ^ (y & z) }
  /** Where x has a bit Ch takes y's, elsewhere z's. */
  lemma ChChooses(x: bv32, y: bv32, z: bv32)
    ensures Ch(x, y, z) & x == y & x && Ch(x, y, z) & !x == z & !x
  {}

  /** Where two of the three have the same bit, Maj has it. */
  lemma MajAgrees(x: bv32, y: bv32, z: bv32)
    ensures Maj(x, y, z) & !(x ^ y) == x & !(x ^ y)
    ensures Maj(x, y, z) & !(x ^ z) == x & !(x ^ z)
    ensures Maj(x, y, z) & !(y ^ z) == y & !(y ^ z)
  {
    hide Maj;
    MajFirstTwo(x, y, z);
    MajOuterTwo(x, y, z);
    MajLastTwo(x, y, z);
  }

  lemma MajFirstTwo(x: bv32, y: bv32, z: bv32)
    ensures Maj(x, y, z) & !(x ^ y) == x & !(x ^ y)
  {}

  lemma MajOuterTwo(x: bv32, y: bv32, z: bv32)
    ensures Maj(x, y, z) & !(x ^ z) == x & !(x ^ z)
  {}

  lemma MajLastTwo(x: bv32, y: bv32, z: bv32)
    ensures Maj(x, y, z) & !(y ^ z) == y & !(y ^ z)
  {}

  function BigSigma0(x: bv32): bv32 { Rotr(x, 2) ^ Rotr(x, 13) ^ Rotr(x, 22) }
  function BigSigma1(x: bv32): bv32 { Rotr(x, 6) ^ Rotr(x, 11) ^ Rotr(x, 25) }
  function SmallSigma0(x: bv32): bv32 { Rotr(x, 7) ^ Rotr(x, 18) ^ (x >> 3) }
  function SmallSigma1(x: bv32): bv32 { Rotr(x, 17) ^ Rotr(x, 19) ^ (x >> 10) }

  /** Rotr is rotation to the right, by every amount the sigmas use. */
  lemma RotrRotates(x: bv32)
    ensures Rotr(x, 2) == x.RotateRight(2) && Rotr(x, 13) == x.RotateRight(13) && Rotr(x, 22) == x.RotateRight(22)
    ensures Rotr(x, 6) == x.RotateRight(6) && Rotr(x, 11) == x.RotateRight(11) && Rotr(x, 25) == x.RotateRight(25)
    ensures Rotr(x, 7) == x.RotateRight(7) && Rotr(x, 18) == x.RotateRight(18)
    ensures Rotr(x, 17) == x.RotateRight(17) && Rotr(x, 19) == x.RotateRight(19)
  {}

  /** Section 4.2.2, in rows of sixteen. */
  const K_ROW0: seq<bv32> := [
    0x428a2f98, 0x71374491, 0xb5c0fbcf, 0xe9b5dba5, 0x3956c25b, 0x59f111f1, 0x923f82a4, 0xab1c5ed5,
    0xd807aa98, 0x12835b01, 0x243185be, 0x550c7dc3, 0x72be5d74, 0x80deb1fe, 0x9bdc06a7, 0xc19bf174]
  const K_ROW1: seq<bv32> := [
    0xe49b69c1, 0xefbe4786, 0x0fc19dc6, 0x240ca1cc, 0x2de92c6f, 0x4a7484aa, 0x5cb0a9dc, 0x76f988da,
    0x983e5152, 0xa831c66d, 0xb00327c8, 0xbf597fc7, 0xc6e00bf3, 0xd5a79147, 0x06ca6351, 0x14292967]
  const K_ROW2: seq<bv32> := [
    0x27b70a85, 0x2e1b2138, 0x4d2c6dfc, 0x53380d13, 0x650a7354, 0x766a0abb, 0x81c2c92e, 0x92722c85,
    0xa2bfe8a1, 0xa81a664b, 0xc24b8b70, 0xc76c51a3, 0xd192e819, 0xd6990624, 0xf40e3585, 0x106aa070]
  const K_ROW3: seq<bv32> := [
    0x19a4c116, 0x1e376c08, 0x2748774c, 0x34b0bcb5, 0x391c0cb3, 0x4ed8aa4a, 0x5b9cca4f, 0x682e6ff3,
    0x748f82ee, 0x78a5636f, 0x84c87814, 0x8cc70208, 0x90befffa, 0xa4506ceb, 0xbef9a3f7, 0xc67178f2]
  const K: seq<bv32> := K_ROW0 + K_ROW1 + K_ROW2 + K_ROW3

  /** Section 5.3.3. */
  const INITIAL: seq<bv32> := [
    0x6a09e667, 0xbb67ae85, 0x3c6ef372, 0xa54ff53a, 0x510e527f, 0x9b05688c, 0x1f83d9ab, 0x5be0cd19]

  // ---- section 6.2.2: one block ----

  /** Big-endian word t of a block. */
  function WordAt(block: Bytes, t: nat): bv32
    requires 4 * t + 4 <= |block|
  {
    (block[4 * t] as bv32 << 24) | (block[4 * t + 1] as bv32 << 16)
    | (block[4 * t + 2] as bv32 << 8) | (block[4 * t + 3] as bv32)
  }

  /** The message schedule. */
  function W(block: Bytes, t: nat): bv32
    requires |block| == 64
  {
    if t < 16 then WordAt(block, t)
    else Add(Add(Add(W(block, t - 16), SmallSigma0(W(block, t - 15))), W(block, t - 7)), SmallSigma1(W(block, t - 2)))
  }

  datatype Vars = Vars(a: bv32, b: bv32, c: bv32, d: bv32, e: bv32, f: bv32, g: bv32, h: bv32)

  function Round(v: Vars, k: bv32, w: bv32): Vars {
    var t1 := Add(Add(Add(Add(v.h, BigSigma1(v.e)), Ch(v.e, v.f, v.g)), k), w);
    var t2 := Add(BigSigma0(v.a), Maj(v.a, v.b, v.c));
    Vars(Add(t1, t2), v.a, v.b, v.c, Add(v.d, t1), v.e, v.f, v.g)
  }

  /** The working variables after t rounds. */
  function Rounds(block: Bytes, v: Vars, t: nat): Vars
    requires |block| == 64 && t <= 64
  {
    if t == 0 then v else Round(Rounds(block, v, t - 1), K[t - 1], W(block, t - 1))
  }

  function VarsOf(s: seq<bv32>): Vars
    requires |s| == 8
  {
    Vars(s[0], s[1], s[2], s[3], s[4], s[5], s[6], s[7])
  }

  /** The next intermediate hash value. */
  function Compress(s: seq<bv32>, block: Bytes): (r: seq<bv32>)
    requires |s| == 8 && |block| == 64
    ensures |r| == 8
  {
    var v := Rounds(block, VarsOf(s), 64);
    [Add(s[0], v.a), Add(s[1], v.b), Add(s[2], v.c), Add(s[3], v.d),
     Add(s[4], v.e), Add(s[5], v.f), Add(s[6], v.g), Add(s[7], v.h)]
  }

  /** The hash value after the complete blocks of m. */
  function Fold(s: seq<bv32>, m: Bytes): (r: seq<bv32>)
    requires |s| == 8
    ensures |r| == 8
    decreases |m|
  {
    if |m| < 64 then s else Fold(Compress(s, m[..64]), m[64..])
  }

  // ---- section 5.1.1: padding ----

  function Zeros(n: nat): (r: Bytes)
    ensures |r| == n
    ensures forall i :: 0 <= i < n ==> r[i] == 0
  {
    if n == 0 then [] else Zeros(n - 1) + [0]
  }

  /** A 64-bit length, most significant byte first. */
  function BE64(v: u64): (r: Bytes)
    ensures |r| == 8
  {
    [v / 0x100_0000_0000_0000, v / 0x1_0000_0000_0000 % 0x100, v / 0x100_0000_0000 % 0x100, v / 0x1_0000_0000 % 0x100,
     v / 0x100_0000 % 0x100, v / 0x1_0000 % 0x100, v / 0x100 % 0x100, v % 0x100]
  }

  /** How many zero bytes follow 0x80. */
  function ZeroCount(n: nat): nat { (119 - n % 64) % 64 }

  function Pad(m: Bytes): Bytes {
    m + [0x80] + Zeros(ZeroCount(|m|)) + BE64(Lo64(8 * |m|))
  }

  /** bits + 1 + zeros is congruent to 448 modulo 512. */
  predicate Congruent(bits: nat, zeros: nat) {
    (bits + 1 + zeros) % 512 == 448
  }

  /** In bits: after the message and the bit 1 come the fewest zero bits that leave exactly 64 to
      the next multiple of 512, and the padded message is whole blocks. */
  lemma PaddingIsLeast(m: Bytes)
    ensures var zeros := 7 + 8 * ZeroCount(|m|);
      && Congruent(8 * |m|, zeros)
      && (forall z: nat :: z < zeros ==> !Congruent(8 * |m|, z))
      && 8 * |Pad(m)| == 8 * |m| + 1 + zeros + 64
      && |Pad(m)| % 64 == 0
  {
    hide ZeroCount, Congruent;
    LeastZeros(|m|);
    assert |Pad(m)| == |m| + 1 + ZeroCount(|m|) + 8;
  }

  lemma LeastZeros(n: nat)
    ensures var zeros := 7 + 8 * ZeroCount(n);
      && Congruent(8 * n, zeros)
      && (forall z: nat :: z < zeros ==> !Congruent(8 * n, z))
      && (n + 1 + ZeroCount(n) + 8) % 64 == 0
  {
    var q, r, c := n / 64, n % 64, ZeroCount(n);
    var k := if r < 56 then q else q + 1;
    assert n + 1 + c == 64 * k + 56;
    var end := 512 * k + 448;
    assert end % 512 == 448 by { DivModUnique(end, 512, k, 448); }
    forall z: nat | z < 7 + 8 * c
      ensures !Congruent(8 * n, z)
    {
      NotBefore(end, 7 + 8 * c - z);
    }
    DivModUnique(n + 1 + c + 8, 64, k + 1, 0);
  }

  /** The 511 numbers before one that is 448 modulo 512 are not. */
  lemma NotBefore(n: int, d: int)
    requires n % 512 == 448 && 0 < d < 512
    ensures (n - d) % 512 != 448
  {}

  function OutputWord(x: bv32): (r: Bytes)
    ensures |r| == 4
  {
    [((x >> 24) & 0xFF) as int, ((x >> 16) & 0xFF) as int, ((x >> 8) & 0xFF) as int, (x & 0xFF) as int]
  }

  function Output(s: seq<bv32>): (r: Uint256)
    requires |s| == 8
  {
    OutputWord(s[0]) + OutputWord(s[1]) + OutputWord(s[2]) + OutputWord(s[3])
    + OutputWord(s[4]) + OutputWord(s[5]) + OutputWord(s[6]) + OutputWord(s[7])
  }

  /** The output is the state, each word most significant byte first. */
  lemma OutputIsState(s: seq<bv32>, t: nat)
    requires |s| == 8 && t < 8
    ensures WordAt(Output(s), t) == s[t]
  {
    hide OutputWord, WordAt;
    WordBack(s[t]);
    assert Output(s)[4 * t..4 * t + 4] == OutputWord(s[t]);
    WordOfSlice(Output(s), t);
  }

  lemma WordOfSlice(m: Bytes, t: nat)
    requires 4 * t + 4 <= |m|
    ensures WordAt(m, t) == WordAt(m[4 * t..4 * t + 4], 0)
  {}

  lemma WordBack(x: bv32)
    ensures WordAt(OutputWord(x), 0) == x
  {
    var w := OutputWord(x);
    ByteBack((x >> 24) & 0xFF);
    ByteBack((x >> 16) & 0xFF);
    ByteBack((x >> 8) & 0xFF);
    ByteBack(x & 0xFF);
  }

  lemma ByteBack(b: bv32)
    ensures (b as int) as bv32 == b
  {}

  /** The length field read most significant byte first is the length. */
  lemma LengthReadBack(v: u64)
    ensures BigEndianValue(BE64(v)) == v
  {
    var b := BE64(v);
    assert BigEndianValue(b[..1]) == b[0] by { assert b[..1][..0] == []; }
    NextByte(v, b, 1, 0x1_0000_0000_0000);
    NextByte(v, b, 2, 0x100_0000_0000);
    NextByte(v, b, 3, 0x1_0000_0000);
    NextByte(v, b, 4, 0x100_0000);
    NextByte(v, b, 5, 0x1_0000);
    NextByte(v, b, 6, 0x100);
    NextByte(v, b, 7, 1);
    assert b[..8] == b;
  }

  lemma NextByte(v: nat, b: Bytes, k: nat, d: nat)
    requires k < |b| && d > 0 && b[k] == v / d % 0x100
    requires BigEndianValue(b[..k]) == v / (0x100 * d)
    ensures BigEndianValue(b[..k + 1]) == v / d
  {
    DivDiv(v, d, 0x100);
    DivModDef(v / d, 0x100);
    assert b[..k + 1][..k] == b[..k];
  }

  function BigEndianValue(m: Bytes): nat {
    if m == [] then 0 else 0x100 * BigEndianValue(m[..|m| - 1]) + m[|m| - 1]
  }

  /** SHA-256 of a message. */
  function Digest(m: Bytes): Uint256 {
    Output(Fold(INITIAL, Pad(m)))
  }

  /** SHA256D. */
  function Sha256d(m: Bytes): Uint256 {
    Digest(Digest(m))
  }

  // ---- folding over pieces ----

  lemma {:induction false} FoldAppend(s: seq<bv32>, m: Bytes, n: Bytes)
    requires |s| == 8 && |m| % 64 == 0
    ensures Fold(s, m + n) == Fold(Fold(s, m), n)
    decreases |m|
  {
    if m == [] {
      assert m + n == n;
    } else {
      assert (m + n)[..64] == m[..64] && (m + n)[64..] == m[64..] + n;
      FoldAppend(Compress(s, m[..64]), m[64..], n);
    }
  }

  lemma FoldBlock(s: seq<bv32>, m: Bytes, block: Bytes)
    requires |s| == 8 && |m| % 64 == 0 && |block| == 64
    ensures Fold(s, m + block) == Compress(Fold(s, m), block)
  {
    hide Compress;
    FoldAppend(s, m, block);
    assert block[..64] == block && block[64..] == [];
  }

  // ---- the streaming object ----

  class CSHA256 {
    const state: array<bv32>
    const buffer: array<u8>
    var bytes: u64
    var bufferLen: nat
    /** Everything written so far. */
    ghost var data: Bytes

    /** The state is the hash value of the complete blocks written; the rest is buffered. */
    ghost predicate Valid()
      reads this, state, buffer
    {
      && state.Length == 8 && buffer.Length == 64
      && bytes == Lo64(|data|)
      && bufferLen == |data| % 64
      && state[..] == Fold(INITIAL, Whole(data))
      && buffer[..bufferLen] == Rest(data)
    }

    constructor ()
      ensures Valid() && data == [] && fresh(state) && fresh(buffer)
    {
      state := new bv32[8](i requires 0 <= i < 8 => INITIAL[i]);
      buffer := new u8[64](_ => 0);
      bytes, bufferLen, data := 0, 0, [];
      new;
      assert state[..] == INITIAL;
    }

    /** Transform: one block into the state. */
    method Transform()
      requires state.Length == 8 && buffer.Length == 64
      modifies state
      ensures state[..] == Compress(old(state[..]), buffer[..])
    {
      hide Add, Rotr, BigSigma0, BigSigma1, SmallSigma0, SmallSigma1, Ch, Maj, W, WordAt;
      ghost var block, s := buffer[..], state[..];
      var w := Schedule();
      var a, b, c, d := state[0], state[1], state[2], state[3];
      var e, f, g, h := state[4], state[5], state[6], state[7];
      for i := 0 to 64
        modifies {}
        invariant Vars(a, b, c, d, e, f, g, h) == Rounds(block, VarsOf(s), i)
      {
        var temp1 := Add(Add(Add(Add(h, BigSigma1(e)), Ch(e, f, g)), K[i]), w[i]);
        var temp2 := Add(BigSigma0(a), Maj(a, b, c));
        h := g;
        g := f;
        f := e;
        e := Add(d, temp1);
        d := c;
        c := b;
        b := a;
        a := Add(temp1, temp2);
      }
      AddIn(a, b, c, d, e, f, g, h);
    }

    /** The 64 words of the message schedule. */
    method Schedule() returns (w: array<bv32>)
      requires buffer.Length == 64
      ensures fresh(w) && w.Length == 64 && forall k :: 0 <= k < 64 ==> w[k] == W(buffer[..], k)
    {
      hide Add, Rotr, SmallSigma0, SmallSigma1, WordAt;
      ghost var block := buffer[..];
      w := new bv32[64](_ => 0);
      for i := 0 to 16
        invariant forall k :: 0 <= k < i ==> w[k] == W(block, k)
      {
        w[i] := WordAt(buffer[..], i);
      }
      for i := 16 to 64
        invariant forall k :: 0 <= k < i ==> w[k] == W(block, k)
      {
        var s0 := SmallSigma0(w[i - 15]);
        var s1 := SmallSigma1(w[i - 2]);
        w[i] := Add(Add(Add(w[i - 16], s0), w[i - 7]), s1);
      }
    }

    /** The working variables are added to the state. */
    method AddIn(a: bv32, b: bv32, c: bv32, d: bv32, e: bv32, f: bv32, g: bv32, h: bv32)
      requires state.Length == 8
      modifies state
      ensures var s := old(state[..]);
        state[..] == [Add(s[0], a), Add(s[1], b), Add(s[2], c), Add(s[3], d),
                      Add(s[4], e), Add(s[5], f), Add(s[6], g), Add(s[7], h)]
    {
      hide Add;
      state[0], state[1] := Add(state[0], a), Add(state[1], b);
      state[2], state[3] := Add(state[2], c), Add(state[3], d);
      state[4], state[5] := Add(state[4], e), Add(state[5], f);
      state[6], state[7] := Add(state[6], g), Add(state[7], h);
      EightWords(state[..]);
    }

    /** Write: fill the buffer, transforming it each time it is full. */
    method Write(chunk: Bytes)
      requires Valid()
      modifies this, state, buffer
      ensures Valid() && data == old(data) + chunk
    {
      hide Fold, Whole, Rest;
      ghost var before := data;
      bytes := Lo64(bytes + |chunk|);
      Lo64Sum(|data|, |chunk|);
      ghost var count := bytes;
      var done := 0;
      while done < |chunk|
        invariant 0 <= done <= |chunk|
        invariant data == before + chunk[..done] && bytes == count
        invariant state.Length == 8 && buffer.Length == 64 && bufferLen == |data| % 64
        invariant state[..] == Fold(INITIAL, Whole(data))
        invariant buffer[..bufferLen] == Rest(data)
        decreases |chunk| - done
      {
        var take := 64 - bufferLen;
        if take > |chunk| - done { take := |chunk| - done; }
        var piece := chunk[done..done + take];
        Fill(piece);
        assert chunk[..done] + piece == chunk[..done + take];
        done := done + take;
      }
      assert chunk[..done] == chunk;
    }

    /** One turn of the loop above: at most a buffer's worth of bytes. */
    method Fill(piece: Bytes)
      requires state.Length == 8 && buffer.Length == 64 && bufferLen == |data| % 64
      requires state[..] == Fold(INITIAL, Whole(data)) && buffer[..bufferLen] == Rest(data)
      requires 0 < |piece| <= 64 - bufferLen
      modifies this, state, buffer
      ensures data == old(data) + piece && bytes == old(bytes)
      ensures bufferLen == |data| % 64
      ensures state[..] == Fold(INITIAL, Whole(data)) && buffer[..bufferLen] == Rest(data)
    {
      hide Fold, Compress;
      ghost var d := data;
      for i := 0 to |piece|
        modifies buffer
        invariant buffer[..bufferLen + i] == Rest(d) + piece[..i]
      {
        buffer[bufferLen + i] := piece[i];
        assert piece[..i + 1] == piece[..i] + [piece[i]];
        assert buffer[..bufferLen + i + 1] == buffer[..bufferLen + i] + [piece[i]];
      }
      assert piece[..|piece|] == piece;
      bufferLen := bufferLen + |piece|;
      data := d + piece;
      FilledTo(d, piece);
      if bufferLen == 64 {
        assert buffer[..] == buffer[..64];
        FoldBlock(INITIAL, Whole(d), Rest(d) + piece);
        assert state[..] == Fold(INITIAL, Whole(d));
        Transform();
        bufferLen := 0;
        assert buffer[..0] == [];
        assert state[..] == Fold(INITIAL, Whole(data));
      }
    }

    /** Finalize: pad to whole blocks and read the state out. */
    method Finalize() returns (hash: Uint256)
      requires Valid()
      modifies this, state, buffer
      ensures Valid() && data == Pad(old(data)) && hash == Digest(old(data))
    {
      hide Fold, OutputWord, Whole, Rest, ZeroCount;
      ghost var m := data;
      var bits := Lo64(bytes * 8);
      Lo64Bits(|m|);
      Write([0x80]);
      ghost var z := 0;
      while bufferLen != 56
        invariant Valid() && z <= ZeroCount(|m|) && data == m + [0x80] + Zeros(z)
        decreases ZeroCount(|m|) - z
      {
        ZerosLeft(|m|, z);
        Write([0]);
        z := z + 1;
      }
      ZerosDone(|m|, z);
      Write(BE64(bits));
      assert data == Pad(m);
      PaddedIsWhole(m);
      hash := Output(state[..]);
    }
  }

  lemma EightWords(s: seq<bv32>)
    requires |s| == 8
    ensures s == [s[0], s[1], s[2], s[3], s[4], s[5], s[6], s[7]]
  {}

  /** The complete blocks of a message, and what is left over. */
  function Whole(m: Bytes): (r: Bytes)
    ensures |r| % 64 == 0
  {
    m[..|m| - |m| % 64]
  }

  function Rest(m: Bytes): (r: Bytes)
    ensures |r| == |m| % 64
  {
    m[|m| - |m| % 64..]
  }

  lemma PaddedIsWhole(m: Bytes)
    ensures Whole(Pad(m)) == Pad(m)
  {
    PaddingIsLeast(m);
  }

  lemma FilledTo(d: Bytes, piece: Bytes)
    requires 0 < |piece| <= 64 - |d| % 64
    ensures |d| % 64 + |piece| < 64 ==> Whole(d + piece) == Whole(d) && Rest(d + piece) == Rest(d) + piece
    ensures |d| % 64 + |piece| < 64 ==> |d + piece| % 64 == |d| % 64 + |piece|
    ensures |d| % 64 + |piece| == 64 ==> Whole(d + piece) == Whole(d) + (Rest(d) + piece) && Rest(d + piece) == []
  {
    var q, r := |d| / 64, |d| % 64;
    assert d == Whole(d) + Rest(d);
    if r + |piece| < 64 {
      DivModUnique(|d + piece|, 64, q, r + |piece|);
    } else {
      DivModUnique(|d + piece|, 64, q + 1, 0);
      assert d + piece == Whole(d) + (Rest(d) + piece);
    }
  }

  lemma Lo64Sum(a: nat, b: nat)
    ensures Lo64(Lo64(a) + b) == Lo64(a + b)
  {}

  lemma Lo64Bits(n: nat)
    ensures Lo64(Lo64(n) * 8) == Lo64(8 * n)
  {}

  lemma ZerosLeft(n: nat, z: nat)
    requires z <= ZeroCount(n) && (n + 1 + z) % 64 != 56
    ensures z < ZeroCount(n)
  {}

  lemma ZerosDone(n: nat, z: nat)
    requires z <= ZeroCount(n) && (n + 1 + z) % 64 == 56
    ensures z == ZeroCount(n)
  {}

  // ---- the hash of a message in pieces ----

  function Concat(chunks: seq<Bytes>): Bytes {
    if chunks == [] then [] else chunks[0] + Concat(chunks[1..])
  }

  /** However a message is cut into Write calls, the hash is that of the whole message. */
  method HashChunks(chunks: seq<Bytes>) returns (hash: Uint256)
    ensures hash == Digest(Concat(chunks))
  {
    hide Digest, CSHA256.Valid;
    var ctx := new CSHA256();
    for i := 0 to |chunks|
      invariant ctx.Valid() && fresh(ctx) && fresh(ctx.state) && fresh(ctx.buffer)
      invariant ctx.data + Concat(chunks[i..]) == Concat(chunks)
    {
      assert chunks[i..][1..] == chunks[i + 1..];
      ctx.Write(chunks[i]);
    }
    assert ctx.data == Concat(chunks);
    hash := ctx.Finalize();
  }

  /** CSHA256::Hash. */
  method Hash(m: Bytes) returns (hash: Uint256)
    ensures hash == Digest(m)
  {
    var ctx := new CSHA256();
    ctx.Write(m);
    assert ctx.data == m;
    hash := ctx.Finalize();
  }

  method HashTwice(m: Bytes) returns (hash: Uint256)
    ensures hash == Sha256d(m)
  {
    var inner := Hash(m);
    hash := Hash(inner);
  }

  /** HashPair of light_merkle.cpp. */
  function HashPair(a: Uint256, b: Uint256): Uint256 {
    Sha256d(a + b)
  }
}
