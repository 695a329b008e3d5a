/** Machine integers and the 32-byte hash type, with the casts the source relies on. */
module Words {
  import opened Radix

  const B8: Base := 0x100
  const B32: Base := 0x1_0000_0000
  const TWO32: nat := 0x1_0000_0000
  const TWO64: nat := 0x1_0000_0000_0000_0000

  type u8 = x: int | 0 <= x < 0x100
  type u32 = x: int | 0 <= x < 0x1_0000_0000
  type u64 = x: int | 0 <= x < 0x1_0000_0000_0000_0000
  type i32 = x: int | -0x8000_0000 <= x < 0x8000_0000
  type i64 = x: int | -0x8000_0000_0000_0000 <= x < 0x8000_0000_0000_0000

  type Bytes = seq<u8>

  /** 32 raw bytes, least significant first. */
  type Uint256 = s: Bytes | |s| == 32 witness seq(32, _ => 0)

  /** uint256(): all zero. */
  const NULL256: Uint256 :=
    [0, 0, 0, 0, 0, 0, 0, 0, 0, 0, 0, 0, 0, 0, 0, 0,
     0, 0, 0, 0, 0, 0, 0, 0, 0, 0, 0, 0, 0, 0, 0, 0]

  /** 2^256. */
  function Two256(): (r: nat)
    ensures r >= 1
  {
    0x1_0000_0000_0000_0000_0000_0000_0000_0000_0000_0000_0000_0000_0000_0000_0000_0000
  }

  function Lo32(x: int): u32 { x % TWO32 }
  function Lo64(x: int): u64 { x % TWO64 }

  /** `x << k` and `x >> k` on uint32_t, 0 <= k < 32. */
  function Shl32(x: u32, k: nat): u32 { Lo32(x * Pow2(k)) }

  function Shr32(x: u32, k: nat): u32 {
    DivBound(x, Pow2(k));
    x / Pow2(k)
  }

  lemma DivBound(x: nat, d: int)
    requires d >= 1
    ensures 0 <= x / d <= x
  {
    var q := x / d;
    assert x == q * d + x % d;
    if q < 0 { MulMono(q, -1, d); }
    MulMono(1, d, q);
  }

  /** `a | b` on uint32_t. */
  function Or32(a: u32, b: u32): u32 {
    Pow2Constants();
    BitOrBound(a, b, 32);
    BitOr(a, b)
  }

  lemma {:induction false} BitOrBound(a: nat, b: nat, k: nat)
    requires a < Pow2(k) && b < Pow2(k)
    ensures BitOr(a, b) < Pow2(k)
    decreases k
  {
    if k == 0 || (a == 0 && b == 0) {
    } else {
      BitOrBound(a / 2, b / 2, k - 1);
    }
  }

  /** Or-ing a value into bits that are free is adding it. */
  lemma Or32Disjoint(a: u32, b: u32, k: nat)
    requires a % Pow2(k) == 0 && b < Pow2(k)
    ensures Or32(a, b) == a + b && Or32(b, a) == a + b
  {
    BitOrDisjoint(a, b, k);
  }

  lemma DigitsU8(s: Bytes)
    ensures Digits(B8, s)
  {}

  lemma B32IsPow2()
    ensures B32 == Pow2(32) && B8 == Pow2(8)
  {
    Pow2Constants();
  }

  /** Limb position k is bit position 32*k. */
  lemma LimbPower(k: nat)
    ensures Pow(B32, k) == Pow2(32 * k)
  {
    B32IsPow2();
    PowOfPow2(B32, 32, k);
  }

  lemma Pow2Of256()
    ensures Pow2(256) == Two256()
  {
    Pow2Constants();
    Pow2Add(64, 64);
    Pow2Add(128, 128);
  }

  /** The 256 bits of 32 bytes and of 8 limbs are the same bits. */
  lemma Two256Is()
    ensures Two256() == Pow2(256) == Pow(B8, 32) == Pow(B32, 8)
  {
    Pow2Of256();
    LimbPower(8);
    B32IsPow2();
    PowOfPow2(B8, 8, 32);
  }

  /** The number a hash denotes. */
  function Num(h: Uint256): (n: nat)
    ensures n < Pow(B8, 32)
  {
    DigitsU8(h);
    ValBound(B8, h);
    Val(B8, h)
  }

  /** `n` bytes of `v`, least significant first: WriteLE32, AppendU64 and their like. */
  function LE(v: nat, n: nat): (s: Bytes)
    ensures |s| == n
  {
    ToDigits(B8, v, n)
  }

  /** The little-endian reading of bytes: ReadLE32, ReadU64 and their like. */
  function FromLE(s: Bytes): (n: nat)
    ensures n < Pow(B8, |s|)
  {
    DigitsU8(s);
    ValBound(B8, s);
    Val(B8, s)
  }

  lemma LERoundTrip(v: nat, n: nat)
    requires v < Pow(B8, n)
    ensures FromLE(LE(v, n)) == v
  {
    ToDigitsVal(B8, v, n);
    DivModUnique(v, Pow(B8, n), 0, v);
  }

  lemma LEOfFromLE(s: Bytes)
    ensures LE(FromLE(s), |s|) == s
  {
    DigitsU8(s);
    ToDigitsOfVal(B8, s);
  }

  lemma Pow256Constants()
    ensures Pow(B8, 2) == 0x1_0000
    ensures Pow(B8, 4) == 0x1_0000_0000
    ensures Pow(B8, 8) == 0x1_0000_0000_0000_0000
  {
    B32IsPow2();
    Pow2Constants();
    PowOfPow2(B8, 8, 2);
    PowOfPow2(B8, 8, 4);
    PowOfPow2(B8, 8, 8);
  }

  /** The little-endian words at a position. */
  function ReadU32(s: Bytes, p: nat): u32
    requires p + 4 <= |s|
  {
    Pow256Constants();
    FromLE(s[p..p + 4])
  }

  function ReadU64(s: Bytes, p: nat): u64
    requires p + 8 <= |s|
  {
    Pow256Constants();
    FromLE(s[p..p + 8])
  }

  lemma U32RoundTrip(v: u32, s: Bytes, p: nat)
    requires p + 4 <= |s| && s[p..p + 4] == LE(v, 4)
    ensures ReadU32(s, p) == v
  {
    Pow256Constants();
    LERoundTrip(v, 4);
  }

  lemma U64RoundTrip(v: u64, s: Bytes, p: nat)
    requires p + 8 <= |s| && s[p..p + 8] == LE(v, 8)
    ensures ReadU64(s, p) == v
  {
    Pow256Constants();
    LERoundTrip(v, 8);
  }

  lemma U32Written(s: Bytes, p: nat)
    requires p + 4 <= |s|
    ensures LE(ReadU32(s, p), 4) == s[p..p + 4]
  {
    LEOfFromLE(s[p..p + 4]);
  }

  /** The position of the first zero byte, or the length: strnlen, and std::find for 0. */
  function FirstNul(s: Bytes): (n: nat)
    ensures n <= |s| && (n < |s| ==> s[n] == 0)
    ensures forall i :: 0 <= i < n ==> s[i] != 0
  {
    if s == [] || s[0] == 0 then 0 else 1 + FirstNul(s[1..])
  }

  predicate NulFree(s: Bytes) { 0 !in s }
}
