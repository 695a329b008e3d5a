/** Where the limb code does and does not mean what its callers would like: the factors for
    which `*=` is exact, and the targets the compact form carries over and back. */
module Compact {
  import opened Radix
  import opened Words
  import opened Limbs

  // ---- *= ----

  ghost predicate ExactFactor(factor: u64) {
    forall s: seq<u32> :: |s| == LIMBS ==>
      Val(B32, MulWords(s, factor, 0)) == Val(B32, s) * factor % Two256()
  }

  /** `*=` is multiplication modulo 2^256 for every number exactly up to a factor of 2^32:
      beyond it a partial product wraps at 2^64. */
  lemma MulExactIff(factor: u64)
    ensures ExactFactor(factor) <==> factor <= TWO32
  {
    if factor <= TWO32 {
      forall s: seq<u32> | |s| == LIMBS
        ensures Val(B32, MulWords(s, factor, 0)) == Val(B32, s) * factor % Two256()
      {
        MulIsExact(s, factor);
      }
    } else {
      var s := if factor == TWO32 + 1 then AllOnes(2) else AllOnes(1);
      if factor == TWO32 + 1 { FactorNext(); } else { FactorBig(factor); }
      assert |s| == LIMBS;
    }
  }

  function AllOnes(n: nat): (s: seq<u32>)
    requires n == 1 || n == 2
    ensures |s| == LIMBS
  {
    if n == 1 then [0xFFFF_FFFF, 0, 0, 0, 0, 0, 0, 0]
    else [0xFFFF_FFFF, 0xFFFF_FFFF, 0, 0, 0, 0, 0, 0]
  }

  /** Multiplying a number all of whose limbs are zero places the carry and nothing else. */
  lemma MulZeros(s: seq<u32>, factor: u64, carry: u32)
    requires |s| >= 1 && forall k :: 0 <= k < |s| ==> s[k] == 0
    ensures Val(B32, MulWords(s, factor, carry)) == carry
  {
    DivModUnique(carry, TWO64, 0, carry);
    DivModUnique(carry, TWO32, 0, carry);
    MulNothing(s[1..], factor);
    var r := MulWords(s, factor, carry);
    assert r[1..] == MulWords(s[1..], factor, 0);
  }

  lemma {:induction false} MulNothing(s: seq<u32>, factor: u64)
    requires forall k :: 0 <= k < |s| ==> s[k] == 0
    ensures Val(B32, MulWords(s, factor, 0)) == 0
  {
    if s != [] {
      DivModUnique(0, TWO64, 0, 0);
      MulNothing(s[1..], factor);
      var r := MulWords(s, factor, 0);
      assert r[1..] == MulWords(s[1..], factor, 0);
    }
  }

  lemma FactorBig(factor: u64)
    requires factor >= TWO32 + 2
    ensures Val(B32, MulWords(AllOnes(1), factor, 0)) != Val(B32, AllOnes(1)) * factor % Two256()
  {
    var s := AllOnes(1);
    var n := 0xFFFF_FFFF * factor;
    var cur := Lo64(n);
    MulLimb(s, factor, 0);
    MulZeros(s[1..], factor, cur / TWO32);
    assert Val(B32, MulWords(s, factor, 0)) == cur;
    LowLimb(s);
    DivModUnique(n, Two256(), 0, n);
    assert n >= TWO64 > cur;
  }

  lemma FactorNext()
    ensures Val(B32, MulWords(AllOnes(2), TWO32 + 1, 0)) != Val(B32, AllOnes(2)) * (TWO32 + 1) % Two256()
  {
    var s, f := AllOnes(2), TWO32 + 1;
    MulLimb(s, f, 0);
    MulLimb(s[1..], f, 0xFFFF_FFFF);
    MulZeros(s[1..][1..], f, 0);
    assert Val(B32, MulWords(s, f, 0)) < TWO64;
    ValZeros(B32, s[2..]);
    assert s[1..][1..] == s[2..];
    var v := Val(B32, s);
    assert v == 0xFFFF_FFFF_FFFF_FFFF;
    DivModUnique(v * f, Two256(), 0, v * f);
  }

  // ---- the compact form ----

  lemma {:induction false} HighBitIs(x: u32, i: nat)
    requires 0 < x < Pow2(i + 1)
    ensures var b := HighBit(x, i); Pow2(b) <= x < Pow2(b + 1)
  {
    if i == 0 {
    } else {
      var p := Pow2(i);
      DivModDef(x, p);
      if x >= p {
        DivModUnique(x, p, 1, x - p);
      } else {
        DivModUnique(x, p, 0, x);
        HighBitIs(x, i - 1);
      }
    }
  }

  /** The leading zero bytes GetCompact counts in its top limb. */
  lemma ZeroBytes(x: u32)
    requires x > 0
    ensures var zeros := (31 - HighBit(x, 31)) / 8;
      && zeros <= 3
      && Pow2(24 - 8 * zeros) <= x < Pow2(32 - 8 * zeros)
  {
    hide Pow2, HighBit;
    assert Pow2(32) == TWO32 by { Pow2Constants(); }
    HighBitIs(x, 31);
    ByteRange(HighBit(x, 31));
  }

  lemma ByteRange(b: nat)
    requires b <= 31
    ensures var zeros := (31 - b) / 8;
      zeros <= 3 && Pow2(24 - 8 * zeros) <= Pow2(b) && Pow2(b + 1) <= Pow2(32 - 8 * zeros)
  {
    var zeros := (31 - b) / 8;
    Pow2Mono(24 - 8 * zeros, b);
    Pow2Mono(b + 1, 32 - 8 * zeros);
  }

  /** A number lies between its top limb's place and the next. */
  lemma TopLimb(s: seq<u32>)
    requires |s| == LIMBS && UsedLimbs(s) > 0
    ensures var n := UsedLimbs(s); var p := Pow(B32, n - 1);
      var low := Val(B32, s[..n - 1]);
      0 <= low < p && Val(B32, s) == low + p * s[n - 1]
  {
    hide UsedLimbs, Val, Pow;
    var n := UsedLimbs(s);
    ZerosAbove(s, n);
    ValSnoc(B32, s, n - 1);
    ValBound(B32, s[..n - 1]);
  }

  lemma ZerosAbove(s: seq<u32>, n: nat)
    requires n <= |s| && forall i :: n <= i < |s| ==> s[i] == 0
    ensures Val(B32, s) == Val(B32, s[..n])
  {
    hide Val, Pow;
    ValSplit(B32, s, n);
    ValZeros(B32, s[n..]);
  }

  lemma NoLimbs(s: seq<u32>)
    requires |s| == LIMBS
    ensures UsedLimbs(s) == 0 <==> Val(B32, s) == 0
  {
    if UsedLimbs(s) == 0 { ValZeros(B32, s); } else { NonzeroLimb(s, UsedLimbs(s) - 1); }
  }

  /** The bytes GetCompact keeps of a full top limb, against the limb they should stand for. */
  lemma KeptBytes(x: u32)
    requires x >= 0x100_0000
    ensures x / 0x80_0000 % 2 == 0 ==> x % 0x80_0000 * 0x100 % TWO32 != x
    ensures x / 0x80_0000 % 2 == 1 ==> x / 0x100 % 0x80_0000 * 0x1_0000 % TWO32 != x
  {
    var a, b, c, d := FourBytes(x);
    TopBit(x, a, b, c, d);
    if b < 0x80 { LowWord(x, a, b, c, d); } else { HighWord(x, a, b, c, d); }
  }

  lemma FourBytes(x: u32) returns (a: u8, b: u8, c: u8, d: u8)
    ensures x == 0x100_0000 * a + 0x1_0000 * b + 0x100 * c + d
    ensures x >= 0x100_0000 ==> a > 0
  {
    var y := x / 0x100;
    var z := y / 0x100;
    a, b, c, d := z / 0x100, z % 0x100, y % 0x100, x % 0x100;
  }

  lemma TopBit(x: u32, a: u8, b: u8, c: u8, d: u8)
    requires x == 0x100_0000 * a + 0x1_0000 * b + 0x100 * c + d
    ensures x / 0x80_0000 % 2 == b / 0x80
  {
    DivModUnique(x, 0x80_0000, 2 * a + b / 0x80, 0x1_0000 * (b % 0x80) + 0x100 * c + d);
  }

  lemma LowWord(x: u32, a: u8, b: u8, c: u8, d: u8)
    requires x == 0x100_0000 * a + 0x1_0000 * b + 0x100 * c + d && a > 0 && b < 0x80
    ensures x % 0x80_0000 * 0x100 % TWO32 != x
  {
    var low := 0x1_0000 * b + 0x100 * c + d;
    assert x % 0x80_0000 == low by { DivModUnique(x, 0x80_0000, 2 * a, low); }
    assert low * 0x100 % TWO32 == low * 0x100 by { DivModUnique(low * 0x100, TWO32, 0, low * 0x100); }
    assert 0x100_0000 == 255 * 65793 + 1;
    assert low * 0x100 == x ==> a == 255 * (low - 65793 * a);
  }

  lemma HighWord(x: u32, a: u8, b: u8, c: u8, d: u8)
    requires x == 0x100_0000 * a + 0x1_0000 * b + 0x100 * c + d && b >= 0x80
    ensures x / 0x100 % 0x80_0000 * 0x1_0000 % TWO32 != x
  {
    var y := 0x1_0000 * a + 0x100 * b + c;
    assert x / 0x100 == y by { DivModUnique(x, 0x100, y, d); }
    var w := 0x1_0000 * (a % 0x80) + 0x100 * b + c;
    assert y % 0x80_0000 == w by { DivModUnique(y, 0x80_0000, a / 0x80, w); }
    var mid := 0x100_0000 * b + 0x1_0000 * c;
    assert w * 0x1_0000 % TWO32 == mid by { DivModUnique(w * 0x1_0000, TWO32, a % 0x80, mid); }
  }

  /** A compact form of size 4*(n-1) + 3 + e denotes its word moved up e bytes and n - 1 limbs;
      only what passes 2^256 is lost. */
  lemma PlacedCompact(n: nat, e: nat, word: nat) returns (k: nat)
    requires 1 <= n <= 8 && e <= 2 && word < 0x80_0000
    ensures CompactTarget((4 * n - 1 + e) * 0x100_0000 + word) == k * Pow(B32, n - 1)
    ensures k % TWO32 == word * Pow2(8 * e) % TWO32
  {
    var size := 4 * n - 1 + e;
    var c := size * 0x100_0000 + word;
    var p := Pow(B32, n - 1);
    DivModUnique(c, 0x100_0000, size, word);
    DivModUnique(c, 0x80_0000, 2 * size, word);
    if size == 3 {
      DivModUnique(word, 1, word, 0);
      assert Pow2(0) == 1;
      k := word;
    } else {
      var m, q := word * Pow2(8 * e), Pow(B32, 8 - n);
      assert 8 * (size - 3) == 32 * (n - 1) + 8 * e;
      ShiftWeight(n - 1, 8 * e);
      Two256Split(n - 1);
      assert Pow(B32, LIMBS - (n - 1)) == B32 * q;
      CutPlaced(word, Pow2(8 * e), p, q, Two256());
      k := m % (B32 * q);
    }
  }

  lemma CutPlaced(word: nat, b: nat, p: nat, q: nat, t: nat)
    requires p > 0 && q > 0 && t == B32 * q * p
    ensures B32 * q > 0
    ensures word * (b * p) % t == word * b % (B32 * q) * p
    ensures word * b % (B32 * q) % TWO32 == word * b % TWO32
  {
    var m := word * b;
    MulMono(1, q, B32);
    MulAssoc(word, b, p);
    DivModDef(m, B32 * q);
    var h, l := m / (B32 * q), m % (B32 * q);
    assert m * p == h * t + l * p by {
      assert (h * (B32 * q) + l) * p == h * (B32 * q * p) + l * p;
    }
    MulMono(l, B32 * q - 1, p);
    MulMono(0, l, p);
    DivModUnique(m * p, t, h, l * p);
    ModSplit(m, B32, q);
    ModAddMultiple(m % B32, m / B32 % q, B32);
    DivModUnique(m % B32, B32, 0, m % B32);
  }

  /** With two or more leading zero bytes in the top limb nothing of it is kept. */
  lemma NothingKept(x: u32, zeros: nat)
    requires 2 <= zeros <= 3 && x < Pow2(32 - 8 * zeros)
    ensures Shr32(x, zeros * 8) == 0
  {
    Pow2Mono(32 - 8 * zeros, zeros * 8);
    DivModUnique(x, Pow2(zeros * 8), 0, x);
  }

  lemma ZeroCompact(size: nat)
    requires size < 0x100
    ensures CompactTarget(size * 0x100_0000) == 0
  {
    var c := size * 0x100_0000;
    DivModUnique(c, 0x100_0000, size, 0);
    DivModUnique(c, 0x80_0000, 2 * size, 0);
    if size <= 3 {
      DivModUnique(0, Pow2(8 * (3 - size)), 0, 0);
    }
  }

  /** With a full top limb the word kept is the wrong three bytes of it. */
  lemma FullLimb(x: u32, n: nat) returns (e: nat, word: nat)
    requires x >= 0x100_0000 && 1 <= n <= 8
    ensures e <= 2 && word < 0x80_0000
    ensures if x / 0x80_0000 % 2 == 1
            then e == 2 && word == Shr32(x, 8) % 0x80_0000
            else e == 1 && word == x % 0x80_0000
    ensures word * Pow2(8 * e) % TWO32 != x
  {
    Pow2Constants();
    KeptBytes(x);
    if x / 0x80_0000 % 2 == 1 {
      e, word := 2, x / 0x100 % 0x80_0000;
    } else {
      e, word := 1, x % 0x80_0000;
    }
  }

  /** With one leading zero byte only two of its three bytes are kept. */
  lemma ShortLimb(x: u32)
    requires 0x1_0000 <= x < 0x100_0000
    ensures var w := Shr32(x, 8);
      w < 0x1_0000 && w / 0x80_0000 % 2 == 0 && w % 0x80_0000 == w && w * Pow2(0) % TWO32 != x
  {
    Pow2Constants();
    assert Pow2(0) == 1;
    var w := x / 0x100;
    DivModUnique(w, TWO32, 0, w);
    DivModUnique(w, 0x80_0000, 0, w);
  }

  lemma NotThePlace(k: nat, p: nat, v: int, low: int, x: u32)
    requires 0 <= low < p && v == low + p * x && k % TWO32 != x
    ensures k * p != v
  {
    if k * p == v {
      DivModUnique(v, p, k, 0);
      DivArith(v, low, p, x);
      DivModUnique(x, TWO32, 0, x);
    }
  }

  lemma NotCarriedOver(s: seq<u32>)
    requires |s| == LIMBS && UsedLimbs(s) > 0 && Val(B32, s) != 0
    ensures CompactTarget(CompactOf(s)) != Val(B32, s)
  {
    var zeros := (31 - HighBit(s[UsedLimbs(s) - 1], 31)) / 8;
    ZeroBytes(s[UsedLimbs(s) - 1]);
    if zeros >= 2 { NothingOf(s, zeros); } else { WrongWordOf(s, zeros); }
  }

  lemma NothingOf(s: seq<u32>, zeros: nat)
    requires |s| == LIMBS && UsedLimbs(s) > 0 && 2 <= zeros <= 3
    requires zeros == (31 - HighBit(s[UsedLimbs(s) - 1], 31)) / 8
    ensures CompactTarget(CompactOf(s)) == 0
  {
    var n := UsedLimbs(s);
    ZeroBytes(s[n - 1]);
    NothingKept(s[n - 1], zeros);
    EmptyWord(s, n, zeros);
    ZeroCompact(4 * n - zeros);
  }

  lemma EmptyWord(s: seq<u32>, n: nat, zeros: nat)
    requires |s| == LIMBS && n == UsedLimbs(s) > 0
    requires zeros <= 3 && zeros == (31 - HighBit(s[n - 1], 31)) / 8
    requires Shr32(s[n - 1], zeros * 8) == 0
    ensures CompactOf(s) == (4 * n - zeros) * 0x100_0000
  {}

  lemma WrongWordOf(s: seq<u32>, zeros: nat)
    requires |s| == LIMBS && UsedLimbs(s) > 0 && zeros < 2
    requires zeros == (31 - HighBit(s[UsedLimbs(s) - 1], 31)) / 8
    ensures CompactTarget(CompactOf(s)) != Val(B32, s)
  {
    var n := UsedLimbs(s);
    var x := s[n - 1];
    var e, word := 0, Shr32(x, 8);
    LimbRange(x, zeros);
    if zeros == 0 { e, word := FullLimb(x, n); } else { ShortLimb(x); }
    assert CompactOf(s) == (4 * n - 1 + e) * 0x100_0000 + word;
    var k := PlacedCompact(n, e, word);
    TopLimb(s);
    NotThePlace(k, Pow(B32, n - 1), Val(B32, s), Val(B32, s[..n - 1]), x);
  }

  lemma LimbRange(x: u32, zeros: nat)
    requires x > 0 && zeros < 2 && zeros == (31 - HighBit(x, 31)) / 8
    ensures zeros == 0 ==> x >= 0x100_0000 && Shr32(x, 0) == x
    ensures zeros == 1 ==> 0x1_0000 <= x < 0x100_0000
  {
    ZeroBytes(x);
    Pow2Constants();
    WholeLimb(x);
  }

  /** The compact round trip gives a number back exactly when that number is zero. */
  lemma CompactRoundTripOnlyZero(s: seq<u32>)
    requires |s| == LIMBS
    ensures CompactTarget(CompactOf(s)) == Val(B32, s) <==> Val(B32, s) == 0
  {
    NoLimbs(s);
    if UsedLimbs(s) == 0 { ZeroCompact(0); } else { NotCarriedOver(s); }
  }
}
