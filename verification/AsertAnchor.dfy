/** The ASERT rule at the main network's anchor, in numbers. */
module AsertAnchor {
  import opened Radix
  import opened Words
  import opened Limbs
  import opened Header
  import opened Asert
  import Compact

  /** The target of the anchor and the limit, from their compact forms. */
  lemma AnchorTargets()
    ensures CompactTarget(ANCHOR_BITS) == 0x36845b * Pow2(168)
    ensures CompactTarget(POW_LIMIT_BITS) == 0xffff * Pow2(208)
    ensures 0x36845b * Pow2(168) < Pow2(240) && 0x36845b * Pow2(168) * 2 <= 0xffff * Pow2(208) < Two256()
  {
    hide Pow2, Two256;
    assert ANCHOR_BITS / 0x100_0000 == 0x18 && ANCHOR_BITS % 0x80_0000 == 0x36845b;
    assert POW_LIMIT_BITS / 0x100_0000 == 0x1d && POW_LIMIT_BITS % 0x80_0000 == 0xffff;
    PlaceFits(0x36845b, 168);
    PlaceFits(0xffff, 208);
    TargetsApart(Pow2(168), Pow2(208));
  }

  lemma PlaceFits(word: nat, shift: nat)
    requires word < 0x80_0000 && shift <= 208
    ensures word * Pow2(shift) < Pow2(240) <= Two256() && word * Pow2(shift) % Two256() == word * Pow2(shift)
  {
    hide Pow2, Two256;
    Pow2Mono(shift, 208);
    MulMono(word, 0x7f_ffff, Pow2(shift));
    MulMono(Pow2(shift), Pow2(208), 0x7f_ffff);
    Pow2Mono(232, 240);
    Pow2Mono(240, 256);
    assert Two256() == Pow2(256) by { Two256Is(); }
    assert 0x100_0000 * Pow2(208) == Pow2(232) by { Pow2Constants(); Pow2Add(24, 208); }
    DivModUnique(word * Pow2(shift), Two256(), 0, word * Pow2(shift));
  }

  lemma TargetsApart(p: nat, q: nat)
    requires p == Pow2(168) && q == Pow2(208)
    ensures 0x36845b * p * 2 <= 0xffff * q
  {
    hide Pow2;
    Pow2Constants();
    Pow2Add(8, 32);
    Pow2Add(168, 40);
    assert q == p * 0x100_0000_0000;
  }

  /** When a block comes exactly k half-lives late (early, for negative k) for its height, the target
      is the anchor's doubled (halved) k times, at least 1 and at most the limit. */
  lemma TargetAtHalfLives(prev: BlockHeader, prevHeight: int, k: int)
    requires prevHeight >= 21256 && -0x7FFF_0000 < k < 0x7FFF_0000
    requires prev.nTime == 1686641614 + 600 * (prevHeight - 21255) + 172800 * k
    ensures NextTarget(prev, prevHeight) == Max(1, Min(0xffff * Pow2(208), Scale(0x36845b * Pow2(168), k)))
  {
    hide Target, Scale, Pow2, CompactTarget;
    AnchorTargets();
    var timeDiff, heightDiff := prev.nTime - ANCHOR_PREV_TIME, prevHeight - ANCHOR_HEIGHT;
    assert Lateness(SPACING, timeDiff, heightDiff) == k * HALF_LIFE;
    Pow2Positive(208);
    WholeHalfLives(CompactTarget(ANCHOR_BITS), SPACING, timeDiff, heightDiff, CompactTarget(POW_LIMIT_BITS),
                   HALF_LIFE, k);
  }

  lemma Pow2Positive(n: nat)
    ensures 0xffff * Pow2(n) >= 1
  {
    hide Pow2;
  }

  /** The compact form of a number whose limb 5 is its only one. */
  lemma LimbFiveOnly(x: u32)
    requires x > 0
    ensures LimbsOf(x * Pow2(160)) == [0, 0, 0, 0, 0, x, 0, 0]
    ensures CompactOf([0, 0, 0, 0, 0, x, 0, 0]) == CompactOfLimb(x, 6)
  {
    hide Pow2, Pow, Val, LimbsOf, CompactOfLimb;
    var s: seq<u32> := [0, 0, 0, 0, 0, x, 0, 0];
    LimbFiveValue(s, x);
    LimbsBound(s);
    DigitsU32(s);
    DigitsU32(LimbsOf(x * Pow2(160)));
    ValInjective(B32, s, LimbsOf(x * Pow2(160)));
    SixUsed(s);
  }

  lemma DigitsU32(s: seq<u32>)
    ensures Digits(B32, s)
  {}

  lemma SixUsed(s: seq<u32>)
    requires |s| == 8 && s[5] != 0 && s[6] == 0 && s[7] == 0
    ensures UsedLimbs(s) == 6
  {}

  lemma LimbFiveValue(s: seq<u32>, x: u32)
    requires s == [0, 0, 0, 0, 0, x, 0, 0]
    ensures Val(B32, s) == x * Pow2(160) < Two256()
  {
    hide Pow2, Pow, Val;
    ValSplit(B32, s, 5);
    ValZeros(B32, s[..5]);
    ValSplit(B32, s[5..], 1);
    ValZeros(B32, s[5..][1..]);
    OneLimb(s[5..][..1]);
    LimbPower(5);
    LimbsBound(s);
  }

  lemma OneLimb(s: seq<u32>)
    requires |s| == 1
    ensures Val(B32, s) == s[0]
  {
    assert s[1..] == [];
  }

  lemma BitsOfLimbFive(x: u32)
    requires x == 0x36845b00 || x == 0x6d08b600
    ensures CompactOfLimb(x, 6) == if x == 0x36845b00 then 0x1936845b else 0x1808b600
  {
    hide HighBit, Shr32;
    TopByte(x);
    NotDown(x);
    DownOneByte(x);
    if x == 0x36845b00 {
      assert x / 0x80_0000 % 2 == 1 && x / 0x100 % 0x80_0000 == 0x36845b;
    } else {
      assert x / 0x80_0000 % 2 == 0 && x % 0x80_0000 == 0x08b600;
    }
  }

  lemma NotDown(x: u32)
    ensures Shr32(x, 0) == x
  {
    assert Pow2(0) == 1;
  }

  /** A limb of 2^24 or more has no leading zero byte. */
  lemma TopByte(x: u32)
    requires x >= 0x100_0000
    ensures (31 - HighBit(x, 31)) / 8 == 0
  {
    hide HighBit, Pow2;
    Compact.ZeroBytes(x);
    var zeros := (31 - HighBit(x, 31)) / 8;
    if zeros > 0 {
      Pow2Mono(32 - 8 * zeros, 24);
      Pow2Constants();
    }
  }

  lemma DownOneByte(x: u32)
    ensures Shr32(x, 8) == x / 0x100
  {
    hide Pow2;
    Pow2Constants();
  }

  lemma OneLimbUp()
    ensures 0x36845b * Pow2(168) == 0x36845b00 * Pow2(160)
  {
    hide Pow2;
    Pow2Constants();
    Pow2Add(8, 160);
    assert Pow2(168) == 0x100 * Pow2(160);
  }

  lemma ScaleByOne(m: nat)
    ensures Scale(m, 0) == m && Scale(m, 1) == 2 * m
  {
    assert Pow2(0) == 1 && Pow2(1) == 2;
  }

  /** Exactly on schedule, at any height, the nBits demanded are 0x1936845b. */
  lemma BitsOnSchedule(prev: BlockHeader, prevHeight: int)
    requires prevHeight >= 21256 && prev.nTime == 1686641614 + 600 * (prevHeight - 21255)
    ensures NextBits(prev, prevHeight) == 0x1936845b
  {
    hide NextTarget, CompactOf, LimbsOf, Scale, Pow2, Two256;
    TargetAtHalfLives(prev, prevHeight, 0);
    AnchorTargets();
    OneLimbUp();
    Pow2Positive(168);
    ScaleByOne(0x36845b * Pow2(168));
    LimbFiveOnly(0x36845b00);
    BitsOfLimbFive(0x36845b00);
  }

  /** And exactly one half-life late they are 0x1808b600. */
  lemma BitsOneHalfLifeLate(prev: BlockHeader, prevHeight: int)
    requires prevHeight >= 21256 && prev.nTime == 1686641614 + 600 * (prevHeight - 21255) + 172800
    ensures NextBits(prev, prevHeight) == 0x1808b600
  {
    hide NextTarget, CompactOf, LimbsOf, Scale, Pow2, Two256;
    TargetAtHalfLives(prev, prevHeight, 1);
    AnchorTargets();
    OneLimbUp();
    Pow2Positive(168);
    ScaleByOne(0x36845b * Pow2(168));
    LimbFiveOnly(0x6d08b600);
    BitsOfLimbFive(0x6d08b600);
  }
}
