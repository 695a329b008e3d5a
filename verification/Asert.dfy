/** The ASERT difficulty rule (aserti3-2d): the target after a block that lies `nTimeDiff`
    seconds and `nHeightDiff` blocks past the anchor. */
module Asert {
  import opened Radix
  import opened Words
  import opened Limbs
  import opened Arith256
  import opened Header
  import Compact

  // ---- the arithmetic as the code performs it ----

  /** int64_t division: towards zero. */
  function Quot(a: int, b: int): int
    requires b != 0
  {
    if a >= 0 then (if b > 0 then a / b else -(a / -b))
    else (if b > 0 then -(-a / b) else -a / -b)
  }

  /** The remainder is smaller than the divisor and has no sign of its own. */
  lemma QuotTruncates(a: int, b: int)
    requires b != 0
    ensures var r := a - Quot(a, b) * b;
      && (if b > 0 then -b < r < b else b < r < -b)
      && (a >= 0 ==> r >= 0) && (a <= 0 ==> r <= 0)
  {
    var n, d := if a >= 0 then a else -a, if b > 0 then b else -b;
    var q := n / d;
    DivModDef(n, d);
    assert Quot(a, b) == if (a >= 0) == (b > 0) then q else -q;
    assert (-q) * b == -(q * b) && q * (-b) == -(q * b);
  }

  predicate Is64(x: int) { -0x8000_0000_0000_0000 <= x < 0x8000_0000_0000_0000 }

  /** static_cast<int> of a 64-bit value. */
  function Cast32(x: int): i32 {
    var y := x % TWO32;
    if y < 0x8000_0000 then y else y - TWO32
  }

  /** How far behind schedule the chain is, in seconds. */
  function Lateness(spacing: int, timeDiff: int, heightDiff: int): int {
    timeDiff - spacing * (heightDiff + 1)
  }

  /** The arguments for which the int64_t expressions are defined in C++. */
  ghost predicate Defined(spacing: int, timeDiff: int, heightDiff: int, halfLife: int) {
    && halfLife != 0
    && Is64(heightDiff + 1)
    && Is64(spacing * (heightDiff + 1))
    && Is64(Lateness(spacing, timeDiff, heightDiff))
    && Is64(Lateness(spacing, timeDiff, heightDiff) * 65536)
    && Is64(Quot(Lateness(spacing, timeDiff, heightDiff) * 65536, halfLife))
  }

  function Exponent(spacing: int, timeDiff: int, heightDiff: int, halfLife: int): int
    requires halfLife != 0
  {
    Quot(Lateness(spacing, timeDiff, heightDiff) * 65536, halfLife)
  }

  const C1 := 195766423245049
  const C2 := 971821376
  const C3 := 5127

  /** The cubic before anything wraps. */
  function Cubic(f: nat): nat {
    CubicSign(f);
    C1 * f + C2 * f * f + C3 * f * f * f + 0x8000_0000_0000
  }

  lemma CubicSign(f: nat)
    ensures f * f >= 0 && f * f * f >= 0
    ensures C2 * f * f == C2 * (f * f) && C3 * f * f * f == C3 * (f * f * f)
  {
    MulMono(0, f, f);
    MulMono(0, f, f * f);
    MulAssoc(C2, f, f);
    MulAssoc(C3, f, f);
    MulAssoc(C3, f * f, f);
  }

  /** 65536 * 2^(f/65536), to 16 bits: uint64_t arithmetic, shifted down by 48. */
  function Factor(f: u32): (r: u32)
    requires f < 0x1_0000
  {
    65536 + Lo64(Cubic(f)) / 0x1_0000_0000_0000
  }

  /** CalculateASERT on the numbers the limbs hold. */
  function Target(ref: nat, spacing: int, timeDiff: int, heightDiff: int, powLimit: nat, halfLife: int): (t: nat)
    requires halfLife != 0
  {
    var exponent := Exponent(spacing, timeDiff, heightDiff, halfLife);
    var shifts := exponent / 65536 - 16;
    var product := ref * Factor(exponent % 65536) % Two256();
    var next :=
      if shifts <= 0 then Right(product, Cast32(-shifts))
      else
        var shifted := Left(product, Cast32(shifts));
        if Right(shifted, Cast32(shifts)) != product then powLimit else shifted;
    if next == 0 then 1 else if next > powLimit then powLimit else next
  }

  /** `<<` and `>>` by a signed amount. */
  function Left(v: nat, s: int): (r: nat) {
    if s <= 0 then v else v * Pow2(s) % Two256()
  }

  function Right(v: nat, s: int): (r: nat) {
    if s <= 0 then v else DivBound(v, Pow2(s)); v / Pow2(s)
  }

  /** CalculateASERT over limbs. */
  method CalculateASERT(ref: ArithUint256, spacing: i64, timeDiff: i64, heightDiff: i64,
                        powLimit: ArithUint256, halfLife: i64) returns (next: ArithUint256)
    requires ref.Valid() && powLimit.Valid()
    requires Defined(spacing, timeDiff, heightDiff, halfLife)
    ensures fresh(next) && fresh(next.words) && next.Valid()
    ensures next.Value() == Target(ref.Value(), spacing, timeDiff, heightDiff, powLimit.Value(), halfLife)
  {
    var exponent := Exponent(spacing, timeDiff, heightDiff, halfLife);
    var shifts := exponent / 65536;
    var factor := Factor(exponent % 65536);
    next := ArithUint256.Times(ref, factor);
    ghost var product := next.Value();
    assert product == ref.Value() * factor % Two256();
    shifts := shifts - 16;
    if shifts <= 0 {
      next.ShiftRight(Cast32(-shifts));
      assert next.Value() == Right(product, Cast32(-shifts));
    } else {
      var shifted := new ArithUint256.Copy(next);
      shifted.ShiftLeft(Cast32(shifts));
      assert shifted.Value() == Left(product, Cast32(shifts));
      var back := new ArithUint256.Copy(shifted);
      back.ShiftRight(Cast32(shifts));
      var same := back.Equals(next);
      if !same {
        next := new ArithUint256.Copy(powLimit);
      } else {
        next := shifted;
      }
    }
    var isZero := next.IsZero();
    if isZero {
      next := new ArithUint256(1);
    } else {
      var above := powLimit.Less(next);
      if above {
        next := new ArithUint256.Copy(powLimit);
      }
    }
  }

  // ---- the factor ----

  lemma CubicMono(f: nat, g: nat)
    requires f <= g
    ensures Cubic(f) <= Cubic(g)
  {
    CubicSign(f);
    CubicSign(g);
    MulMono(f, g, f);
    MulMono(f, g, g);
    MulMono(f * f, g * g, f);
    MulMono(f, g, g * g);
  }

  /** The cubic never wraps 64 bits, and comes within 2^48 of doing so. */
  lemma CubicFits(f: nat)
    requires f < 0x1_0000
    ensures Cubic(f) < TWO64
    ensures TWO64 - Cubic(65535) < 0x1_0000_0000_0000
  {
    CubicMono(f, 65535);
  }

  /** The factor runs from 65536 up to at most 131071 and never decreases. */
  lemma FactorBounds(f: u32)
    requires f < 0x1_0000
    ensures Factor(f) == 65536 + Cubic(f) / 0x1_0000_0000_0000
    ensures 65536 <= Factor(f) <= 131071
  {
    CubicFits(f);
    DivModUnique(Cubic(f), TWO64, 0, Cubic(f));
  }

  lemma FactorMono(f: u32, g: u32)
    requires f <= g < 0x1_0000
    ensures Factor(f) <= Factor(g)
  {
    FactorBounds(f);
    FactorBounds(g);
    CubicMono(f, g);
    DivMono(Cubic(f), Cubic(g), 0x1_0000_0000_0000);
  }

  // ---- the integer formula ----

  /** floor(m * 2^s). */
  function Scale(m: nat, s: int): (r: nat) {
    if s >= 0 then m * Pow2(s) else DivBound(m, Pow2(-s)); m / Pow2(-s)
  }

  function Clamp(v: nat, powLimit: nat): nat {
    if v == 0 then 1 else if v > powLimit then powLimit else v
  }

  /** floor(ref * factor * 2^(shifts - 16)). */
  function Ideal(ref: nat, exponent: int): (r: nat) {
    Scale(ref * Factor(exponent % 65536), exponent / 65536 - 16)
  }

  /** The shift count survives the cast to int. */
  predicate ShiftFits(exponent: int) {
    -0x7FFF_0000 < exponent / 65536 < 0x7FFF_0000
  }

  lemma CastFits(s: int)
    requires -0x8000_0000 <= s < 0x8000_0000
    ensures Cast32(s) == s
  {
    if s >= 0 { DivModUnique(s, TWO32, 0, s); } else { DivModUnique(s, TWO32, -1, s + TWO32); }
  }

  /** Shifting up and back shows exactly the shifts that lost bits. */
  lemma ShiftBack(m: nat, s: nat)
    requires m < Two256() && s > 0
    ensures Right(Left(m, s), s) == m <==> m * Pow2(s) < Two256()
    ensures m * Pow2(s) < Two256() ==> Left(m, s) == m * Pow2(s)
  {
    var p := Pow2(s);
    MulMono(0, m, p);
    if m * p < Two256() {
      DivModUnique(m * p, Two256(), 0, m * p);
      DivCancel(m, p);
    } else {
      var low := m * p % Two256();
      assert low < m * p;
      DivModDef(low, p);
      if low / p >= m { MulMono(m, low / p, p); }
    }
  }

  /** What CalculateASERT computes, for every reference target: the integer formula on the
      product reduced modulo 2^256. */
  lemma TargetIsScaledProduct(ref: nat, spacing: int, timeDiff: int, heightDiff: int, powLimit: nat, halfLife: int)
    requires halfLife != 0 && 1 <= powLimit < Two256()
    requires ShiftFits(Exponent(spacing, timeDiff, heightDiff, halfLife))
    ensures var e := Exponent(spacing, timeDiff, heightDiff, halfLife);
      Target(ref, spacing, timeDiff, heightDiff, powLimit, halfLife)
      == Clamp(Scale(ref * Factor(e % 65536) % Two256(), e / 65536 - 16), powLimit)
  {
    var e := Exponent(spacing, timeDiff, heightDiff, halfLife);
    var s := e / 65536 - 16;
    var m := ref * Factor(e % 65536) % Two256();
    CastFits(s);
    CastFits(-s);
    if s <= 0 {
      assert Pow2(0) == 1;
      if s == 0 { DivModUnique(m, 1, m, 0); }
    } else {
      ShiftBack(m, s);
    }
  }

  /** CalculateASERT is max(1, min(powLimit, floor(ref * factor * 2^(shifts - 16)))) whenever the
      product fits 256 bits. */
  lemma TargetIsFormula(ref: nat, spacing: int, timeDiff: int, heightDiff: int, powLimit: nat, halfLife: int)
    requires halfLife != 0 && 1 <= powLimit < Two256()
    requires ShiftFits(Exponent(spacing, timeDiff, heightDiff, halfLife))
    requires ref * Factor(Exponent(spacing, timeDiff, heightDiff, halfLife) % 65536) < Two256()
    ensures var v := Ideal(ref, Exponent(spacing, timeDiff, heightDiff, halfLife));
      Target(ref, spacing, timeDiff, heightDiff, powLimit, halfLife)
      == Max(1, Min(powLimit, v))
  {
    TargetIsScaledProduct(ref, spacing, timeDiff, heightDiff, powLimit, halfLife);
    var m := ref * Factor(Exponent(spacing, timeDiff, heightDiff, halfLife) % 65536);
    DivModUnique(m, Two256(), 0, m);
  }

  function Min(a: int, b: int): int { if a <= b then a else b }
  function Max(a: int, b: int): int { if a >= b then a else b }

  // ---- monotonicity ----

  lemma ScaleMono(m: nat, n: nat, s: int)
    requires m <= n
    ensures Scale(m, s) <= Scale(n, s)
  {
    if s >= 0 { MulMono(m, n, Pow2(s)); } else { DivMono(m, n, Pow2(-s)); }
  }

  /** One more shift is one more doubling before rounding. */
  lemma ScaleUp(m: nat, s: int)
    ensures Scale(2 * m, s) == Scale(m, s + 1)
  {
    if s >= 0 {
      assert 2 * m * Pow2(s) == m * (2 * Pow2(s));
    } else if s == -1 {
      assert Pow2(1) == 2 && Pow2(0) == 1;
      DivModUnique(2 * m, 2, m, 0);
    } else {
      var p := Pow2(-s - 1);
      assert Pow2(-s) == 2 * p;
      DivDiv(2 * m, 2, p);
      DivModUnique(2 * m, 2, m, 0);
    }
  }

  lemma {:induction false} ScaleGrows(m: nat, s: int, t: int)
    requires s <= t
    ensures Scale(m, s) <= Scale(m, t)
    decreases t - s
  {
    if s < t {
      ScaleMono(m, 2 * m, s);
      ScaleUp(m, s);
      ScaleGrows(m, s + 1, t);
    }
  }

  /** A later exponent never lowers the ideal target, across the wrap of frac too: the factor
      stays below twice its value at frac 0. */
  lemma IdealMono(ref: nat, e1: int, e2: int)
    requires e1 <= e2
    ensures Ideal(ref, e1) <= Ideal(ref, e2)
  {
    var f1, f2 := Factor(e1 % 65536), Factor(e2 % 65536);
    var s1, s2 := e1 / 65536, e2 / 65536;
    DivMono(e1, e2, 65536);
    FactorBounds(e1 % 65536);
    FactorBounds(e2 % 65536);
    if s1 == s2 {
      FactorMono(e1 % 65536, e2 % 65536);
      MulMono(f1, f2, ref);
      ScaleMono(ref * f1, ref * f2, s1 - 16);
    } else {
      var m := ref * 65536;
      MulMono(f1, 131072, ref);
      ScaleMono(ref * f1, 2 * m, s1 - 16);
      ScaleUp(m, s1 - 16);
      ScaleGrows(m, s1 - 15, s2 - 16);
      MulMono(65536, f2, ref);
      ScaleMono(m, ref * f2, s2 - 16);
    }
  }

  lemma QuotMono(a: int, b: int, d: int)
    requires a <= b && d > 0
    ensures Quot(a, d) <= Quot(b, d)
  {
    if a >= 0 {
      DivMono(a, b, d);
    } else if b < 0 {
      DivMono(-b, -a, d);
    } else {
      DivMono(0, -a, d);
      DivMono(0, b, d);
      DivModUnique(0, d, 0, 0);
    }
  }

  /** The domain of the two monotonicity theorems: no product of the reference target with any
      factor passes 256 bits. */
  ghost predicate RefFits(ref: nat, powLimit: nat) {
    ref * 131071 < Two256() && 1 <= powLimit < Two256()
  }

  lemma TargetOfExponent(ref: nat, spacing: int, timeDiff: int, heightDiff: int, powLimit: nat, halfLife: int)
    requires halfLife != 0 && RefFits(ref, powLimit)
    requires ShiftFits(Exponent(spacing, timeDiff, heightDiff, halfLife))
    ensures Target(ref, spacing, timeDiff, heightDiff, powLimit, halfLife)
         == Max(1, Min(powLimit, Ideal(ref, Exponent(spacing, timeDiff, heightDiff, halfLife))))
  {
    var f := Exponent(spacing, timeDiff, heightDiff, halfLife) % 65536;
    FactorBounds(f);
    MulMono(Factor(f), 131071, ref);
    TargetIsFormula(ref, spacing, timeDiff, heightDiff, powLimit, halfLife);
  }

  /** A later block never gets a lower target. */
  lemma MonotoneInTime(ref: nat, spacing: int, t1: int, t2: int, heightDiff: int, powLimit: nat, halfLife: int)
    requires halfLife > 0 && RefFits(ref, powLimit) && t1 <= t2
    requires ShiftFits(Exponent(spacing, t1, heightDiff, halfLife))
    requires ShiftFits(Exponent(spacing, t2, heightDiff, halfLife))
    ensures Target(ref, spacing, t1, heightDiff, powLimit, halfLife)
         <= Target(ref, spacing, t2, heightDiff, powLimit, halfLife)
  {
    TargetOfExponent(ref, spacing, t1, heightDiff, powLimit, halfLife);
    TargetOfExponent(ref, spacing, t2, heightDiff, powLimit, halfLife);
    var a, b := Lateness(spacing, t1, heightDiff), Lateness(spacing, t2, heightDiff);
    QuotMono(a * 65536, b * 65536, halfLife);
    IdealMono(ref, Exponent(spacing, t1, heightDiff, halfLife), Exponent(spacing, t2, heightDiff, halfLife));
  }

  /** More blocks in the same time never get a higher target. */
  lemma AntitoneInHeight(ref: nat, spacing: int, timeDiff: int, h1: int, h2: int, powLimit: nat, halfLife: int)
    requires halfLife > 0 && spacing >= 0 && RefFits(ref, powLimit) && h1 <= h2
    requires ShiftFits(Exponent(spacing, timeDiff, h1, halfLife))
    requires ShiftFits(Exponent(spacing, timeDiff, h2, halfLife))
    ensures Target(ref, spacing, timeDiff, h1, powLimit, halfLife)
         >= Target(ref, spacing, timeDiff, h2, powLimit, halfLife)
  {
    TargetOfExponent(ref, spacing, timeDiff, h1, powLimit, halfLife);
    TargetOfExponent(ref, spacing, timeDiff, h2, powLimit, halfLife);
    MulMono(h1 + 1, h2 + 1, spacing);
    var a, b := Lateness(spacing, timeDiff, h1), Lateness(spacing, timeDiff, h2);
    QuotMono(b * 65536, a * 65536, halfLife);
    IdealMono(ref, Exponent(spacing, timeDiff, h2, halfLife), Exponent(spacing, timeDiff, h1, halfLife));
  }

  // ---- on schedule, and whole half-lives off it ----

  lemma FactorOfZero()
    ensures Factor(0) == 65536
  {
    FactorBounds(0);
  }

  /** A chain exactly on schedule keeps its reference target exactly when that target has its
      top 16 bits clear; otherwise the product with 65536 loses them. */
  lemma OnSchedule(ref: nat, spacing: int, timeDiff: int, heightDiff: int, powLimit: nat, halfLife: int)
    requires halfLife != 0 && 1 <= ref <= powLimit < Two256()
    requires Lateness(spacing, timeDiff, heightDiff) == 0
    ensures Target(ref, spacing, timeDiff, heightDiff, powLimit, halfLife) == ref <==> ref < Pow2(240)
  {
    hide Target, Factor, Scale, Pow2;
    assert Exponent(spacing, timeDiff, heightDiff, halfLife) == 0 by { QuotZero(halfLife); }
    FactorOfZero();
    TargetIsScaledProduct(ref, spacing, timeDiff, heightDiff, powLimit, halfLife);
    TopBitsLost(ref);
    var t := Pow2(240);
    DivModDef(ref, t);
    if ref < t { DivModUnique(ref, t, 0, ref); }
  }

  /** Times 65536 modulo 2^256 and back down by 16 bits loses the top 16 bits. */
  lemma TopBitsLost(ref: nat)
    ensures Scale(ref * 65536 % Two256(), -16) == ref % Pow2(240) && Pow2(240) > 1
  {
    hide Pow2;
    Pow2Constants();
    Pow2Mono(7, 240);
    LowBitsKept(ref);
    DivModUnique(ref % Pow2(240) * 65536, 65536, ref % Pow2(240), 0);
  }

  lemma QuotZero(d: int)
    requires d != 0
    ensures Quot(0, d) == 0
  {
    if d > 0 { DivModUnique(0, d, 0, 0); } else { DivModUnique(0, -d, 0, 0); }
  }

  /** Exactly k half-lives late the target is ref doubled k times (up to powLimit); exactly k
      half-lives early it is ref halved k times (down to 1). Of a reference target of 2^240 or more
      only the low 240 bits are left. */
  lemma WholeHalfLives(ref: nat, spacing: int, timeDiff: int, heightDiff: int, powLimit: nat, halfLife: int, k: int)
    requires halfLife > 0 && 1 <= powLimit < Two256() && -0x7FFF_0000 < k < 0x7FFF_0000
    requires Lateness(spacing, timeDiff, heightDiff) == k * halfLife
    ensures Target(ref, spacing, timeDiff, heightDiff, powLimit, halfLife)
         == Max(1, Min(powLimit, Scale(ref % Pow2(240), k)))
    ensures ref < Pow2(240) ==> ref % Pow2(240) == ref
  {
    hide Target, Scale, Pow2, Factor;
    var e := k * 65536;
    assert Exponent(spacing, timeDiff, heightDiff, halfLife) == e by { QuotExact(k, halfLife); }
    DivModUnique(e, 65536, k, 0);
    FactorOfZero();
    TargetIsScaledProduct(ref, spacing, timeDiff, heightDiff, powLimit, halfLife);
    LowBitsKept(ref);
    ScaleUps(ref % Pow2(240), 16, k - 16);
    assert Pow2(16) == 65536 by { Pow2Constants(); }
    if ref < Pow2(240) { DivModUnique(ref, Pow2(240), 0, ref); }
  }

  lemma LowBitsKept(ref: nat)
    ensures ref * 65536 % Two256() == ref % Pow2(240) * 65536
  {
    hide Pow2;
    Pow2Constants();
    Two256Is();
    Pow2Add(240, 16);
    var t := Pow2(240);
    DivModDef(ref, t);
    ScaledMod(ref, t, ref / t, ref % t, Two256());
  }

  lemma ScaledMod(v: nat, t: nat, c: int, r: int, m: nat)
    requires t > 0 && v == c * t + r && 0 <= r < t && m == t * 65536
    ensures v * 65536 % m == r * 65536
  {
    assert v * 65536 == c * m + r * 65536 by { assert (c * t + r) * 65536 == c * (t * 65536) + r * 65536; }
    DivModUnique(v * 65536, m, c, r * 65536);
  }

  lemma QuotExact(k: int, d: int)
    requires d > 0
    ensures Quot(k * d * 65536, d) == k * 65536
  {
    var n := k * d * 65536;
    assert n == (k * 65536) * d;
    if k >= 0 {
      MulMono(0, k * 65536, d);
      DivModUnique(n, d, k * 65536, 0);
    } else {
      MulMono(k * 65536, -1, d);
      assert -n == (-k * 65536) * d;
      DivModUnique(-n, d, -k * 65536, 0);
    }
  }

  lemma {:induction false} ScaleUps(m: nat, n: nat, s: int)
    ensures Scale(m * Pow2(n), s) == Scale(m, s + n)
    decreases n
  {
    if n > 0 {
      assert m * Pow2(n) == 2 * (m * Pow2(n - 1));
      ScaleUp(m * Pow2(n - 1), s);
      ScaleUps(m, n - 1, s + 1);
    }
  }

  // ---- the next block's nBits ----

  // Main-network anchor: height, nBits, the time of the block before it, and the rule's constants.
  const ANCHOR_HEIGHT := 21256
  const ANCHOR_BITS: u32 := 0x1836845b
  const ANCHOR_PREV_TIME := 1686641614
  const SPACING := 600
  const HALF_LIFE := 172800
  const POW_LIMIT_BITS: u32 := 0x1d00ffff

  /** The limbs of a number. */
  function LimbsOf(v: nat): (s: seq<u32>)
    ensures |s| == LIMBS
    ensures v < Two256() ==> Val(B32, s) == v
  {
    var s := ToDigits(B32, v, LIMBS);
    ToDigitsVal(B32, v, LIMBS);
    Two256Is();
    if v < Two256() then DivModUnique(v, Two256(), 0, v); s else s
  }

  /** The target the rule sets for the block after `prev`. */
  function NextTarget(prev: BlockHeader, prevHeight: int): (t: nat)
    ensures t < Two256()
  {
    Target(CompactTarget(ANCHOR_BITS), SPACING, prev.nTime - ANCHOR_PREV_TIME, prevHeight - ANCHOR_HEIGHT,
           CompactTarget(POW_LIMIT_BITS), HALF_LIFE)
  }

  /** GetNextASERTBits. */
  function NextBits(prev: BlockHeader, prevHeight: int): u32 {
    if prevHeight < ANCHOR_HEIGHT then prev.nBits else CompactOf(LimbsOf(NextTarget(prev, prevHeight)))
  }

  /** The height differences for which the rule's int64_t arithmetic is defined. */
  ghost predicate HeightFits(prev: BlockHeader, prevHeight: int) {
    prevHeight >= ANCHOR_HEIGHT ==>
      Defined(SPACING, prev.nTime - ANCHOR_PREV_TIME, prevHeight - ANCHOR_HEIGHT, HALF_LIFE)
  }

  method GetNextASERTBits(prev: BlockHeader, prevHeight: i64) returns (bits: u32)
    requires HeightFits(prev, prevHeight)
    ensures bits == NextBits(prev, prevHeight)
  {
    hide Target, CompactTarget, CompactOf, Defined, LimbsOf, Val, Pow;
    if prevHeight < ANCHOR_HEIGHT { return prev.nBits; }
    var powLimit := new ArithUint256(0);
    powLimit.SetCompact(POW_LIMIT_BITS);
    var refTarget := new ArithUint256(0);
    refTarget.SetCompact(ANCHOR_BITS);
    var timeDiff: i64 := prev.nTime - ANCHOR_PREV_TIME;
    var heightDiff: i64 := prevHeight - ANCHOR_HEIGHT;
    var next := CalculateASERT(refTarget, SPACING, timeDiff, heightDiff, powLimit, HALF_LIFE);
    ValInjective(B32, next.words[..], LimbsOf(next.Value()));
    bits := next.GetCompact();
  }

  /** No block time makes the arithmetic overflow up to this height, 2^37. */
  const MAX_HEIGHT := 0x20_0000_0000

  lemma HeightsFit(prev: BlockHeader, prevHeight: int)
    requires prevHeight <= MAX_HEIGHT
    ensures HeightFits(prev, prevHeight)
  {
    if prevHeight >= ANCHOR_HEIGHT {
      var late := Lateness(SPACING, prev.nTime - ANCHOR_PREV_TIME, prevHeight - ANCHOR_HEIGHT);
      var n := late * 65536;
      if n >= 0 { DivBound(n, HALF_LIFE); } else { DivBound(-n, HALF_LIFE); }
    }
  }

  /** The nBits demanded of a block past the anchor never denotes the target the rule computed:
      the compact form it is compared in does not carry any target over. */
  lemma DemandedBitsMissTarget(prev: BlockHeader, prevHeight: int)
    requires prevHeight >= ANCHOR_HEIGHT
    ensures CompactTarget(NextBits(prev, prevHeight)) != NextTarget(prev, prevHeight)
  {
    hide Target, CompactOf, CompactTarget, NextTarget, LimbsOf;
    var t := NextTarget(prev, prevHeight);
    NextTargetPositive(prev, prevHeight);
    Compact.CompactRoundTripOnlyZero(LimbsOf(t));
  }

  lemma NextTargetPositive(prev: BlockHeader, prevHeight: int)
    ensures NextTarget(prev, prevHeight) >= 1
  {
    PowLimitPositive();
  }

  lemma PowLimitPositive()
    ensures CompactTarget(POW_LIMIT_BITS) >= 1
  {
    assert POW_LIMIT_BITS / 0x100_0000 == 0x1d && POW_LIMIT_BITS % 0x80_0000 == 0xffff;
    Two256Is();
    Pow2Constants();
    Pow2Add(24, 232);
    Pow2Mono(208, 232);
    MulMono(0xffff, 0x100_0000, Pow2(208));
    MulMono(Pow2(208), Pow2(232), 0x100_0000);
    assert 0xffff * Pow2(208) < Two256();
    DivModUnique(0xffff * Pow2(208), Two256(), 0, 0xffff * Pow2(208));
  }
}
