/** Proof of work on bytes: the big-endian target of an nBits field, and the comparisons of
    hashes and of chain work, against the numbers the limb code works with. */
module Difficulty {
  import opened Radix
  import opened Words
  import opened Limbs

  function Reverse(s: Bytes): (r: Bytes)
    ensures |r| == |s|
    ensures forall i :: 0 <= i < |s| ==> r[i] == s[|s| - 1 - i]
  {
    if s == [] then [] else Reverse(s[1..]) + [s[0]]
  }

  /** The number 32 big-endian bytes denote. */
  function BigEndian(be: Uint256): (n: nat)
    ensures n < Two256()
  {
    Two256Is();
    Num(Reverse(be))
  }

  /** The target an nBits field sets for the proof-of-work check. */
  datatype PowTarget =
    | At(target: nat)
    | NoTarget
      /** The mantissa would be stored in front of the 32-byte buffer. */
    | Undefined

  /** In the terms of the limb code: the number SetCompact stores, if it is not zero. For the
      exponents 33 and 34 the byte code has no defined result. */
  function TargetOf(nBits: u32): PowTarget {
    var exponent, mantissa := nBits / 0x100_0000, nBits % 0x80_0000;
    if mantissa != 0 && (exponent == 33 || exponent == 34) then Undefined
    else if CompactTarget(nBits) == 0 then NoTarget
    else At(CompactTarget(nBits))
  }

  /** The byte buffer TargetFromBits leaves. */
  datatype ByteTarget = Filled(be: Uint256) | Refused | OutOfBounds

  ghost predicate Denotes(b: ByteTarget, t: PowTarget) {
    match t
    case At(n) => b.Filled? && BigEndian(b.be) == n
    case NoTarget => b.Refused?
    case Undefined => b.OutOfBounds?
  }

  /** TargetFromBits: the big-endian view agrees with SetCompact on every nBits for which it is
      defined. */
  method TargetFromBits(nBits: u32) returns (r: ByteTarget)
    ensures Denotes(r, TargetOf(nBits))
  {
    var exponent := nBits / 0x100_0000;
    var mantissa: u32 := nBits % 0x80_0000;
    if mantissa == 0 {
      NoMantissa(nBits);
      return Refused;
    }
    if exponent <= 3 {
      r := ShortTarget(mantissa, exponent);
    } else {
      r := LongTarget(mantissa, exponent);
    }
  }

  /** The branch for exponents up to 3: the mantissa is shifted down. */
  method ShortTarget(mantissa: u32, exponent: nat) returns (r: ByteTarget)
    requires 0 < mantissa < 0x80_0000 && exponent <= 3
    ensures var t := mantissa / Pow2(8 * (3 - exponent));
      if t == 0 then r.Refused? else r.Filled? && BigEndian(r.be) == t
  {
    var v := Shr32(mantissa, 8 * (3 - exponent));
    DivBound(mantissa, Pow2(8 * (3 - exponent)));
    if v == 0 { return Refused; }
    var targetBe := new u8[32](_ => 0);
    targetBe[31] := v % 0x100;
    targetBe[30] := v / 0x100 % 0x100;
    targetBe[29] := v / 0x1_0000 % 0x100;
    Placed(targetBe[..], 31, v);
    assert Pow2(0) == 1;
    r := Filled(targetBe[..]);
  }

  /** The branch for exponents above 3: three bytes at their place, if there is one. */
  method LongTarget(mantissa: u32, exponent: nat) returns (r: ByteTarget)
    requires 0 < mantissa < 0x80_0000 && 4 <= exponent < 0x100
    ensures var t := mantissa * Pow2(8 * (exponent - 3)) % Two256();
      if exponent == 33 || exponent == 34 then r.OutOfBounds?
      else if t == 0 then r.Refused?
      else r.Filled? && BigEndian(r.be) == t
  {
    hide Pow2, BigEndian, Two256;
    var shift := exponent - 3;
    if shift >= 32 {
      OverShift(mantissa, 8 * shift);
      return Refused;
    }
    var pos := 31 - shift;
    if pos - 2 < 0 { return OutOfBounds; }
    var targetBe := new u8[32](_ => 0);
    targetBe[pos - 2] := mantissa / 0x1_0000 % 0x100;
    targetBe[pos - 1] := mantissa / 0x100 % 0x100;
    targetBe[pos] := mantissa % 0x100;
    Placed(targetBe[..], pos, mantissa);
    NoOverflow(mantissa, shift);
    r := Filled(targetBe[..]);
  }

  lemma NoMantissa(nBits: u32)
    requires nBits % 0x80_0000 == 0
    ensures CompactTarget(nBits) == 0
  {
    var size := nBits / 0x100_0000;
    if size <= 3 {
      DivModUnique(0, Pow2(8 * (3 - size)), 0, 0);
    } else {
      DivModUnique(0, Two256(), 0, 0);
    }
  }

  /** Three bytes that end at big-endian position pos, all others zero. */
  lemma Placed(be: Bytes, pos: nat, v: u32)
    requires |be| == 32 && 2 <= pos <= 31 && v < 0x100_0000
    requires be[pos] == v % 0x100 && be[pos - 1] == v / 0x100 % 0x100 && be[pos - 2] == v / 0x1_0000 % 0x100
    requires forall i :: 0 <= i < 32 && (i > pos || i < pos - 2) ==> be[i] == 0
    ensures BigEndian(be) == Pow2(8 * (31 - pos)) * v
  {
    PlacedLow(Reverse(be), 31 - pos, v);
  }

  lemma PlacedLow(le: Bytes, k: nat, v: u32)
    requires |le| == 32 && k <= 29 && v < 0x100_0000
    requires le[k] == v % 0x100 && le[k + 1] == v / 0x100 % 0x100 && le[k + 2] == v / 0x1_0000 % 0x100
    requires forall i :: 0 <= i < 32 && (i < k || i > k + 2) ==> le[i] == 0
    ensures Val(B8, le) == Pow2(8 * k) * v
  {
    ValSplit(B8, le, k);
    ValZeros(B8, le[..k]);
    assert Val(B8, le[k..]) == v by {
      ValSplit(B8, le[k..], 3);
      ValZeros(B8, le[k..][3..]);
      assert le[k..][..3] == [v % 0x100, v / 0x100 % 0x100, v / 0x1_0000 % 0x100];
      ThreeBytes(v);
    }
    B32IsPow2();
    PowOfPow2(B8, 8, k);
  }

  lemma ThreeBytes(v: u32)
    requires v < 0x100_0000
    ensures Val(B8, [v % 0x100, v / 0x100 % 0x100, v / 0x1_0000 % 0x100]) == v
  {
    var s := [v % 0x100, v / 0x100 % 0x100, v / 0x1_0000 % 0x100];
    assert s[1..][1..][1..] == [];
    assert Val(B8, s[1..][1..]) == v / 0x1_0000 % 0x100;
    assert Val(B8, s[1..]) == v / 0x100 % 0x100 + 0x100 * (v / 0x1_0000 % 0x100);
  }

  lemma NoOverflow(m: u32, shift: nat)
    requires 0 < m < 0x80_0000 && shift <= 29
    ensures m * Pow2(8 * shift) % Two256() == m * Pow2(8 * shift) != 0
  {
    var p := Pow2(8 * shift);
    assert p <= Pow2(232) by { Pow2Mono(8 * shift, 232); }
    assert Pow2(24) * Pow2(232) == Two256() && Pow2(24) == 0x100_0000 by {
      Two256Is();
      Pow2Constants();
      Pow2Add(24, 232);
    }
    MulMono(m, 0x80_0000, p);
    MulMono(1, m, p);
    MulMono(p, Pow2(232), 0x80_0000);
    DivModUnique(m * p, Two256(), 0, m * p);
  }

  // ---- comparisons ----

  lemma FirstDifference(a: Uint256, b: Uint256, i: nat)
    requires i < 32 && a[i + 1..] == b[i + 1..] && a[i] != b[i]
    ensures Num(a) < Num(b) <==> a[i] < b[i]
    ensures Num(a) != Num(b)
  {
    if a[i] < b[i] { ValLess(B8, a, b, i); } else { ValLess(B8, b, a, i); }
  }

  lemma SameTail(a: Uint256, b: Uint256, i: nat)
    requires i < 32 && a[i] == b[i] && a[i + 1..] == b[i + 1..]
    ensures a[i..] == b[i..]
  {
    assert a[i..] == [a[i]] + a[i + 1..] && b[i..] == [b[i]] + b[i + 1..];
  }

  /** HashLeTarget: numeric order, decided from the most significant byte down. */
  method HashLeTarget(hash: Uint256, targetBe: Uint256) returns (r: bool)
    ensures r <==> Num(hash) <= BigEndian(targetBe)
  {
    var hashBe := Reverse(hash);
    ghost var t := Reverse(targetBe);
    for i := 0 to 32
      invariant hash[32 - i..] == t[32 - i..]
    {
      if hashBe[i] != targetBe[i] { FirstDifference(hash, t, 31 - i); } else { SameTail(hash, t, 31 - i); }
      if hashBe[i] < targetBe[i] { return true; }
      if hashBe[i] > targetBe[i] { return false; }
    }
    assert hash == hash[0..] == t[0..] == t;
    return true;
  }

  /** ChainWorkGe: numeric order. */
  method ChainWorkGe(a: Uint256, b: Uint256) returns (r: bool)
    ensures r <==> Num(a) >= Num(b)
  {
    for i := 0 to 32
      invariant a[32 - i..] == b[32 - i..]
    {
      var ca, cb := a[31 - i], b[31 - i];
      if ca != cb {
        FirstDifference(a, b, 31 - i);
        return ca > cb;
      }
      SameTail(a, b, 31 - i);
    }
    assert a == a[0..] == b[0..] == b;
    return true;
  }

  // ---- the work of a block ----

  /** The expected number of hashes behind a target, out of m possible ones, modulo m. */
  function WorkOver(m: nat, t: nat): (w: nat)
    requires t < m
    ensures w < m
  {
    DivBound(m, t + 1);
    m / (t + 1) % m
  }

  function BlockWork(target: nat): (w: nat)
    requires target < Two256()
    ensures w < Two256()
  {
    WorkOver(Two256(), target)
  }

  // The facts about it hold for every number m of hashes; the limbs use 2^256.

  /** What the limb expression (~t / (t + 1)) + 1 comes to when all of it is taken modulo m, with
      t + 1 wrapping to zero at the top and division by zero changing nothing. */
  lemma WorkExpression(m: nat, t: nat)
    requires t < m
    ensures var next := (t + 1) % m;
      var quotient := if next == 0 then m - 1 - t else (m - 1 - t) / next;
      (quotient + 1) % m == WorkOver(m, t)
  {
    var d := t + 1;
    if d == m {
      DivModUnique(d, m, 1, 0);
    } else {
      DivModUnique(d, m, 0, d);
      var n := m - d;
      DivModDef(n, d);
      DivModUnique(m, d, n / d + 1, n % d);
    }
  }

  /** For a target of at least 1 nothing wraps, and the work is positive. */
  lemma WorkOfTarget(m: nat, t: nat)
    requires 1 <= t < m
    ensures WorkOver(m, t) == m / (t + 1) >= 1
  {
    var q := m / (t + 1);
    DivModDef(m, t + 1);
    if q <= 0 { MulMono(q, 0, t + 1); }
    if q >= m { MulMono(m, q, t + 1); }
    DivModUnique(q, m, 0, q);
  }

  lemma TargetHasWork(t: nat)
    requires 1 <= t < Two256()
    ensures BlockWork(t) >= 1
  {
    hide WorkOver;
    WorkOfTarget(Two256(), t);
  }

  /** A smaller target is never less work. */
  lemma WorkAntitone(m: nat, t: nat, u: nat)
    requires 1 <= t <= u < m
    ensures WorkOver(m, t) >= WorkOver(m, u)
  {
    WorkOfTarget(m, t);
    WorkOfTarget(m, u);
    var q := m / (u + 1);
    DivModDef(m, u + 1);
    DivModDef(m, t + 1);
    MulMono(t + 1, u + 1, q);
    var p := m / (t + 1);
    if p < q { MulMono(p + 1, q, t + 1); }
  }
}
