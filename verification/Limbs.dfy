/** What the limb loops of the 256-bit integer compute, stated on sequences of limbs. */
module Limbs {
  import opened Radix
  import opened Words

  const LIMBS := 8

  lemma LimbsBound(s: seq<u32>)
    requires |s| == LIMBS
    ensures 0 <= Val(B32, s) < Two256() == Pow(B32, LIMBS)
  {
    ValBound(B32, s);
    Two256Is();
  }

  // ---- what the limb loops compute, limb by limb ----

  /** Limb i after `<<=` by 32*ws + bs bits. */
  function ShlLimb(o: seq<u32>, i: nat, ws: nat, bs: nat): u32
    requires i < |o| && bs < 32
  {
    if i < ws then 0
    else if i == ws then Shl32(o[i - ws], bs)
    else Or32(Shl32(o[i - ws], bs), Shr32(o[i - ws - 1], 32 - bs))
  }

  /** Limb i after `>>=` by 32*ws + bs bits. */
  function ShrLimb(o: seq<u32>, i: nat, ws: nat, bs: nat): u32
    requires i < |o| && bs < 32
  {
    if i + ws >= |o| then 0
    else if i + ws + 1 >= |o| then Shr32(o[i + ws], bs)
    else Or32(Shr32(o[i + ws], bs), Shl32(o[i + ws + 1], 32 - bs))
  }

  /** The bits of limb k that `<<=` by bs carries into limb k + 1. */
  function Spill(x: u32, bs: nat): (c: nat)
    requires bs < 32
  {
    Shr32(x, 32 - bs)
  }

  lemma Pow2Compl(bs: nat)
    requires bs <= 32
    ensures Pow2(bs) * Pow2(32 - bs) == B32 == Pow2(32 - bs) * Pow2(bs)
  {
    Pow2Constants();
    Pow2Add(bs, 32 - bs);
  }

  lemma ShiftWeight(ws: nat, bs: nat)
    requires ws <= LIMBS
    ensures Pow2(32 * ws + bs) == Pow2(bs) * Pow(B32, ws) == Pow(B32, ws) * Pow2(bs)
  {
    hide Pow2, Pow;
    LimbPower(ws);
    Pow2Add(32 * ws, bs);
  }

  lemma Two256Split(ws: nat)
    requires ws <= LIMBS
    ensures Two256() == Pow(B32, LIMBS - ws) * Pow(B32, ws)
  {
    Two256Is();
    PowAdd(B32, LIMBS - ws, ws);
  }

  lemma SplitAt(x: u32, bs: nat)
    requires bs < 32
    ensures x * Pow2(bs) == Shl32(x, bs) + Spill(x, bs) * B32
    ensures Spill(x, bs) < Pow2(bs)
    ensures Shl32(x, bs) % Pow2(bs) == 0
  {
    var p, q := Pow2(bs), Pow2(32 - bs);
    Pow2Compl(bs);
    DivModDef(x, q);
    SplitFacts(x, p, q, B32, x / q, x % q);
  }

  lemma SplitFacts(x: int, p: int, q: int, t: int, hi: int, lo: int)
    requires p > 0 && q > 0 && t == q * p && x == hi * q + lo && 0 <= lo < q && 0 <= x < t
    ensures (x * p) / t == hi && (x * p) % t == lo * p && (lo * p) % p == 0
    ensures x * p == (x * p) % t + hi * t
    ensures 0 <= hi < p
  {
    SplitArith(x, p, q, t, hi, lo);
    DivModUnique(x * p, t, hi, lo * p);
    DivCancel(lo, p);
  }

  lemma SplitArith(x: int, p: int, q: int, t: int, hi: int, lo: int)
    requires p > 0 && q > 0 && t == q * p && x == hi * q + lo && 0 <= lo < q && 0 <= x < t
    ensures x * p == hi * t + lo * p
    ensures 0 <= lo * p < t
    ensures 0 <= hi < p
  {
    MulAssoc(hi, q, p);
    assert x * p == (hi * q) * p + lo * p;
    MulMono(lo, q - 1, p);
    MulMono(0, lo, p);
    assert (q - 1) * p == q * p - p;
    if hi >= p { MulMono(p, hi, q); }
    if hi < 0 { MulMono(hi, -1, q); }
  }

  lemma ShlLimbIs(o: seq<u32>, i: nat, ws: nat, bs: nat)
    requires ws < i < |o| && bs < 32
    ensures ShlLimb(o, i, ws, bs) == Shl32(o[i - ws], bs) + Spill(o[i - ws - 1], bs)
  {
    SplitAt(o[i - ws], bs);
    SplitAt(o[i - ws - 1], bs);
    Or32Disjoint(Shl32(o[i - ws], bs), Spill(o[i - ws - 1], bs), bs);
  }

  /** The spill that has not been placed yet after limb i - 1 was written. */
  function Pending(o: seq<u32>, i: nat, ws: nat, bs: nat): nat
    requires ws <= i <= |o| && bs < 32
  {
    if i == ws then 0 else Spill(o[i - ws - 1], bs)
  }

  /** One limb of `<<=`: what goes in is the limb times 2^bs and the pending spill. */
  lemma ShlStep(o: seq<u32>, r: seq<u32>, i: nat, ws: nat, bs: nat)
    requires |o| == |r| && ws <= i < |o| && bs < 32
    requires r[i] == ShlLimb(o, i, ws, bs)
    ensures r[i] + Pending(o, i + 1, ws, bs) * B32 == o[i - ws] * Pow2(bs) + Pending(o, i, ws, bs)
  {
    SplitAt(o[i - ws], bs);
    if i > ws { ShlLimbIs(o, i, ws, bs); }
  }

  lemma {:induction false} ShlPrefix(o: seq<u32>, r: seq<u32>, i: nat, ws: nat, bs: nat)
    requires |o| == |r| && ws <= i <= |o| && bs < 32
    requires forall k :: 0 <= k < |o| ==> r[k] == ShlLimb(o, k, ws, bs)
    ensures Val(B32, r[..i]) + Pending(o, i, ws, bs) * Pow(B32, i)
         == Val(B32, o[..i - ws]) * (Pow2(bs) * Pow(B32, ws))
  {
    if i == ws {
      ValZeros(B32, r[..i]);
    } else {
      var j := i - 1;
      ShlPrefix(o, r, j, ws, bs);
      ShlStep(o, r, j, ws, bs);
      ValSnoc(B32, r, j);
      ValSnoc(B32, o, j - ws);
      PowAdd(B32, j - ws, ws);
      ShlArith(Val(B32, r[..j]), Pow(B32, j), r[j], Pending(o, i, ws, bs), Pending(o, j, ws, bs),
               Val(B32, o[..j - ws]), Pow(B32, j - ws), o[j - ws], Pow2(bs), Pow(B32, ws));
    }
  }

  lemma ShlArith(vr: int, wj: int, rj: int, pNext: int, p: int, vo: int, wk: int, ok: int, b: int, ww: int)
    requires wj == wk * ww
    requires rj + pNext * B32 == ok * b + p
    requires vr + p * wj == vo * (b * ww)
    ensures vr + wj * rj + pNext * (B32 * wj) == (vo + wk * ok) * (b * ww)
  {
    calc {
      vr + wj * rj + pNext * (B32 * wj);
    ==
      vr + wj * (rj + pNext * B32);
    ==
      vr + wj * (ok * b + p);
    ==
      vr + p * wj + wj * (ok * b);
    ==
      vo * (b * ww) + (wk * ww) * (ok * b);
    == { assert (wk * ww) * (ok * b) == (wk * ok) * (b * ww); }
      vo * (b * ww) + (wk * ok) * (b * ww);
    ==
      (vo + wk * ok) * (b * ww);
    }
  }

  /** `<<=` is multiplication by 2^(32*ws + bs), cut to 256 bits. */
  lemma ShlValue(o: seq<u32>, r: seq<u32>, ws: nat, bs: nat)
    requires |o| == |r| == LIMBS && ws <= LIMBS && bs < 32
    requires forall k :: 0 <= k < LIMBS ==> r[k] == ShlLimb(o, k, ws, bs)
    ensures Val(B32, r) == Val(B32, o) * Pow2(32 * ws + bs) % Two256()
  {
    var n := LIMBS - ws;
    var lo, hi, c := Val(B32, o[..n]), Val(B32, o[n..]), Pending(o, LIMBS, ws, bs);
    assert Val(B32, r) + c * Two256() == lo * (Pow2(bs) * Pow(B32, ws)) by {
      ShlPrefix(o, r, LIMBS, ws, bs);
      assert r[..LIMBS] == r;
    }
    assert Pow2(32 * ws + bs) == Pow2(bs) * Pow(B32, ws) by { ShiftWeight(ws, bs); }
    assert Two256() == Pow(B32, n) * Pow(B32, ws) by { Two256Split(ws); }
    ValSplit(B32, o, n);
    CutArith(Val(B32, o), lo, hi, Pow(B32, n), Pow(B32, ws), Pow2(bs), Val(B32, r), c, Two256());
    ValBound(B32, r);
    ModAddMultiple(Val(B32, r), c + hi * Pow2(bs), Two256());
    DivModUnique(Val(B32, r), Two256(), 0, Val(B32, r));
  }

  lemma CutArith(v: int, lo: int, hi: int, pn: int, pw: int, b: int, r: int, c: int, t: int)
    requires v == lo + pn * hi && t == pn * pw
    requires r + c * t == lo * (b * pw)
    ensures v * (b * pw) == r + (c + hi * b) * t
  {
    calc {
      v * (b * pw);
    ==
      lo * (b * pw) + (pn * hi) * (b * pw);
    == { assert (pn * hi) * (b * pw) == (hi * b) * (pn * pw); }
      r + c * t + (hi * b) * t;
    ==
      r + (c + hi * b) * t;
    }
  }

  /** The low bits of limb y that `>>=` moves to the top of limb x. */
  lemma ShrLimbIs(x: u32, y: u32, bs: nat)
    requires 0 < bs < 32
    ensures Or32(Shr32(x, bs), Shl32(y, 32 - bs)) * Pow2(bs) + x % Pow2(bs) == x + B32 * (y % Pow2(bs))
  {
    var p, q := Pow2(bs), Pow2(32 - bs);
    var a, b := Shr32(x, bs), y % p;
    HighLimb(y, bs);
    DivModDef(y, p);
    JoinLimbs(x, a, b, bs);
    Pow2Compl(bs);
    DivModDef(x, p);
    JoinArith(x, a, b, p, q, x % p, B32);
  }

  lemma JoinLimbs(x: u32, a: u32, v: nat, bs: nat)
    requires 0 < bs < 32 && a == x / Pow2(bs) && v < Pow2(bs)
    requires v * Pow2(32 - bs) < B32
    ensures Or32(a, v * Pow2(32 - bs)) == v * Pow2(32 - bs) + a
  {
    var p, q := Pow2(bs), Pow2(32 - bs);
    Pow2Compl(bs);
    DivModDef(x, p);
    SplitFacts(x, q, p, B32, a, x % p);
    DivCancel(v, q);
    Or32Disjoint(v * q, a, 32 - bs);
  }

  lemma JoinArith(x: int, a: int, b: int, p: int, q: int, m: int, t: int)
    requires x == a * p + m && q * p == t
    ensures (b * q + a) * p + m == x + t * b
  {
    assert (b * q + a) * p == b * (q * p) + a * p;
  }

  lemma HighLimb(y: u32, bs: nat)
    requires 0 < bs < 32
    ensures Shl32(y, 32 - bs) == y % Pow2(bs) * Pow2(32 - bs)
  {
    var p, q := Pow2(bs), Pow2(32 - bs);
    Pow2Compl(bs);
    DivModDef(y, p);
    SplitFacts(y, q, p, B32, y / p, y % p);
  }

  lemma ShrLast(o: seq<u32>, r: seq<u32>, i: nat, ws: nat, bs: nat)
    requires |o| == |r| && i + ws + 1 == |o| && bs < 32
    requires forall k :: 0 <= k < |o| ==> r[k] == ShrLimb(o, k, ws, bs)
    ensures Val(B32, o[i + ws..]) == Val(B32, r[i..]) * Pow2(bs) + o[i + ws] % Pow2(bs)
  {
    hide Pow2;
    var k := i + ws;
    assert o[k..][1..] == o[k + 1..] && r[i..][1..] == r[i + 1..];
    assert Val(B32, o[k..]) == o[k] by { ValZeros(B32, o[k + 1..]); }
    assert Val(B32, r[i..]) == r[i] by {
      assert forall j :: i < j < |o| ==> r[j] == ShrLimb(o, j, ws, bs) == 0;
      ValZeros(B32, r[i + 1..]);
    }
    DivModDef(o[k], Pow2(bs));
  }

  lemma {:induction false} ShrSuffix(o: seq<u32>, r: seq<u32>, i: nat, ws: nat, bs: nat)
    requires |o| == |r| && i + ws < |o| && bs < 32
    requires forall k :: 0 <= k < |o| ==> r[k] == ShrLimb(o, k, ws, bs)
    ensures Val(B32, o[i + ws..]) == Val(B32, r[i..]) * Pow2(bs) + o[i + ws] % Pow2(bs)
    decreases |o| - i
  {
    hide ShrLimb, Pow2;
    var k := i + ws;
    var p := Pow2(bs);
    assert o[k..][1..] == o[k + 1..];
    assert r[i..][1..] == r[i + 1..];
    if k + 1 == |o| {
      ShrLast(o, r, i, ws, bs);
    } else {
      ShrSuffix(o, r, i + 1, ws, bs);
      ShrStep(o, i, ws, bs);
      ShrArith(r[i], Val(B32, r[i + 1..]), p, o[k], o[k] % p, o[k + 1] % p);
    }
  }

  lemma ShrStep(o: seq<u32>, i: nat, ws: nat, bs: nat)
    requires i + ws + 1 < |o| && bs < 32
    ensures ShrLimb(o, i, ws, bs) * Pow2(bs) + o[i + ws] % Pow2(bs)
         == o[i + ws] + B32 * (o[i + ws + 1] % Pow2(bs))
  {
    if bs == 0 {
      Shl32Full(o[i + ws + 1]);
      BitOrZero(o[i + ws]);
    } else {
      ShrLimbIs(o[i + ws], o[i + ws + 1], bs);
    }
  }

  lemma Shl32Full(x: u32)
    ensures Shl32(x, 32) == 0
  {
    Pow2Constants();
    DivCancel(x, TWO32);
  }

  lemma ShrArith(ri: int, v: int, p: int, x: int, m: int, t: int)
    requires ri * p + m == x + B32 * t
    ensures (ri + B32 * v) * p + m == x + B32 * (v * p + t)
  {
    assert (ri + B32 * v) * p == ri * p + B32 * (v * p);
  }

  lemma LimbCut(o: seq<u32>, ws: nat)
    requires ws <= |o|
    ensures Val(B32, o) / Pow(B32, ws) == Val(B32, o[ws..])
  {
    ValSplit(B32, o, ws);
    ValBound(B32, o[..ws]);
    DivArith(Val(B32, o), Val(B32, o[..ws]), Pow(B32, ws), Val(B32, o[ws..]));
  }

  lemma DivArith(n: int, r: int, d: int, q: int)
    requires n == r + d * q && 0 <= r < d
    ensures n / d == q && n % d == r
  {
    DivModUnique(n, d, q, r);
  }

  /** `>>=` is division by 2^(32*ws + bs), rounded down. */
  lemma ShrValue(o: seq<u32>, r: seq<u32>, ws: nat, bs: nat)
    requires |o| == |r| == LIMBS && ws <= LIMBS && bs < 32
    requires forall k :: 0 <= k < LIMBS ==> r[k] == ShrLimb(o, k, ws, bs)
    ensures Val(B32, r) == Val(B32, o) / Pow2(32 * ws + bs)
  {
    var w, p := Pow(B32, ws), Pow2(bs);
    assert Pow2(32 * ws + bs) == w * p by { ShiftWeight(ws, bs); }
    LimbCut(o, ws);
    ValBound(B32, o);
    DivDiv(Val(B32, o), w, p);
    if ws == LIMBS {
      assert forall j :: 0 <= j < LIMBS ==> r[j] == ShrLimb(o, j, ws, bs) == 0;
      ValZeros(B32, r);
      DivModUnique(0, p, 0, 0);
    } else {
      ShrSuffix(o, r, 0, ws, bs);
      assert r[0..] == r;
      DivModUnique(Val(B32, o[ws..]), p, Val(B32, r), o[ws] % p);
    }
  }

  lemma OverShift(v: nat, shift: nat)
    requires shift >= 256
    ensures v * Pow2(shift) % Two256() == 0
  {
    Two256Is();
    Pow2Add(shift - 256, 256);
    MultipleMod(v, Pow2(shift - 256), Two256(), Pow2(shift));
  }

  lemma MultipleMod(v: int, a: int, t: int, s: int)
    requires t > 0 && s == a * t
    ensures v * s % t == 0
  {
    MulAssoc(v, a, t);
    DivCancel(v * a, t);
  }

  lemma UnderShift(o: seq<u32>, shift: nat)
    requires |o| == LIMBS && shift >= 256
    ensures Val(B32, o) / Pow2(shift) == 0
  {
    Two256Is();
    Pow2Mono(256, shift);
    ValBound(B32, o);
    DivModUnique(Val(B32, o), Pow2(shift), 0, Val(B32, o));
  }

  lemma WholeLimbsLeft(o: seq<u32>, r: seq<u32>, ws: nat)
    requires |o| == |r| == LIMBS && ws < LIMBS
    requires forall k :: 0 <= k < LIMBS ==> r[k] == if k < ws then 0 else o[k - ws]
    ensures Val(B32, r) == Val(B32, o) * Pow2(32 * ws) % Two256()
  {
    forall k | 0 <= k < LIMBS
      ensures r[k] == ShlLimb(o, k, ws, 0)
    {
      if k >= ws { WholeLimb(o[k - ws]); }
      if k > ws { WholeLimb(o[k - ws - 1]); }
    }
    ShlValue(o, r, ws, 0);
  }

  lemma WholeLimbsRight(o: seq<u32>, r: seq<u32>, ws: nat)
    requires |o| == |r| == LIMBS && ws < LIMBS
    requires forall k :: 0 <= k < LIMBS ==> r[k] == if k + ws < LIMBS then o[k + ws] else 0
    ensures Val(B32, r) == Val(B32, o) / Pow2(32 * ws)
  {
    forall k | 0 <= k < LIMBS
      ensures r[k] == ShrLimb(o, k, ws, 0)
    {
      if k + ws < LIMBS { WholeLimb(o[k + ws]); }
      if k + ws + 1 < LIMBS { WholeLimb(o[k + ws + 1]); }
    }
    ShrValue(o, r, ws, 0);
  }

  lemma WholeLimb(x: u32)
    ensures Shl32(x, 0) == x == Shr32(x, 0)
    ensures Shr32(x, 32) == 0 == Shl32(x, 32)
    ensures Or32(x, 0) == x
  {
    Shl32Full(x);
    Pow2Constants();
    DivModUnique(x, TWO32, 0, x);
    BitOrZero(x);
  }

  lemma TwoLimbs(s: seq<u32>, v: u64)
    requires |s| == LIMBS && s[0] == Lo32(v) && s[1] == Lo32(v / TWO32)
    requires forall i :: 2 <= i < LIMBS ==> s[i] == 0
    ensures Val(B32, s) == v
  {
    ValZeros(B32, s[2..]);
    assert s[1..][1..] == s[2..];
    assert Val(B32, s[1..]) == s[1];
  }

  /** One limb of a carry loop, whatever is being summed: x is the exact value of the limbs
      already done, d what limb i contributes, c and e the carry in and out (negative for a
      borrow). */
  lemma CarryStep(r: seq<u32>, i: nat, x: int, d: int, c: int, e: int)
    requires i < |r|
    requires Val(B32, r[..i]) + c * Pow(B32, i) == x
    requires r[i] + e * B32 == d + c
    ensures Val(B32, r[..i + 1]) + e * Pow(B32, i + 1) == x + Pow(B32, i) * d
  {
    ValSnoc(B32, r, i);
    CarryArith(Val(B32, r[..i]), Pow(B32, i), r[i], x, d, c, e);
  }

  lemma CarryArith(v: int, p: int, ri: int, x: int, d: int, c: int, e: int)
    requires v + c * p == x && ri + e * B32 == d + c
    ensures v + p * ri + e * (B32 * p) == x + p * d
  {
    assert p * ri + e * (B32 * p) == p * (ri + e * B32);
    assert p * (d + c) == p * d + c * p;
  }

  /** A uint64_t difference wraps exactly when a borrow is due, and bit 32 shows it. */
  lemma BorrowOut(x: u32, y: u32, c: int)
    requires 0 <= c <= 1
    ensures var cur := Lo64(x - y - c);
      Lo32(cur) - cur / TWO32 % 2 * B32 == x - y - c
  {
    var t := x - y - c;
    if t < 0 {
      DivModUnique(t, TWO64, -1, t + TWO64);
      DivModUnique(t + TWO64, TWO32, TWO32 - 1, t + TWO32);
    } else {
      DivModUnique(t, TWO64, 0, t);
      DivModUnique(t, TWO32, 0, t);
    }
  }

  lemma AddStep(w: seq<u32>, a: seq<u32>, b: seq<u32>, i: nat, c: int)
    requires |w| == |a| == |b| == LIMBS && i < LIMBS && 0 <= c <= 1
    requires Val(B32, w[..i]) + c * Pow(B32, i) == Val(B32, a[..i]) + Val(B32, b[..i])
    ensures var cur := Lo64(a[i] + b[i] + c);
      && cur / TWO32 <= 1
      && Val(B32, w[i := Lo32(cur)][..i + 1]) + cur / TWO32 * Pow(B32, i + 1)
         == Val(B32, a[..i + 1]) + Val(B32, b[..i + 1])
  {
    var cur := Lo64(a[i] + b[i] + c);
    var r := w[i := Lo32(cur)];
    assert r[..i] == w[..i];
    DivModUnique(a[i] + b[i] + c, TWO64, 0, a[i] + b[i] + c);
    CarryStep(r, i, Val(B32, a[..i]) + Val(B32, b[..i]), a[i] as int + b[i] as int, c, cur / TWO32);
    ValSnoc(B32, a, i);
    ValSnoc(B32, b, i);
    Distribute(Pow(B32, i), a[i], b[i]);
  }

  lemma SubStep(w: seq<u32>, a: seq<u32>, b: seq<u32>, i: nat, c: int)
    requires |w| == |a| == |b| == LIMBS && i < LIMBS && 0 <= c <= 1
    requires Val(B32, w[..i]) - c * Pow(B32, i) == Val(B32, a[..i]) - Val(B32, b[..i])
    ensures var cur := Lo64(a[i] - b[i] - c);
      && Val(B32, w[i := Lo32(cur)][..i + 1]) - cur / TWO32 % 2 * Pow(B32, i + 1)
         == Val(B32, a[..i + 1]) - Val(B32, b[..i + 1])
  {
    var cur := Lo64(a[i] - b[i] - c);
    var e := cur / TWO32 % 2;
    var r := w[i := Lo32(cur)];
    assert r[..i] == w[..i];
    BorrowOut(a[i], b[i], c);
    BorrowSign(Pow(B32, i), c);
    BorrowSign(Pow(B32, i + 1), e);
    CarryStep(r, i, Val(B32, a[..i]) - Val(B32, b[..i]), a[i] as int - b[i] as int, -c, -e);
    ValSnoc(B32, a, i);
    ValSnoc(B32, b, i);
    Distribute(Pow(B32, i), a[i], b[i]);
  }

  lemma Distribute(p: int, x: int, y: int)
    ensures p * (x + y) == p * x + p * y && p * (x - y) == p * x - p * y
  {}

  lemma BorrowSign(p: int, c: int)
    ensures -c * p == -(c * p)
  {}

  lemma WholeSum(r: seq<u32>, a: seq<u32>, b: seq<u32>, x: int, c: int)
    requires |r| == |a| == |b| == LIMBS
    requires Val(B32, r[..LIMBS]) + c * Pow(B32, LIMBS) == x
    ensures Val(B32, r) == x % Two256()
  {
    assert r[..LIMBS] == r;
    LimbsBound(r);
    DivModUnique(x, Two256(), c, Val(B32, r));
  }

  /** The limbs `*=` leaves, with the carry it enters them with. */
  function MulWords(s: seq<u32>, factor: u64, carry: u64): (r: seq<u32>)
    ensures |r| == |s|
  {
    if s == [] then [] else
      var cur := Lo64(s[0] * factor + carry);
      [Lo32(cur)] + MulWords(s[1..], factor, cur / TWO32)
  }

  /** Up to a factor of 2^32 no partial product is cut. */
  lemma {:induction false} MulExact(s: seq<u32>, factor: u64, carry: u64)
    requires factor <= TWO32 && carry < TWO32
    ensures Val(B32, MulWords(s, factor, carry)) == (Val(B32, s) * factor + carry) % Pow(B32, |s|)
  {
    if s == [] {
      DivModUnique(carry, 1, carry, 0);
    } else {
      NoWrap(s[0], factor, carry);
      MulExact(s[1..], factor, (s[0] * factor + carry) / TWO32);
      MulExactStep(s, factor, carry);
    }
  }

  lemma MulExactStep(s: seq<u32>, factor: u64, carry: u64)
    requires s != [] && factor <= TWO32 && carry < TWO32
    requires 0 <= s[0] * factor + carry < TWO64
    requires var c := (s[0] * factor + carry) / TWO32;
      Val(B32, MulWords(s[1..], factor, c)) == (Val(B32, s[1..]) * factor + c) % Pow(B32, |s| - 1)
    ensures Val(B32, MulWords(s, factor, carry)) == (Val(B32, s) * factor + carry) % Pow(B32, |s|)
  {
    var cur := s[0] * factor + carry;
    DivModUnique(cur, TWO64, 0, cur);
    MulLimb(s, factor, carry);
    ValBound(B32, s[1..]);
    MulArith(Val(B32, s), s[0], Val(B32, s[1..]), factor, carry, cur, Pow(B32, |s|), Pow(B32, |s| - 1));
  }

  lemma MulLimb(s: seq<u32>, factor: u64, carry: u64)
    requires s != []
    ensures var cur := Lo64(s[0] * factor + carry);
      Val(B32, MulWords(s, factor, carry)) == Lo32(cur) + B32 * Val(B32, MulWords(s[1..], factor, cur / TWO32))
  {
    var cur := Lo64(s[0] * factor + carry);
    var r := MulWords(s, factor, carry);
    assert r[1..] == MulWords(s[1..], factor, cur / TWO32);
  }

  lemma NoWrap(x: u32, factor: u64, carry: u64)
    requires factor <= TWO32 && carry < TWO32
    ensures 0 <= x * factor + carry < TWO64
    ensures Lo64(x * factor + carry) == x * factor + carry
    ensures (x * factor + carry) / TWO32 < TWO32
  {
    MulMono(x, TWO32 - 1, factor);
    MulMono(0, x, factor);
    DivModUnique(x * factor + carry, TWO64, 0, x * factor + carry);
  }

  lemma MulArith(v: int, x: int, t: int, f: int, c: int, cur: int, q: int, p: int)
    requires v == x + B32 * t && q == B32 * p
    requires cur == x * f + c && cur >= 0 && t >= 0 && f >= 0 && p > 0
    ensures cur % B32 + B32 * ((t * f + cur / B32) % p) == (v * f + c) % q
  {
    var n := v * f + c;
    MulMono(0, t, f);
    assert n == cur + (t * f) * B32;
    DivModDef(cur, B32);
    DivModUnique(n, B32, cur / B32 + t * f, cur % B32);
    ModSplit(n, B32, p);
  }

  lemma MulIsExact(s: seq<u32>, factor: u64)
    requires |s| == LIMBS && factor <= TWO32
    ensures Val(B32, MulWords(s, factor, 0)) == Val(B32, s) * factor % Two256()
  {
    MulExact(s, factor, 0);
    Two256Is();
  }

  lemma AppendMove(a: seq<u32>, x: u32, b: seq<u32>)
    ensures a + ([x] + b) == (a + [x]) + b
  {}

  /** The rest of the limbs after limb i has been multiplied. */
  lemma MulNext(s: seq<u32>, i: nat, factor: u64, carry: u64)
    requires i < |s|
    ensures var cur := Lo64(s[i] * factor + carry);
      MulWords(s[i..], factor, carry) == [Lo32(cur)] + MulWords(s[i + 1..], factor, cur / TWO32)
  {
    assert s[i..][1..] == s[i + 1..];
  }

  // ---- single bits ----

  /** Bit 32*w + off of the number is bit off of limb w. */
  lemma BitOfLimb(o: seq<u32>, w: nat, off: nat)
    requires w < |o| == LIMBS && off < 32
    ensures Val(B32, o) / Pow2(32 * w + off) % 2 == o[w] / Pow2(off) % 2
  {
    assert Val(B32, o) / Pow2(32 * w + off) == Val(B32, o[w..]) / Pow2(off) by { ShiftCut(o, w, off); }
    var rest := Val(B32, o[w + 1..]);
    assert o[w..][1..] == o[w + 1..];
    assert B32 == Pow2(off) * (2 * Pow2(31 - off)) by { Pow2Compl(off); }
    LowBits(o[w], rest, Pow2(off), Pow2(31 - off), B32);
  }

  lemma NextBit(o: seq<u32>, i: nat)
    requires |o| == LIMBS && i < 256
    ensures Val(B32, o) >= 0
    ensures Shr32(o[i / 32], i % 32) % 2 == Top(Val(B32, o), i) % 2
  {
    ValBound(B32, o);
    BitOfLimb(o, i / 32, i % 32);
  }

  lemma ShiftCut(o: seq<u32>, w: nat, off: nat)
    requires w < |o| == LIMBS && off < 32
    ensures Val(B32, o) / Pow2(32 * w + off) == Val(B32, o[w..]) / Pow2(off)
  {
    ValBound(B32, o);
    ShiftWeight(w, off);
    LimbCut(o, w);
    DivDiv(Val(B32, o), Pow(B32, w), Pow2(off));
  }

  lemma LowBits(x: int, rest: int, p: int, h: int, t: int)
    requires p > 0 && t == p * (2 * h)
    ensures (x + t * rest) / p % 2 == x / p % 2
  {
    DivModDef(x, p);
    assert x + t * rest == (x / p + 2 * (h * rest)) * p + x % p;
    DivModUnique(x + t * rest, p, x / p + 2 * (h * rest), x % p);
    ModAddMultiple(x / p, h * rest, 2);
  }

  /** The bits of n above position i. */
  function Top(n: nat, i: nat): nat {
    DivBound(n, Pow2(i));
    n / Pow2(i)
  }

  lemma TopStep(n: nat, i: nat)
    ensures Top(n, i) == 2 * Top(n, i + 1) + Top(n, i) % 2
    ensures Top(n, i) <= n
  {
    DivDiv(n, Pow2(i), 2);
    DivBound(n, Pow2(i));
  }

  /** Or-ing a bit into an even number. */
  lemma SetLowBit(r: seq<u32>, b: nat)
    requires |r| == LIMBS && b <= 1 && Val(B32, r) % 2 == 0
    ensures Or32(r[0], b) == r[0] + b
    ensures Val(B32, r[0 := Or32(r[0], b)]) == Val(B32, r) + b
  {
    var rest := Val(B32, r[1..]);
    assert (r[0] + B32 * rest) % 2 == r[0] % 2 by {
      ModAddMultiple(r[0], 0x8000_0000 * rest, 2);
    }
    Or32Disjoint(r[0], b, 1);
    assert r[0 := r[0] + b][1..] == r[1..];
  }

  /** No bit of the quotient below position i has been set. */
  ghost predicate ClearBelow(q: seq<u32>, i: nat)
    requires |q| == LIMBS && i <= 256
  {
    forall k :: 0 <= k < LIMBS ==>
      && (i >= 32 * k + 32 ==> q[k] == 0)
      && (32 * k < i < 32 * k + 32 ==> q[k] % Pow2(i - 32 * k) == 0)
  }

  lemma SetQuotientBit(q: seq<u32>, w: nat, off: nat)
    requires |q| == LIMBS && w < LIMBS && off < 32 && ClearBelow(q, 32 * w + off + 1)
    ensures Pow2(off) < B32
    ensures Or32(q[w], Pow2(off)) == q[w] + Pow2(off)
    ensures var r := q[w := Or32(q[w], Pow2(off))];
      ClearBelow(r, 32 * w + off) && Val(B32, r) == Val(B32, q) + Pow2(32 * w + off)
  {
    QuotientLimb(q, w, off);
    ClearsBelow(q, w, off);
    SetLimb(q, w, q[w] + Pow2(off));
    ShiftWeight(w, off);
  }

  lemma QuotientLimb(q: seq<u32>, w: nat, off: nat)
    requires |q| == LIMBS && w < LIMBS && off < 32 && ClearBelow(q, 32 * w + off + 1)
    ensures Pow2(off) < B32
    ensures Or32(q[w], Pow2(off)) == q[w] + Pow2(off)
    ensures q[w] % Pow2(off) == 0 && (q[w] + Pow2(off)) % Pow2(off) == 0
  {
    if off == 31 {
      ZeroMod(Pow2(32));
    } else {
      assert 32 * w < 32 * w + off + 1 < 32 * w + 32;
    }
    AddBit(q[w], off);
  }

  lemma ZeroMod(p: int)
    requires p > 0
    ensures 0 % p == 0
  {
    DivModUnique(0, p, 0, 0);
  }

  lemma AddBit(x: u32, off: nat)
    requires off < 32 && x % Pow2(off + 1) == 0
    ensures Pow2(off) < B32
    ensures Or32(x, Pow2(off)) == x + Pow2(off)
    ensures x % Pow2(off) == 0 && (x + Pow2(off)) % Pow2(off) == 0
  {
    Pow2Constants();
    Pow2Mono(off, 31);
    Or32Disjoint(x, Pow2(off), off + 1);
    EvenMultiple(x, Pow2(off));
  }

  lemma SetLimb(q: seq<u32>, w: nat, x: u32)
    requires w < |q|
    ensures Val(B32, q[w := x]) == Val(B32, q) + Pow(B32, w) * (x - q[w])
  {
    var r := q[w := x];
    assert r[w + 1..] == q[w + 1..] && r[..w] == q[..w];
    ValSplit(B32, q, w + 1);
    ValSplit(B32, r, w + 1);
    ValSnoc(B32, q, w);
    ValSnoc(B32, r, w);
    Distribute(Pow(B32, w), x, q[w]);
  }

  lemma EvenMultiple(x: int, p: int)
    requires p > 0 && x % (2 * p) == 0
    ensures x % p == 0 && (x + p) % p == 0
  {
    var c := x / (2 * p);
    assert x == (2 * c) * p;
    DivCancel(2 * c, p);
    DivCancel(2 * c + 1, p);
    assert (2 * c + 1) * p == x + p;
  }

  /** One position less to be clear: nothing below changes. */
  lemma ClearsBelow(q: seq<u32>, w: nat, off: nat)
    requires |q| == LIMBS && w < LIMBS && off < 32 && ClearBelow(q, 32 * w + off + 1)
    ensures ClearBelow(q, 32 * w + off)
  {
    forall k | 0 <= k < LIMBS && 32 * k < 32 * w + off < 32 * k + 32
      ensures q[k] % Pow2(32 * w + off - 32 * k) == 0
    {
      assert k == w;
      QuotientLimb(q, w, off);
    }
  }

  /** What the division loop has established once the bits from position i up are consumed. */
  ghost predicate DivState(n: nat, d: nat, i: nat, q: nat, qv: nat, rem: nat) {
    qv == q * Pow2(i) && Top(n, i) == q * d + rem
  }

  /** The invariant of the division loop. */
  ghost predicate Dividing(n: nat, d: nat, i: nat, quotient: seq<u32>, rem: seq<u32>)
    requires |quotient| == |rem| == LIMBS && i <= 256
  {
    && ClearBelow(quotient, i)
    && 0 <= Val(B32, quotient) && 0 <= Val(B32, rem) < d && Val(B32, rem) <= Top(n, i)
    && exists q: nat :: DivState(n, d, i, q, Val(B32, quotient), Val(B32, rem))
  }

  lemma StartDividing(n: nat, d: nat, quotient: seq<u32>, rem: seq<u32>)
    requires n < Two256() && d > 0
    requires quotient == rem == [0, 0, 0, 0, 0, 0, 0, 0]
    ensures Dividing(n, d, 256, quotient, rem)
  {
    Two256Is();
    DivModUnique(n, Pow2(256), 0, n);
    ValZeros(B32, rem);
    assert DivState(n, d, 256, 0, 0, 0);
  }

  lemma EndDividing(n: nat, d: nat, quotient: seq<u32>, rem: seq<u32>)
    requires |quotient| == |rem| == LIMBS && d > 0
    requires Dividing(n, d, 0, quotient, rem)
    ensures Val(B32, quotient) == n / d
  {
    var q: nat :| DivState(n, d, 0, q, Val(B32, quotient), Val(B32, rem));
    Quotient(n, d, q, Val(B32, quotient), Val(B32, rem));
  }

  /** Doubling the remainder never loses a bit: it is at most the part of n consumed so far. */
  lemma DoubleFits(rem: nat, n: nat, i: nat)
    requires rem <= Top(n, i + 1) && n < Two256()
    ensures 2 * rem + Top(n, i) % 2 < Two256()
    ensures 2 * rem + Top(n, i) % 2 <= Top(n, i)
  {
    TopStep(n, i);
  }

  lemma NoBorrow(a: nat, d: nat)
    requires d <= a < Two256()
    ensures (a - d) % Two256() == a - d
  {
    DivModUnique(a - d, Two256(), 0, a - d);
  }

  lemma DivStep(n: nat, d: nat, i: nat, q: nat, qv: nat, r0: nat, r1: nat, qv': nat, r': nat)
    requires DivState(n, d, i + 1, q, qv, r0) && r1 == 2 * r0 + Top(n, i) % 2
    requires r1 < d ==> qv' == qv && r' == r1
    requires r1 >= d ==> qv' == qv + Pow2(i) && r' == r1 - d
    ensures exists q': nat :: DivState(n, d, i, q', qv', r')
  {
    TopStep(n, i);
    var b := if r1 < d then 0 else 1;
    QuotientArith(q, b, Pow2(i), d);
    assert DivState(n, d, i, 2 * q + b, qv', r');
  }

  lemma Quotient(n: nat, d: nat, q: nat, qv: nat, rem: nat)
    requires DivState(n, d, 0, q, qv, rem) && rem < d
    ensures qv == n / d
  {
    assert Pow2(0) == 1;
    DivModUnique(n, 1, n, 0);
    DivModUnique(n, d, q, rem);
  }

  lemma QuotientArith(q: int, b: int, p: int, d: int)
    requires b == 0 || b == 1
    ensures (2 * q + b) * p == q * (2 * p) + b * p
    ensures (2 * q + b) * d == 2 * (q * d) + b * d
    ensures b * p == (if b == 0 then 0 else p) && b * d == if b == 0 then 0 else d
  {}

  lemma NotArith(p: int, a: int, b: int)
    requires a + b == B32 - 1
    ensures p - 1 + p * a + p * b == B32 * p - 1
  {
    assert p * a + p * b == p * (a + b);
  }

  lemma NonzeroLimb(s: seq<u32>, i: nat)
    requires i < |s| && s[i] != 0
    ensures Val(B32, s) != 0
  {
    var z: seq<u32> := seq(|s|, _ => 0);
    ValZeros(B32, z);
    if Val(B32, s) == 0 { ValInjective(B32, s, z); }
  }

  // ---- the compact form ----

  /** The number an nBits field denotes to the limb code: the sign bit is dropped, and bits
      shifted past 256 are lost. */
  function CompactTarget(nCompact: u32): (t: nat)
    ensures t < Two256()
  {
    var size, word := nCompact / 0x100_0000, nCompact % 0x80_0000;
    if size <= 3 then
      DivBound(word, Pow2(8 * (3 - size)));
      word / Pow2(8 * (3 - size))
    else word * Pow2(8 * (size - 3)) % Two256()
  }

  lemma PlaceWord(word: u32, ws: nat, bs: nat, r: seq<u32>)
    requires ws < LIMBS && bs < 32 && |r| == LIMBS
    requires r[ws] == Shl32(word, bs)
    requires ws + 1 < LIMBS ==> r[ws + 1] == if bs == 0 then 0 else Shr32(word, 32 - bs)
    requires forall k :: 0 <= k < LIMBS && k != ws && k != ws + 1 ==> r[k] == 0
    ensures Val(B32, r) == word * Pow2(32 * ws + bs) % Two256()
  {
    var o: seq<u32> := [word, 0, 0, 0, 0, 0, 0, 0];
    assert Val(B32, o) == word by { ValZeros(B32, o[1..]); }
    forall k | 0 <= k < LIMBS
      ensures r[k] == ShlLimb(o, k, ws, bs)
    {
      WholeLimb(word);
      ZeroShift(bs);
      if k == ws + 1 { BitOrZero(Shr32(word, 32 - bs)); }
    }
    ShlValue(o, r, ws, bs);
  }

  lemma ZeroShift(bs: nat)
    requires bs < 32
    ensures Shl32(0, bs) == 0 == Shr32(0, 32 - bs)
    ensures Or32(0, 0) == 0
  {
    DivModUnique(0, Pow2(32 - bs), 0, 0);
  }

  lemma LowLimb(s: seq<u32>)
    requires |s| == LIMBS && forall k :: 1 <= k < LIMBS ==> s[k] == 0
    ensures Val(B32, s) == s[0]
  {
    ValZeros(B32, s[1..]);
  }

  // ---- bytes and limbs ----

  /** Limb k once the first n of its four bytes have been or-ed in. */
  function PackLimb(v: Uint256, k: nat, n: nat): u32
    requires k < LIMBS && n <= 4
  {
    FromLEBound(v[4 * k..4 * k + n]);
    FromLE(v[4 * k..4 * k + n])
  }

  lemma FromLEBound(s: Bytes)
    requires |s| <= 4
    ensures FromLE(s) < TWO32
  {
    Pow256Constants();
    PowMono(B8, |s|, 4);
  }

  /** How many bytes of limb k the first i bytes are. */
  function ByteCount(i: nat, k: nat): (n: nat)
    ensures n <= 4
  {
    if i <= 4 * k then 0 else if i >= 4 * k + 4 then 4 else i - 4 * k
  }

  /** The next byte goes to the limb it belongs to, and to no other. */
  lemma CountNext(i: nat)
    requires i < 32
    ensures ByteCount(i, i / 4) == i % 4 && ByteCount(i + 1, i / 4) == i % 4 + 1
    ensures forall k: nat :: k != i / 4 ==> ByteCount(i + 1, k) == ByteCount(i, k)
  {}

  lemma PackNone(v: Uint256)
    ensures forall k :: 0 <= k < LIMBS ==> PackLimb(v, k, 0) == 0
  {}

  lemma PackByte(v: Uint256, k: nat, j: nat)
    requires k < LIMBS && j < 4
    ensures Or32(PackLimb(v, k, j), Shl32(v[4 * k + j], j * 8)) == PackLimb(v, k, j + 1)
  {
    var s := v[4 * k..4 * k + 4];
    assert s[..j] == v[4 * k..4 * k + j] && s[..j + 1] == v[4 * k..4 * k + j + 1];
    ValSnoc(B8, s, j);
    ValBound(B8, s[..j]);
    BytePower(j);
    OrByte(s[j], PackLimb(v, k, j), j);
  }

  lemma BytePower(j: nat)
    requires j <= 4
    ensures Pow(B8, j) == Pow2(j * 8)
  {
    B32IsPow2();
    PowOfPow2(B8, 8, j);
  }

  lemma OrByte(x: u8, low: u32, j: nat)
    requires j < 4 && low < Pow2(j * 8)
    ensures Or32(low, Shl32(x, j * 8)) == low + Pow2(j * 8) * x
  {
    var p := Pow2(j * 8);
    assert p <= 0x100_0000 by { Pow2Constants(); Pow2Mono(j * 8, 24); }
    MulMono(x, 255, p);
    MulMono(0, x, p);
    DivModUnique(x * p, TWO32, 0, x * p);
    DivCancel(x, p);
    Or32Disjoint(x * p, low, j * 8);
  }

  /** Grouping bytes four to a limb does not change the number. */
  lemma {:induction false} Grouped(v: Bytes, s: seq<u32>)
    requires |v| == 4 * |s|
    requires forall k :: 0 <= k < |s| ==> s[k] == Val(B8, v[4 * k..4 * k + 4])
    ensures Val(B32, s) == Val(B8, v)
  {
    if s != [] {
      forall k | 0 <= k < |s| - 1
        ensures s[1..][k] == Val(B8, v[4..][4 * k..4 * k + 4])
      {
        assert v[4..][4 * k..4 * k + 4] == v[4 * (k + 1)..4 * (k + 1) + 4];
      }
      Grouped(v[4..], s[1..]);
      ValSplit(B8, v, 4);
      Pow256Constants();
      assert v[4 * 0..4 * 0 + 4] == v[..4];
    }
  }

  lemma PackedLimbs(v: Uint256, s: seq<u32>)
    requires |s| == LIMBS && forall k :: 0 <= k < LIMBS ==> s[k] == PackLimb(v, k, 4)
    ensures Val(B32, s) == Num(v)
  {
    Grouped(v, s);
  }

  lemma UnpackedLimbs(s: seq<u32>, h: Uint256)
    requires |s| == LIMBS && forall i :: 0 <= i < 32 ==> h[i] == Shr32(s[i / 4], i % 4 * 8) % 0x100
    ensures Num(h) == Val(B32, s)
  {
    forall k | 0 <= k < LIMBS
      ensures s[k] == Val(B8, h[4 * k..4 * k + 4])
    {
      var t := h[4 * k..4 * k + 4];
      forall j | 0 <= j < 4
        ensures t[j] == Shr32(s[k], j * 8) % 0x100
      {
        assert t[j] == h[4 * k + j] && (4 * k + j) / 4 == k && (4 * k + j) % 4 == j;
      }
      LimbBytes(s[k], t);
    }
    Grouped(h, s);
  }

  lemma LimbBytes(x: u32, t: Bytes)
    requires |t| == 4 && forall j :: 0 <= j < 4 ==> t[j] == Shr32(x, j * 8) % 0x100
    ensures x == Val(B8, t)
  {
    B32IsPow2();
    var d := ToDigits(B8, x, 4);
    forall j | 0 <= j < 4
      ensures t[j] == d[j]
    {
      ToDigitsAt(B8, x, 4, j);
      PowOfPow2(B8, 8, j);
    }
    assert t == d;
    ToDigitsVal(B8, x, 4);
    Pow256Constants();
    DivModUnique(x, TWO32, 0, x);
  }

  /** How many limbs are left once the zero limbs at the top are dropped. */
  function UsedLimbs(s: seq<u32>): (n: nat)
    ensures n <= |s|
    ensures n > 0 ==> s[n - 1] != 0
    ensures forall i :: n <= i < |s| ==> s[i] == 0
  {
    if s == [] then 0
    else if s[|s| - 1] != 0 then |s|
    else UsedLimbs(s[..|s| - 1])
  }

  /** The highest bit of x set at or below position i, or 0 when there is none. */
  function HighBit(x: u32, i: nat): (b: nat)
    ensures b <= i
  {
    if i == 0 || Shr32(x, i) % 2 == 1 then i else HighBit(x, i - 1)
  }

  /** The size byte and word GetCompact takes from limb n - 1, the top one. The limb is shifted
      down by its own leading zero bytes, not to its top three bytes. */
  function CompactOfLimb(x: u32, n: nat): u32
    requires 1 <= n <= LIMBS
  {
    var zeros: nat := (31 - HighBit(x, 31)) / 8;
    assert zeros <= 3;
    var word: u32 := Shr32(x, zeros * 8);
    if word / 0x80_0000 % 2 == 1
    then CompactPair(n * 4 - zeros + 1, Shr32(word, 8))
    else CompactPair(n * 4 - zeros, word)
  }

  /** `(size << 24) | (word & 0x007fffff)`. */
  function CompactPair(size: nat, word: u32): u32
    requires size <= 33
  {
    assert word % 0x80_0000 < 0x80_0000;
    size * 0x100_0000 + word % 0x80_0000
  }

  /** GetCompact. */
  function CompactOf(s: seq<u32>): u32
    requires |s| == LIMBS
  {
    var n := UsedLimbs(s);
    if n == 0 then 0 else CompactOfLimb(s[n - 1], n)
  }
}
