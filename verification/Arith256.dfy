/** The 256-bit unsigned integer of the ASERT rule and the chain work: eight 32-bit limbs,
    least significant first, overwritten in place by every compound operator. */
module Arith256 {
  import opened Radix
  import opened Words
  import opened Limbs

  class ArithUint256 {
    const words: array<u32>

    ghost predicate Valid() {
      words.Length == LIMBS
    }

    /** The number held. */
    ghost function Value(): (v: nat)
      requires Valid()
      reads words
      ensures v < Two256()
    {
      LimbsBound(words[..]);
      Val(B32, words[..])
    }

    /** arith_uint256(uint64_t v). */
    constructor (v: u64)
      ensures Valid() && fresh(words) && Value() == v
      ensures v < TWO32 ==> words[..] == [v, 0, 0, 0, 0, 0, 0, 0]
    {
      var a := new u32[LIMBS](_ => 0);
      a[0] := Lo32(v);
      a[1] := Lo32(v / TWO32);
      words := a;
      new;
      TwoLimbs(words[..], v);
      if v < TWO32 { DivModUnique(v, TWO32, 0, v); }
    }

    /** A copy, as operator= and the by-value friends make. */
    constructor Copy(o: ArithUint256)
      requires o.Valid()
      ensures Valid() && fresh(words) && words[..] == o.words[..]
    {
      words := new u32[LIMBS](i requires 0 <= i < LIMBS reads o.words => o.words[i]);
      new;
      assert forall i :: 0 <= i < LIMBS ==> words[i] == o.words[i];
    }

    method Assign(o: ArithUint256)
      requires Valid() && o.Valid()
      modifies words
      ensures words[..] == old(o.words[..])
    {
      for i := 0 to LIMBS
        invariant forall k :: 0 <= k < i ==> words[k] == old(o.words[k])
        invariant forall k :: i <= k < LIMBS ==> words[k] == old(words[k])
        invariant forall k :: i <= k < LIMBS ==> o.words[k] == old(o.words[k])
      {
        words[i] := o.words[i];
      }
    }

    /** operator<<= */
    method ShiftLeft(shift: i32)
      requires Valid()
      modifies words
      ensures Value() == if shift <= 0 then old(Value()) else old(Value()) * Pow2(shift) % Two256()
    {
      if shift <= 0 { return; }
      var ws, bs := shift / 32, shift % 32;
      ghost var o := words[..];
      if ws >= LIMBS {
        SetZero();
        ValBound(B32, o);
        OverShift(Val(B32, o), shift);
        return;
      }
      if bs == 0 {
        MoveLimbsUp(ws);
        return;
      }
      for i := LIMBS downto 0
        invariant forall k :: i <= k < LIMBS ==> words[k] == ShlLimb(o, k, ws, bs)
        invariant forall k :: 0 <= k < i ==> words[k] == o[k]
      {
        var val: u32 := 0;
        var src := i - ws;
        if src >= 0 {
          val := Shl32(words[src], bs);
          if src - 1 >= 0 {
            val := Or32(val, Shr32(words[src - 1], 32 - bs));
          }
        }
        words[i] := val;
      }
      ShlValue(o, words[..], ws, bs);
    }

    /** The whole-limb case of operator<<=. */
    method MoveLimbsUp(ws: nat)
      requires Valid() && ws < LIMBS
      modifies words
      ensures Value() == old(Value()) * Pow2(32 * ws) % Two256()
    {
      ghost var o := words[..];
      for i := LIMBS downto ws
        invariant forall k :: i <= k < LIMBS ==> words[k] == o[k - ws]
        invariant forall k :: 0 <= k < i ==> words[k] == o[k]
      {
        words[i] := words[i - ws];
      }
      for i := 0 to ws
        invariant forall k :: 0 <= k < i ==> words[k] == 0
        invariant forall k :: ws <= k < LIMBS ==> words[k] == o[k - ws]
      {
        words[i] := 0;
      }
      WholeLimbsLeft(o, words[..], ws);
    }

    /** operator>>= */
    method ShiftRight(shift: i32)
      requires Valid()
      modifies words
      ensures Value() == if shift <= 0 then old(Value()) else old(Value()) / Pow2(shift)
    {
      if shift <= 0 { return; }
      var ws, bs := shift / 32, shift % 32;
      ghost var o := words[..];
      if ws >= LIMBS {
        SetZero();
        UnderShift(o, shift);
        return;
      }
      if bs == 0 {
        MoveLimbsDown(ws);
        return;
      }
      for i := 0 to LIMBS
        invariant forall k :: 0 <= k < i ==> words[k] == ShrLimb(o, k, ws, bs)
        invariant forall k :: i <= k < LIMBS ==> words[k] == o[k]
      {
        var val: u32 := 0;
        var src := i + ws;
        if src < LIMBS {
          val := Shr32(words[src], bs);
          if src + 1 < LIMBS {
            val := Or32(val, Shl32(words[src + 1], 32 - bs));
          }
        }
        words[i] := val;
      }
      ShrValue(o, words[..], ws, bs);
    }

    /** The whole-limb case of operator>>=. */
    method MoveLimbsDown(ws: nat)
      requires Valid() && ws < LIMBS
      modifies words
      ensures Value() == old(Value()) / Pow2(32 * ws)
    {
      ghost var o := words[..];
      for i := 0 to LIMBS - ws
        invariant forall k :: 0 <= k < i ==> words[k] == o[k + ws]
        invariant forall k :: i <= k < LIMBS ==> words[k] == o[k]
      {
        words[i] := words[i + ws];
      }
      for i := LIMBS - ws to LIMBS
        invariant forall k :: 0 <= k < LIMBS - ws ==> words[k] == o[k + ws]
        invariant forall k :: LIMBS - ws <= k < i ==> words[k] == 0
      {
        words[i] := 0;
      }
      WholeLimbsRight(o, words[..], ws);
    }

    method SetZero()
      requires Valid()
      modifies words
      ensures Value() == 0
    {
      for i := 0 to LIMBS
        invariant forall k :: 0 <= k < i ==> words[k] == 0
      {
        words[i] := 0;
      }
      ValZeros(B32, words[..]);
    }

    /** operator*= by a 64-bit factor: every partial product is taken modulo 2^64. */
    method MulAssign(factor: u64)
      requires Valid()
      modifies words
      ensures words[..] == MulWords(old(words[..]), factor, 0)
      ensures factor <= TWO32 ==> Value() == old(Value()) * factor % Two256()
    {
      ghost var o := words[..];
      var carry: u64 := 0;
      for i := 0 to LIMBS
        invariant forall k :: i <= k < LIMBS ==> words[k] == o[k]
        invariant words[..i] + MulWords(o[i..], factor, carry) == MulWords(o, factor, 0)
      {
        MulNext(o, i, factor, carry);
        var cur := Lo64(words[i] * factor + carry);
        ghost var before := words[..i];
        words[i] := Lo32(cur);
        carry := cur / TWO32;
        AppendMove(before, words[i], MulWords(o[i + 1..], factor, carry));
        assert words[..i + 1] == before + [words[i]];
      }
      assert words[..LIMBS] == words[..] && o[LIMBS..] == [];
      if factor <= TWO32 { MulIsExact(o, factor); }
    }

    /** operator+= ; `o` may be this number itself. */
    method AddAssign(o: ArithUint256)
      requires Valid() && o.Valid()
      modifies words
      ensures Value() == (old(Value()) + old(o.Value())) % Two256()
    {
      ghost var a, b := words[..], o.words[..];
      var carry: u64 := 0;
      for i := 0 to LIMBS
        invariant forall k :: i <= k < LIMBS ==> words[k] == a[k] && o.words[k] == b[k]
        invariant carry <= 1
        invariant Val(B32, words[..i]) + carry * Pow(B32, i) == Val(B32, a[..i]) + Val(B32, b[..i])
      {
        ghost var w, c := words[..], carry;
        var cur := Lo64(words[i] + o.words[i] + carry);
        words[i] := Lo32(cur);
        carry := cur / TWO32;
        AddStep(w, a, b, i, c);
        assert words[..] == w[i := Lo32(cur)];
      }
      assert a[..LIMBS] == a && b[..LIMBS] == b;
      WholeSum(words[..], a, b, Val(B32, a) + Val(B32, b), carry);
    }

    /** operator-= ; `o` may be this number itself. */
    method SubAssign(o: ArithUint256)
      requires Valid() && o.Valid()
      modifies words
      ensures Value() == (old(Value()) - old(o.Value())) % Two256()
    {
      ghost var a, b := words[..], o.words[..];
      var borrow: u64 := 0;
      for i := 0 to LIMBS
        invariant forall k :: i <= k < LIMBS ==> words[k] == a[k] && o.words[k] == b[k]
        invariant borrow <= 1
        invariant Val(B32, words[..i]) - borrow * Pow(B32, i) == Val(B32, a[..i]) - Val(B32, b[..i])
      {
        ghost var w, c := words[..], borrow;
        var cur := Lo64(words[i] - o.words[i] - borrow);
        words[i] := Lo32(cur);
        borrow := cur / TWO32 % 2;
        SubStep(w, a, b, i, c);
        assert words[..] == w[i := Lo32(cur)];
      }
      ghost var e: int := borrow;
      BorrowSign(Pow(B32, LIMBS), e);
      assert a[..LIMBS] == a && b[..LIMBS] == b;
      WholeSum(words[..], a, b, Val(B32, a) - Val(B32, b), -e);
    }

    /** IsZero. */
    method IsZero() returns (r: bool)
      requires Valid()
      ensures r <==> Value() == 0
    {
      for i := 0 to LIMBS
        invariant forall k :: 0 <= k < i ==> words[k] == 0
      {
        if words[i] != 0 {
          NonzeroLimb(words[..], i);
          return false;
        }
      }
      ValZeros(B32, words[..]);
      return true;
    }

    /** operator== */
    method Equals(o: ArithUint256) returns (r: bool)
      requires Valid() && o.Valid()
      ensures r <==> Value() == o.Value()
    {
      for i := 0 to LIMBS
        invariant forall k :: 0 <= k < i ==> words[k] == o.words[k]
      {
        if words[i] != o.words[i] {
          if Value() == o.Value() { ValInjective(B32, words[..], o.words[..]); }
          return false;
        }
      }
      assert words[..] == o.words[..];
      return true;
    }

    /** operator< : most significant limb first. */
    method Less(o: ArithUint256) returns (r: bool)
      requires Valid() && o.Valid()
      ensures r <==> Value() < o.Value()
    {
      ghost var a, b := words[..], o.words[..];
      for i := LIMBS downto 0
        invariant a[i..] == b[i..]
      {
        if words[i] < o.words[i] {
          ValLess(B32, a, b, i);
          return true;
        }
        if words[i] > o.words[i] {
          ValLess(B32, b, a, i);
          return false;
        }
        assert a[i..] == [a[i]] + a[i + 1..] && b[i..] == [b[i]] + b[i + 1..];
      }
      assert a == a[0..] && b == b[0..];
      return false;
    }

    /** operator~ */
    method Not() returns (r: ArithUint256)
      requires Valid()
      ensures fresh(r) && fresh(r.words) && r.Valid()
      ensures r.Value() == Two256() - 1 - Value()
    {
      r := new ArithUint256(0);
      for i := 0 to LIMBS
        invariant fresh(r.words) && r.Valid() && words[..] == old(words[..])
        invariant Val(B32, r.words[..i]) + Val(B32, words[..i]) == Pow(B32, i) - 1
      {
        ghost var before := r.words[..i];
        r.words[i] := 0xFFFF_FFFF - words[i];
        assert r.words[..i] == before;
        ValSnoc(B32, r.words[..], i);
        ValSnoc(B32, words[..], i);
        NotArith(Pow(B32, i), r.words[i], words[i]);
      }
      assert r.words[..LIMBS] == r.words[..] && words[..LIMBS] == words[..];
    }

    /** `<<= 1` and then the next bit of the dividend or-ed into the lowest limb. */
    method ShiftInBit(b: u32)
      requires Valid() && b <= 1 && 2 * Value() < Two256()
      modifies words
      ensures Value() == 2 * old(Value()) + b
    {
      ghost var v := Value();
      ShiftLeft(1);
      assert Value() == 2 * v by { assert Pow2(1) == 2; DivModUnique(2 * v, Two256(), 0, 2 * v); }
      ghost var w := words[..];
      SetLowBit(w, b);
      words[0] := Or32(words[0], b);
      assert words[..] == w[0 := Or32(w[0], b)];
    }

    /** `m_words[word] |= 1u << off` on a number with no bit set at or below that one. */
    method SetBit(word: nat, off: nat)
      requires Valid() && word < LIMBS && off < 32 && ClearBelow(words[..], 32 * word + off + 1)
      modifies words
      ensures ClearBelow(words[..], 32 * word + off)
      ensures Value() == old(Value()) + Pow2(32 * word + off)
    {
      ghost var w := words[..];
      SetQuotientBit(w, word, off);
      words[word] := Or32(words[word], Pow2(off));
      assert words[..] == w[word := Or32(w[word], Pow2(off))];
    }

    /** One step of the bit-serial division of this number. */
    method DivideBit(divisor: ArithUint256, quotient: ArithUint256, rem: ArithUint256, bit: nat)
      requires Valid() && divisor.Valid() && quotient.Valid() && rem.Valid() && bit < 256
      requires quotient.words != rem.words && words != rem.words && divisor.words != rem.words
      requires words != quotient.words && divisor.words != quotient.words
      requires Dividing(Value(), divisor.Value(), bit + 1, quotient.words[..], rem.words[..])
      modifies quotient.words, rem.words
      ensures Dividing(Value(), divisor.Value(), bit, quotient.words[..], rem.words[..])
    {
      ghost var n, d, q0, r0 := Value(), divisor.Value(), quotient.Value(), rem.Value();
      ghost var q: nat :| DivState(n, d, bit + 1, q, q0, r0);
      var word, off := bit / 32, bit % 32;
      assert 32 * word + off == bit;
      TopStep(n, bit);
      DoubleFits(r0, n, bit);
      NextBit(words[..], bit);
      rem.ShiftInBit(Shr32(words[word], off) % 2);
      ghost var r1 := rem.Value();
      ClearsBelow(quotient.words[..], word, off);
      var less := rem.Less(divisor);
      if !less {
        NoBorrow(r1, d);
        rem.SubAssign(divisor);
        quotient.SetBit(word, off);
      }
      DivStep(n, d, bit, q, q0, r0, r1, quotient.Value(), rem.Value());
    }

    /** operator/= : one quotient bit per step, most significant first. A zero divisor leaves
        the number as it is. `divisor` may be this number itself. */
    method DivAssign(divisor: ArithUint256)
      requires Valid() && divisor.Valid()
      modifies words
      ensures Value() == if old(divisor.Value()) == 0 then old(Value()) else old(Value()) / old(divisor.Value())
    {
      var isZero := divisor.IsZero();
      if isZero { return; }
      var quotient := new ArithUint256(0);
      var rem := new ArithUint256(0);
      ghost var n, d := Value(), divisor.Value();
      StartDividing(n, d, quotient.words[..], rem.words[..]);
      for bit := 256 downto 0
        invariant fresh(quotient.words) && fresh(rem.words) && quotient.words != rem.words
        invariant quotient.Valid() && rem.Valid() && Value() == n && divisor.Value() == d
        invariant Dividing(n, d, bit, quotient.words[..], rem.words[..])
      {
        DivideBit(divisor, quotient, rem, bit);
      }
      EndDividing(n, d, quotient.words[..], rem.words[..]);
      Assign(quotient);
    }

    /** SetCompact. */
    method SetCompact(nCompact: u32)
      requires Valid()
      modifies words
      ensures Value() == CompactTarget(nCompact)
    {
      var nSize := nCompact / 0x100_0000;
      var nWord: u32 := nCompact % 0x80_0000;
      if nSize <= 3 {
        nWord := Shr32(nWord, 8 * (3 - nSize));
        words[0] := nWord;
        for i := 1 to LIMBS
          invariant words[0] == nWord && forall k :: 1 <= k < i ==> words[k] == 0
        {
          words[i] := 0;
        }
        LowLimb(words[..]);
        return;
      }
      for i := 0 to LIMBS
        invariant forall k :: 0 <= k < i ==> words[k] == 0
      {
        words[i] := 0;
      }
      var shift := 8 * (nSize - 3);
      if shift < 256 {
        OrWord(nWord, shift);
      } else {
        ValZeros(B32, words[..]);
        OverShift(nWord, shift);
      }
    }

    /** The last two lines of SetCompact: a word or-ed into limbs that are all zero. */
    method OrWord(nWord: u32, shift: nat)
      requires Valid() && shift < 256 && forall k :: 0 <= k < LIMBS ==> words[k] == 0
      modifies words
      ensures Value() == nWord * Pow2(shift) % Two256()
    {
      var word, bit := shift / 32, shift % 32;
      assert 32 * word + bit == shift;
      words[word] := Or32(words[word], Shl32(nWord, bit));
      if bit != 0 && word + 1 < LIMBS {
        words[word + 1] := Or32(words[word + 1], Shr32(nWord, 32 - bit));
      }
      BitOrZero(Shl32(nWord, bit));
      if bit != 0 { BitOrZero(Shr32(nWord, 32 - bit)); }
      PlaceWord(nWord, word, bit, words[..]);
    }

    /** FromUint256: byte i goes to bits 8*(i%4).. of limb i/4. */
    static method FromUint256(v: Uint256) returns (r: ArithUint256)
      ensures fresh(r) && fresh(r.words) && r.Valid()
      ensures r.Value() == Num(v)
    {
      hide Shl32, Or32, PackLimb;
      r := new ArithUint256(0);
      PackNone(v);
      for i := 0 to 32
        invariant r.Valid() && fresh(r) && fresh(r.words)
        invariant forall k :: 0 <= k < LIMBS ==> r.words[k] == PackLimb(v, k, ByteCount(i, k))
      {
        var k, j := i / 4, i % 4;
        CountNext(i);
        PackByte(v, k, j);
        r.words[k] := Or32(r.words[k], Shl32(v[i], j * 8));
      }
      PackedLimbs(v, r.words[..]);
    }

    /** ToUint256. */
    method ToUint256() returns (h: Uint256)
      requires Valid()
      ensures Num(h) == Value()
    {
      var bytes := new u8[32](_ => 0);
      for i := 0 to 32
        invariant words[..] == old(words[..])
        invariant forall k :: 0 <= k < i ==> bytes[k] == Shr32(words[k / 4], k % 4 * 8) % 0x100
      {
        bytes[i] := Shr32(words[i / 4], i % 4 * 8) % 0x100;
      }
      h := bytes[..];
      UnpackedLimbs(words[..], h);
    }

    // The by-value operators are a copy followed by the compound operator.

    static method Times(a: ArithUint256, f: u64) returns (r: ArithUint256)
      requires a.Valid()
      ensures fresh(r) && fresh(r.words) && r.Valid()
      ensures f <= TWO32 ==> r.Value() == a.Value() * f % Two256()
    {
      r := new ArithUint256.Copy(a);
      r.MulAssign(f);
    }

    static method Plus(a: ArithUint256, b: ArithUint256) returns (r: ArithUint256)
      requires a.Valid() && b.Valid()
      ensures fresh(r) && fresh(r.words) && r.Valid()
      ensures r.Value() == (a.Value() + b.Value()) % Two256()
    {
      r := new ArithUint256.Copy(a);
      r.AddAssign(b);
    }

    static method Over(a: ArithUint256, b: ArithUint256) returns (r: ArithUint256)
      requires a.Valid() && b.Valid()
      ensures fresh(r) && fresh(r.words) && r.Valid()
      ensures r.Value() == if b.Value() == 0 then a.Value() else a.Value() / b.Value()
    {
      r := new ArithUint256.Copy(a);
      r.DivAssign(b);
    }

    /** GetCompact. */
    method GetCompact() returns (c: u32)
      requires Valid()
      ensures c == CompactOf(words[..])
    {
      var nSize := LIMBS;
      while nSize > 0 && words[nSize - 1] == 0
        invariant 0 <= nSize <= LIMBS
        invariant UsedLimbs(words[..nSize]) == UsedLimbs(words[..])
      {
        assert words[..nSize][..nSize - 1] == words[..nSize - 1];
        nSize := nSize - 1;
      }
      if nSize == 0 { return 0; }
      var nWord := words[nSize - 1];
      var highBit := 31;
      while highBit > 0 && Shr32(nWord, highBit) % 2 == 0
        invariant 0 <= highBit <= 31
        invariant HighBit(nWord, highBit) == HighBit(nWord, 31)
      {
        highBit := highBit - 1;
      }
      c := CompactOfTop(nWord, nSize, highBit);
    }

    /** The rest of GetCompact: the word and size taken from the top limb and its highest bit. */
    static method CompactOfTop(nWord: u32, nSize: nat, highBit: nat) returns (c: u32)
      requires 1 <= nSize <= LIMBS && highBit == HighBit(nWord, 31)
      ensures c == CompactOfLimb(nWord, nSize)
    {
      var zeros := (31 - highBit) / 8;
      assert 0 <= zeros <= 3;
      var size := nSize * 4 - zeros;
      var word := Shr32(nWord, zeros * 8);
      if word / 0x80_0000 % 2 == 1 {
        word := Shr32(word, 8);
        size := size + 1;
      }
      return CompactPair(size, word);
    }
  }
}
