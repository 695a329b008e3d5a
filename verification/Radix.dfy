/** Powers of two, and numbers written as little-endian digit sequences. Both the 8-limb
    integers (32-bit digits) and the 32-byte hashes (8-bit digits) are read through `Val`. */
module Radix {

  type Base = b: int | b >= 2 witness 2

  function Pow(b: Base, n: nat): (r: nat)
    ensures r >= 1
  {
    if n == 0 then 1 else MulMono(1, b, Pow(b, n - 1)); b * Pow(b, n - 1)
  }

  function Pow2(k: nat): (r: nat)
    ensures r >= 1
  {
    if k == 0 then 1 else 2 * Pow2(k - 1)
  }

  lemma Pow2Zero()
    ensures Pow2(0) == 1
  {}

  lemma {:induction false} Pow2Add(a: nat, b: nat)
    ensures Pow2(a + b) == Pow2(a) * Pow2(b)
  {
    if a == 0 {
    } else {
      Pow2Add(a - 1, b);
      assert Pow2(a + b) == 2 * Pow2(a + b - 1);
      assert a + b - 1 == (a - 1) + b;
      MulAssoc(2, Pow2(a - 1), Pow2(b));
    }
  }

  lemma {:induction false} PowAdd(b: Base, m: nat, n: nat)
    ensures Pow(b, m + n) == Pow(b, m) * Pow(b, n)
  {
    if m != 0 {
      PowAdd(b, m - 1, n);
      assert m + n - 1 == (m - 1) + n;
      MulAssoc(b, Pow(b, m - 1), Pow(b, n));
    }
  }

  lemma {:induction false} PowMono(b: Base, m: nat, n: nat)
    requires m <= n
    ensures Pow(b, m) <= Pow(b, n)
  {
    if m < n {
      PowMono(b, m, n - 1);
      MulMono(1, b, Pow(b, n - 1));
    }
  }

  /** A digit position of weight b^n, b a power of two, is a bit position. */
  lemma {:induction false} PowOfPow2(b: Base, w: nat, n: nat)
    requires b == Pow2(w)
    ensures w * n >= 0 && Pow(b, n) == Pow2(w * n)
  {
    if n == 0 {
    } else {
      PowOfPow2(b, w, n - 1);
      assert w * n == w + w * (n - 1);
      Pow2Add(w, w * (n - 1));
    }
  }

  lemma {:induction false} Pow2Mono(a: nat, b: nat)
    requires a <= b
    ensures Pow2(a) <= Pow2(b)
  {
    if a < b { Pow2Mono(a, b - 1); }
  }

  lemma SmallPowers()
    ensures Pow2(7) == 0x80 && Pow2(8) == 0x100
  {
    assert Pow2(4) == 16 by { assert Pow2(2) == 4; }
    assert Pow2(6) == 64;
  }

  /** The powers the source spells as constants. */
  lemma Pow2Constants()
    ensures Pow2(7) == 0x80
    ensures Pow2(8) == 0x100
    ensures Pow2(16) == 0x1_0000
    ensures Pow2(24) == 0x100_0000
    ensures Pow2(31) == 0x8000_0000
    ensures Pow2(32) == 0x1_0000_0000
    ensures Pow2(48) == 0x1_0000_0000_0000
    ensures Pow2(64) == 0x1_0000_0000_0000_0000
  {
    hide Pow2;
    SmallPowers();
    Pow2Add(8, 8);
    Pow2Add(16, 8);
    Pow2Add(24, 7);
    Pow2Add(16, 16);
    Pow2Add(32, 16);
    Pow2Add(32, 32);
  }

  // ---- integer arithmetic, one fact at a time ----

  lemma MulAssoc(a: int, b: int, c: int)
    ensures a * b * c == a * (b * c)
  {}

  lemma MulMono(a: int, b: int, c: int)
    requires a <= b && 0 <= c
    ensures a * c <= b * c && c * a <= c * b
  {}

  lemma DivModUnique(n: int, d: int, q: int, r: int)
    requires d > 0 && n == q * d + r && 0 <= r < d
    ensures n / d == q && n % d == r
  {
    var q', r' := n / d, n % d;
    assert n == q' * d + r';
    assert (q - q') * d == r' - r;
    if q > q' {
      MulMono(1, q - q', d);
    } else if q < q' {
      MulMono(q - q', -1, d);
    }
  }

  lemma DivModDef(n: int, d: int)
    requires d > 0
    ensures n == n / d * d + n % d && 0 <= n % d < d
  {}

  lemma ModAddMultiple(n: int, k: int, d: int)
    requires d > 0
    ensures (n + k * d) % d == n % d
  {
    DivModUnique(n + k * d, d, n / d + k, n % d);
  }

  lemma DivMono(a: int, b: int, d: int)
    requires a <= b && d > 0
    ensures a / d <= b / d
  {
    if a / d > b / d {
      MulMono(b / d + 1, a / d, d);
    }
  }

  lemma DivDiv(n: int, a: int, b: int)
    requires n >= 0 && a > 0 && b > 0
    ensures a * b > 0
    ensures n / a / b == n / (a * b)
  {
    var q := n / a;
    var p := q / b;
    MulMono(1, b, a);
    MulAssoc(p, b, a);
    MulMono(q % b, b - 1, a);
    assert q == p * b + q % b;
    assert q * a == p * b * a + (q % b) * a;
    assert p * b * a == p * (a * b);
    assert n == p * (a * b) + ((q % b) * a + n % a);
    DivModUnique(n, a * b, p, (q % b) * a + n % a);
  }

  lemma DivCancel(n: int, d: int)
    requires d > 0
    ensures n * d / d == n && (n * d) % d == 0
  {
    DivModUnique(n * d, d, n, 0);
  }

  /** (a mod b*c) reduced further: only the part above b is cut. */
  lemma ModSplit(n: int, b: int, c: int)
    requires n >= 0 && b > 0 && c > 0
    ensures b * c > 0
    ensures n % (b * c) == n % b + b * (n / b % c)
  {
    MulMono(1, c, b);
    DivDiv(n, b, c);
    var q := n / b;
    assert n == q * b + n % b;
    assert q == (q / c) * c + q % c;
    MulMono(q % c, c - 1, b);
    assert n == (q / c) * c * b + (q % c) * b + n % b;
    assert (q / c) * c * b == (q / c) * (b * c);
    DivModUnique(n, b * c, q / c, n % b + b * (q % c));
  }

  // ---- digit sequences ----

  /** Every element is a base-b digit. */
  ghost predicate Digits(b: Base, s: seq<int>) {
    forall i :: 0 <= i < |s| ==> 0 <= s[i] < b
  }

  /** The number a little-endian sequence of base-b digits denotes. */
  function Val(b: Base, s: seq<int>): int {
    if s == [] then 0 else s[0] + b * Val(b, s[1..])
  }

  lemma {:induction false} ValAppend(b: Base, s: seq<int>, t: seq<int>)
    ensures Val(b, s + t) == Val(b, s) + Pow(b, |s|) * Val(b, t)
  {
    if s == [] {
      assert s + t == t;
    } else {
      ValAppend(b, s[1..], t);
      assert (s + t)[1..] == s[1..] + t;
      var p, v, u := Pow(b, |s| - 1), Val(b, t), Val(b, s[1..]);
      MulAssoc(b, p, v);
      assert b * (u + p * v) == b * u + b * (p * v);
    }
  }

  lemma ValSplit(b: Base, s: seq<int>, k: nat)
    requires k <= |s|
    ensures Val(b, s) == Val(b, s[..k]) + Pow(b, k) * Val(b, s[k..])
  {
    assert s == s[..k] + s[k..];
    ValAppend(b, s[..k], s[k..]);
  }

  lemma ValSnoc(b: Base, s: seq<int>, k: nat)
    requires k < |s|
    ensures Val(b, s[..k + 1]) == Val(b, s[..k]) + Pow(b, k) * s[k]
  {
    assert s[..k + 1] == s[..k] + [s[k]];
    ValAppend(b, s[..k], [s[k]]);
    assert Val(b, [s[k]]) == s[k] + b * Val(b, []);
  }

  lemma {:induction false} ValBound(b: Base, s: seq<int>)
    requires Digits(b, s)
    ensures 0 <= Val(b, s) < Pow(b, |s|)
  {
    if s != [] {
      ValBound(b, s[1..]);
      DigitStep(b, s[0], Val(b, s[1..]), Pow(b, |s| - 1));
    }
  }

  lemma DigitStep(b: Base, d: int, v: int, p: int)
    requires 0 <= d < b && 0 <= v < p
    ensures 0 <= d + b * v < b * p
  {
    MulMono(v, p - 1, b);
    MulMono(0, v, b);
    assert b * (p - 1) == b * p - b;
  }

  /** Comparison from the most significant digit down is numeric order. */
  lemma ValLess(b: Base, s: seq<int>, t: seq<int>, k: nat)
    requires |s| == |t| && k < |s| && Digits(b, s) && Digits(b, t)
    requires s[k + 1..] == t[k + 1..] && s[k] < t[k]
    ensures Val(b, s) < Val(b, t)
  {
    ValSplit(b, s, k + 1);
    ValSplit(b, t, k + 1);
    assert Val(b, s[..k + 1]) < Val(b, t[..k + 1]) by {
      ValSnoc(b, s, k);
      ValSnoc(b, t, k);
      ValBound(b, s[..k]);
      ValBound(b, t[..k]);
      LeadingDigit(Val(b, s[..k]), Val(b, t[..k]), Pow(b, k), s[k], t[k]);
    }
  }

  lemma LeadingDigit(x: int, y: int, p: int, d: int, e: int)
    requires 0 <= x < p && 0 <= y && d < e
    ensures x + p * d < y + p * e
  {
    MulMono(d + 1, e, p);
    assert p * (d + 1) == p * d + p;
  }

  lemma {:induction false} ValInjective(b: Base, s: seq<int>, t: seq<int>)
    requires |s| == |t| && Digits(b, s) && Digits(b, t)
    requires Val(b, s) == Val(b, t)
    ensures s == t
  {
    if s != [] {
      DivModUnique(Val(b, s), b, Val(b, s[1..]), s[0]);
      DivModUnique(Val(b, t), b, Val(b, t[1..]), t[0]);
      ValInjective(b, s[1..], t[1..]);
      assert s == [s[0]] + s[1..] && t == [t[0]] + t[1..];
    }
  }

  lemma {:induction false} ValZeros(b: Base, s: seq<int>)
    requires forall i :: 0 <= i < |s| ==> s[i] == 0
    ensures Val(b, s) == 0
  {
    if s != [] { ValZeros(b, s[1..]); }
  }

  /** The n low base-b digits of v, least significant first. */
  function ToDigits(b: Base, v: nat, n: nat): (s: seq<int>)
    ensures |s| == n
    ensures Digits(b, s)
    decreases n
  {
    if n == 0 then [] else [v % b] + ToDigits(b, v / b, n - 1)
  }

  lemma {:induction false} ToDigitsVal(b: Base, v: nat, n: nat)
    ensures Val(b, ToDigits(b, v, n)) == v % Pow(b, n)
    decreases n
  {
    if n != 0 {
      ToDigitsVal(b, v / b, n - 1);
      ModSplit(v, b, Pow(b, n - 1));
      var s := ToDigits(b, v, n);
      assert s[1..] == ToDigits(b, v / b, n - 1);
    }
  }

  /** Digit i is v shifted down by i digits and truncated to one. */
  lemma {:induction false} ToDigitsAt(b: Base, v: nat, n: nat, i: nat)
    requires i < n
    ensures ToDigits(b, v, n)[i] == v / Pow(b, i) % b
    decreases n
  {
    if i != 0 {
      ToDigitsAt(b, v / b, n - 1, i - 1);
      DivDiv(v, b, Pow(b, i - 1));
    }
  }

  lemma ToDigitsOfVal(b: Base, s: seq<int>)
    requires Digits(b, s)
    ensures 0 <= Val(b, s)
    ensures ToDigits(b, Val(b, s), |s|) == s
  {
    ValBound(b, s);
    ToDigitsVal(b, Val(b, s), |s|);
    DivModUnique(Val(b, s), Pow(b, |s|), 0, Val(b, s));
    ValInjective(b, ToDigits(b, Val(b, s), |s|), s);
  }

  // ---- bitwise or, and the case in which it is addition ----

  function BitOr(a: nat, b: nat): (r: nat)
    decreases a + b
  {
    if a == 0 && b == 0 then 0
    else (if a % 2 == 1 || b % 2 == 1 then 1 else 0) + 2 * BitOr(a / 2, b / 2)
  }

  lemma {:induction false} BitOrDisjoint(a: nat, b: nat, k: nat)
    requires a % Pow2(k) == 0 && b < Pow2(k)
    ensures BitOr(a, b) == a + b && BitOr(b, a) == a + b
    decreases k
  {
    if k == 0 {
      BitOrZero(a);
    } else {
      var c := a / Pow2(k);
      assert a == Pow2(k) * c;
      MulAssoc(2, Pow2(k - 1), c);
      assert a == 2 * (Pow2(k - 1) * c);
      assert a / 2 == Pow2(k - 1) * c && a % 2 == 0;
      DivCancel(c, Pow2(k - 1));
      BitOrDisjoint(a / 2, b / 2, k - 1);
    }
  }

  lemma {:induction false} BitOrZero(a: nat)
    ensures BitOr(a, 0) == a && BitOr(0, a) == a
  {
    if a != 0 { BitOrZero(a / 2); }
  }
}
