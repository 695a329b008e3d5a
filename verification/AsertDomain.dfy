/** How far the monotonicity of the ASERT rule reaches: exactly to the reference targets whose
    product with the largest factor fits 256 bits. */
module AsertDomain {
  import opened Radix
  import opened Words
  import opened Asert

  /** The target never falls as time passes, whatever the other arguments. */
  ghost predicate Monotone(ref: nat, powLimit: nat) {
    forall spacing, t1, t2, heightDiff, halfLife ::
      && halfLife > 0 && t1 <= t2
      && ShiftFits(Exponent(spacing, t1, heightDiff, halfLife))
      && ShiftFits(Exponent(spacing, t2, heightDiff, halfLife)) ==>
        Target(ref, spacing, t1, heightDiff, powLimit, halfLife)
        <= Target(ref, spacing, t2, heightDiff, powLimit, halfLife)
  }

  /** The target never rises as blocks are added, whatever the other arguments; a spacing below zero
      is not one. */
  ghost predicate Antitone(ref: nat, powLimit: nat) {
    forall spacing, timeDiff, h1, h2, halfLife ::
      && halfLife > 0 && spacing >= 0 && h1 <= h2
      && ShiftFits(Exponent(spacing, timeDiff, h1, halfLife))
      && ShiftFits(Exponent(spacing, timeDiff, h2, halfLife)) ==>
        Target(ref, spacing, timeDiff, h1, powLimit, halfLife)
        >= Target(ref, spacing, timeDiff, h2, powLimit, halfLife)
  }

  /** The product with the factor of frac f, modulo m. */
  function Residue(m: nat, ref: nat, f: nat): (r: nat)
    requires m > 0 && f < 65536
    ensures r < m
  {
    ref * Factor(f) % m
  }

  /** The target at an exponent, for products modulo m. */
  function At(m: nat, ref: nat, e: int, powLimit: nat): nat
    requires m > 0
  {
    Clamp(Scale(Residue(m, ref, e % 65536), e / 65536 - 16), powLimit)
  }

  /** A later exponent with a lower target. */
  ghost predicate Falls(m: nat, ref: nat, powLimit: nat, e1: int, e2: int) {
    m > 0 && e1 <= e2 && ShiftFits(e1) && ShiftFits(e2) && At(m, ref, e1, powLimit) > At(m, ref, e2, powLimit)
  }

  /** With a half-life of 65536 seconds the lateness is the exponent. */
  lemma TargetOfLateness(ref: nat, spacing: int, timeDiff: int, heightDiff: int, powLimit: nat, e: int)
    requires Lateness(spacing, timeDiff, heightDiff) == e && ShiftFits(e) && 1 <= powLimit < Two256()
    ensures Exponent(spacing, timeDiff, heightDiff, 65536) == e
    ensures Target(ref, spacing, timeDiff, heightDiff, powLimit, 65536) == At(Two256(), ref, e, powLimit)
  {
    hide Target, Scale, Factor, Lateness;
    if e >= 0 { DivModUnique(e * 65536, 65536, e, 0); } else { DivModUnique(-(e * 65536), 65536, -e, 0); }
    TargetIsScaledProduct(ref, spacing, timeDiff, heightDiff, powLimit, 65536);
  }

  lemma FallsBreaks(ref: nat, powLimit: nat, e1: int, e2: int)
    requires 1 <= powLimit < Two256() && Falls(Two256(), ref, powLimit, e1, e2)
    ensures !Monotone(ref, powLimit) && !Antitone(ref, powLimit)
  {
    hide Target, At, Exponent;
    TargetOfLateness(ref, 0, e1, 0, powLimit, e1);
    TargetOfLateness(ref, 0, e2, 0, powLimit, e2);
    assert Target(ref, 0, e1, 0, powLimit, 65536) > Target(ref, 0, e2, 0, powLimit, 65536);
    TargetOfLateness(ref, 1, 0, -e1 - 1, powLimit, e1);
    TargetOfLateness(ref, 1, 0, -e2 - 1, powLimit, e2);
    assert Target(ref, 1, 0, -e2 - 1, powLimit, 65536) < Target(ref, 1, 0, -e1 - 1, powLimit, 65536);
  }

  // ---- a drop of the product is a drop of the target at some scale ----

  lemma DropScale(g1: nat, g2: nat, ref: nat, powLimit: nat) returns (s: int)
    requires g2 < g1 && 2 <= ref <= powLimit
    requires g2 < powLimit || (g2 < 2 * ref && g1 - g2 >= 2)
    ensures -1 <= s <= 1 && Clamp(Scale(g1, s), powLimit) > Clamp(Scale(g2, s), powLimit)
  {
    assert Pow2(0) == 1 && Pow2(1) == 2;
    s := if g2 >= powLimit then -1 else if g1 == 1 then 1 else 0;
  }

  /** Exponent e has the given frac and shifts. */
  lemma ExponentParts(f: nat, s: int) returns (e: int)
    requires f < 65536 && -2 <= s <= 2
    ensures e == 65536 * (16 + s) + f && e % 65536 == f && e / 65536 - 16 == s && ShiftFits(e)
  {
    e := 65536 * (16 + s) + f;
    DivModUnique(e, 65536, 16 + s, f);
  }

  lemma SameScaleFalls(m: nat, ref: nat, powLimit: nat, f1: nat, f2: nat) returns (e1: int, e2: int)
    requires m > 0 && f1 <= f2 < 65536 && 2 <= ref <= powLimit
    requires var g1, g2 := Residue(m, ref, f1), Residue(m, ref, f2);
      g2 < g1 && (g2 < powLimit || (g2 < 2 * ref && g1 - g2 >= 2))
    ensures Falls(m, ref, powLimit, e1, e2)
  {
    hide Residue, Clamp, Scale;
    var s := DropScale(Residue(m, ref, f1), Residue(m, ref, f2), ref, powLimit);
    e1 := ExponentParts(f1, s);
    e2 := ExponentParts(f2, s);
  }

  // ---- where the product drops ----

  /** The factor grows by at most two from one frac to the next. */
  lemma FactorStep(f: nat)
    requires f < 65535
    ensures Factor(f) <= Factor(f + 1) <= Factor(f) + 2
  {
    FactorMono(f, f + 1);
    FactorBounds(f);
    FactorBounds(f + 1);
    CubicStep(f);
    var d := 0x1_0000_0000_0000;
    DivModDef(Cubic(f), d);
    DivModDef(Cubic(f + 1), d);
  }

  lemma CubicStep(f: nat)
    requires f < 65535
    ensures Cubic(f + 1) < Cubic(f) + 2 * 0x1_0000_0000_0000
  {
    CubicSign(f);
    CubicSign(f + 1);
    var q := f * f;
    assert (f + 1) * (f + 1) == q + 2 * f + 1;
    assert (f + 1) * (f + 1) * (f + 1) == q * f + 3 * q + 3 * f + 1;
    MulMono(f, 65534, f);
    MulMono(f, 65534, 65534);
  }

  lemma ResidueNext(m: nat, ref: nat, f1: nat, f2: nat)
    requires m > 0 && f1 <= f2 < 65536 && Factor(f1) <= Factor(f2)
    requires ref * (Factor(f2) - Factor(f1)) < m
    ensures var d := ref * (Factor(f2) - Factor(f1));
      Residue(m, ref, f2) == if Residue(m, ref, f1) + d < m then Residue(m, ref, f1) + d
                             else Residue(m, ref, f1) + d - m
  {
    hide Factor;
    var a, b := Factor(f1), Factor(f2);
    Apart(m, ref * a, ref * (b - a));
    assert ref * b == ref * a + ref * (b - a);
  }

  lemma Apart(m: nat, x: nat, d: nat)
    requires m > 0 && d < m
    ensures (x + d) % m == if x % m + d < m then x % m + d else x % m + d - m
  {
    DivModDef(x, m);
    var q, r := x / m, x % m;
    if r + d < m {
      DivModUnique(x + d, m, q, r + d);
    } else {
      assert (q + 1) * m == q * m + m;
      DivModUnique(x + d, m, q + 1, r + d - m);
    }
  }

  /** Where one or two references more wrap the product round, the target falls. */
  lemma WrapFalls(m: nat, ref: nat, powLimit: nat, f1: nat, f2: nat) returns (e1: int, e2: int)
    requires m % 2 == 0 && 2 <= ref <= powLimit && ref < m && f1 <= f2 < 65536
    requires Factor(f1) <= Factor(f2) <= Factor(f1) + 2
    requires var d := ref * (Factor(f2) - Factor(f1)); d < m <= Residue(m, ref, f1) + d
    ensures Falls(m, ref, powLimit, e1, e2)
  {
    hide Factor, Residue;
    ResidueNext(m, ref, f1, f2);
    var k := Factor(f2) - Factor(f1);
    assert ref * k == if k == 0 then 0 else if k == 1 then ref else 2 * ref;
    e1, e2 := SameScaleFalls(m, ref, powLimit, f1, f2);
  }

  /** Up to frac f either some step wraps, or none has. */
  lemma {:induction false} FindWrap(m: nat, ref: nat, f: nat) returns (w: nat, found: bool)
    requires m > 0 && 2 * ref < m && f < 65536
    ensures found ==> w < f && Residue(m, ref, w) + ref * (Factor(w + 1) - Factor(w)) >= m
    ensures !found ==> Factor(f) >= Factor(0)
    ensures !found ==> Residue(m, ref, f) == Residue(m, ref, 0) + ref * (Factor(f) - Factor(0))
    decreases f
  {
    hide Factor, Residue;
    if f == 0 {
      w, found := 0, false;
      assert ref * (Factor(0) - Factor(0)) == 0;
    } else {
      w, found := FindWrap(m, ref, f - 1);
      if !found {
        FactorStep(f - 1);
        var k := Factor(f) - Factor(f - 1);
        MulMono(k, 2, ref);
        ResidueNext(m, ref, f - 1, f);
        w, found := f - 1, Residue(m, ref, f - 1) + ref * k >= m;
        assert ref * (Factor(f) - Factor(0)) == ref * (Factor(f - 1) - Factor(0)) + ref * k;
      }
    }
  }

  /** The factors that are needed by value. */
  lemma SomeFactors()
    ensures Factor(0) == 65536 && Factor(1) == 65537 && Factor(3) == 65538 && Factor(65535) == 131071
  {
    FactorBounds(0);
    FactorBounds(1);
    FactorBounds(3);
    FactorBounds(65535);
    CubicFits(65535);
    assert Cubic(0) == 0x8000_0000_0000;
    assert Cubic(1) / 0x1_0000_0000_0000 == 1;
    assert Cubic(3) / 0x1_0000_0000_0000 == 2;
  }

  /** From half of m on, each of the first two single steps wraps, or the other does. */
  lemma LargeFalls(m: nat, ref: nat, powLimit: nat) returns (e1: int, e2: int)
    requires m % 2 == 0 && 2 <= ref <= powLimit && ref < m <= 2 * ref
    ensures Falls(m, ref, powLimit, e1, e2)
  {
    hide Factor, Residue;
    SomeFactors();
    assert ref * 1 == ref;
    if Residue(m, ref, 0) + ref >= m {
      e1, e2 := WrapFalls(m, ref, powLimit, 0, 1);
    } else {
      ResidueNext(m, ref, 0, 1);
      e1, e2 := WrapFalls(m, ref, powLimit, 1, 3);
    }
  }

  /** If the product passes m with the factor 65536 already, and no step wraps, the target falls
      across the half-life. */
  lemma CrossFalls(m: nat, ref: nat, powLimit: nat) returns (e1: int, e2: int)
    requires 2 <= ref <= powLimit && 2 * ref < m <= ref * 65536 && ref * 65535 < m
    requires Residue(m, ref, 65535) == Residue(m, ref, 0) + ref * 65535
    ensures Falls(m, ref, powLimit, e1, e2)
  {
    hide Factor;
    SomeFactors();
    var g2 := ref * 65536 - m;
    DivModUnique(ref * 65536, m, 1, g2);
    assert Residue(m, ref, 0) == g2;
    e1 := ExponentParts(65535, -1);
    e2 := ExponentParts(0, 0);
    CrossScale(m, ref, powLimit, g2 + ref * 65535, g2);
  }

  lemma CrossScale(m: nat, ref: nat, powLimit: nat, g1: nat, g2: nat)
    requires 2 <= ref <= powLimit && 2 * ref < m && g2 == ref * 65536 - m < ref && g1 == g2 + ref * 65535
    ensures Clamp(Scale(g1, -1), powLimit) > Clamp(Scale(g2, 0), powLimit)
  {
    assert Pow2(0) == 1 && Pow2(1) == 2;
    assert g1 == 2 * g2 + (m - ref);
  }

  /** A product that does not fit makes the target fall somewhere. */
  lemma OverflowFalls(m: nat, ref: nat, powLimit: nat) returns (e1: int, e2: int)
    requires m % 2 == 0 && 2 <= ref <= powLimit && ref < m <= ref * 131071
    ensures Falls(m, ref, powLimit, e1, e2)
  {
    hide Factor, Residue;
    SomeFactors();
    if m <= 2 * ref {
      e1, e2 := LargeFalls(m, ref, powLimit);
    } else {
      var w, found := FindWrap(m, ref, 65535);
      if found {
        FactorStep(w);
        MulMono(Factor(w + 1) - Factor(w), 2, ref);
        e1, e2 := WrapFalls(m, ref, powLimit, w, w + 1);
      } else {
        StartFits(m, ref);
        e1, e2 := CrossFalls(m, ref, powLimit);
      }
    }
  }

  lemma StartFits(m: nat, ref: nat)
    requires m > 0 && Residue(m, ref, 0) + ref * 65535 < m <= ref * 131071
    ensures ref * 65536 >= m && ref * 65535 < m
  {
    hide Factor;
    SomeFactors();
    if ref * 65536 < m { DivModUnique(ref * 65536, m, 0, ref * 65536); }
  }

  /** The target is monotone in time if and only if the product of the reference target with the
      largest factor fits 256 bits. */
  lemma MonotoneIff(ref: nat, powLimit: nat)
    requires 1 <= ref <= powLimit < Two256()
    ensures Monotone(ref, powLimit) <==> ref * 131071 < Two256()
  {
    hide Target, Exponent, ShiftFits;
    if ref * 131071 < Two256() {
      forall spacing, t1, t2, heightDiff, halfLife |
        && halfLife > 0 && t1 <= t2
        && ShiftFits(Exponent(spacing, t1, heightDiff, halfLife))
        && ShiftFits(Exponent(spacing, t2, heightDiff, halfLife))
        ensures Target(ref, spacing, t1, heightDiff, powLimit, halfLife)
             <= Target(ref, spacing, t2, heightDiff, powLimit, halfLife)
      {
        MonotoneInTime(ref, spacing, t1, t2, heightDiff, powLimit, halfLife);
      }
    } else {
      assert Two256() % 2 == 0;
      var e1, e2 := OverflowFalls(Two256(), ref, powLimit);
      FallsBreaks(ref, powLimit, e1, e2);
    }
  }

  /** And so it is antitone in height. */
  lemma AntitoneIff(ref: nat, powLimit: nat)
    requires 1 <= ref <= powLimit < Two256()
    ensures Antitone(ref, powLimit) <==> ref * 131071 < Two256()
  {
    hide Target, Exponent, ShiftFits;
    if ref * 131071 < Two256() {
      forall spacing, timeDiff, h1, h2, halfLife |
        && halfLife > 0 && spacing >= 0 && h1 <= h2
        && ShiftFits(Exponent(spacing, timeDiff, h1, halfLife))
        && ShiftFits(Exponent(spacing, timeDiff, h2, halfLife))
        ensures Target(ref, spacing, timeDiff, h1, powLimit, halfLife)
             >= Target(ref, spacing, timeDiff, h2, powLimit, halfLife)
      {
        AntitoneInHeight(ref, spacing, timeDiff, h1, h2, powLimit, halfLife);
      }
    } else {
      assert Two256() % 2 == 0;
      var e1, e2 := OverflowFalls(Two256(), ref, powLimit);
      FallsBreaks(ref, powLimit, e1, e2);
    }
  }
}
