/** Where the constants of SHA-256 come from: sections 4.2.2 and 5.3.3 of FIPS 180-4. */
module Sha256Constants {
  import opened Radix
  import opened Sha256

  /** The first 64 primes, in rows of sixteen. */
  const PRIMES_ROW0: seq<nat> := [2, 3, 5, 7, 11, 13, 17, 19, 23, 29, 31, 37, 41, 43, 47, 53]
  const PRIMES_ROW1: seq<nat> := [59, 61, 67, 71, 73, 79, 83, 89, 97, 101, 103, 107, 109, 113, 127, 131]
  const PRIMES_ROW2: seq<nat> := [137, 139, 149, 151, 157, 163, 167, 173, 179, 181, 191, 193, 197, 199, 211, 223]
  const PRIMES_ROW3: seq<nat> := [227, 229, 233, 239, 241, 251, 257, 263, 269, 271, 277, 281, 283, 293, 307, 311]
  const PRIMES: seq<nat> := PRIMES_ROW0 + PRIMES_ROW1 + PRIMES_ROW2 + PRIMES_ROW3

  predicate Prime(n: nat) { n >= 2 && forall d :: 2 <= d < n ==> n % d != 0 }

  /** No prime below 18 divides n. */
  predicate Sieved(n: nat) {
    n % 2 != 0 && n % 3 != 0 && n % 5 != 0 && n % 7 != 0 && n % 11 != 0 && n % 13 != 0 && n % 17 != 0
  }

  lemma SmallFactor(x: nat, z: nat)
    requires 2 <= x < 18
    ensures !Sieved(x * z)
  {
    if x % 2 == 0 { Divides(x, z, 2); }
    else if x % 3 == 0 { Divides(x, z, 3); }
    else if x % 5 == 0 { Divides(x, z, 5); }
    else { Divides(x, z, x); }
  }

  lemma Divides(x: nat, z: nat, q: nat)
    requires q > 0 && x % q == 0
    ensures x * z % q == 0
  {
    var y := x / q;
    assert x * z == (y * z) * q;
    DivModUnique(x * z, q, y * z, 0);
  }

  /** Below 18 squared the sieve leaves only primes. */
  lemma SievedIsPrime(n: nat)
    requires 18 <= n < 324
    ensures Sieved(n) <==> Prime(n)
  {
    if Sieved(n) {
      forall d | 2 <= d < n
        ensures n % d != 0
      {
        var e := n / d;
        DivModDef(n, d);
        if n % d == 0 {
          if d < 18 { SmallFactor(d, e); } else if e >= 18 { MulMono(18, e, d); } else { SmallFactor(e, d); }
        }
      }
    }
  }

  lemma SievedFrom18(n: nat)
    requires 18 <= n <= 29
    ensures Sieved(n) <==> n in PRIMES_ROW0
  {}

  lemma SievedFrom30(n: nat)
    requires 30 <= n <= 41
    ensures Sieved(n) <==> n in PRIMES_ROW0
  {}

  lemma SievedFrom42(n: nat)
    requires 42 <= n <= 53
    ensures Sieved(n) <==> n in PRIMES_ROW0
  {}

  lemma SievedFrom54(n: nat)
    requires 54 <= n <= 66
    ensures Sieved(n) <==> n in PRIMES_ROW1
  {}

  lemma SievedFrom67(n: nat)
    requires 67 <= n <= 79
    ensures Sieved(n) <==> n in PRIMES_ROW1
  {}

  lemma SievedFrom80(n: nat)
    requires 80 <= n <= 92
    ensures Sieved(n) <==> n in PRIMES_ROW1
  {}

  lemma SievedFrom93(n: nat)
    requires 93 <= n <= 105
    ensures Sieved(n) <==> n in PRIMES_ROW1
  {}

  lemma SievedFrom106(n: nat)
    requires 106 <= n <= 118
    ensures Sieved(n) <==> n in PRIMES_ROW1
  {}

  lemma SievedFrom119(n: nat)
    requires 119 <= n <= 131
    ensures Sieved(n) <==> n in PRIMES_ROW1
  {}

  lemma SievedFrom132(n: nat)
    requires 132 <= n <= 145
    ensures Sieved(n) <==> n in PRIMES_ROW2
  {}

  lemma SievedFrom146(n: nat)
    requires 146 <= n <= 159
    ensures Sieved(n) <==> n in PRIMES_ROW2
  {}

  lemma SievedFrom160(n: nat)
    requires 160 <= n <= 173
    ensures Sieved(n) <==> n in PRIMES_ROW2
  {}

  lemma SievedFrom174(n: nat)
    requires 174 <= n <= 187
    ensures Sieved(n) <==> n in PRIMES_ROW2
  {}

  lemma SievedFrom188(n: nat)
    requires 188 <= n <= 201
    ensures Sieved(n) <==> n in PRIMES_ROW2
  {}

  lemma SievedFrom202(n: nat)
    requires 202 <= n <= 215
    ensures Sieved(n) <==> n in PRIMES_ROW2
  {}

  lemma SievedFrom216(n: nat)
    requires 216 <= n <= 223
    ensures Sieved(n) <==> n in PRIMES_ROW2
  {}

  lemma SievedFrom224(n: nat)
    requires 224 <= n <= 238
    ensures Sieved(n) <==> n in PRIMES_ROW3
  {}

  lemma SievedFrom239(n: nat)
    requires 239 <= n <= 253
    ensures Sieved(n) <==> n in PRIMES_ROW3
  {}

  lemma SievedFrom254(n: nat)
    requires 254 <= n <= 268
    ensures Sieved(n) <==> n in PRIMES_ROW3
  {}

  lemma SievedFrom269(n: nat)
    requires 269 <= n <= 283
    ensures Sieved(n) <==> n in PRIMES_ROW3
  {}

  lemma SievedFrom284(n: nat)
    requires 284 <= n <= 298
    ensures Sieved(n) <==> n in PRIMES_ROW3
  {}

  lemma SievedFrom299(n: nat)
    requires 299 <= n <= 311
    ensures Sieved(n) <==> n in PRIMES_ROW3
  {}

  /** Up to 311 the sieve leaves the listed numbers. */
  lemma SievedAreListed(n: nat)
    requires 18 <= n < 312
    ensures Sieved(n) <==> n in PRIMES
  {
    hide Sieved;
    if n <= 29 { SievedFrom18(n); NotInOtherRows0(n); }
    else if n <= 41 { SievedFrom30(n); NotInOtherRows0(n); }
    else if n <= 53 { SievedFrom42(n); NotInOtherRows0(n); }
    else if n <= 66 { SievedFrom54(n); NotInOtherRows1(n); }
    else if n <= 79 { SievedFrom67(n); NotInOtherRows1(n); }
    else if n <= 92 { SievedFrom80(n); NotInOtherRows1(n); }
    else if n <= 105 { SievedFrom93(n); NotInOtherRows1(n); }
    else if n <= 118 { SievedFrom106(n); NotInOtherRows1(n); }
    else if n <= 131 { SievedFrom119(n); NotInOtherRows1(n); }
    else if n <= 145 { SievedFrom132(n); NotInOtherRows2(n); }
    else if n <= 159 { SievedFrom146(n); NotInOtherRows2(n); }
    else if n <= 173 { SievedFrom160(n); NotInOtherRows2(n); }
    else if n <= 187 { SievedFrom174(n); NotInOtherRows2(n); }
    else if n <= 201 { SievedFrom188(n); NotInOtherRows2(n); }
    else if n <= 215 { SievedFrom202(n); NotInOtherRows2(n); }
    else if n <= 223 { SievedFrom216(n); NotInOtherRows2(n); }
    else if n <= 238 { SievedFrom224(n); NotInOtherRows3(n); }
    else if n <= 253 { SievedFrom239(n); NotInOtherRows3(n); }
    else if n <= 268 { SievedFrom254(n); NotInOtherRows3(n); }
    else if n <= 283 { SievedFrom269(n); NotInOtherRows3(n); }
    else if n <= 298 { SievedFrom284(n); NotInOtherRows3(n); }
    else { SievedFrom299(n); NotInOtherRows3(n); }
  }

  lemma NotInOtherRows0(n: nat)
    requires 18 <= n <= 53
    ensures n in PRIMES <==> n in PRIMES_ROW0
  {
    RowBounds();
  }

  lemma NotInOtherRows1(n: nat)
    requires 54 <= n <= 131
    ensures n in PRIMES <==> n in PRIMES_ROW1
  {
    RowBounds();
  }

  lemma NotInOtherRows2(n: nat)
    requires 132 <= n <= 223
    ensures n in PRIMES <==> n in PRIMES_ROW2
  {
    RowBounds();
  }

  lemma NotInOtherRows3(n: nat)
    requires 224 <= n <= 311
    ensures n in PRIMES <==> n in PRIMES_ROW3
  {
    RowBounds();
  }

  lemma RowBounds()
    ensures forall p :: p in PRIMES_ROW0 ==> 2 <= p <= 53
    ensures forall p :: p in PRIMES_ROW1 ==> 59 <= p <= 131
    ensures forall p :: p in PRIMES_ROW2 ==> 137 <= p <= 223
    ensures forall p :: p in PRIMES_ROW3 ==> 227 <= p <= 311
  {}

  /** The list is the primes below 312. */
  lemma ListedArePrimes(n: nat)
    requires n < 312
    ensures n in PRIMES <==> Prime(n)
  {
    hide Sieved;
    if n >= 18 {
      SievedAreListed(n);
      SievedIsPrime(n);
    } else {
      FirstPrimes(n);
      RowBounds();
    }
  }

  /** In order: PRIMES[t] is the prime with t primes below it. */
  lemma ListedInOrder(i: nat, j: nat)
    requires i < j < |PRIMES|
    ensures PRIMES[i] < PRIMES[j]
  {
    RowBounds();
    RowOrder0();
    RowOrder1();
    RowOrder2();
    RowOrder3();
    RowOf(i);
    RowOf(j);
  }

  lemma RowOf(i: nat)
    requires i < |PRIMES|
    ensures PRIMES[i] == if i < 16 then PRIMES_ROW0[i] else if i < 32 then PRIMES_ROW1[i - 16]
                         else if i < 48 then PRIMES_ROW2[i - 32] else PRIMES_ROW3[i - 48]
  {}

  lemma RowOrder0()
    ensures forall i, j :: 0 <= i < j < 16 ==> PRIMES_ROW0[i] < PRIMES_ROW0[j]
  {}

  lemma RowOrder1()
    ensures forall i, j :: 0 <= i < j < 16 ==> PRIMES_ROW1[i] < PRIMES_ROW1[j]
  {}

  lemma RowOrder2()
    ensures forall i, j :: 0 <= i < j < 16 ==> PRIMES_ROW2[i] < PRIMES_ROW2[j]
  {}

  lemma RowOrder3()
    ensures forall i, j :: 0 <= i < j < 16 ==> PRIMES_ROW3[i] < PRIMES_ROW3[j]
  {}

  lemma FirstPrimes(n: nat)
    requires n < 18
    ensures n in PRIMES_ROW0 <==> Prime(n)
  {
    assert n > 2 && n % 2 == 0 ==> !Prime(n);
    assert n > 3 && n % 3 == 0 ==> !Prime(n);
  }

  /** k is the first 32 bits of the fractional part of the cube root of p: of r = floor(root * 2^32). */
  ghost predicate CubeRootBits(k: bv32, p: nat) {
    exists r: nat :: r % 0x1_0000_0000 == k as int && r * r * r <= p * CUBE_UNIT < (r + 1) * (r + 1) * (r + 1)
  }

  /** The same of the square root. */
  ghost predicate SquareRootBits(k: bv32, p: nat) {
    exists r: nat :: r % 0x1_0000_0000 == k as int && r * r <= p * SQUARE_UNIT < (r + 1) * (r + 1)
  }

  /** 2^96 and 2^64. */
  const CUBE_UNIT := 0x1_0000_0000_0000_0000_0000_0000
  const SQUARE_UNIT := 0x1_0000_0000_0000_0000

  lemma CubeRoot(k: bv32, n: nat, p: nat, r: nat)
    requires k as int == n < 0x1_0000_0000 && r % 0x1_0000_0000 == n
    requires r * r * r <= p * CUBE_UNIT < (r + 1) * (r + 1) * (r + 1)
    ensures CubeRootBits(k, p)
  {}

  lemma SquareRoot(k: bv32, n: nat, p: nat, r: nat)
    requires k as int == n < 0x1_0000_0000 && r % 0x1_0000_0000 == n
    requires r * r <= p * SQUARE_UNIT < (r + 1) * (r + 1)
    ensures SquareRootBits(k, p)
  {}

  ghost predicate AllCubeRoots(k: seq<bv32>, p: seq<nat>) {
    |k| == |p| && forall t :: 0 <= t < |k| ==> CubeRootBits(k[t], p[t])
  }

  lemma AppendRoots(k: seq<bv32>, k': seq<bv32>, p: seq<nat>, p': seq<nat>)
    requires AllCubeRoots(k, p) && AllCubeRoots(k', p')
    ensures AllCubeRoots(k + k', p + p')
  {
    hide CubeRootBits;
  }

  lemma CubeRootsRow0()
    ensures AllCubeRoots(K_ROW0, PRIMES_ROW0)
  {
    hide CubeRootBits;
    CubeRoot(0x428a2f98, 0x428a2f98, 2, 0x1_428a_2f98);
    CubeRoot(0x71374491, 0x71374491, 3, 0x1_7137_4491);
    CubeRoot(0xb5c0fbcf, 0xb5c0fbcf, 5, 0x1_b5c0_fbcf);
    CubeRoot(0xe9b5dba5, 0xe9b5dba5, 7, 0x1_e9b5_dba5);
    CubeRoot(0x3956c25b, 0x3956c25b, 11, 0x2_3956_c25b);
    CubeRoot(0x59f111f1, 0x59f111f1, 13, 0x2_59f1_11f1);
    CubeRoot(0x923f82a4, 0x923f82a4, 17, 0x2_923f_82a4);
    CubeRoot(0xab1c5ed5, 0xab1c5ed5, 19, 0x2_ab1c_5ed5);
    CubeRoot(0xd807aa98, 0xd807aa98, 23, 0x2_d807_aa98);
    CubeRoot(0x12835b01, 0x12835b01, 29, 0x3_1283_5b01);
    CubeRoot(0x243185be, 0x243185be, 31, 0x3_2431_85be);
    CubeRoot(0x550c7dc3, 0x550c7dc3, 37, 0x3_550c_7dc3);
    CubeRoot(0x72be5d74, 0x72be5d74, 41, 0x3_72be_5d74);
    CubeRoot(0x80deb1fe, 0x80deb1fe, 43, 0x3_80de_b1fe);
    CubeRoot(0x9bdc06a7, 0x9bdc06a7, 47, 0x3_9bdc_06a7);
    CubeRoot(0xc19bf174, 0xc19bf174, 53, 0x3_c19b_f174);
  }

  lemma CubeRootsRow1()
    ensures AllCubeRoots(K_ROW1, PRIMES_ROW1)
  {
    hide CubeRootBits;
    CubeRoot(0xe49b69c1, 0xe49b69c1, 59, 0x3_e49b_69c1);
    CubeRoot(0xefbe4786, 0xefbe4786, 61, 0x3_efbe_4786);
    CubeRoot(0x0fc19dc6, 0x0fc19dc6, 67, 0x4_0fc1_9dc6);
    CubeRoot(0x240ca1cc, 0x240ca1cc, 71, 0x4_240c_a1cc);
    CubeRoot(0x2de92c6f, 0x2de92c6f, 73, 0x4_2de9_2c6f);
    CubeRoot(0x4a7484aa, 0x4a7484aa, 79, 0x4_4a74_84aa);
    CubeRoot(0x5cb0a9dc, 0x5cb0a9dc, 83, 0x4_5cb0_a9dc);
    CubeRoot(0x76f988da, 0x76f988da, 89, 0x4_76f9_88da);
    CubeRoot(0x983e5152, 0x983e5152, 97, 0x4_983e_5152);
    CubeRoot(0xa831c66d, 0xa831c66d, 101, 0x4_a831_c66d);
    CubeRoot(0xb00327c8, 0xb00327c8, 103, 0x4_b003_27c8);
    CubeRoot(0xbf597fc7, 0xbf597fc7, 107, 0x4_bf59_7fc7);
    CubeRoot(0xc6e00bf3, 0xc6e00bf3, 109, 0x4_c6e0_0bf3);
    CubeRoot(0xd5a79147, 0xd5a79147, 113, 0x4_d5a7_9147);
    CubeRoot(0x06ca6351, 0x06ca6351, 127, 0x5_06ca_6351);
    CubeRoot(0x14292967, 0x14292967, 131, 0x5_1429_2967);
  }

  lemma CubeRootsRow2()
    ensures AllCubeRoots(K_ROW2, PRIMES_ROW2)
  {
    hide CubeRootBits;
    CubeRoot(0x27b70a85, 0x27b70a85, 137, 0x5_27b7_0a85);
    CubeRoot(0x2e1b2138, 0x2e1b2138, 139, 0x5_2e1b_2138);
    CubeRoot(0x4d2c6dfc, 0x4d2c6dfc, 149, 0x5_4d2c_6dfc);
    CubeRoot(0x53380d13, 0x53380d13, 151, 0x5_5338_0d13);
    CubeRoot(0x650a7354, 0x650a7354, 157, 0x5_650a_7354);
    CubeRoot(0x766a0abb, 0x766a0abb, 163, 0x5_766a_0abb);
    CubeRoot(0x81c2c92e, 0x81c2c92e, 167, 0x5_81c2_c92e);
    CubeRoot(0x92722c85, 0x92722c85, 173, 0x5_9272_2c85);
    CubeRoot(0xa2bfe8a1, 0xa2bfe8a1, 179, 0x5_a2bf_e8a1);
    CubeRoot(0xa81a664b, 0xa81a664b, 181, 0x5_a81a_664b);
    CubeRoot(0xc24b8b70, 0xc24b8b70, 191, 0x5_c24b_8b70);
    CubeRoot(0xc76c51a3, 0xc76c51a3, 193, 0x5_c76c_51a3);
    CubeRoot(0xd192e819, 0xd192e819, 197, 0x5_d192_e819);
    CubeRoot(0xd6990624, 0xd6990624, 199, 0x5_d699_0624);
    CubeRoot(0xf40e3585, 0xf40e3585, 211, 0x5_f40e_3585);
    CubeRoot(0x106aa070, 0x106aa070, 223, 0x6_106a_a070);
  }

  lemma CubeRootsRow3()
    ensures AllCubeRoots(K_ROW3, PRIMES_ROW3)
  {
    hide CubeRootBits;
    CubeRoot(0x19a4c116, 0x19a4c116, 227, 0x6_19a4_c116);
    CubeRoot(0x1e376c08, 0x1e376c08, 229, 0x6_1e37_6c08);
    CubeRoot(0x2748774c, 0x2748774c, 233, 0x6_2748_774c);
    CubeRoot(0x34b0bcb5, 0x34b0bcb5, 239, 0x6_34b0_bcb5);
    CubeRoot(0x391c0cb3, 0x391c0cb3, 241, 0x6_391c_0cb3);
    CubeRoot(0x4ed8aa4a, 0x4ed8aa4a, 251, 0x6_4ed8_aa4a);
    CubeRoot(0x5b9cca4f, 0x5b9cca4f, 257, 0x6_5b9c_ca4f);
    CubeRoot(0x682e6ff3, 0x682e6ff3, 263, 0x6_682e_6ff3);
    CubeRoot(0x748f82ee, 0x748f82ee, 269, 0x6_748f_82ee);
    CubeRoot(0x78a5636f, 0x78a5636f, 271, 0x6_78a5_636f);
    CubeRoot(0x84c87814, 0x84c87814, 277, 0x6_84c8_7814);
    CubeRoot(0x8cc70208, 0x8cc70208, 281, 0x6_8cc7_0208);
    CubeRoot(0x90befffa, 0x90befffa, 283, 0x6_90be_fffa);
    CubeRoot(0xa4506ceb, 0xa4506ceb, 293, 0x6_a450_6ceb);
    CubeRoot(0xbef9a3f7, 0xbef9a3f7, 307, 0x6_bef9_a3f7);
    CubeRoot(0xc67178f2, 0xc67178f2, 311, 0x6_c671_78f2);
  }

  /** The 64 words K are the cube roots of the first 64 primes. */
  lemma RoundConstants()
    ensures |K| == |PRIMES| == 64
    ensures forall t :: 0 <= t < 64 ==> CubeRootBits(K[t], PRIMES[t])
  {
    hide CubeRootBits;
    CubeRootsRow0();
    CubeRootsRow1();
    CubeRootsRow2();
    CubeRootsRow3();
    AppendRoots(K_ROW0, K_ROW1, PRIMES_ROW0, PRIMES_ROW1);
    AppendRoots(K_ROW0 + K_ROW1, K_ROW2, PRIMES_ROW0 + PRIMES_ROW1, PRIMES_ROW2);
    AppendRoots(K_ROW0 + K_ROW1 + K_ROW2, K_ROW3, PRIMES_ROW0 + PRIMES_ROW1 + PRIMES_ROW2, PRIMES_ROW3);
  }

  /** The initial hash value is the square roots of the first eight. */
  lemma InitialValue()
    ensures |INITIAL| == 8
    ensures forall t :: 0 <= t < 8 ==> SquareRootBits(INITIAL[t], PRIMES_ROW0[t])
  {
    hide SquareRootBits;
    SquareRoot(0x6a09e667, 0x6a09e667, 2, 0x1_6a09_e667);
    SquareRoot(0xbb67ae85, 0xbb67ae85, 3, 0x1_bb67_ae85);
    SquareRoot(0x3c6ef372, 0x3c6ef372, 5, 0x2_3c6e_f372);
    SquareRoot(0xa54ff53a, 0xa54ff53a, 7, 0x2_a54f_f53a);
    SquareRoot(0x510e527f, 0x510e527f, 11, 0x3_510e_527f);
    SquareRoot(0x9b05688c, 0x9b05688c, 13, 0x3_9b05_688c);
    SquareRoot(0x1f83d9ab, 0x1f83d9ab, 17, 0x4_1f83_d9ab);
    SquareRoot(0x5be0cd19, 0x5be0cd19, 19, 0x4_5be0_cd19);
  }
}
