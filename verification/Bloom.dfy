/** The Bloom filter a client sends to its peers (BIP-37). */
module Bloom {
  import opened Words

  const MAX_ELEMENTS := 20000

  /** MurmurHash3 of some bytes with a seed. */
  type Murmur = (Bytes, u32) -> u32

  /** The fields that Create fixes: the size in bytes, the number of hash functions and the tweak. */
  datatype Shape = Shape(murmur: Murmur, size: nat, hashFuncs: u32, tweak: u32)

  /** Hash can be called at all. */
  predicate Usable(f: Shape) { f.hashFuncs == 0 || f.size > 0 }

  function HashOf(f: Shape, i: nat, data: Bytes): u32 {
    f.murmur(data, Lo32(i * 0xFBA4_C795 + f.tweak))
  }

  /** The bit that hash function i picks. */
  function Position(f: Shape, i: nat, data: Bytes): (p: nat)
    requires f.size > 0
    ensures p < 8 * f.size
  {
    HashOf(f, i, data) % (8 * f.size)
  }

  /** The bits of an element under the first n hash functions. */
  function Positions(f: Shape, data: Bytes, n: nat): set<nat>
    requires f.size > 0 || n == 0
  {
    set i | 0 <= i < n :: Position(f, i, data)
  }

  // ---- bits of bytes ----

  /** `1 << k` in a byte. */
  function Mask(k: nat): (m: bv8)
    requires k < 8
    ensures m == (1 as bv8) << k
  {
    if k == 0 then 1 else if k == 1 then 2 else if k == 2 then 4 else if k == 3 then 8
    else if k == 4 then 16 else if k == 5 then 32 else if k == 6 then 64 else 128
  }

  lemma SetBit(v: bv8, j: nat, k: nat)
    requires j < 8 && k < 8
    ensures (v | Mask(j)) & Mask(k) != 0 <==> j == k || v & Mask(k) != 0
  {}

  predicate IsSet(v: seq<bv8>, p: nat)
    requires p < 8 * |v|
  {
    v[p / 8] & Mask(p % 8) != 0
  }

  ghost function Bits(v: seq<bv8>): set<nat> {
    set p: nat | p < 8 * |v| && IsSet(v, p)
  }

  lemma BitsAfter(v: seq<bv8>, w: seq<bv8>, p: nat)
    requires p < 8 * |v| && w == v[p / 8 := v[p / 8] | Mask(p % 8)]
    ensures Bits(w) == Bits(v) + {p}
  {
    hide Mask;
    assert forall i :: 0 <= i < |v| && i != p / 8 ==> w[i] == v[i];
    forall q: nat | q < 8 * |v|
      ensures IsSet(w, q) <==> q == p || IsSet(v, q)
    {
      if q / 8 == p / 8 { SetBit(v[p / 8], p % 8, q % 8); }
    }
  }

  // ---- the filter as a value ----

  datatype State = State(bits: set<nat>, count: nat)

  const EMPTY := State({}, 0)

  predicate Accepts(f: Shape, s: State) { s.count < MAX_ELEMENTS && Usable(f) }

  function InsertInto(f: Shape, s: State, data: Bytes): State {
    if Accepts(f, s) then State(s.bits + Positions(f, data, f.hashFuncs), s.count + 1) else s
  }

  predicate Reports(f: Shape, s: State, data: Bytes) {
    Usable(f) && Positions(f, data, f.hashFuncs) <= s.bits
  }

  function Run(f: Shape, elements: seq<Bytes>): State
    decreases |elements|
  {
    if elements == [] then EMPTY
    else InsertInto(f, Run(f, elements[..|elements| - 1]), elements[|elements| - 1])
  }

  lemma {:induction false} RunAccepts(f: Shape, elements: seq<Bytes>)
    requires Usable(f)
    ensures Run(f, elements).count == if |elements| <= MAX_ELEMENTS then |elements| else MAX_ELEMENTS
    decreases |elements|
  {
    hide Positions;
    if elements != [] { RunAccepts(f, elements[..|elements| - 1]); }
  }

  /** A bit is set exactly when one of the first 20000 elements has it; later ones are refused. */
  lemma {:induction false} BitsOfRun(f: Shape, elements: seq<Bytes>, p: nat)
    requires Usable(f)
    ensures p in Run(f, elements).bits
      <==> exists i :: 0 <= i < |elements| && i < MAX_ELEMENTS && p in Positions(f, elements[i], f.hashFuncs)
    decreases |elements|
  {
    hide Positions;
    if elements != [] {
      var before, n := elements[..|elements| - 1], |elements| - 1;
      BitsOfRun(f, before, p);
      RunAccepts(f, before);
      assert forall i :: 0 <= i < n ==> before[i] == elements[i];
      if n < MAX_ELEMENTS && p in Positions(f, elements[n], f.hashFuncs) {
        assert 0 <= n < |elements| && p in Positions(f, elements[n], f.hashFuncs);
      }
    }
  }

  /** No false negatives, and exactly these positives: an element is reported iff each of its bits
      is a bit of some element that was accepted. */
  lemma ReportedIffCovered(f: Shape, elements: seq<Bytes>, data: Bytes)
    requires Usable(f)
    ensures Reports(f, Run(f, elements), data)
      <==> forall p :: p in Positions(f, data, f.hashFuncs) ==>
             exists i :: 0 <= i < |elements| && i < MAX_ELEMENTS && p in Positions(f, elements[i], f.hashFuncs)
    ensures forall i :: 0 <= i < |elements| && i < MAX_ELEMENTS ==> Reports(f, Run(f, elements), elements[i])
  {
    hide Positions, Run;
    forall p: nat
      ensures p in Run(f, elements).bits
        <==> exists i :: 0 <= i < |elements| && i < MAX_ELEMENTS && p in Positions(f, elements[i], f.hashFuncs)
    {
      BitsOfRun(f, elements, p);
    }
  }

  // ---- the object ----

  class BloomFilter {
    const murmur: Murmur
    var vData: array<bv8>
    var nHashFuncs: u32
    var nTweak: u32
    var elementCount: nat

    ghost function ShapeOf(): Shape
      reads this
    {
      Shape(murmur, vData.Length, nHashFuncs, nTweak)
    }

    ghost function View(): State
      reads this, vData
    {
      State(Bits(vData[..]), elementCount)
    }

    /** Create, with the size and the number of hash functions already computed. */
    constructor (murmur: Murmur, size: nat, hashFuncs: u32, tweak: u32)
      ensures ShapeOf() == Shape(murmur, size, hashFuncs, tweak) && View() == EMPTY && fresh(vData)
    {
      this.murmur := murmur;
      vData := new bv8[size](_ => 0);
      nHashFuncs, nTweak, elementCount := hashFuncs, tweak, 0;
      new;
      assert forall p: nat :: p < 8 * size ==> !IsSet(vData[..], p);
    }

    method Hash(i: u32, data: Bytes) returns (ok: bool, h: u32)
      ensures ok <==> nHashFuncs != 0 && vData.Length != 0
      ensures ok ==> h == HashOf(ShapeOf(), i, data)
    {
      if nHashFuncs == 0 || vData.Length == 0 { return false, 0; }
      return true, murmur(data, Lo32(i * 0xFBA4_C795 + nTweak));
    }

    method Insert(data: Bytes) returns (ok: bool)
      modifies this, vData
      ensures ShapeOf() == old(ShapeOf()) && vData == old(vData)
      ensures ok <==> Accepts(ShapeOf(), old(View()))
      ensures View() == InsertInto(ShapeOf(), old(View()), data)
    {
      hide Bits, Mask, HashOf;
      if elementCount >= MAX_ELEMENTS { return false; }
      ghost var f := ShapeOf();
      var i := 0;
      while i < nHashFuncs
        invariant 0 <= i <= nHashFuncs && ShapeOf() == f && vData == old(vData)
        invariant elementCount == old(elementCount)
        invariant i == 0 || f.size > 0
        invariant Bits(vData[..]) == old(Bits(vData[..])) + Positions(f, data, i)
      {
        var fine, h := Hash(i, data);
        if !fine { return false; }
        var bit := h % (vData.Length * 8);
        ghost var was := vData[..];
        vData[bit / 8] := vData[bit / 8] | Mask(bit % 8);
        assert vData[..] == was[bit / 8 := was[bit / 8] | Mask(bit % 8)];
        BitsAfter(was, vData[..], bit);
        PositionsStep(f, data, i);
        i := i + 1;
      }
      elementCount := elementCount + 1;
      ok := true;
    }

    method Contains(data: Bytes) returns (r: bool)
      ensures r <==> Reports(ShapeOf(), View(), data)
    {
      hide HashOf;
      ghost var f := ShapeOf();
      var i := 0;
      while i < nHashFuncs
        invariant 0 <= i <= nHashFuncs
        invariant i == 0 || f.size > 0
        invariant Positions(f, data, i) <= View().bits
      {
        var fine, h := Hash(i, data);
        if !fine { return false; }
        var bit := h % (vData.Length * 8);
        PositionsStep(f, data, i);
        if vData[bit / 8] & Mask(bit % 8) == 0 {
          assert bit in Positions(f, data, nHashFuncs) && !IsSet(vData[..], bit);
          return false;
        }
        assert IsSet(vData[..], bit);
        i := i + 1;
      }
      r := true;
    }
  }

  lemma PositionsStep(f: Shape, data: Bytes, i: nat)
    requires f.size > 0
    ensures Positions(f, data, i + 1) == Positions(f, data, i) + {Position(f, i, data)}
  {}
}
