/** BIP-37 partial Merkle trees: the depth-first extraction with its bit and hash cursors, and
    what an accepted proof says about the transactions of the block. */
module MerkleProof {
  import opened Radix
  import opened Words
  import opened MerkleTree

  // ---- bits ----

  /** The bits of vBits, least significant first in each byte. */
  function Unpack(vBits: Bytes): (r: seq<bool>)
    ensures |r| == 8 * |vBits|
  {
    if vBits == [] then [] else BitsOf(vBits[0], 8) + Unpack(vBits[1..])
  }

  /** The n low bits of b. */
  function BitsOf(b: nat, n: nat): (r: seq<bool>)
    ensures |r| == n
    decreases n
  {
    if n == 0 then [] else [b % 2 == 1] + BitsOf(b / 2, n - 1)
  }

  lemma {:induction false} BitAt(b: nat, n: nat, k: nat)
    requires k < n
    ensures BitsOf(b, n)[k] == (b / Pow2(k) % 2 == 1)
    decreases n
  {
    if k == 0 {
      DivModUnique(b, 1, b, 0);
    } else {
      BitAt(b / 2, n - 1, k - 1);
      DivDiv(b, 2, Pow2(k - 1));
    }
  }

  /** GetBit: `(vBits[idx / 8] >> (idx % 8)) & 1`, false past the end. */
  function GetBit(vBits: Bytes, idx: nat): bool {
    idx < 8 * |vBits| && vBits[idx / 8] / Pow2(idx % 8) % 2 == 1
  }

  lemma SkipByte(vBits: Bytes, idx: nat)
    requires 8 <= idx < 8 * |vBits|
    ensures GetBit(vBits, idx) == GetBit(vBits[1..], idx - 8)
    ensures Unpack(vBits)[idx] == Unpack(vBits[1..])[idx - 8]
  {
    DivModUnique(idx - 8, 8, idx / 8 - 1, idx % 8);
  }

  lemma {:induction false} GetBitIs(vBits: Bytes, idx: nat)
    requires idx < 8 * |vBits|
    ensures GetBit(vBits, idx) == Unpack(vBits)[idx]
  {
    hide Pow2, BitsOf;
    if idx >= 8 {
      GetBitIs(vBits[1..], idx - 8);
      SkipByte(vBits, idx);
    } else {
      BitAt(vBits[0], 8, idx);
      DivModUnique(idx, 8, 0, idx);
      assert Unpack(vBits)[idx] == BitsOf(vBits[0], 8)[idx];
    }
  }

  /** Eight bits to a byte, the last byte padded with zero bits. */
  function Pack(bits: seq<bool>): (r: Bytes)
    ensures |r| == (|bits| + 7) / 8
  {
    if bits == [] then []
    else if |bits| < 8 then [PackByte(bits + seq(8 - |bits|, _ => false))]
    else [PackByte(bits[..8])] + Pack(bits[8..])
  }

  function PackByte(b: seq<bool>): u8
    requires |b| == 8
  {
    assert Pow2(8) == 256 by { Pow2Constants(); }
    BitsValue(b)
  }

  function BitsValue(b: seq<bool>): (r: nat)
    ensures r < Pow2(|b|)
  {
    if b == [] then 0 else (if b[0] then 1 else 0) + 2 * BitsValue(b[1..])
  }

  lemma {:induction false} BitsOfValue(b: seq<bool>)
    ensures BitsOf(BitsValue(b), |b|) == b
  {
    if b != [] {
      BitsOfValue(b[1..]);
      assert BitsValue(b) / 2 == BitsValue(b[1..]);
      assert b == [b[0]] + b[1..];
    }
  }

  /** The packed bits come back, followed by padding only. */
  lemma {:induction false} UnpackPack(bits: seq<bool>)
    ensures |Unpack(Pack(bits))| >= |bits|
    ensures Unpack(Pack(bits))[..|bits|] == bits
    decreases |bits|
  {
    if bits == [] {
    } else if |bits| < 8 {
      var padded := bits + seq(8 - |bits|, _ => false);
      BitsOfValue(padded);
      assert Pack(bits)[1..] == [];
      assert Unpack(Pack(bits)) == padded;
    } else {
      BitsOfValue(bits[..8]);
      UnpackPack(bits[8..]);
      assert Pack(bits)[1..] == Pack(bits[8..]);
      assert bits == bits[..8] + bits[8..];
    }
  }

  // ---- the traversal ----

  /** What a traversal reads: the width of every row, the bits and the hashes. */
  datatype Proof = Proof(widths: seq<nat>, bits: seq<bool>, hashes: seq<Uint256>)

  /** TreeWidth at every height a walk can ask about. */
  function Widths(n: u32, h: nat): (r: seq<nat>)
    requires h <= 32
    ensures |r| == 32 - h
    ensures forall k :: h <= k < 32 ==> r[k - h] == TreeWidth(n, k)
    decreases 32 - h
  {
    if h == 32 then [] else [TreeWidth(n, h)] + Widths(n, h + 1)
  }

  function ProofOf(nTransactions: u32, vBits: Bytes, vHash: seq<Uint256>): Proof {
    Proof(Widths(nTransactions, 0), Unpack(vBits), vHash)
  }

  /** nBitsUsed, nHashUsed, fBad and vMatch. */
  datatype Cursor = Cursor(bits: nat, hashes: nat, bad: bool, matches: seq<Uint256>)

  /** The next hash, taken for a node at height h whose bit is `parent`. */
  function TakeHash(t: Proof, c: Cursor, h: nat, parent: bool): (Uint256, Cursor) {
    if c.hashes >= |t.hashes| then (NULL256, c.(bad := true))
    else
      var hash := t.hashes[c.hashes];
      (hash, c.(hashes := c.hashes + 1,
                matches := if h == 0 && parent then c.matches + [hash] else c.matches))
  }

  /** traverse(height, pos): the hash returned and the cursors left. */
  function Walk(hp: HashFn, t: Proof, c: Cursor, h: nat, pos: nat): (Uint256, Cursor)
    requires h < |t.widths|
    decreases h
  {
    if c.bits >= |t.bits| then (NULL256, c.(bad := true))
    else
      var parent := t.bits[c.bits];
      var c1 := c.(bits := c.bits + 1);
      if h == 0 || !parent then TakeHash(t, c1, h, parent)
      else
        var (left, c2) := Walk(hp, t, c1, h - 1, 2 * pos);
        if 2 * pos + 1 < t.widths[h - 1] then
          var (right, c3) := Walk(hp, t, c2, h - 1, 2 * pos + 1);
          (hp(left, right), c3.(bad := c3.bad || right == left))
        else (hp(left, left), c2)
  }

  lemma WalkTwo(hp: HashFn, t: Proof, c: Cursor, h: nat, pos: nat,
                left: Uint256, c2: Cursor, right: Uint256, c3: Cursor)
    requires 0 < h < |t.widths| && c.bits < |t.bits| && t.bits[c.bits]
    requires (left, c2) == Walk(hp, t, c.(bits := c.bits + 1), h - 1, 2 * pos)
    requires 2 * pos + 1 < t.widths[h - 1]
    requires (right, c3) == Walk(hp, t, c2, h - 1, 2 * pos + 1)
    ensures Walk(hp, t, c, h, pos) == (hp(left, right), c3.(bad := c3.bad || right == left))
  {}

  lemma WalkOne(hp: HashFn, t: Proof, c: Cursor, h: nat, pos: nat, left: Uint256, c2: Cursor)
    requires 0 < h < |t.widths| && c.bits < |t.bits| && t.bits[c.bits]
    requires (left, c2) == Walk(hp, t, c.(bits := c.bits + 1), h - 1, 2 * pos)
    requires 2 * pos + 1 >= t.widths[h - 1]
    ensures Walk(hp, t, c, h, pos) == (hp(left, left), c2)
  {}

  /** The pairs that traversal hashes. */
  function WalkPairs(hp: HashFn, t: Proof, c: Cursor, h: nat, pos: nat): set<(Uint256, Uint256)>
    requires h < |t.widths|
    decreases h
  {
    if c.bits >= |t.bits| || h == 0 || !t.bits[c.bits] then {}
    else
      var c1 := c.(bits := c.bits + 1);
      var (left, c2) := Walk(hp, t, c1, h - 1, 2 * pos);
      var below := WalkPairs(hp, t, c1, h - 1, 2 * pos);
      if 2 * pos + 1 < t.widths[h - 1] then
        below + WalkPairs(hp, t, c2, h - 1, 2 * pos + 1)
        + {(left, Walk(hp, t, c2, h - 1, 2 * pos + 1).0)}
      else below + {(left, left)}
  }

  lemma PairsTwo(hp: HashFn, t: Proof, c: Cursor, h: nat, pos: nat, left: Uint256, c2: Cursor, right: Uint256)
    requires 0 < h < |t.widths| && c.bits < |t.bits| && t.bits[c.bits]
    requires (left, c2) == Walk(hp, t, c.(bits := c.bits + 1), h - 1, 2 * pos)
    requires 2 * pos + 1 < t.widths[h - 1]
    requires right == Walk(hp, t, c2, h - 1, 2 * pos + 1).0
    ensures (left, right) in WalkPairs(hp, t, c, h, pos)
    ensures WalkPairs(hp, t, c.(bits := c.bits + 1), h - 1, 2 * pos) <= WalkPairs(hp, t, c, h, pos)
    ensures WalkPairs(hp, t, c2, h - 1, 2 * pos + 1) <= WalkPairs(hp, t, c, h, pos)
  {}

  lemma PairsOne(hp: HashFn, t: Proof, c: Cursor, h: nat, pos: nat, left: Uint256, c2: Cursor)
    requires 0 < h < |t.widths| && c.bits < |t.bits| && t.bits[c.bits]
    requires (left, c2) == Walk(hp, t, c.(bits := c.bits + 1), h - 1, 2 * pos)
    requires 2 * pos + 1 >= t.widths[h - 1]
    ensures (left, left) in WalkPairs(hp, t, c, h, pos)
    ensures WalkPairs(hp, t, c.(bits := c.bits + 1), h - 1, 2 * pos) <= WalkPairs(hp, t, c, h, pos)
  {}

  const START := Cursor(0, 0, false, [])

  /** The whole traversal, from the top. */
  function Run(hp: HashFn, nTransactions: u32, vBits: Bytes, vHash: seq<Uint256>): (Uint256, Cursor) {
    Walk(hp, ProofOf(nTransactions, vBits, vHash), START, HeightFrom(nTransactions, 0), 0)
  }

  function RunPairs(hp: HashFn, nTransactions: u32, vBits: Bytes, vHash: seq<Uint256>): set<(Uint256, Uint256)> {
    WalkPairs(hp, ProofOf(nTransactions, vBits, vHash), START, HeightFrom(nTransactions, 0), 0)
  }

  /** What ExtractMatches demands beside a clean traversal. The byte counts are compared as the
      code compares them: vBits already counts bytes and is divided by eight again. */
  predicate Accepted(hp: HashFn, nTransactions: u32, vBits: Bytes, vHash: seq<Uint256>) {
    && nTransactions != 0 && vHash != [] && vBits != []
    && |vBits| * 8 >= |vHash|
    && var c := Run(hp, nTransactions, vBits, vHash).1;
       && !c.bad
       && (c.bits + 7) / 8 == (|vBits| + 7) / 8
       && c.hashes == |vHash|
  }

  /** The closure variables of ExtractMatches. GetBit and TreeWidth are pure, so they are
      tabulated in `t` (see GetBitIs and Widths). */
  class Traversal {
    const t: Proof
    var nBitsUsed: nat
    var nHashUsed: nat
    var fBad: bool
    var vMatch: seq<Uint256>

    constructor (t: Proof)
      ensures this.t == t && State() == START
    {
      this.t := t;
      nBitsUsed, nHashUsed, fBad, vMatch := 0, 0, false, [];
    }

    ghost function State(): Cursor
      reads this
    {
      Cursor(nBitsUsed, nHashUsed, fBad, vMatch)
    }

    /** One node of the depth-first walk. The position stays below 2^31, so `pos * 2 + 1` does
        not wrap. */
    method Traverse(hp: HashFn, height: nat, pos: u32) returns (hash: Uint256)
      requires |t.widths| == 32 && height <= 31 && pos < Pow2(31 - height)
      modifies this
      ensures (hash, State()) == Walk(hp, t, old(State()), height, pos)
      decreases height, 1
    {
      ghost var c := State();
      if nBitsUsed >= |t.bits| {
        fBad := true;
        return NULL256;
      }
      var fParentOfMatch := t.bits[nBitsUsed];
      nBitsUsed := nBitsUsed + 1;
      if height == 0 || !fParentOfMatch {
        hash := NextHash(height, fParentOfMatch);
        return;
      }
      hash := TraverseChildren(hp, height, pos, c);
    }

    /** A node whose hash is given: a leaf, or a subtree without matches. */
    method NextHash(height: nat, fParentOfMatch: bool) returns (hash: Uint256)
      modifies this
      ensures (hash, State()) == TakeHash(t, old(State()), height, fParentOfMatch)
    {
      if nHashUsed >= |t.hashes| {
        fBad := true;
        return NULL256;
      }
      hash := t.hashes[nHashUsed];
      nHashUsed := nHashUsed + 1;
      if height == 0 && fParentOfMatch {
        vMatch := vMatch + [hash];
      }
    }

    /** The rest of the node after its bit, read when the state was c, said there are matches below. */
    method TraverseChildren(hp: HashFn, height: nat, pos: u32, ghost c: Cursor) returns (hash: Uint256)
      requires |t.widths| == 32 && 0 < height <= 31 && pos < Pow2(31 - height)
      requires c.bits < |t.bits| && t.bits[c.bits] && State() == c.(bits := c.bits + 1)
      modifies this
      ensures (hash, State()) == Walk(hp, t, c, height, pos)
      decreases height, 0
    {
      PositionFits(height, pos);
      var left := Traverse(hp, height - 1, 2 * pos);
      ghost var c2 := State();
      var right := left;
      if 2 * pos + 1 < t.widths[height - 1] {
        right := Traverse(hp, height - 1, 2 * pos + 1);
        ghost var c3 := State();
        if right == left {
          fBad := true;
        }
        WalkTwo(hp, t, c, height, pos, left, c2, right, c3);
      } else {
        WalkOne(hp, t, c, height, pos, left, c2);
      }
      return hp(left, right);
    }
  }

  lemma PositionFits(height: nat, pos: nat)
    requires height <= 31 && pos < Pow2(31 - height)
    ensures height > 0 ==> 2 * pos + 1 < Pow2(31 - (height - 1)) && 2 * pos + 1 < TWO32
  {
    if height > 0 {
      Pow2Constants();
      Pow2Mono(31 - (height - 1), 31);
    }
  }

  /** CLightPartialMerkleTree::ExtractMatches. */
  method ExtractMatches(hp: HashFn, nTransactions: u32, vBits: Bytes, vHash: seq<Uint256>)
    returns (ok: bool, vMatch: seq<Uint256>, root: Uint256)
    ensures ok <==> Accepted(hp, nTransactions, vBits, vHash)
    ensures ok ==>
      var r := Run(hp, nTransactions, vBits, vHash);
      root == r.0 && vMatch == r.1.matches
  {
    vMatch, root := [], NULL256;
    if nTransactions == 0 || vHash == [] || vBits == [] { return false, vMatch, root; }
    if |vBits| * 8 < |vHash| { return false, vMatch, root; }
    var nHeight := TreeHeight(nTransactions);
    var t := new Traversal(ProofOf(nTransactions, vBits, vHash));
    root := t.Traverse(hp, nHeight, 0);
    vMatch := t.vMatch;
    if t.fBad { return false, vMatch, root; }
    if (t.nBitsUsed + 7) / 8 != (|vBits| + 7) / 8 { return false, vMatch, root; }
    if t.nHashUsed != |vHash| { return false, vMatch, root; }
    return true, vMatch, root;
  }

  // ---- soundness ----

  /** Bad stays bad, and matches are only appended. */
  lemma {:induction false} WalkGrows(hp: HashFn, t: Proof, c: Cursor, h: nat, pos: nat)
    requires h < |t.widths|
    ensures var d := Walk(hp, t, c, h, pos).1;
      (c.bad ==> d.bad) && c.matches <= d.matches
    decreases h
  {
    if c.bits < |t.bits| && h > 0 && t.bits[c.bits] {
      var c1 := c.(bits := c.bits + 1);
      WalkGrows(hp, t, c1, h - 1, 2 * pos);
      WalkGrows(hp, t, Walk(hp, t, c1, h - 1, 2 * pos).1, h - 1, 2 * pos + 1);
    }
  }

  /** `at` lists positions in the block, strictly increasing, and `found` the txids there. */
  ghost predicate FoundAt(txids: seq<Uint256>, found: seq<Uint256>, at: seq<nat>) {
    && |at| == |found|
    && (forall i :: 0 <= i < |at| ==> at[i] < |txids| && found[i] == txids[at[i]])
    && forall i, j :: 0 <= i < j < |at| ==> at[i] < at[j]
  }

  /** y lies k levels of hashed pairs below x. */
  ghost predicate Under(hp: HashFn, pairs: set<(Uint256, Uint256)>, x: Uint256, y: Uint256, k: nat)
    decreases k
  {
    if k == 0 then x == y
    else exists p ::
      && p in pairs && hp(p.0, p.1) == x
      && (Under(hp, pairs, p.0, y, k - 1) || Under(hp, pairs, p.1, y, k - 1))
  }

  /** What a walk appends lies as many levels below the hash it returns as the walk is high. */
  lemma {:induction false} MatchesUnder(hp: HashFn, t: Proof, c: Cursor, h: nat, pos: nat,
                                        pairs: set<(Uint256, Uint256)>)
    requires h < |t.widths| && WalkPairs(hp, t, c, h, pos) <= pairs
    ensures AllUnder(hp, pairs, Walk(hp, t, c, h, pos).0, c, Walk(hp, t, c, h, pos).1, h)
    decreases h
  {
    hide Walk, WalkPairs, Under, AllUnder;
    if c.bits < |t.bits| && h > 0 && t.bits[c.bits] {
      var w2 := Walk(hp, t, c.(bits := c.bits + 1), h - 1, 2 * pos);
      if 2 * pos + 1 < t.widths[h - 1] {
        var w3 := Walk(hp, t, w2.1, h - 1, 2 * pos + 1);
        PairsTwo(hp, t, c, h, pos, w2.0, w2.1, w3.0);
        MatchesUnder(hp, t, c.(bits := c.bits + 1), h - 1, 2 * pos, pairs);
        MatchesUnder(hp, t, w2.1, h - 1, 2 * pos + 1, pairs);
        WalkTwo(hp, t, c, h, pos, w2.0, w2.1, w3.0, w3.1);
        UnderPair(hp, pairs, w2.0, w3.0, c.(bits := c.bits + 1), w2.1, w3.1, h);
        SameUnder(hp, pairs, hp(w2.0, w3.0), c.(bits := c.bits + 1), c, w3.1, Walk(hp, t, c, h, pos).1, h);
      } else {
        PairsOne(hp, t, c, h, pos, w2.0, w2.1);
        MatchesUnder(hp, t, c.(bits := c.bits + 1), h - 1, 2 * pos, pairs);
        WalkOne(hp, t, c, h, pos, w2.0, w2.1);
        NoneUnder(hp, pairs, w2.0, w2.1, h - 1);
        UnderPair(hp, pairs, w2.0, w2.0, c.(bits := c.bits + 1), w2.1, w2.1, h);
        SameUnder(hp, pairs, hp(w2.0, w2.0), c.(bits := c.bits + 1), c, w2.1, w2.1, h);
      }
    } else {
      ClosedUnder(hp, t, c, h, pos, pairs);
    }
  }

  lemma ClosedUnder(hp: HashFn, t: Proof, c: Cursor, h: nat, pos: nat, pairs: set<(Uint256, Uint256)>)
    requires h < |t.widths| && (c.bits >= |t.bits| || h == 0 || !t.bits[c.bits])
    ensures AllUnder(hp, pairs, Walk(hp, t, c, h, pos).0, c, Walk(hp, t, c, h, pos).1, h)
  {}

  lemma NoneUnder(hp: HashFn, pairs: set<(Uint256, Uint256)>, x: Uint256, c: Cursor, k: nat)
    ensures AllUnder(hp, pairs, x, c, c, k)
  {}

  lemma SameUnder(hp: HashFn, pairs: set<(Uint256, Uint256)>, x: Uint256,
                  c: Cursor, c': Cursor, d: Cursor, d': Cursor, k: nat)
    requires AllUnder(hp, pairs, x, c, d, k) && c.matches == c'.matches && d.matches == d'.matches
    ensures AllUnder(hp, pairs, x, c', d', k)
  {}

  ghost predicate AllUnder(hp: HashFn, pairs: set<(Uint256, Uint256)>, x: Uint256, c: Cursor, d: Cursor, k: nat) {
    c.matches <= d.matches
    && forall i :: |c.matches| <= i < |d.matches| ==> Under(hp, pairs, x, d.matches[i], k)
  }

  lemma UnderPair(hp: HashFn, pairs: set<(Uint256, Uint256)>, left: Uint256, right: Uint256,
                  c: Cursor, c2: Cursor, c3: Cursor, h: nat)
    requires h > 0 && (left, right) in pairs
    requires AllUnder(hp, pairs, left, c, c2, h - 1) && AllUnder(hp, pairs, right, c2, c3, h - 1)
    ensures AllUnder(hp, pairs, hp(left, right), c, c3, h)
  {
    forall i | |c.matches| <= i < |c3.matches|
      ensures Under(hp, pairs, hp(left, right), c3.matches[i], h)
    {
      if i < |c2.matches| {
        assert c3.matches[i] == c2.matches[i];
      }
      var p := (left, right);
      assert p in pairs && hp(p.0, p.1) == hp(left, right);
    }
  }

  /** A proof held against a block. The peer names the number of transactions, so the rows of the
      walk need not be those of the block: row `up` of the block's tree is held against row `down`
      of the walk, and the rows above accordingly. `pairs` are the pairs hashed on both sides. */
  datatype Held = Held(hp: HashFn, t: Proof, txids: seq<Uint256>, pairs: set<(Uint256, Uint256)>, up: nat, down: nat) {
    /** Position pos, h rows up, exists in the block and in the walk. */
    ghost predicate Exists(h: nat, pos: nat) {
      h + down < |t.widths| && pos < Width(|txids|, h + up)
    }

    ghost function WalkFrom(c: Cursor, h: nat, pos: nat): (Uint256, Cursor)
      requires Exists(h, pos)
    {
      Walk(hp, t, c, h + down, pos)
    }

    ghost function Node(h: nat, pos: nat): Uint256
      requires Exists(h, pos)
    {
      NodeHash(hp, txids, h + up, pos)
    }

    /** The walk is clean and returns the real node. */
    ghost predicate Agrees(c: Cursor, h: nat, pos: nat)
      requires Exists(h, pos)
    {
      && !WalkFrom(c, h, pos).1.bad && WalkFrom(c, h, pos).0 == Node(h, pos)
      && WalkPairs(hp, t, c, h + down, pos) <= pairs && NodePairs(hp, txids, h + up, pos) <= pairs
    }

    ghost predicate Starts(h: int) { h >= 0 && Exists(h, 0) && Agrees(START, h, 0) }

    /** What was found lies `down` levels below nodes of row `up`, at strictly increasing positions;
        below one node of the block several may be found only if `down` > 0. */
    ghost predicate FoundUnder(found: seq<Uint256>, at: seq<nat>) {
      && |at| == |found|
      && (forall i :: 0 <= i < |at| ==> Holds(found[i], at[i]))
      && forall i, j :: 0 <= i < j < |at| ==> at[i] < at[j] || (down > 0 && at[i] == at[j])
    }

    ghost predicate Holds(found: Uint256, pos: nat) {
      && pos < Width(|txids|, up)
      && NodePairs(hp, txids, up, pos) <= pairs
      && Under(hp, pairs, NodeHash(hp, txids, up, pos), found, down)
    }

    /** What a walk over (h, pos) from c to d has found: all of it under that node. */
    ghost predicate Finds(c: Cursor, d: Cursor, at: seq<nat>, h: nat, pos: nat) {
      && c.matches <= d.matches
      && FoundUnder(d.matches[|c.matches|..], at) && Within(at, FirstLeaf(h, pos), FirstLeaf(h, pos + 1))
    }
  }

  ghost predicate Within(at: seq<nat>, lo: nat, hi: nat) {
    forall i :: 0 <= i < |at| ==> lo <= at[i] < hi
  }

  lemma FoundBoth(g: Held, f: seq<Uint256>, a: seq<nat>, f': seq<Uint256>, b: seq<nat>, lo: nat, mid: nat, hi: nat)
    requires g.FoundUnder(f, a) && Within(a, lo, mid) && g.FoundUnder(f', b) && Within(b, mid, hi)
    requires lo <= mid <= hi
    ensures g.FoundUnder(f + f', a + b) && Within(a + b, lo, hi)
  {}

  lemma BothChildren(g: Held, c1: Cursor, c2: Cursor, c3: Cursor, a: seq<nat>, b: seq<nat>, h: nat, pos: nat)
    requires h > 0 && g.Finds(c1, c2, a, h - 1, 2 * pos) && g.Finds(c2, c3, b, h - 1, 2 * pos + 1)
    ensures g.Finds(c1, c3, a + b, h, pos)
  {
    LeafOfChild(h, pos);
    var f, f' := c2.matches[|c1.matches|..], c3.matches[|c2.matches|..];
    FoundBoth(g, f, a, f', b, FirstLeaf(h, pos), FirstLeaf(h - 1, 2 * pos + 1), FirstLeaf(h, pos + 1));
    assert f + f' == c3.matches[|c1.matches|..];
  }

  lemma OneChild(g: Held, c1: Cursor, c2: Cursor, a: seq<nat>, h: nat, pos: nat)
    requires h > 0 && g.Finds(c1, c2, a, h - 1, 2 * pos)
    ensures g.Finds(c1, c2, a, h, pos)
  {
    LeafOfChild(h, pos);
  }

  lemma SamePair(hp: HashFn, pairs: set<(Uint256, Uint256)>, p: (Uint256, Uint256), q: (Uint256, Uint256))
    requires CollisionFree(hp, pairs) && p in pairs && q in pairs && hp(p.0, p.1) == hp(q.0, q.1)
    ensures p == q
  {}

  /** The walks over the children that a node which the walk opens has in the walk. */
  ghost predicate ChildrenAgree(g: Held, c: Cursor, h: nat, pos: nat)
    requires h > 0 && g.Exists(h, pos)
  {
    var c1 := c.(bits := c.bits + 1);
    && g.Exists(h - 1, 2 * pos) && g.Agrees(c1, h - 1, 2 * pos)
    && var c2 := g.WalkFrom(c1, h - 1, 2 * pos).1;
       if 2 * pos + 1 < g.t.widths[h + g.down - 1] then
         && g.Exists(h - 1, 2 * pos + 1) && g.Agrees(c2, h - 1, 2 * pos + 1)
         && g.WalkFrom(c, h, pos).1.matches == g.WalkFrom(c2, h - 1, 2 * pos + 1).1.matches
       else g.WalkFrom(c, h, pos).1.matches == c2.matches
  }

  /** Where a clean walk opens a node and returns its real hash, the pair it hashed is the block's
      pair. So its children are real: a second child the block does not have would equal the first,
      which is bad; a second child the walk does not have is passed over. */
  lemma OpenedAgree(g: Held, c: Cursor, h: nat, pos: nat)
    requires h > 0 && g.Exists(h, pos) && c.bits < |g.t.bits| && g.t.bits[c.bits]
    requires g.Agrees(c, h, pos) && CollisionFree(g.hp, g.pairs)
    ensures ChildrenAgree(g, c, h, pos)
  {
    hide CollisionFree;
    LeftChildExists(|g.txids|, h + g.up, pos);
    if 2 * pos + 1 < g.t.widths[h + g.down - 1] { OpenedTwo(g, c, h, pos); } else { OpenedOne(g, c, h, pos); }
  }

  lemma OpenedTwo(g: Held, c: Cursor, h: nat, pos: nat)
    requires h > 0 && g.Exists(h, pos) && g.Exists(h - 1, 2 * pos) && c.bits < |g.t.bits| && g.t.bits[c.bits]
    requires 2 * pos + 1 < g.t.widths[h + g.down - 1]
    requires g.Agrees(c, h, pos) && CollisionFree(g.hp, g.pairs)
    ensures ChildrenAgree(g, c, h, pos)
  {
    hide CollisionFree, Walk, WalkPairs, NodeHash, NodePairs, Width;
    var c1 := c.(bits := c.bits + 1);
    var w2 := g.WalkFrom(c1, h - 1, 2 * pos);
    var w3 := Walk(g.hp, g.t, w2.1, h + g.down - 1, 2 * pos + 1);
    var left, right := w2.0, w3.0;
    WalkTwo(g.hp, g.t, c, h + g.down, pos, left, w2.1, right, w3.1);
    PairsTwo(g.hp, g.t, c, h + g.down, pos, left, w2.1, right);
    WalkGrows(g.hp, g.t, w2.1, h + g.down - 1, 2 * pos + 1);
    var l := g.Node(h - 1, 2 * pos);
    if 2 * pos + 1 < Width(|g.txids|, h + g.up - 1) {
      NodeTwo(g.hp, g.txids, h + g.up, pos);
      SamePair(g.hp, g.pairs, (left, right), (l, g.Node(h - 1, 2 * pos + 1)));
    } else {
      NodeOne(g.hp, g.txids, h + g.up, pos);
      SamePair(g.hp, g.pairs, (left, right), (l, l));
    }
  }

  lemma OpenedOne(g: Held, c: Cursor, h: nat, pos: nat)
    requires h > 0 && g.Exists(h, pos) && g.Exists(h - 1, 2 * pos) && c.bits < |g.t.bits| && g.t.bits[c.bits]
    requires 2 * pos + 1 >= g.t.widths[h + g.down - 1]
    requires g.Agrees(c, h, pos) && CollisionFree(g.hp, g.pairs)
    ensures ChildrenAgree(g, c, h, pos)
  {
    hide CollisionFree, Walk, WalkPairs, NodeHash, NodePairs, Width;
    var w2 := g.WalkFrom(c.(bits := c.bits + 1), h - 1, 2 * pos);
    var left := w2.0;
    WalkOne(g.hp, g.t, c, h + g.down, pos, left, w2.1);
    PairsOne(g.hp, g.t, c, h + g.down, pos, left, w2.1);
    var l := g.Node(h - 1, 2 * pos);
    if 2 * pos + 1 < Width(|g.txids|, h + g.up - 1) {
      NodeTwo(g.hp, g.txids, h + g.up, pos);
      SamePair(g.hp, g.pairs, (left, left), (l, g.Node(h - 1, 2 * pos + 1)));
    } else {
      NodeOne(g.hp, g.txids, h + g.up, pos);
      SamePair(g.hp, g.pairs, (left, left), (l, l));
    }
  }

  lemma ClosedMatches(hp: HashFn, t: Proof, c: Cursor, h: nat, pos: nat)
    requires h < |t.widths| && (h == 0 || c.bits >= |t.bits| || !t.bits[c.bits])
    ensures var m := Walk(hp, t, c, h, pos).1.matches;
      if h > 0 then m == c.matches else |m| <= |c.matches| + 1
  {}

  /** A walk that does not open its node matches nothing there, unless it stands on a leaf. */
  lemma ClosedFinds(g: Held, c: Cursor, h: nat, pos: nat) returns (at: seq<nat>)
    requires g.Exists(h, pos) && g.Agrees(c, h, pos)
    requires h == 0 || c.bits >= |g.t.bits| || !g.t.bits[c.bits]
    ensures g.Finds(c, g.WalkFrom(c, h, pos).1, at, h, pos)
  {
    hide Walk, WalkPairs, NodeHash, NodePairs, Width, Under;
    if h > 0 || g.down == 0 { ClosedMatches(g.hp, g.t, c, h + g.down, pos); }
    if h > 0 {
      at := [];
    } else {
      var d := g.WalkFrom(c, 0, pos).1;
      MatchesUnder(g.hp, g.t, c, g.down, pos, g.pairs);
      at := seq(|d.matches| - |c.matches|, _ => pos);
      LeafFinds(g, c, d, at, pos);
    }
  }

  lemma LeafFinds(g: Held, c: Cursor, d: Cursor, at: seq<nat>, pos: nat)
    requires pos < Width(|g.txids|, g.up) && NodePairs(g.hp, g.txids, g.up, pos) <= g.pairs
    requires AllUnder(g.hp, g.pairs, NodeHash(g.hp, g.txids, g.up, pos), c, d, g.down)
    requires |at| == |d.matches| - |c.matches| && (g.down == 0 ==> |at| <= 1)
    requires forall i :: 0 <= i < |at| ==> at[i] == pos
    ensures g.Finds(c, d, at, 0, pos)
  {
    hide NodeHash, NodePairs, Width, Under;
    var found := d.matches[|c.matches|..];
    assert forall i :: 0 <= i < |at| ==> found[i] == d.matches[|c.matches| + i];
  }

  lemma SameFound(g: Held, c: Cursor, c': Cursor, d: Cursor, d': Cursor, at: seq<nat>, h: nat, pos: nat)
    requires g.Finds(c, d, at, h, pos) && c.matches == c'.matches && d.matches == d'.matches
    ensures g.Finds(c', d', at, h, pos)
  {}

  /** A clean walk that returns a real node finds real nodes below it, in order. */
  lemma {:induction false} WalkFinds(g: Held, c: Cursor, h: nat, pos: nat) returns (at: seq<nat>)
    requires g.Exists(h, pos) && g.Agrees(c, h, pos) && CollisionFree(g.hp, g.pairs)
    ensures g.Finds(c, g.WalkFrom(c, h, pos).1, at, h, pos)
    decreases h
  {
    hide CollisionFree, Held.Finds, Held.Agrees, Walk, Width;
    if h == 0 || c.bits >= |g.t.bits| || !g.t.bits[c.bits] {
      at := ClosedFinds(g, c, h, pos);
    } else {
      OpenedAgree(g, c, h, pos);
      var c1 := c.(bits := c.bits + 1);
      var c2 := g.WalkFrom(c1, h - 1, 2 * pos).1;
      var d := c2;
      at := WalkFinds(g, c1, h - 1, 2 * pos);
      if 2 * pos + 1 < g.t.widths[h + g.down - 1] {
        var b := WalkFinds(g, c2, h - 1, 2 * pos + 1);
        d := g.WalkFrom(c2, h - 1, 2 * pos + 1).1;
        BothChildren(g, c1, c2, d, at, b, h, pos);
        at := at + b;
      } else {
        OneChild(g, c1, c2, at, h, pos);
      }
      SameFound(g, c1, c, d, g.WalkFrom(c, h, pos).1, at, h, pos);
    }
  }

  /** A proof held against a block by the heights of the two trees: the top of the walk against the
      root of the block. */
  function Against(hp: HashFn, nTransactions: u32, vBits: Bytes, vHash: seq<Uint256>, txids: seq<Uint256>): Held
    requires 1 <= |txids| <= 0x8000_0000
  {
    var claimed, actual := HeightFrom(nTransactions, 0), HeightFrom(|txids|, 0);
    Held(hp, ProofOf(nTransactions, vBits, vHash), txids,
         RunPairs(hp, nTransactions, vBits, vHash) + BlockPairs(hp, txids),
         if actual > claimed then actual - claimed else 0, if claimed > actual then claimed - actual else 0)
  }

  predicate SameHeight(nTransactions: u32, txids: seq<Uint256>)
    requires |txids| <= 0x8000_0000
  {
    HeightFrom(nTransactions, 0) == HeightFrom(|txids|, 0)
  }

  /** Proof soundness. For any count, bits and hashes the peer sends: if a partial tree is accepted
      under a block's Merkle root, what it yields are nodes of the block's tree at strictly
      increasing positions: the row is as far above the leaves as the block's tree is higher than
      the one claimed. If the one claimed is the higher, they lie as far below the block's txids.
      So with the same height they are txids of the block. Only two different pairs among those
      hashed for the block and for this very proof that collide could prevent it. */
  lemma Soundness(hp: HashFn, nTransactions: u32, vBits: Bytes, vHash: seq<Uint256>, txids: seq<Uint256>)
    returns (at: seq<nat>)
    requires 1 <= |txids| <= 0x8000_0000
    requires Accepted(hp, nTransactions, vBits, vHash)
    requires Run(hp, nTransactions, vBits, vHash).0 == RootOf(hp, txids)
    requires CollisionFree(hp, RunPairs(hp, nTransactions, vBits, vHash) + BlockPairs(hp, txids))
    ensures var found := Run(hp, nTransactions, vBits, vHash).1.matches;
      && Against(hp, nTransactions, vBits, vHash, txids).FoundUnder(found, at)
      && (SameHeight(nTransactions, txids) ==> FoundAt(txids, found, at))
  {
    hide Walk, WalkPairs, NodePairs, NodeHash, ProofOf, CollisionFree, HeightFrom;
    var g := Against(hp, nTransactions, vBits, vHash, txids);
    RootIsTraversalTop(hp, txids);
    TopExists(hp, nTransactions, vBits, vHash, txids);
    at := WalkFinds(g, START, HeightFrom(nTransactions, 0) - g.down, 0);
    var m := Run(hp, nTransactions, vBits, vHash).1.matches;
    assert m[0..] == m;
    if SameHeight(nTransactions, txids) { LeavesFound(g, m, at); }
  }

  lemma LeavesFound(g: Held, found: seq<Uint256>, at: seq<nat>)
    requires g.up == 0 && g.down == 0 && g.FoundUnder(found, at)
    ensures FoundAt(g.txids, found, at)
  {
    assert forall i :: 0 <= i < |at| ==> g.Holds(found[i], at[i]);
  }

  /** No txid of the block is the hash of a pair that was hashed. */
  ghost predicate NoTxidIsPair(hp: HashFn, txids: seq<Uint256>, pairs: set<(Uint256, Uint256)>) {
    forall p :: p in pairs ==> hp(p.0, p.1) !in txids
  }

  ghost predicate AllAmong(found: seq<Uint256>, txids: seq<Uint256>) {
    forall i :: 0 <= i < |found| ==> found[i] in txids
  }

  /** Exactly when the matches of an accepted proof are txids of the block: if there are none, or the
      count claimed gives the tree the block's height. A lower tree yields inner nodes, and a higher
      one nothing. */
  lemma MatchesAreTxidsIff(hp: HashFn, nTransactions: u32, vBits: Bytes, vHash: seq<Uint256>, txids: seq<Uint256>)
    requires 1 <= |txids| <= 0x8000_0000
    requires Accepted(hp, nTransactions, vBits, vHash)
    requires Run(hp, nTransactions, vBits, vHash).0 == RootOf(hp, txids)
    requires CollisionFree(hp, RunPairs(hp, nTransactions, vBits, vHash) + BlockPairs(hp, txids))
    requires NoTxidIsPair(hp, txids, RunPairs(hp, nTransactions, vBits, vHash) + BlockPairs(hp, txids))
    ensures var found := Run(hp, nTransactions, vBits, vHash).1.matches;
      && (AllAmong(found, txids) <==> found == [] || SameHeight(nTransactions, txids))
      && (HeightFrom(nTransactions, 0) > HeightFrom(|txids|, 0) ==> found == [])
  {
    hide Run, RunPairs, BlockPairs, CollisionFree, NoTxidIsPair, HeightFrom, NodeHash, NodePairs;
    var found := Run(hp, nTransactions, vBits, vHash).1.matches;
    var g := Against(hp, nTransactions, vBits, vHash, txids);
    var at := Soundness(hp, nTransactions, vBits, vHash, txids);
    if found != [] {
      assert g.Holds(found[0], at[0]);
      if g.up > 0 { InnerNotTxid(g, found[0], at[0]); }
      if g.down > 0 { NothingBelow(g, found[0], at[0]); }
    }
  }

  /** All of this about one proof: where its matches lie, and exactly when they are txids. */
  ghost predicate Proves(hp: HashFn, nTransactions: u32, vBits: Bytes, vHash: seq<Uint256>,
                         txids: seq<Uint256>, at: seq<nat>)
    requires 1 <= |txids| <= 0x8000_0000
  {
    var found := Run(hp, nTransactions, vBits, vHash).1.matches;
    && Against(hp, nTransactions, vBits, vHash, txids).FoundUnder(found, at)
    && (SameHeight(nTransactions, txids) ==> FoundAt(txids, found, at))
    && (NoTxidIsPair(hp, txids, RunPairs(hp, nTransactions, vBits, vHash) + BlockPairs(hp, txids)) ==>
          (AllAmong(found, txids) <==> found == [] || SameHeight(nTransactions, txids)))
  }

  lemma SoundnessProves(hp: HashFn, nTransactions: u32, vBits: Bytes, vHash: seq<Uint256>, txids: seq<Uint256>)
    returns (at: seq<nat>)
    requires 1 <= |txids| <= 0x8000_0000
    requires Accepted(hp, nTransactions, vBits, vHash)
    requires Run(hp, nTransactions, vBits, vHash).0 == RootOf(hp, txids)
    requires CollisionFree(hp, RunPairs(hp, nTransactions, vBits, vHash) + BlockPairs(hp, txids))
    ensures Proves(hp, nTransactions, vBits, vHash, txids, at)
  {
    hide Run, RunPairs, BlockPairs, RootOf, Accepted, CollisionFree, NoTxidIsPair;
    hide Against, AllAmong, FoundAt, SameHeight, Held.FoundUnder;
    at := Soundness(hp, nTransactions, vBits, vHash, txids);
    if NoTxidIsPair(hp, txids, RunPairs(hp, nTransactions, vBits, vHash) + BlockPairs(hp, txids)) {
      MatchesAreTxidsIff(hp, nTransactions, vBits, vHash, txids);
    }
  }

  /** A walk that finds enough hashes takes no notice of more of them. */
  lemma {:induction false} WalkIgnoresMore(hp: HashFn, t: Proof, u: Proof, c: Cursor, h: nat, pos: nat)
    requires h < |t.widths| && u.widths == t.widths && u.bits == t.bits && t.hashes <= u.hashes
    requires !Walk(hp, t, c, h, pos).1.bad
    ensures Walk(hp, u, c, h, pos) == Walk(hp, t, c, h, pos)
    decreases h
  {
    if c.bits < |t.bits| && h > 0 && t.bits[c.bits] {
      var c1 := c.(bits := c.bits + 1);
      var c2 := Walk(hp, t, c1, h - 1, 2 * pos).1;
      WalkGrows(hp, t, c2, h - 1, 2 * pos + 1);
      WalkIgnoresMore(hp, t, u, c1, h - 1, 2 * pos);
      if 2 * pos + 1 < t.widths[h - 1] { WalkIgnoresMore(hp, t, u, c2, h - 1, 2 * pos + 1); }
    }
  }

  /** No hash may be left over: an accepted proof with one more appended is refused. */
  lemma MoreHashesRefused(hp: HashFn, nTransactions: u32, vBits: Bytes, vHash: seq<Uint256>, x: Uint256)
    requires Accepted(hp, nTransactions, vBits, vHash)
    ensures !Accepted(hp, nTransactions, vBits, vHash + [x])
  {
    hide Walk, Unpack, Widths, HeightFrom;
    AcceptedIsClean(hp, nTransactions, vBits, vHash);
    WalkIgnoresMore(hp, ProofOf(nTransactions, vBits, vHash), ProofOf(nTransactions, vBits, vHash + [x]),
                    START, HeightFrom(nTransactions, 0), 0);
  }

  /** What the count leaves open: with the count 1 the root itself is accepted as the one txid,
      whatever block it is the root of, and no pair is hashed at all. */
  lemma RootPassesAlone(hp: HashFn, root: Uint256)
    ensures Accepted(hp, 1, [1], [root]) && RunPairs(hp, 1, [1], [root]) == {}
    ensures Run(hp, 1, [1], [root]) == (root, Cursor(1, 1, false, [root]))
  {
    hide Walk, WalkPairs, Unpack, Widths;
    OneHeight(1);
    FirstBit(1);
    LeafWalk(hp, ProofOf(1, [1], [root]), root);
  }

  lemma OneHeight(n: u32)
    requires n == 1
    ensures HeightFrom(n, 0) == 0
  {
    hide TreeWidth;
    assert TreeWidth(n, 0) == n;
  }

  lemma FirstBit(b: u8)
    requires b % 2 == 1
    ensures Unpack([b])[0]
  {
    BitAt(b, 8, 0);
    DivModUnique(b, 1, b, 0);
  }

  lemma LeafWalk(hp: HashFn, t: Proof, hash: Uint256)
    requires t.widths != [] && t.bits != [] && t.bits[0] && t.hashes == [hash]
    ensures Walk(hp, t, START, 0, 0) == (hash, Cursor(1, 1, false, [hash])) && WalkPairs(hp, t, START, 0, 0) == {}
  {
    assert [] + [hash] == [hash];
    assert TakeHash(t, Cursor(1, 0, false, []), 0, true) == (hash, Cursor(1, 1, false, [hash]));
  }

  /** And it is not one of several txids, unless one of them is the hash of a pair. */
  lemma RootIsNoTxid(hp: HashFn, txids: seq<Uint256>)
    requires 1 < |txids| <= 0x8000_0000 && NoTxidIsPair(hp, txids, BlockPairs(hp, txids))
    ensures RootOf(hp, txids) !in txids
  {
    hide NodeHash, NodePairs, NoTxidIsPair, RootOf, HeightFrom, TreeWidth;
    RootIsTraversalTop(hp, txids);
    var h := HeightFrom(|txids|, 0);
    var g := Held(hp, Proof([], [], []), txids, BlockPairs(hp, txids), h, 0);
    assert h > 0;
    InnerNotTxid(g, RootOf(hp, txids), 0);
  }

  lemma InnerNotTxid(g: Held, x: Uint256, pos: nat)
    requires g.up > 0 && g.down == 0 && g.Holds(x, pos) && NoTxidIsPair(g.hp, g.txids, g.pairs)
    ensures x !in g.txids
  {
    hide NoTxidIsPair;
    LeftChildExists(|g.txids|, g.up, pos);
    if 2 * pos + 1 < Width(|g.txids|, g.up - 1) {
      NodeTwo(g.hp, g.txids, g.up, pos);
      NotATxid(g, (NodeHash(g.hp, g.txids, g.up - 1, 2 * pos), NodeHash(g.hp, g.txids, g.up - 1, 2 * pos + 1)));
    } else {
      NodeOne(g.hp, g.txids, g.up, pos);
      NotATxid(g, (NodeHash(g.hp, g.txids, g.up - 1, 2 * pos), NodeHash(g.hp, g.txids, g.up - 1, 2 * pos)));
    }
  }

  lemma NotATxid(g: Held, p: (Uint256, Uint256))
    requires p in g.pairs && NoTxidIsPair(g.hp, g.txids, g.pairs)
    ensures g.hp(p.0, p.1) !in g.txids
  {}

  lemma NothingBelow(g: Held, x: Uint256, pos: nat)
    requires g.up == 0 && g.down > 0 && NoTxidIsPair(g.hp, g.txids, g.pairs)
    ensures !g.Holds(x, pos)
  {}

  lemma TopExists(hp: HashFn, nTransactions: u32, vBits: Bytes, vHash: seq<Uint256>, txids: seq<Uint256>)
    requires 1 <= |txids| <= 0x8000_0000
    requires Accepted(hp, nTransactions, vBits, vHash)
    requires Run(hp, nTransactions, vBits, vHash).0 == RootOf(hp, txids)
    ensures var g := Against(hp, nTransactions, vBits, vHash, txids);
      g.Starts(HeightFrom(nTransactions, 0) - g.down)
  {
    hide Walk, WalkPairs, NodePairs, NodeHash, RootOf, Width, TreeWidth, HeightFrom, ProofOf, Accepted;
    hide Held.Starts;
    RootIsTraversalTop(hp, txids);
    AcceptedIsClean(hp, nTransactions, vBits, vHash);
    var g := Against(hp, nTransactions, vBits, vHash, txids);
    TopAgrees(g, HeightFrom(nTransactions, 0), HeightFrom(|txids|, 0));
  }

  lemma TopAgrees(g: Held, claimed: nat, actual: nat)
    requires g.up == if actual > claimed then actual - claimed else 0
    requires g.down == if claimed > actual then claimed - actual else 0
    requires claimed < |g.t.widths| && Width(|g.txids|, actual) == 1
    requires !Walk(g.hp, g.t, START, claimed, 0).1.bad
    requires Walk(g.hp, g.t, START, claimed, 0).0 == NodeHash(g.hp, g.txids, actual, 0)
    requires WalkPairs(g.hp, g.t, START, claimed, 0) <= g.pairs
    requires NodePairs(g.hp, g.txids, actual, 0) <= g.pairs
    ensures g.Starts(claimed - g.down)
  {
    hide Walk, WalkPairs, NodePairs, NodeHash, Width;
  }

  lemma AcceptedIsClean(hp: HashFn, nTransactions: u32, vBits: Bytes, vHash: seq<Uint256>)
    requires Accepted(hp, nTransactions, vBits, vHash)
    ensures |ProofOf(nTransactions, vBits, vHash).widths| == 32 && !Run(hp, nTransactions, vBits, vHash).1.bad
  {
    hide Run;
  }

  /** The pairs hashed on the way to the root of a block. */
  function BlockPairs(hp: HashFn, txids: seq<Uint256>): set<(Uint256, Uint256)>
    requires 1 <= |txids| <= 0x8000_0000
  {
    HeightIsTop(|txids|);
    NodePairs(hp, txids, HeightFrom(|txids|, 0), 0)
  }

  /** The rows of the walk are the rows of the real tree. */
  ghost predicate Shaped(t: Proof, n: nat) {
    |t.widths| == 32 && forall k :: 0 <= k < 32 ==> t.widths[k] == Width(n, k)
  }

  lemma ProofIsShaped(n: u32, vBits: Bytes, vHash: seq<Uint256>)
    requires n <= 0x8000_0000
    ensures Shaped(ProofOf(n, vBits, vHash), n)
  {
    forall k | 0 <= k < 32
      ensures Widths(n, 0)[k] == Width(n, k)
    {
      TreeWidthIs(n, k);
      assert Widths(n, 0)[k - 0] == TreeWidth(n, k);
    }
  }

  /** Two lists have the same node at (h, pos), and nothing hashed below it is outside `pairs`. */
  ghost predicate SameNode(hp: HashFn, a: seq<Uint256>, b: seq<Uint256>, h: nat, pos: nat,
                           pairs: set<(Uint256, Uint256)>)
    requires |a| == |b| && pos < Width(|a|, h)
  {
    && NodeHash(hp, a, h, pos) == NodeHash(hp, b, h, pos)
    && NodePairs(hp, a, h, pos) <= pairs && NodePairs(hp, b, h, pos) <= pairs
  }

  lemma SameLeft(hp: HashFn, a: seq<Uint256>, b: seq<Uint256>, h: nat, pos: nat, pairs: set<(Uint256, Uint256)>)
    requires |a| == |b| && h > 0 && pos < Width(|a|, h)
    requires SameNode(hp, a, b, h, pos, pairs) && CollisionFree(hp, pairs)
    ensures 2 * pos < Width(|a|, h - 1) && SameNode(hp, a, b, h - 1, 2 * pos, pairs)
  {
    LeftChildExists(|a|, h, pos);
    if 2 * pos + 1 < Width(|a|, h - 1) {
      SamePairOfNodes(hp, a, b, h, pos, pairs);
      NodeTwo(hp, a, h, pos);
      NodeTwo(hp, b, h, pos);
    } else {
      NodeOne(hp, a, h, pos);
      NodeOne(hp, b, h, pos);
      var l, m := NodeHash(hp, a, h - 1, 2 * pos), NodeHash(hp, b, h - 1, 2 * pos);
      SamePair(hp, pairs, (l, l), (m, m));
    }
  }

  lemma SameRight(hp: HashFn, a: seq<Uint256>, b: seq<Uint256>, h: nat, pos: nat, pairs: set<(Uint256, Uint256)>)
    requires |a| == |b| && h > 0 && pos < Width(|a|, h) && 2 * pos + 1 < Width(|a|, h - 1)
    requires SameNode(hp, a, b, h, pos, pairs) && CollisionFree(hp, pairs)
    ensures SameNode(hp, a, b, h - 1, 2 * pos + 1, pairs)
  {
    SamePairOfNodes(hp, a, b, h, pos, pairs);
    NodeTwo(hp, a, h, pos);
    NodeTwo(hp, b, h, pos);
  }

  lemma SamePairOfNodes(hp: HashFn, a: seq<Uint256>, b: seq<Uint256>, h: nat, pos: nat, pairs: set<(Uint256, Uint256)>)
    requires |a| == |b| && h > 0 && pos < Width(|a|, h) && 2 * pos + 1 < Width(|a|, h - 1)
    requires SameNode(hp, a, b, h, pos, pairs) && CollisionFree(hp, pairs)
    ensures NodeHash(hp, a, h - 1, 2 * pos) == NodeHash(hp, b, h - 1, 2 * pos)
    ensures NodeHash(hp, a, h - 1, 2 * pos + 1) == NodeHash(hp, b, h - 1, 2 * pos + 1)
  {
    var l, r := NodeHash(hp, a, h - 1, 2 * pos), NodeHash(hp, a, h - 1, 2 * pos + 1);
    var m, q := NodeHash(hp, b, h - 1, 2 * pos), NodeHash(hp, b, h - 1, 2 * pos + 1);
    NodeTwo(hp, a, h, pos);
    NodeTwo(hp, b, h, pos);
    SamePair(hp, pairs, (l, r), (m, q));
  }

  lemma {:induction false} SameLeaves(hp: HashFn, a: seq<Uint256>, b: seq<Uint256>, h: nat, pos: nat,
                                      pairs: set<(Uint256, Uint256)>, i: nat)
    requires |a| == |b| && pos < Width(|a|, h)
    requires SameNode(hp, a, b, h, pos, pairs) && CollisionFree(hp, pairs)
    requires FirstLeaf(h, pos) <= i < FirstLeaf(h, pos + 1) && i < |a|
    ensures a[i] == b[i]
    decreases h
  {
    if h > 0 {
      LeafOfChild(h, pos);
      if i < FirstLeaf(h - 1, 2 * pos + 1) {
        SameLeft(hp, a, b, h, pos, pairs);
        SameLeaves(hp, a, b, h - 1, 2 * pos, pairs, i);
      } else {
        LeafHasNode(|a|, h - 1, 2 * pos + 1);
        SameRight(hp, a, b, h, pos, pairs);
        SameLeaves(hp, a, b, h - 1, 2 * pos + 1, pairs, i);
      }
    }
  }

  /** Among blocks of one size the root fixes the list of transactions, unless two of the pairs
      hashed for the two blocks collide. */
  lemma RootBinds(hp: HashFn, a: seq<Uint256>, b: seq<Uint256>)
    requires 1 <= |a| == |b| <= 0x8000_0000
    requires CollisionFree(hp, BlockPairs(hp, a) + BlockPairs(hp, b))
    ensures RootOf(hp, a) == RootOf(hp, b) <==> a == b
  {
    if RootOf(hp, a) == RootOf(hp, b) {
      RootIsTraversalTop(hp, a);
      RootIsTraversalTop(hp, b);
      SameTop(hp, a, b, HeightFrom(|a|, 0), BlockPairs(hp, a) + BlockPairs(hp, b));
    }
  }

  lemma SameTop(hp: HashFn, a: seq<Uint256>, b: seq<Uint256>, h: nat, pairs: set<(Uint256, Uint256)>)
    requires |a| == |b| && Width(|a|, h) == 1
    requires SameNode(hp, a, b, h, 0, pairs) && CollisionFree(hp, pairs)
    ensures a == b
  {
    TopCovers(|a|, h);
    forall i | 0 <= i < |a|
      ensures a[i] == b[i]
    {
      SameLeaves(hp, a, b, h, 0, pairs, i);
    }
  }
}
