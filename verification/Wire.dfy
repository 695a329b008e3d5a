/** The wire forms of counts, partial Merkle trees and Merkle blocks. */
module Wire {
  import opened Radix
  import opened Words
  import opened MerkleTree
  import opened MerkleProof
  import Header

  // ---- CompactSize ----

  /** A count read at a position, or too few bytes for one; `next` is where the cursor is left. */
  datatype Read = Read(value: u64, next: nat) | Short(next: nat)

  function WriteCompactSize(v: u64): (r: Bytes)
    ensures 1 <= |r| <= 9
  {
    if v < 253 then [v]
    else if v <= 0xFFFF then [253] + LE(v, 2)
    else if v <= 0xFFFF_FFFF then [254] + LE(v, 4)
    else [255] + LE(v, 8)
  }

  /** The value of n <= 8 bytes at p. */
  function ReadLE(s: Bytes, p: nat, n: nat): u64
    requires p + n <= |s| && n <= 8
  {
    Pow256Constants();
    PowMono(B8, n, 8);
    FromLE(s[p..p + n])
  }

  function ReadCompactSize(s: Bytes, p: nat): (r: Read)
    ensures r.Read? ==> p < r.next <= |s|
  {
    if p >= |s| then Short(p)
    else if s[p] < 253 then Read(s[p], p + 1)
    else
      var n := if s[p] == 253 then 2 else if s[p] == 254 then 4 else 8;
      if p + 1 + n > |s| then Short(p + 1) else Read(ReadLE(s, p + 1, n), p + 1 + n)
  }

  /** A count is its byte, or a marker and 2, 4 or 8 bytes: the fewest that hold it. */
  lemma CompactSizeForm(v: u64)
    ensures var r := WriteCompactSize(v);
      && (v < 253 ==> r == [v])
      && (v >= 253 ==>
            && r[0] == (if |r| == 3 then 253 else if |r| == 5 then 254 else 255)
            && FromLE(r[1..]) == v
            && |r| == (if v < 0x1_0000 then 3 else if v < 0x1_0000_0000 then 5 else 9))
  {
    hide LE, FromLE;
    if v >= 253 {
      var n := if v < 0x1_0000 then 2 else if v < 0x1_0000_0000 then 4 else 8;
      assert WriteCompactSize(v)[1..] == LE(v, n);
      Pow256Constants();
      LERoundTrip(v, n);
    }
  }

  /** `part` stands in s at p. */
  ghost predicate Has(s: Bytes, p: nat, part: Bytes) {
    p + |part| <= |s| && s[p..p + |part|] == part
  }

  lemma HasBoth(s: Bytes, p: nat, a: Bytes, b: Bytes)
    ensures Has(s, p, a + b) <==> Has(s, p, a) && Has(s, p + |a|, b)
  {
    if Has(s, p, a + b) {
      assert a == (a + b)[..|a|] == s[p..p + |a|];
      assert b == (a + b)[|a|..] == s[p + |a|..p + |a| + |b|];
    }
    if Has(s, p, a) && Has(s, p + |a|, b) {
      assert s[p..p + |a| + |b|] == s[p..p + |a|] + s[p + |a|..p + |a| + |b|];
    }
  }

  /** A count is read back wherever it was written. */
  lemma CompactSizeRoundTrip(s: Bytes, p: nat, v: u64)
    requires Has(s, p, WriteCompactSize(v))
    ensures ReadCompactSize(s, p) == Read(v, p + |WriteCompactSize(v)|)
  {
    var w := WriteCompactSize(v);
    assert s[p] == s[p..p + |w|][0] == w[0];
    if v >= 253 {
      var n := |w| - 1;
      assert s[p + 1..p + 1 + n] == s[p..p + |w|][1..] == LE(v, n);
      Pow256Constants();
      LERoundTrip(v, n);
    }
  }

  /** What has been read does not depend on what follows. */
  lemma CompactSizeExtends(s: Bytes, x: Bytes, p: nat)
    requires ReadCompactSize(s, p).Read?
    ensures ReadCompactSize(s + x, p) == ReadCompactSize(s, p)
  {
    if s[p] >= 253 {
      var n := if s[p] == 253 then 2 else if s[p] == 254 then 4 else 8;
      assert (s + x)[p + 1..p + 1 + n] == s[p + 1..p + 1 + n];
    }
  }

  // ---- partial Merkle trees ----

  const MAX_COUNT := 0x10_0000

  /** The fields of CLightPartialMerkleTree. */
  datatype Tree = Tree(nTransactions: u32, vBits: Bytes, vHash: seq<Uint256>)

  function Flatten(hs: seq<Uint256>): (r: Bytes)
    ensures |r| == 32 * |hs|
  {
    if hs == [] then [] else hs[0] + Flatten(hs[1..])
  }

  /** n hashes starting at p. */
  function HashesAt(s: Bytes, p: nat, n: nat): (r: seq<Uint256>)
    requires p + 32 * n <= |s|
    ensures |r| == n
    decreases n
  {
    if n == 0 then [] else [s[p..p + 32]] + HashesAt(s, p + 32, n - 1)
  }

  function SerializeTree(t: Tree): Bytes
    requires |t.vHash| < TWO64 && |t.vBits| < TWO64
  {
    LE(t.nTransactions, 4)
    + (WriteCompactSize(|t.vHash|) + (Flatten(t.vHash) + (WriteCompactSize(|t.vBits|) + t.vBits)))
  }

  /** The result of Deserialize: whether it succeeded, the fields it leaves and where it leaves the
      cursor. A failure keeps what had been assigned and read before it. */
  datatype Parsed = Parsed(ok: bool, tree: Tree, next: nat)

  /** CLightPartialMerkleTree::Deserialize, into a tree that holds t before. */
  function ParseTree(t: Tree, s: Bytes, p: nat): Parsed {
    if p + 4 > |s| then Parsed(false, t, p)
    else
      var t1 := t.(nTransactions := ReadU32(s, p));
      var count := ReadCompactSize(s, p + 4);
      if count.Short? || count.value > MAX_COUNT || count.next + 32 * count.value > |s|
      then Parsed(false, t1, count.next)
      else
        var t2 := t1.(vHash := HashesAt(s, count.next, count.value));
        var bytes := ReadCompactSize(s, count.next + 32 * count.value);
        if bytes.Short? || bytes.value > MAX_COUNT || bytes.next + bytes.value > |s|
        then Parsed(false, t2, bytes.next)
        else Parsed(true, t2.(vBits := s[bytes.next..bytes.next + bytes.value]), bytes.next + bytes.value)
  }

  lemma Regroup(a: Bytes, b: Bytes, c: Bytes, d: Bytes, e: Bytes)
    ensures a + b + c + d + e == a + (b + (c + (d + e)))
  {}

  class PartialMerkleTree {
    var nTransactions: u32
    var vBits: Bytes
    var vHash: seq<Uint256>

    constructor ()
      ensures Fields() == Tree(0, [], [])
    {
      nTransactions, vBits, vHash := 0, [], [];
    }

    ghost function Fields(): Tree
      reads this
    {
      Tree(nTransactions, vBits, vHash)
    }

    /** Reads a tree from s at p into this object. */
    method Deserialize(s: Bytes, p: nat) returns (ok: bool, next: nat)
      modifies this
      ensures Parsed(ok, Fields(), next) == ParseTree(old(Fields()), s, p)
    {
      hide ReadCompactSize, HashesAt, ReadU32;
      if p + 4 > |s| { return false, p; }
      nTransactions := ReadU32(s, p);
      var count := ReadCompactSize(s, p + 4);
      if count.Short? || count.value > MAX_COUNT || count.next + 32 * count.value > |s| {
        return false, count.next;
      }
      var q;
      vHash, q := ReadHashes(s, count.next, count.value);
      var bytes := ReadCompactSize(s, q);
      if bytes.Short? || bytes.value > MAX_COUNT || bytes.next + bytes.value > |s| { return false, bytes.next; }
      vBits := s[bytes.next..bytes.next + bytes.value];
      return true, bytes.next + bytes.value;
    }

    /** The loop over the hashes: n of them starting at p. */
    static method ReadHashes(s: Bytes, p: nat, n: nat) returns (hashes: seq<Uint256>, next: nat)
      requires p + 32 * n <= |s|
      ensures hashes == HashesAt(s, p, n) && next == p + 32 * n
    {
      hashes, next := [], p;
      for i := 0 to n
        invariant next == p + 32 * i
        invariant hashes + HashesAt(s, next, n - i) == HashesAt(s, p, n)
      {
        hashes := hashes + [s[next..next + 32]];
        next := next + 32;
      }
    }

    method Serialize() returns (out: Bytes)
      requires |vHash| < TWO64 && |vBits| < TWO64
      ensures out == SerializeTree(Fields())
    {
      out := LE(nTransactions, 4) + WriteCompactSize(|vHash|);
      ghost var head := out;
      for i := 0 to |vHash|
        invariant out + Flatten(vHash[i..]) == head + Flatten(vHash)
      {
        assert vHash[i..][1..] == vHash[i + 1..];
        out := out + vHash[i];
      }
      assert out == head + Flatten(vHash);
      out := out + WriteCompactSize(|vBits|) + vBits;
      Regroup(LE(nTransactions, 4), WriteCompactSize(|vHash|), Flatten(vHash), WriteCompactSize(|vBits|), vBits);
    }

    /** CLightPartialMerkleTree::ExtractMatches on the fields. */
    method ExtractMatches(hp: HashFn) returns (ok: bool, vMatch: seq<Uint256>, root: Uint256)
      ensures ok <==> Accepted(hp, nTransactions, vBits, vHash)
      ensures ok ==> var r := Run(hp, nTransactions, vBits, vHash); root == r.0 && vMatch == r.1.matches
    {
      ok, vMatch, root := MerkleProof.ExtractMatches(hp, nTransactions, vBits, vHash);
    }
  }

  // ---- round trips ----

  lemma {:induction false} HashesOfFlatten(s: Bytes, p: nat, hs: seq<Uint256>)
    requires Has(s, p, Flatten(hs))
    ensures HashesAt(s, p, |hs|) == hs
    decreases |hs|
  {
    if hs != [] {
      HasBoth(s, p, hs[0], Flatten(hs[1..]));
      HashesOfFlatten(s, p + 32, hs[1..]);
    }
  }

  /** Where the four parts of a serialized tree stand. */
  lemma TreeParts(t: Tree, s: Bytes, p: nat)
    requires |t.vHash| < TWO64 && |t.vBits| < TWO64 && Has(s, p, SerializeTree(t))
    ensures var q := p + 4 + |WriteCompactSize(|t.vHash|)|;
      var r := q + 32 * |t.vHash|;
      && Has(s, p, LE(t.nTransactions, 4)) && Has(s, p + 4, WriteCompactSize(|t.vHash|))
      && Has(s, q, Flatten(t.vHash)) && Has(s, r, WriteCompactSize(|t.vBits|))
      && Has(s, r + |WriteCompactSize(|t.vBits|)|, t.vBits)
  {
    hide Has;
    var a, b := LE(t.nTransactions, 4), WriteCompactSize(|t.vHash|);
    var c, d := Flatten(t.vHash), WriteCompactSize(|t.vBits|);
    HasBoth(s, p, a, b + (c + (d + t.vBits)));
    HasBoth(s, p + 4, b, c + (d + t.vBits));
    HasBoth(s, p + 4 + |b|, c, d + t.vBits);
    HasBoth(s, p + 4 + |b| + |c|, d, t.vBits);
  }

  lemma {:induction false} HashStands(s: Bytes, p: nat, hs: seq<Uint256>, i: nat)
    requires Has(s, p, Flatten(hs)) && i < |hs|
    ensures Has(s, p + 32 * i, hs[i])
    decreases i
  {
    HasBoth(s, p, hs[0], Flatten(hs[1..]));
    if i > 0 { HashStands(s, p + 32, hs[1..], i - 1); }
  }

  /** The order on the wire: the number of transactions, the hashes under their count, the bits under
      theirs. */
  lemma TreeLayout(t: Tree, i: nat)
    requires |t.vHash| < TWO64 && |t.vBits| < TWO64 && i < |t.vHash|
    ensures var s, a, b := SerializeTree(t), WriteCompactSize(|t.vHash|), WriteCompactSize(|t.vBits|);
      var q := 4 + |a|;
      var r := q + 32 * |t.vHash|;
      && |s| == r + |b| + |t.vBits| && ReadU32(s, 0) == t.nTransactions
      && Has(s, 4, a) && Has(s, q + 32 * i, t.vHash[i]) && Has(s, r, b) && Has(s, r + |b|, t.vBits)
  {
    hide WriteCompactSize, Flatten, LE, ReadU32;
    var s := SerializeTree(t);
    assert Has(s, 0, s);
    TreeParts(t, s, 0);
    U32RoundTrip(t.nTransactions, s, 0);
    HashStands(s, 4 + |WriteCompactSize(|t.vHash|)|, t.vHash, i);
  }

  /** A serialized tree is read back, from any position and whatever follows, exactly when neither
      count passes 2^20. */
  lemma TreeRoundTrip(t: Tree, before: Tree, s: Bytes, p: nat)
    requires |t.vHash| < TWO64 && |t.vBits| < TWO64 && Has(s, p, SerializeTree(t))
    ensures var r := ParseTree(before, s, p);
      if |t.vHash| <= MAX_COUNT && |t.vBits| <= MAX_COUNT
      then r == Parsed(true, t, p + |SerializeTree(t)|)
      else !r.ok
  {
    hide WriteCompactSize, ReadCompactSize, Flatten, HashesAt, ReadU32, LE;
    TreeParts(t, s, p);
    U32RoundTrip(t.nTransactions, s, p);
    CompactSizeRoundTrip(s, p + 4, |t.vHash|);
    var q := p + 4 + |WriteCompactSize(|t.vHash|)|;
    HashesOfFlatten(s, q, t.vHash);
    CompactSizeRoundTrip(s, q + 32 * |t.vHash|, |t.vBits|);
  }

  lemma {:induction false} HashesExtend(s: Bytes, x: Bytes, p: nat, n: nat)
    requires p + 32 * n <= |s|
    ensures HashesAt(s + x, p, n) == HashesAt(s, p, n)
    decreases n
  {
    if n > 0 {
      assert (s + x)[p..p + 32] == s[p..p + 32];
      HashesExtend(s, x, p + 32, n - 1);
    }
  }

  lemma SlicePrefix(s: Bytes, x: Bytes, i: nat, j: nat)
    requires i <= j <= |s|
    ensures (s + x)[i..j] == s[i..j]
  {}

  lemma TreeExtends(t: Tree, s: Bytes, x: Bytes, p: nat)
    requires ParseTree(t, s, p).ok
    ensures ParseTree(t, s + x, p) == ParseTree(t, s, p)
    ensures ParseTree(t, s, p).next <= |s|
  {
    hide ReadCompactSize, HashesAt;
    assert (s + x)[p..p + 4] == s[p..p + 4];
    CompactSizeExtends(s, x, p + 4);
    var count := ReadCompactSize(s, p + 4);
    HashesExtend(s, x, count.next, count.value);
    CompactSizeExtends(s, x, count.next + 32 * count.value);
    var bytes := ReadCompactSize(s, count.next + 32 * count.value);
    SlicePrefix(s, x, bytes.next, bytes.next + bytes.value);
    assert (s + x)[bytes.next..bytes.next + bytes.value] == s[bytes.next..bytes.next + bytes.value];
  }

  /** A serialized tree cut anywhere is refused. */
  lemma CutTreeRefused(t: Tree, before: Tree, k: nat)
    requires |t.vHash| <= MAX_COUNT && |t.vBits| <= MAX_COUNT && k < |SerializeTree(t)|
    ensures !ParseTree(before, SerializeTree(t)[..k], 0).ok
  {
    hide SerializeTree, ParseTree;
    var s := SerializeTree(t);
    assert Has(s, 0, s);
    TreeRoundTrip(t, before, s, 0);
    assert s[..k] + s[k..] == s;
    if ParseTree(before, s[..k], 0).ok {
      TreeExtends(before, s[..k], s[k..], 0);
    }
  }

  // ---- Merkle blocks ----

  datatype MerkleBlock = MerkleBlock(header: Header.BlockHeader, txn: Tree)

  function SerializeBlock(b: MerkleBlock): Bytes
    requires |b.txn.vHash| < TWO64 && |b.txn.vBits| < TWO64
  {
    Header.Serialize(b.header) + SerializeTree(b.txn)
  }

  /** LightMerkleBlock::Deserialize. */
  function ParseBlock(data: Bytes): (r: (bool, MerkleBlock))
    requires |data| >= Header.HEADER_SIZE
  {
    var r := ParseTree(Tree(0, [], []), data, Header.HEADER_SIZE);
    (r.ok, MerkleBlock(Header.Parse(data), r.tree))
  }

  /** A Merkle block within the count limits comes back from its bytes. */
  lemma BlockRoundTrip(b: MerkleBlock, suffix: Bytes)
    requires |b.txn.vHash| <= MAX_COUNT && |b.txn.vBits| <= MAX_COUNT
    ensures |SerializeBlock(b) + suffix| >= Header.HEADER_SIZE
    ensures ParseBlock(SerializeBlock(b) + suffix) == (true, b)
  {
    hide SerializeTree, ParseTree, Header.Serialize, Header.Parse;
    var s := SerializeBlock(b) + suffix;
    assert s == Header.Serialize(b.header) + (SerializeTree(b.txn) + suffix);
    Header.ParseSerialize(b.header, SerializeTree(b.txn) + suffix);
    assert Has(s, 80, SerializeTree(b.txn));
    TreeRoundTrip(b.txn, Tree(0, [], []), s, 80);
  }

  /** LightMerkleBlock::ExtractMatches: the proof is accepted and its root is the header's. */
  method ExtractBlockMatches(hp: HashFn, b: MerkleBlock) returns (ok: bool, vMatch: seq<Uint256>)
    ensures ok <==> BlockAccepted(hp, b)
    ensures ok ==> vMatch == Run(hp, b.txn.nTransactions, b.txn.vBits, b.txn.vHash).1.matches
  {
    var root;
    ok, vMatch, root := MerkleProof.ExtractMatches(hp, b.txn.nTransactions, b.txn.vBits, b.txn.vHash);
    if ok { ok := root == b.header.hashMerkleRoot; }
  }

  predicate BlockAccepted(hp: HashFn, b: MerkleBlock) {
    && Accepted(hp, b.txn.nTransactions, b.txn.vBits, b.txn.vHash)
    && Run(hp, b.txn.nTransactions, b.txn.vBits, b.txn.vHash).0 == b.header.hashMerkleRoot
  }

  /** A Merkle block that is accepted, whatever count it names, proves its matches to be where
      Soundness says in the block whose root its header carries. */
  lemma BlockSoundness(hp: HashFn, b: MerkleBlock, txids: seq<Uint256>) returns (at: seq<nat>)
    requires 1 <= |txids| <= 0x8000_0000
    requires b.header.hashMerkleRoot == RootOf(hp, txids)
    requires BlockAccepted(hp, b)
    requires CollisionFree(hp, RunPairs(hp, b.txn.nTransactions, b.txn.vBits, b.txn.vHash) + BlockPairs(hp, txids))
    ensures Proves(hp, b.txn.nTransactions, b.txn.vBits, b.txn.vHash, txids, at)
  {
    hide CollisionFree, Run, RunPairs, BlockPairs, Proves;
    at := SoundnessProves(hp, b.txn.nTransactions, b.txn.vBits, b.txn.vHash, txids);
  }

  /** Under every header of a block of several transactions a Merkle block is accepted that yields
      the root as if it were a txid, though no hashes collide and, unless a txid is the hash of a
      pair, the root is none. */
  lemma RootAcceptedAsTxid(hp: HashFn, h: Header.BlockHeader, txids: seq<Uint256>)
    requires 1 < |txids| <= 0x8000_0000 && h.hashMerkleRoot == RootOf(hp, txids)
    ensures var b := MerkleBlock(h, Tree(1, [1], [h.hashMerkleRoot]));
      && BlockAccepted(hp, b)
      && Run(hp, 1, b.txn.vBits, b.txn.vHash).1.matches == [RootOf(hp, txids)]
    ensures NoTxidIsPair(hp, txids, BlockPairs(hp, txids)) ==> RootOf(hp, txids) !in txids
  {
    hide Run, Accepted, RootOf, BlockPairs, NoTxidIsPair;
    RootPassesAlone(hp, h.hashMerkleRoot);
    if NoTxidIsPair(hp, txids, BlockPairs(hp, txids)) { RootIsNoTxid(hp, txids); }
  }
}
