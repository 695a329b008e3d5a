/** The other half of BIP-37: the depth-first encoding of a block and a choice of transactions,
    and what the extraction makes of it. */
module MerkleComplete {
  import opened Words
  import opened MerkleTree
  import opened MerkleProof

  /** The flagged txids at positions lo, lo + 1, ... below hi. */
  function Flagged(txids: seq<Uint256>, flags: seq<bool>, lo: nat, hi: nat): seq<Uint256>
    requires |flags| == |txids|
    decreases hi - lo
  {
    if lo >= hi || lo >= |txids| then []
    else (if flags[lo] then [txids[lo]] else []) + Flagged(txids, flags, lo + 1, hi)
  }

  /** The flagged txids under (h, pos). */
  function FlaggedUnder(txids: seq<Uint256>, flags: seq<bool>, h: nat, pos: nat): seq<Uint256>
    requires |flags| == |txids|
  {
    Flagged(txids, flags, FirstLeaf(h, pos), FirstLeaf(h, pos + 1))
  }

  datatype Encoding = Encoding(bits: seq<bool>, hashes: seq<Uint256>)

  /** Depth first: one bit per node visited, set when something below is flagged; a node with a
      clear bit, and every leaf visited, contributes its hash. */
  function Encode(hp: HashFn, txids: seq<Uint256>, flags: seq<bool>, h: nat, pos: nat): (e: Encoding)
    requires |flags| == |txids| && pos < Width(|txids|, h)
    ensures 1 <= |e.hashes| <= |e.bits|
    decreases h
  {
    var parent := FlaggedUnder(txids, flags, h, pos) != [];
    if h == 0 || !parent then Encoding([parent], [NodeHash(hp, txids, h, pos)])
    else
      var left := Encode(hp, txids, flags, h - 1, 2 * pos);
      if 2 * pos + 1 < Width(|txids|, h - 1) then
        var right := Encode(hp, txids, flags, h - 1, 2 * pos + 1);
        Encoding([true] + (left.bits + right.bits), left.hashes + right.hashes)
      else Encoding([true] + left.bits, left.hashes)
  }

  /** The encoding of a whole block. */
  function EncodeBlock(hp: HashFn, txids: seq<Uint256>, flags: seq<bool>): (e: Encoding)
    requires |flags| == |txids| && 1 <= |txids| <= 0x8000_0000
    ensures 1 <= |e.hashes| <= |e.bits|
  {
    HeightIsTop(|txids|);
    Encode(hp, txids, flags, HeightFrom(|txids|, 0), 0)
  }

  // ---- flagged runs ----

  lemma {:induction false} FlaggedSplit(txids: seq<Uint256>, flags: seq<bool>, lo: nat, mid: nat, hi: nat)
    requires |flags| == |txids| && lo <= mid <= hi
    ensures Flagged(txids, flags, lo, hi) == Flagged(txids, flags, lo, mid) + Flagged(txids, flags, mid, hi)
    decreases mid - lo
  {
    if lo < mid && lo < |txids| { FlaggedSplit(txids, flags, lo + 1, mid, hi); }
  }

  /** What is flagged under a node is flagged under its children, left before right. */
  lemma FlaggedOfChildren(txids: seq<Uint256>, flags: seq<bool>, h: nat, pos: nat)
    requires |flags| == |txids| && h > 0
    ensures FlaggedUnder(txids, flags, h, pos)
         == FlaggedUnder(txids, flags, h - 1, 2 * pos) + FlaggedUnder(txids, flags, h - 1, 2 * pos + 1)
    ensures 2 * pos + 1 >= Width(|txids|, h - 1) ==> FlaggedUnder(txids, flags, h - 1, 2 * pos + 1) == []
  {
    LeafOfChild(h, pos);
    FlaggedSplit(txids, flags, FirstLeaf(h, pos), FirstLeaf(h - 1, 2 * pos + 1), FirstLeaf(h, pos + 1));
    if FirstLeaf(h - 1, 2 * pos + 1) < |txids| { LeafHasNode(|txids|, h - 1, 2 * pos + 1); }
  }

  lemma FlaggedLeaf(txids: seq<Uint256>, flags: seq<bool>, pos: nat)
    requires |flags| == |txids| && pos < |txids|
    ensures FlaggedUnder(txids, flags, 0, pos) == if flags[pos] then [txids[pos]] else []
  {
    assert Flagged(txids, flags, pos + 1, pos + 1) == [];
  }

  // ---- reading an encoding back ----

  /** `sub` stands in s at position i. */
  ghost predicate At<T>(s: seq<T>, i: nat, sub: seq<T>) {
    i + |sub| <= |s| && s[i..i + |sub|] == sub
  }

  lemma AtSplit<T>(s: seq<T>, i: nat, a: seq<T>, b: seq<T>)
    requires At(s, i, a + b)
    ensures At(s, i, a) && At(s, i + |a|, b)
  {
    assert (a + b)[..|a|] == a && (a + b)[|a|..] == b;
    assert s[i..i + |a + b|][..|a|] == s[i..i + |a|];
    assert s[i..i + |a + b|][|a|..] == s[i + |a|..i + |a| + |b|];
  }

  lemma AtFirst<T>(s: seq<T>, i: nat, x: T, rest: seq<T>)
    requires At(s, i, [x] + rest)
    ensures i < |s| && s[i] == x && At(s, i + 1, rest)
  {
    AtSplit(s, i, [x], rest);
    assert s[i..i + 1][0] == s[i];
  }

  ghost predicate Distinct(txids: seq<Uint256>) {
    forall i, j :: 0 <= i < j < |txids| ==> txids[i] != txids[j]
  }

  /** Siblings differ: their first leaves are different transactions. */
  lemma SiblingsDiffer(hp: HashFn, txids: seq<Uint256>, h: nat, pos: nat, pairs: set<(Uint256, Uint256)>)
    requires 2 * pos + 1 < Width(|txids|, h)
    requires NodePairs(hp, txids, h, 2 * pos) <= pairs && NodePairs(hp, txids, h, 2 * pos + 1) <= pairs
    requires CollisionFree(hp, pairs) && Distinct(txids)
    ensures NodeHash(hp, txids, h, 2 * pos) != NodeHash(hp, txids, h, 2 * pos + 1)
  {
    hide CollisionFree;
    if NodeHash(hp, txids, h, 2 * pos) == NodeHash(hp, txids, h, 2 * pos + 1) {
      EqualNodes(hp, txids, h, 2 * pos, 2 * pos + 1, pairs);
      LeavesInOrder(h, 2 * pos, 2 * pos + 1);
    }
  }

  /** The cursors of a proof stand at an encoding. */
  ghost predicate Holds(t: Proof, c: Cursor, e: Encoding) {
    At(t.bits, c.bits, e.bits) && At(t.hashes, c.hashes, e.hashes)
  }

  /** The cursors after that encoding has been read and `found` matched in it. */
  function After(c: Cursor, e: Encoding, found: seq<Uint256>): Cursor {
    Cursor(c.bits + |e.bits|, c.hashes + |e.hashes|, c.bad, c.matches + found)
  }

  lemma EncodeTwo(hp: HashFn, txids: seq<Uint256>, flags: seq<bool>, h: nat, pos: nat)
    requires h > 0 && |flags| == |txids| && pos < Width(|txids|, h) && 2 * pos + 1 < Width(|txids|, h - 1)
    requires FlaggedUnder(txids, flags, h, pos) != []
    ensures var left, right := Encode(hp, txids, flags, h - 1, 2 * pos), Encode(hp, txids, flags, h - 1, 2 * pos + 1);
      Encode(hp, txids, flags, h, pos) == Encoding([true] + (left.bits + right.bits), left.hashes + right.hashes)
  {}

  lemma EncodeOne(hp: HashFn, txids: seq<Uint256>, flags: seq<bool>, h: nat, pos: nat)
    requires h > 0 && |flags| == |txids| && pos < Width(|txids|, h) && 2 * pos + 1 >= Width(|txids|, h - 1)
    requires FlaggedUnder(txids, flags, h, pos) != []
    ensures var left := Encode(hp, txids, flags, h - 1, 2 * pos);
      Encode(hp, txids, flags, h, pos) == Encoding([true] + left.bits, left.hashes)
  {}

  /** The walk over (h, pos) from c yields the node, consumes exactly its encoding, matches exactly
      what is flagged, and finds nothing bad. */
  ghost predicate ReadsBack(hp: HashFn, t: Proof, c: Cursor, h: nat, pos: nat, txids: seq<Uint256>, flags: seq<bool>)
    requires h < |t.widths| && |flags| == |txids| && pos < Width(|txids|, h)
  {
    Walk(hp, t, c, h, pos) == (NodeHash(hp, txids, h, pos),
      After(c, Encode(hp, txids, flags, h, pos), FlaggedUnder(txids, flags, h, pos)))
  }

  lemma {:induction false} WalkEncoded(hp: HashFn, t: Proof, c: Cursor, h: nat, pos: nat,
                                       txids: seq<Uint256>, flags: seq<bool>, pairs: set<(Uint256, Uint256)>)
    requires h <= 31 && Shaped(t, |txids|) && |flags| == |txids| && pos < Width(|txids|, h)
    requires Holds(t, c, Encode(hp, txids, flags, h, pos))
    requires NodePairs(hp, txids, h, pos) <= pairs && CollisionFree(hp, pairs) && Distinct(txids)
    ensures ReadsBack(hp, t, c, h, pos, txids, flags)
    decreases h, 1
  {
    hide CollisionFree, Distinct, Holds, ReadsBack;
    if h == 0 || FlaggedUnder(txids, flags, h, pos) == [] {
      GivenEncoded(hp, t, c, h, pos, txids, flags);
    } else if 2 * pos + 1 < Width(|txids|, h - 1) {
      BothEncoded(hp, t, c, h, pos, txids, flags, pairs);
    } else {
      OneEncoded(hp, t, c, h, pos, txids, flags, pairs);
    }
  }

  lemma GivenEncoded(hp: HashFn, t: Proof, c: Cursor, h: nat, pos: nat, txids: seq<Uint256>, flags: seq<bool>)
    requires h < |t.widths| && |flags| == |txids| && pos < Width(|txids|, h)
    requires h == 0 || FlaggedUnder(txids, flags, h, pos) == []
    requires Holds(t, c, Encode(hp, txids, flags, h, pos))
    ensures ReadsBack(hp, t, c, h, pos, txids, flags)
  {
    var found := FlaggedUnder(txids, flags, h, pos);
    AtFirst(t.bits, c.bits, found != [], []);
    AtFirst(t.hashes, c.hashes, NodeHash(hp, txids, h, pos), []);
    if h == 0 { FlaggedLeaf(txids, flags, pos); }
    assert found == [] ==> c.matches == c.matches + found;
  }

  lemma OneEncoded(hp: HashFn, t: Proof, c: Cursor, h: nat, pos: nat,
                   txids: seq<Uint256>, flags: seq<bool>, pairs: set<(Uint256, Uint256)>)
    requires 0 < h <= 31 && Shaped(t, |txids|) && |flags| == |txids| && pos < Width(|txids|, h)
    requires FlaggedUnder(txids, flags, h, pos) != [] && 2 * pos + 1 >= Width(|txids|, h - 1)
    requires Holds(t, c, Encode(hp, txids, flags, h, pos))
    requires NodePairs(hp, txids, h, pos) <= pairs && CollisionFree(hp, pairs) && Distinct(txids)
    ensures ReadsBack(hp, t, c, h, pos, txids, flags)
    decreases h, 0
  {
    hide CollisionFree, Distinct, Walk, Encode, NodeHash, NodePairs, FlaggedUnder, Width, At;
    LeftChildExists(|txids|, h, pos);
    var left := Encode(hp, txids, flags, h - 1, 2 * pos);
    EncodeOne(hp, txids, flags, h, pos);
    AtFirst(t.bits, c.bits, true, left.bits);
    FlaggedOfChildren(txids, flags, h, pos);
    NodeOne(hp, txids, h, pos);
    var c1 := c.(bits := c.bits + 1);
    var found := FlaggedUnder(txids, flags, h - 1, 2 * pos);
    assert FlaggedUnder(txids, flags, h, pos) == found;
    WalkEncoded(hp, t, c1, h - 1, 2 * pos, txids, flags, pairs);
    WalkOne(hp, t, c, h, pos, NodeHash(hp, txids, h - 1, 2 * pos), After(c1, left, found));
  }

  lemma BothEncoded(hp: HashFn, t: Proof, c: Cursor, h: nat, pos: nat,
                    txids: seq<Uint256>, flags: seq<bool>, pairs: set<(Uint256, Uint256)>)
    requires 0 < h <= 31 && Shaped(t, |txids|) && |flags| == |txids| && pos < Width(|txids|, h)
    requires FlaggedUnder(txids, flags, h, pos) != [] && 2 * pos + 1 < Width(|txids|, h - 1)
    requires Holds(t, c, Encode(hp, txids, flags, h, pos))
    requires NodePairs(hp, txids, h, pos) <= pairs && CollisionFree(hp, pairs) && Distinct(txids)
    ensures ReadsBack(hp, t, c, h, pos, txids, flags)
    decreases h, 0
  {
    hide CollisionFree, Distinct, Walk, Encode, NodeHash, NodePairs, FlaggedUnder, Width, At;
    LeftChildExists(|txids|, h, pos);
    var left, right := Encode(hp, txids, flags, h - 1, 2 * pos), Encode(hp, txids, flags, h - 1, 2 * pos + 1);
    EncodeTwo(hp, txids, flags, h, pos);
    AtFirst(t.bits, c.bits, true, left.bits + right.bits);
    AtSplit(t.bits, c.bits + 1, left.bits, right.bits);
    AtSplit(t.hashes, c.hashes, left.hashes, right.hashes);
    FlaggedOfChildren(txids, flags, h, pos);
    NodeTwo(hp, txids, h, pos);
    var f, g := FlaggedUnder(txids, flags, h - 1, 2 * pos), FlaggedUnder(txids, flags, h - 1, 2 * pos + 1);
    var c1 := c.(bits := c.bits + 1);
    var c2 := After(c1, left, f);
    WalkEncoded(hp, t, c1, h - 1, 2 * pos, txids, flags, pairs);
    WalkEncoded(hp, t, c2, h - 1, 2 * pos + 1, txids, flags, pairs);
    SiblingsDiffer(hp, txids, h - 1, pos, pairs);
    WalkTwo(hp, t, c, h, pos, NodeHash(hp, txids, h - 1, 2 * pos), c2,
            NodeHash(hp, txids, h - 1, 2 * pos + 1), After(c2, right, g));
    assert c.matches + f + g == c.matches + (f + g);
  }

  // ---- completeness ----

  /** Proof completeness, of the traversal: for every block of distinct transactions and every
      choice among them, the encoding of that choice walks clean, uses every bit and every hash,
      yields exactly the chosen txids in block order and the block's Merkle root, and fills the
      bytes it is packed into. Only a collision among the block's own pairs could prevent it. */
  lemma Completeness(hp: HashFn, txids: seq<Uint256>, flags: seq<bool>)
    requires |flags| == |txids| && 1 <= |txids| <= 0x8000_0000
    requires Distinct(txids) && CollisionFree(hp, BlockPairs(hp, txids))
    ensures var e := EncodeBlock(hp, txids, flags);
      && Run(hp, |txids|, Pack(e.bits), e.hashes)
         == (RootOf(hp, txids), Cursor(|e.bits|, |e.hashes|, false, Flagged(txids, flags, 0, |txids|)))
      && (|e.bits| + 7) / 8 == |Pack(e.bits)|
  {
    hide CollisionFree, Distinct, Walk, Encode, NodeHash, NodePairs, Flagged, Unpack, Pack;
    hide Widths, HeightFrom, TreeWidth;
    var n := |txids|;
    var h := HeightFrom(n, 0);
    var e := EncodeBlock(hp, txids, flags);
    var t := ProofOf(n, Pack(e.bits), e.hashes);
    RootIsTraversalTop(hp, txids);
    ProofIsShaped(n, Pack(e.bits), e.hashes);
    UnpackPack(e.bits);
    assert At(t.bits, 0, e.bits) && At(t.hashes, 0, e.hashes);
    WalkEncoded(hp, t, START, h, 0, txids, flags, BlockPairs(hp, txids));
    TopCovers(n, h);
    FlaggedPastEnd(txids, flags, FirstLeaf(h, 1));
    var found := Flagged(txids, flags, 0, n);
    assert [] + found == found;
  }

  lemma FlaggedPastEnd(txids: seq<Uint256>, flags: seq<bool>, hi: nat)
    requires |flags| == |txids| <= hi
    ensures Flagged(txids, flags, 0, hi) == Flagged(txids, flags, 0, |txids|)
  {
    FlaggedSplit(txids, flags, 0, |txids|, hi);
  }

  /** ExtractMatches as a whole accepts that encoding exactly when it has at most eight bits: the
      final check divides the byte count of vBits by eight once too often. */
  lemma AcceptedIffEightBits(hp: HashFn, txids: seq<Uint256>, flags: seq<bool>)
    requires |flags| == |txids| && 1 <= |txids| <= 0x8000_0000
    requires Distinct(txids) && CollisionFree(hp, BlockPairs(hp, txids))
    ensures var e := EncodeBlock(hp, txids, flags);
      Accepted(hp, |txids|, Pack(e.bits), e.hashes) <==> |e.bits| <= 8
  {
    hide CollisionFree, Distinct, Run, EncodeBlock, Pack, Flagged, BlockPairs;
    Completeness(hp, txids, flags);
  }

  /** Five transactions, all wanted: eleven bits, and the proof is turned down. */
  lemma FiveMatchesRejected(hp: HashFn, txids: seq<Uint256>)
    requires |txids| == 5 && Distinct(txids) && CollisionFree(hp, BlockPairs(hp, txids))
    ensures var e := EncodeBlock(hp, txids, [true, true, true, true, true]);
      |e.bits| == 11 && !Accepted(hp, 5, Pack(e.bits), e.hashes)
  {
    hide CollisionFree, Distinct, Run, Pack, BlockPairs, Encode, Nodes, Accepted;
    var flags := [true, true, true, true, true];
    FiveHeight();
    AcceptedIffEightBits(hp, txids, flags);
    AllFlagged(hp, txids, flags, 3, 0);
  }

  /** The number of nodes at and below (h, pos). */
  function Nodes(n: nat, h: nat, pos: nat): nat
    decreases h
  {
    if h == 0 then 1
    else 1 + Nodes(n, h - 1, 2 * pos)
         + if 2 * pos + 1 < Width(n, h - 1) then Nodes(n, h - 1, 2 * pos + 1) else 0
  }

  /** With everything flagged every node is visited. */
  lemma {:induction false} AllFlagged(hp: HashFn, txids: seq<Uint256>, flags: seq<bool>, h: nat, pos: nat)
    requires |flags| == |txids| && pos < Width(|txids|, h)
    requires forall i :: 0 <= i < |flags| ==> flags[i]
    ensures |Encode(hp, txids, flags, h, pos).bits| == Nodes(|txids|, h, pos)
    decreases h
  {
    FirstLeafExists(|txids|, h, pos);
    LeavesInOrder(h, pos, pos + 1);
    assert FlaggedUnder(txids, flags, h, pos) != [];
    if h > 0 {
      AllFlagged(hp, txids, flags, h - 1, 2 * pos);
      if 2 * pos + 1 < Width(|txids|, h - 1) { AllFlagged(hp, txids, flags, h - 1, 2 * pos + 1); }
    }
  }

  lemma FiveHeight()
    ensures HeightFrom(5, 0) == 3
    ensures Width(5, 3) == 1 && Nodes(5, 3, 0) == 11
  {
    assert Width(5, 0) == 5;
    assert Width(5, 1) == 3;
    assert Width(5, 2) == 2;
    FiveWidths();
    FiveNodes();
  }

  lemma FiveWidths()
    requires Width(5, 0) == 5 && Width(5, 1) == 3 && Width(5, 2) == 2
    ensures Width(5, 3) == 1 && HeightFrom(5, 0) == 3
  {
    hide TreeWidth;
    assert Width(5, 3) == 1;
    TreeWidthIs(5, 0);
    TreeWidthIs(5, 1);
    TreeWidthIs(5, 2);
    TreeWidthIs(5, 3);
    assert HeightFrom(5, 3) == 3;
    assert HeightFrom(5, 2) == 3;
    assert HeightFrom(5, 1) == 3;
  }

  lemma FiveNodes()
    requires Width(5, 0) == 5 && Width(5, 1) == 3 && Width(5, 2) == 2
    ensures Nodes(5, 3, 0) == 11
  {
    hide Width;
    assert Nodes(5, 1, 0) == 3;
    assert Nodes(5, 1, 1) == 3;
    assert Nodes(5, 1, 2) == 2;
    assert Nodes(5, 2, 0) == 7;
    assert Nodes(5, 2, 1) == 3;
  }
}
