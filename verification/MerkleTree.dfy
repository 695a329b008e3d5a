/** Merkle roots: the level-by-level computation of the source and the top-down tree over
    (height, position) that partial proofs walk, for any hash of a pair. */
module MerkleTree {
  import opened Radix
  import opened Words

  /** HashPair: a hash of the 64 bytes of two hashes. */
  type HashFn = (Uint256, Uint256) -> Uint256

  // ---- level by level ----

  /** One level up; the last hash of an odd level is paired with itself. */
  function Next(hp: HashFn, level: seq<Uint256>): (r: seq<Uint256>)
    ensures |r| == (|level| + 1) / 2
  {
    if level == [] then []
    else if |level| == 1 then [hp(level[0], level[0])]
    else [hp(level[0], level[1])] + Next(hp, level[2..])
  }

  lemma {:induction false} NextAt(hp: HashFn, level: seq<Uint256>, i: nat)
    requires 2 * i < |level|
    ensures i < |Next(hp, level)|
    ensures Next(hp, level)[i] == hp(level[2 * i], if 2 * i + 1 < |level| then level[2 * i + 1] else level[2 * i])
    decreases |level|
  {
    if i > 0 { NextAt(hp, level[2..], i - 1); }
  }

  function RootOf(hp: HashFn, txids: seq<Uint256>): Uint256
    decreases |txids|
  {
    if txids == [] then NULL256
    else if |txids| == 1 then txids[0]
    else RootOf(hp, Next(hp, txids))
  }

  method ComputeMerkleRoot(hp: HashFn, txids: seq<Uint256>) returns (root: Uint256)
    ensures root == RootOf(hp, txids)
  {
    if txids == [] { return NULL256; }
    var level := txids;
    while |level| > 1
      invariant |level| >= 1 && RootOf(hp, level) == RootOf(hp, txids)
      decreases |level|
    {
      level := NextLevel(hp, level);
    }
    return level[0];
  }

  /** The body of the loop above: the level is evened out and its pairs are hashed in order. */
  method NextLevel(hp: HashFn, txids: seq<Uint256>) returns (next: seq<Uint256>)
    requires |txids| > 1
    ensures next == Next(hp, txids)
  {
    var level := txids;
    if |level| % 2 == 1 {
      level := level + [level[|level| - 1]];
    }
    next := [];
    for j := 0 to |level| / 2
      invariant |next| == j
      invariant forall k :: 0 <= k < j ==> next[k] == Next(hp, txids)[k]
    {
      var i := 2 * j;
      NextAt(hp, txids, j);
      next := next + [hp(level[i], level[i + 1])];
    }
  }

  // ---- top down ----

  /** The number of nodes h levels above the leaves. */
  function Width(n: nat, h: nat): nat {
    if h == 0 then n else (Width(n, h - 1) + 1) / 2
  }

  /** TreeWidth, on unsigned int: `(nTransactions + (1u << height) - 1) >> height`. */
  function TreeWidth(n: u32, h: nat): (w: nat)
    requires h <= 31
    ensures h == 31 ==> w <= 1
    ensures h == 0 ==> w == n
  {
    TreeWidthBounds(n, h);
    Lo32(n + Pow2(h) - 1) / Pow2(h)
  }

  lemma TreeWidthBounds(n: u32, h: nat)
    requires h <= 31
    ensures Lo32(n + Pow2(h) - 1) / Pow2(h) >= 0
    ensures h == 31 ==> Lo32(n + Pow2(h) - 1) / Pow2(h) <= 1
    ensures h == 0 ==> Lo32(n + Pow2(h) - 1) / Pow2(h) == n
  {
    hide Pow2;
    Pow2Constants();
    DivBound(Lo32(n + Pow2(h) - 1), Pow2(h));
    if h == 0 {
      Pow2Zero();
      DivModUnique(n, TWO32, 0, n);
      DivModUnique(n, 1, n, 0);
    }
  }

  lemma {:induction false} WidthFormula(n: nat, h: nat)
    ensures Width(n, h) == (n + Pow2(h) - 1) / Pow2(h)
  {
    if h == 0 {
      assert Pow2(0) == 1;
      DivModUnique(n, 1, n, 0);
    } else {
      WidthFormula(n, h - 1);
      var p := Pow2(h - 1);
      DivDiv(n + 2 * p - 1, p, 2);
      DivModDef(n + p - 1, p);
      DivModUnique(n + p - 1 + p, p, (n + p - 1) / p + 1, (n + p - 1) % p);
    }
  }

  /** Up to 2^31 transactions the unsigned arithmetic does not wrap. */
  lemma TreeWidthIs(n: u32, h: nat)
    requires n <= 0x8000_0000 && h <= 31
    ensures TreeWidth(n, h) == Width(n, h)
  {
    WidthFormula(n, h);
    Pow2Constants();
    Pow2Mono(h, 31);
    DivModUnique(n + Pow2(h) - 1, TWO32, 0, n + Pow2(h) - 1);
  }

  /** The first height, from h up, with at most one node. */
  function HeightFrom(n: u32, h: nat): (r: nat)
    requires h <= 31
    ensures h <= r <= 31 && TreeWidth(n, r) <= 1
    ensures forall k :: h <= k < r ==> TreeWidth(n, k) > 1
    decreases 31 - h
  {
    if TreeWidth(n, h) > 1 then HeightFrom(n, h + 1) else h
  }

  method TreeHeight(n: u32) returns (h: nat)
    ensures h == HeightFrom(n, 0)
  {
    h := 0;
    while TreeWidth(n, h) > 1
      invariant 0 <= h <= 31 && HeightFrom(n, h) == HeightFrom(n, 0)
      decreases 31 - h
    {
      h := h + 1;
    }
  }

  /** The hash of the node at (h, pos). */
  function NodeHash(hp: HashFn, txids: seq<Uint256>, h: nat, pos: nat): Uint256
    requires pos < Width(|txids|, h)
    decreases h
  {
    if h == 0 then txids[pos]
    else
      var left := NodeHash(hp, txids, h - 1, 2 * pos);
      if 2 * pos + 1 < Width(|txids|, h - 1)
      then hp(left, NodeHash(hp, txids, h - 1, 2 * pos + 1))
      else hp(left, left)
  }

  lemma {:induction false} WidthOfNext(n: nat, h: nat)
    ensures Width((n + 1) / 2, h) == Width(n, h + 1)
  {
    if h > 0 { WidthOfNext(n, h - 1); }
  }

  /** Dropping the leaf level moves every node one level down. */
  lemma {:induction false} NodeOfNext(hp: HashFn, txids: seq<Uint256>, h: nat, pos: nat)
    requires pos < Width(|txids|, h + 1)
    ensures pos < Width(|Next(hp, txids)|, h)
    ensures NodeHash(hp, txids, h + 1, pos) == NodeHash(hp, Next(hp, txids), h, pos)
    decreases h
  {
    hide Next, NodeHash;
    WidthOfNext(|txids|, h);
    if h == 0 {
      LeafOfNext(hp, txids, pos);
    } else {
      WidthOfNext(|txids|, h - 1);
      NodeOfNext(hp, txids, h - 1, 2 * pos);
      if 2 * pos + 1 < Width(|txids|, h) { NodeOfNext(hp, txids, h - 1, 2 * pos + 1); }
      NodeOfChildren(hp, txids, h + 1, pos);
      NodeOfChildren(hp, Next(hp, txids), h, pos);
    }
  }

  lemma LeafOfNext(hp: HashFn, txids: seq<Uint256>, pos: nat)
    requires pos < Width(|txids|, 1)
    ensures pos < |Next(hp, txids)| && NodeHash(hp, txids, 1, pos) == NodeHash(hp, Next(hp, txids), 0, pos)
  {
    hide Next;
    NextAt(hp, txids, pos);
  }

  lemma NodeOfChildren(hp: HashFn, txids: seq<Uint256>, h: nat, pos: nat)
    requires h > 0 && pos < Width(|txids|, h)
    ensures 2 * pos < Width(|txids|, h - 1)
    ensures NodeHash(hp, txids, h, pos) == hp(NodeHash(hp, txids, h - 1, 2 * pos),
      if 2 * pos + 1 < Width(|txids|, h - 1) then NodeHash(hp, txids, h - 1, 2 * pos + 1)
      else NodeHash(hp, txids, h - 1, 2 * pos))
  {}

  /** A node below the top always has a left child, so `pos * 2` stays inside its level. */
  lemma LeftChildExists(n: nat, h: nat, pos: nat)
    requires h > 0 && pos < Width(n, h)
    ensures 2 * pos < Width(n, h - 1)
  {}

  ghost predicate IsTop(n: nat, h: nat) {
    Width(n, h) == 1 && forall k :: 0 <= k < h ==> Width(n, k) > 1
  }

  lemma HeightIsTop(n: u32)
    requires 1 <= n <= 0x8000_0000
    ensures IsTop(n, HeightFrom(n, 0))
  {
    var h := HeightFrom(n, 0);
    TreeWidthIs(n, h);
    WidthPositive(n, h);
    forall k | 0 <= k < h
      ensures Width(n, k) > 1
    {
      TreeWidthIs(n, k);
    }
  }

  lemma {:induction false} WidthPositive(n: nat, h: nat)
    requires n >= 1
    ensures Width(n, h) >= 1
  {
    if h > 0 { WidthPositive(n, h - 1); }
  }

  /** The level-by-level root is the hash of the single node at the top of the tree. */
  lemma {:induction false} RootIsTopNode(hp: HashFn, txids: seq<Uint256>, h: nat)
    requires IsTop(|txids|, h)
    ensures RootOf(hp, txids) == NodeHash(hp, txids, h, 0)
    decreases h
  {
    if h == 0 {
    } else {
      var up := Next(hp, txids);
      assert Width(|txids|, 0) > 1;
      WidthOfNext(|txids|, h - 1);
      forall k | 0 <= k < h - 1
        ensures Width(|up|, k) > 1
      {
        WidthOfNext(|txids|, k);
        assert Width(|txids|, k + 1) > 1;
      }
      RootIsTopNode(hp, up, h - 1);
      NodeOfNext(hp, txids, h - 1, 0);
    }
  }

  /** ComputeMerkleRoot against the traversal's own notion of height, for every list the
      unsigned width arithmetic covers. */
  lemma RootIsTraversalTop(hp: HashFn, txids: seq<Uint256>)
    requires 1 <= |txids| <= 0x8000_0000
    ensures var h := HeightFrom(|txids|, 0);
      Width(|txids|, h) == 1 && RootOf(hp, txids) == NodeHash(hp, txids, h, 0)
  {
    HeightIsTop(|txids|);
    RootIsTopNode(hp, txids, HeightFrom(|txids|, 0));
  }

  // ---- hashed pairs ----

  /** No two different pairs of this set hash alike. */
  ghost predicate CollisionFree(hp: HashFn, pairs: set<(Uint256, Uint256)>) {
    forall p, q :: p in pairs && q in pairs && hp(p.0, p.1) == hp(q.0, q.1) ==> p == q
  }

  /** The pairs hashed below (h, pos). */
  function NodePairs(hp: HashFn, txids: seq<Uint256>, h: nat, pos: nat): set<(Uint256, Uint256)>
    requires pos < Width(|txids|, h)
    decreases h
  {
    if h == 0 then {}
    else
      var left := NodeHash(hp, txids, h - 1, 2 * pos);
      var below := NodePairs(hp, txids, h - 1, 2 * pos);
      if 2 * pos + 1 < Width(|txids|, h - 1)
      then below + NodePairs(hp, txids, h - 1, 2 * pos + 1)
           + {(left, NodeHash(hp, txids, h - 1, 2 * pos + 1))}
      else below + {(left, left)}
  }

  lemma NodeTwo(hp: HashFn, txids: seq<Uint256>, h: nat, pos: nat)
    requires h > 0 && pos < Width(|txids|, h) && 2 * pos + 1 < Width(|txids|, h - 1)
    ensures var l, r := NodeHash(hp, txids, h - 1, 2 * pos), NodeHash(hp, txids, h - 1, 2 * pos + 1);
      && NodeHash(hp, txids, h, pos) == hp(l, r)
      && (l, r) in NodePairs(hp, txids, h, pos)
    ensures NodePairs(hp, txids, h - 1, 2 * pos) <= NodePairs(hp, txids, h, pos)
    ensures NodePairs(hp, txids, h - 1, 2 * pos + 1) <= NodePairs(hp, txids, h, pos)
  {}

  lemma NodeOne(hp: HashFn, txids: seq<Uint256>, h: nat, pos: nat)
    requires h > 0 && pos < Width(|txids|, h) && 2 * pos + 1 >= Width(|txids|, h - 1)
    ensures var l := NodeHash(hp, txids, h - 1, 2 * pos);
      && NodeHash(hp, txids, h, pos) == hp(l, l)
      && (l, l) in NodePairs(hp, txids, h, pos)
    ensures NodePairs(hp, txids, h - 1, 2 * pos) <= NodePairs(hp, txids, h, pos)
  {}

  /** The first leaf under (h, pos): down the left children. The leaves of the node end where
      those of (h, pos + 1) begin. */
  function FirstLeaf(h: nat, pos: nat): nat
    decreases h
  {
    if h == 0 then pos else FirstLeaf(h - 1, 2 * pos)
  }

  lemma {:induction false} FirstLeafExists(n: nat, h: nat, pos: nat)
    requires pos < Width(n, h)
    ensures FirstLeaf(h, pos) < n
    decreases h
  {
    if h > 0 { FirstLeafExists(n, h - 1, 2 * pos); }
  }

  /** A node whose leaves begin inside the list exists. */
  lemma {:induction false} LeafHasNode(n: nat, h: nat, pos: nat)
    requires FirstLeaf(h, pos) < n
    ensures pos < Width(n, h)
    decreases h
  {
    if h > 0 { LeafHasNode(n, h - 1, 2 * pos); }
  }

  lemma {:induction false} LeavesInOrder(h: nat, p: nat, q: nat)
    requires p < q
    ensures FirstLeaf(h, p) < FirstLeaf(h, q)
    decreases h
  {
    if h > 0 { LeavesInOrder(h - 1, 2 * p, 2 * q); }
  }

  /** The leaves of a node are those of its left child followed by those of its right child. */
  lemma LeafOfChild(h: nat, pos: nat)
    requires h > 0
    ensures FirstLeaf(h, pos) == FirstLeaf(h - 1, 2 * pos) < FirstLeaf(h - 1, 2 * pos + 1)
    ensures FirstLeaf(h - 1, 2 * pos + 1) < FirstLeaf(h - 1, 2 * pos + 2) == FirstLeaf(h, pos + 1)
  {
    LeavesInOrder(h - 1, 2 * pos, 2 * pos + 1);
    LeavesInOrder(h - 1, 2 * pos + 1, 2 * pos + 2);
  }

  lemma {:induction false} FirstLeafZero(h: nat)
    ensures FirstLeaf(h, 0) == 0
  {
    if h > 0 { FirstLeafZero(h - 1); }
  }

  /** The single node at the top covers the whole list. */
  lemma TopCovers(n: nat, h: nat)
    requires Width(n, h) == 1
    ensures FirstLeaf(h, 0) == 0 && n <= FirstLeaf(h, 1)
  {
    FirstLeafZero(h);
    if FirstLeaf(h, 1) < n { LeafHasNode(n, h, 1); }
  }

  /** Equal nodes at one height have equal first leaves. */
  lemma {:induction false} EqualNodes(hp: HashFn, txids: seq<Uint256>, h: nat, p: nat, q: nat,
                                      pairs: set<(Uint256, Uint256)>)
    requires p < Width(|txids|, h) && q < Width(|txids|, h)
    requires NodePairs(hp, txids, h, p) <= pairs && NodePairs(hp, txids, h, q) <= pairs
    requires CollisionFree(hp, pairs)
    requires NodeHash(hp, txids, h, p) == NodeHash(hp, txids, h, q)
    ensures FirstLeaf(h, p) < |txids| && FirstLeaf(h, q) < |txids|
    ensures txids[FirstLeaf(h, p)] == txids[FirstLeaf(h, q)]
    decreases h
  {
    FirstLeafExists(|txids|, h, p);
    FirstLeafExists(|txids|, h, q);
    if h > 0 {
      EqualNodes(hp, txids, h - 1, 2 * p, 2 * q, pairs);
    }
  }
}
