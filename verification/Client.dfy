/** The parts together, with the client's own hash functions: headers from peers, then Merkle blocks
    against the chain they built. */
module Client {
  import opened Words
  import opened Header
  import opened Chain
  import opened MerkleTree
  import opened MerkleProof
  import Sha256
  import Sync
  import Wire

  /** GetHash of a header. */
  function GetHash(h: BlockHeader): Uint256 {
    Sha256.Sha256d(Serialize(h))
  }

  function HashPair(a: Uint256, b: Uint256): Uint256 { Sha256.HashPair(a, b) }

  /** The pairs hashed for a block and for a proof under it. */
  function PairsOf(b: Wire.MerkleBlock, txids: seq<Uint256>): set<(Uint256, Uint256)>
    requires 1 <= |txids| <= 0x8000_0000
  {
    RunPairs(HashPair, b.txn.nTransactions, b.txn.vBits, b.txn.vHash) + BlockPairs(HashPair, txids)
  }

  /** No stored header other than h itself hashes like h. */
  ghost predicate NoTwin(c: Store, h: BlockHeader) {
    forall k :: k in c.byHeight && GetHash(c.byHeight[k]) == GetHash(h) ==> c.byHeight[k] == h
  }

  /** What the client may conclude from peers: after any sequence of header syncs from an empty
      store, with any peers, a Merkle block that is accepted and whose header hash the index knows
      carries a header of the linked, fully checked, work-summed chain, and what it yields are nodes
      of that block's tree, in order: its txids, if the count it names gives the tree its height.
      Only a collision among the hashes that were actually computed could prevent it. The client
      does not know the count, so it cannot tell a txid from an inner node. */
  lemma AcceptedProofIsOnChain(checkpoint: int, calls: seq<Sync.Call>, latest: int, c: Store,
                               b: Wire.MerkleBlock, txids: seq<Uint256>) returns (at: seq<nat>)
    requires forall i :: 0 <= i < |calls| ==> Sync.LatestTime(calls[i].now) <= latest
    requires c == Sync.RunCalls(GetHash, checkpoint, EMPTY, calls)
    requires Wire.BlockAccepted(HashPair, b) && GetHash(b.header) in c.byHash
    requires 1 <= |txids| <= 0x8000_0000
    requires RootOf(HashPair, txids) == b.header.hashMerkleRoot
    requires NoTwin(c, b.header) && CollisionFree(HashPair, PairsOf(b, txids))
    ensures Inv(c, GetHash, checkpoint, latest)
    ensures var k := c.byHash[GetHash(b.header)]; 0 <= k <= c.tip && c.byHeight[k] == b.header
    ensures Proves(HashPair, b.txn.nTransactions, b.txn.vBits, b.txn.vHash, txids, at)
  {
    hide Run, RunPairs, BlockPairs, CollisionFree, Proves, Wire.BlockAccepted, Sync.RunCalls, GetHash;
    hide Linked, Worked, Checked;
    Sync.RunIsSound(GetHash, checkpoint, calls, latest);
    at := Wire.BlockSoundness(HashPair, b, txids);
  }
}
