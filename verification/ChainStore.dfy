/** The in-memory header store, with the chain work kept in limbs. */
module ChainStore {
  import Radix
  import opened Words
  import opened Limbs
  import opened Arith256
  import opened Header
  import opened Difficulty
  import opened Median
  import opened Chain

  class ChainStore {
    const hashOf: HashOf
    var byHeight: map<int, BlockHeader>
    var byHash: map<Uint256, int>
    var tipHeight: int
    var chainwork: Uint256
    const chainworkArith: ArithUint256

    /** Both copies of the chain work hold one number. */
    ghost predicate Valid()
      reads this, chainworkArith.words
    {
      chainworkArith.Valid() && Num(chainwork) == chainworkArith.Value()
    }

    ghost function View(): Store
      requires Valid()
      reads this, chainworkArith.words
    {
      Store(byHeight, byHash, tipHeight, chainworkArith.Value())
    }

    constructor (hashOf: HashOf)
      ensures Valid() && View() == EMPTY && this.hashOf == hashOf
      ensures fresh(chainworkArith) && fresh(chainworkArith.words)
    {
      hide Num, Radix.Val;
      this.hashOf := hashOf;
      byHeight, byHash, tipHeight := map[], map[], -1;
      chainworkArith := new ArithUint256(0);
      chainwork := NULL256;
      new;
      NullIsZero();
    }

    method AddHeader(h: BlockHeader, height: int)
      requires Valid()
      modifies this`byHeight, this`byHash, this`tipHeight
      ensures Valid() && View() == WithHeader(old(View()), hashOf, h, height)
    {
      byHeight := byHeight[height := h];
      byHash := byHash[hashOf(h) := height];
      if height > tipHeight {
        tipHeight := height;
      }
    }

    method GetHeaderAtHeight(height: int) returns (found: bool, out: BlockHeader)
      ensures found <==> height in byHeight
      ensures found ==> out == byHeight[height]
    {
      if height in byHeight { return true, byHeight[height]; }
      return false, BlockHeader(0, NULL256, NULL256, 0, 0, 0);
    }

    method GetHeightByHash(hash: Uint256) returns (found: bool, height: int)
      ensures found <==> hash in byHash
      ensures found ==> height == byHash[hash]
    {
      if hash in byHash { return true, byHash[hash]; }
      return false, -1;
    }

    /** GetMedianTimePast: collect, sort, take the middle. */
    method GetMedianTimePast(height: int) returns (median: int)
      requires Valid()
      ensures median == MedianTimePast(View(), height)
    {
      hide Sort, Num, TimesFrom;
      ghost var c := View();
      var times: seq<u32> := [];
      var h := height;
      while h >= 0 && |times| < WINDOW
        invariant |times| <= WINDOW
        invariant times + TimesFrom(c, h, WINDOW - |times|) == TimesFrom(c, height, WINDOW)
        decreases h
      {
        TimesStep(c, h, WINDOW - |times|);
        var found, header := GetHeaderAtHeight(h);
        if !found { break; }
        ghost var below := TimesFrom(c, h - 1, WINDOW - |times| - 1);
        assert TimesFrom(c, h, WINDOW - |times|) == [header.nTime] + below;
        assert times + ([header.nTime] + below) == (times + [header.nTime]) + below;
        times := times + [header.nTime];
        h := h - 1;
      }
      NoMoreTimes(c, h, WINDOW - |times|);
      assert times == TimesFrom(c, height, WINDOW);
      if times == [] { return 0; }
      var sorted := Sort(times);
      return sorted[|times| / 2];
    }

    /** AddWork. */
    method AddWork(nBits: u32)
      requires Valid()
      modifies this`chainwork, chainworkArith.words
      ensures Valid() && View() == WithWork(old(View()), nBits)
    {
      hide BlockWork, CompactTarget, Radix.Val;
      var target := new ArithUint256(0);
      target.SetCompact(nBits);
      var work := WorkOf(target);
      chainworkArith.AddAssign(work);
      chainwork := chainworkArith.ToUint256();
    }

    /** `(~target / (target + 1)) + 1`. */
    static method WorkOf(target: ArithUint256) returns (work: ArithUint256)
      requires target.Valid()
      ensures fresh(work) && fresh(work.words) && work.Valid()
      ensures work.Value() == BlockWork(target.Value())
    {
      hide WorkOver, Two256, Radix.Val;
      var one := new ArithUint256(1);
      var complement := target.Not();
      var next := ArithUint256.Plus(target, one);
      var quotient := ArithUint256.Over(complement, next);
      work := ArithUint256.Plus(quotient, one);
      WorkExpression(Two256(), target.Value());
    }

    method Reset()
      requires Valid()
      modifies this, chainworkArith.words
      ensures Valid() && View() == EMPTY
    {
      hide Num, Radix.Val;
      byHeight, byHash, tipHeight := map[], map[], -1;
      chainwork := NULL256;
      chainworkArith.SetZero();
      NullIsZero();
    }
  }

  lemma NoMoreTimes(c: Store, height: int, n: nat)
    requires n == 0 || height < 0 || height !in c.byHeight
    ensures TimesFrom(c, height, n) == []
  {}

  lemma NullIsZero()
    ensures Num(NULL256) == 0
  {
    hide Radix.Val;
    Radix.ValZeros(B8, NULL256);
  }

  datatype Checkpoint = Checkpoint(height: int, hash: Uint256, chainWork: Uint256)

  /** What CheckCheckpoint asks: enough work, and the expected header at the checkpoint, each only
      if the checkpoint states it. */
  predicate MeetsCheckpoint(c: Store, hashOf: HashOf, cp: Checkpoint) {
    && (cp.chainWork != NULL256 ==> c.work >= Num(cp.chainWork))
    && (cp.hash != NULL256 ==> cp.height in c.byHeight && hashOf(c.byHeight[cp.height]) == cp.hash)
  }

  method CheckCheckpoint(store: ChainStore, cp: Checkpoint) returns (ok: bool)
    requires store.Valid()
    ensures ok <==> MeetsCheckpoint(store.View(), store.hashOf, cp)
  {
    if cp.chainWork != NULL256 {
      var enough := ChainWorkGe(store.chainwork, cp.chainWork);
      if !enough { return false; }
    }
    if cp.hash != NULL256 {
      var found, header := store.GetHeaderAtHeight(cp.height);
      if !found { return false; }
      if store.hashOf(header) != cp.hash { return false; }
    }
    return true;
  }

  /** A store with less work than the checkpoint states fails. */
  lemma TooLittleWorkFails(c: Store, hashOf: HashOf, cp: Checkpoint)
    requires cp.chainWork != NULL256 && c.work < Num(cp.chainWork)
    ensures !MeetsCheckpoint(c, hashOf, cp)
  {}

  /** A store that passes still passes with one more header on top, while the sum of the work stays
      below 2^256. */
  lemma PassesWhenGrown(c: Store, hashOf: HashOf, cp: Checkpoint, h: BlockHeader)
    requires Contiguous(c) && Worked(c) && MeetsCheckpoint(c, hashOf, cp)
    requires TotalWork(Grown(c, hashOf, h), c.tip + 2) < Two256()
    ensures MeetsCheckpoint(Grown(c, hashOf, h), hashOf, cp)
  {
    hide BlockWork, CompactTarget, Num;
    var d := Grown(c, hashOf, h);
    GrownShape(c, hashOf, h);
    WorkKept(c, d, c.tip + 1);
    var t, w := TotalWork(c, c.tip + 1), BlockWork(CompactTarget(h.nBits));
    assert TotalWork(d, c.tip + 2) == t + w;
    Radix.DivModUnique(t, Two256(), 0, t);
    Radix.DivModUnique(t + w, Two256(), 0, t + w);
  }

  /** Two chains that pass the check of one checkpoint hash have the same history below it. */
  lemma CheckpointFixesHistory(c: Store, d: Store, hashOf: HashOf, cp: Checkpoint, k: int)
    requires Contiguous(c) && Contiguous(d) && Linked(c, hashOf) && Linked(d, hashOf)
    requires MeetsCheckpoint(c, hashOf, cp) && MeetsCheckpoint(d, hashOf, cp) && cp.hash != NULL256
    requires NoCollision(c, d, hashOf, cp.height) && 0 <= k <= cp.height
    ensures c.byHeight[k] == d.byHeight[k]
  {
    HashFixesHistory(c, d, hashOf, cp.height, k);
  }
}
