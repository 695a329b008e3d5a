/** The header chain as a value: what the store holds, and the facts every run must keep. */
module Chain {
  import Radix
  import opened Words
  import opened Limbs
  import opened Header
  import opened Difficulty
  import opened Median
  import Asert

  /** GetHash of a header. */
  type HashOf = BlockHeader -> Uint256

  /** The fields of CLightChainStore; `work` is the number in both copies of the chain work. */
  datatype Store = Store(byHeight: map<int, BlockHeader>, byHash: map<Uint256, int>, tip: int, work: nat)

  const EMPTY := Store(map[], map[], -1, 0)

  /** AddHeader. */
  function WithHeader(c: Store, hashOf: HashOf, h: BlockHeader, height: int): Store {
    c.(byHeight := c.byHeight[height := h],
       byHash := c.byHash[hashOf(h) := height],
       tip := if height > c.tip then height else c.tip)
  }

  /** AddWork. */
  function WithWork(c: Store, nBits: u32): Store {
    c.(work := (c.work + BlockWork(CompactTarget(nBits))) % Two256())
  }

  /** The times GetMedianTimePast collects: downward from `height`, at most n of them, as far as
      headers are stored. */
  function TimesFrom(c: Store, height: int, n: nat): (r: seq<u32>)
    ensures |r| <= n
    decreases n
  {
    if n == 0 || height < 0 || height !in c.byHeight then []
    else [c.byHeight[height].nTime] + TimesFrom(c, height - 1, n - 1)
  }

  lemma TimesStep(c: Store, height: int, n: nat)
    requires n > 0
    ensures TimesFrom(c, height, n) ==
      if height < 0 || height !in c.byHeight then []
      else [c.byHeight[height].nTime] + TimesFrom(c, height - 1, n - 1)
  {}

  /** GetMedianTimePast. */
  function MedianTimePast(c: Store, height: int): (m: int)
    ensures 0 <= m < TWO32
  {
    var times := TimesFrom(c, height, WINDOW);
    if times == [] then 0 else UpperMedian(times)
  }

  // ---- invariants ----

  /** Exactly the heights 0..tip are stored. */
  ghost predicate Contiguous(c: Store) {
    c.tip >= -1 && forall k :: k in c.byHeight <==> 0 <= k <= c.tip
  }

  /** Every header names its predecessor. */
  ghost predicate Linked(c: Store, hashOf: HashOf) {
    forall k :: k in c.byHeight && k - 1 in c.byHeight ==> c.byHeight[k].hashPrevBlock == hashOf(c.byHeight[k - 1])
  }

  /** The hash index points at a height that holds that hash, and misses no stored header. */
  ghost predicate Indexed(c: Store, hashOf: HashOf) {
    && (forall x :: x in c.byHash ==> c.byHash[x] in c.byHeight && hashOf(c.byHeight[c.byHash[x]]) == x)
    && (forall k :: k in c.byHeight ==> hashOf(c.byHeight[k]) in c.byHash)
  }

  /** The sum of the work of the first n headers. */
  function TotalWork(c: Store, n: nat): nat {
    if n == 0 then 0
    else TotalWork(c, n - 1) + if n - 1 in c.byHeight then BlockWork(CompactTarget(c.byHeight[n - 1].nBits)) else 0
  }

  ghost predicate Worked(c: Store) {
    c.tip >= -1 && c.work == TotalWork(c, c.tip + 1) % Two256()
  }

  /** The header at height k meets every rule of the new segment; the limit on how far it may lie
      in the future is left to `latest`. */
  ghost predicate Checked(c: Store, hashOf: HashOf, k: int, latest: int) {
    && k in c.byHeight
    && var h := c.byHeight[k];
       && TargetOf(h.nBits).At? && Num(hashOf(h)) <= TargetOf(h.nBits).target
       && h.nTime <= latest
       && h.nVersion >= 4
       && (k - 1 in c.byHeight ==>
             h.nTime > MedianTimePast(c, k - 1) && h.nBits == Asert.NextBits(c.byHeight[k - 1], k - 1))
  }

  /** What every run keeps: above the checkpoint all headers are fully checked. */
  ghost predicate Inv(c: Store, hashOf: HashOf, checkpoint: int, latest: int) {
    && Contiguous(c) && Linked(c, hashOf) && Indexed(c, hashOf) && Worked(c)
    && forall k :: k in c.byHeight && k > checkpoint ==> Checked(c, hashOf, k, latest)
  }

  lemma EmptyInv(hashOf: HashOf, checkpoint: int, latest: int)
    ensures Inv(EMPTY, hashOf, checkpoint, latest)
  {}

  // ---- one header on top ----

  /** Adding at a new height leaves everything below as it was. */
  ghost predicate Extends(c: Store, d: Store) {
    && c.tip <= d.tip
    && forall k :: k in c.byHeight ==> k in d.byHeight && d.byHeight[k] == c.byHeight[k]
  }

  lemma {:induction false} TimesKept(c: Store, d: Store, height: int, n: nat)
    requires Contiguous(c) && Contiguous(d) && Extends(c, d) && height <= c.tip
    ensures TimesFrom(c, height, n) == TimesFrom(d, height, n)
    decreases n
  {
    if n > 0 && height >= 0 { TimesKept(c, d, height - 1, n - 1); }
  }

  lemma MedianKept(c: Store, d: Store, height: int)
    requires Contiguous(c) && Contiguous(d) && Extends(c, d) && height <= c.tip
    ensures MedianTimePast(c, height) == MedianTimePast(d, height)
  {
    TimesKept(c, d, height, WINDOW);
  }

  lemma {:induction false} WorkKept(c: Store, d: Store, n: nat)
    requires Contiguous(c) && Extends(c, d) && n <= c.tip + 1
    ensures TotalWork(c, n) == TotalWork(d, n)
  {
    if n > 0 { WorkKept(c, d, n - 1); }
  }

  /** The store after a header has been accepted at height k. */
  function Put(c: Store, hashOf: HashOf, h: BlockHeader, k: int): Store {
    WithWork(WithHeader(c, hashOf, h, k), h.nBits)
  }

  /** The store after a header has been accepted at height tip + 1. */
  function Grown(c: Store, hashOf: HashOf, h: BlockHeader): Store {
    Put(c, hashOf, h, c.tip + 1)
  }

  lemma GrownShape(c: Store, hashOf: HashOf, h: BlockHeader)
    requires Contiguous(c)
    ensures var d := Grown(c, hashOf, h);
      && d.tip == c.tip + 1 && Contiguous(d) && Extends(c, d) && d.byHeight[d.tip] == h
  {}

  lemma GrownWork(c: Store, hashOf: HashOf, h: BlockHeader)
    requires Contiguous(c) && Worked(c)
    ensures Worked(Grown(c, hashOf, h))
  {
    hide BlockWork, CompactTarget;
    var d := Grown(c, hashOf, h);
    GrownShape(c, hashOf, h);
    WorkKept(c, d, c.tip + 1);
    SumMod(TotalWork(c, c.tip + 1), BlockWork(CompactTarget(h.nBits)), Two256());
  }

  lemma SumMod(a: nat, b: nat, m: nat)
    requires m > 0
    ensures (a % m + b) % m == (a + b) % m
  {
    Radix.DivModDef(a, m);
    Radix.ModAddMultiple(a % m + b, a / m, m);
  }

  lemma GrownIndex(c: Store, hashOf: HashOf, h: BlockHeader)
    requires Contiguous(c) && Indexed(c, hashOf)
    ensures Indexed(Grown(c, hashOf, h), hashOf)
  {}

  lemma GrownLinked(c: Store, hashOf: HashOf, h: BlockHeader)
    requires Contiguous(c) && Linked(c, hashOf)
    requires c.tip in c.byHeight ==> h.hashPrevBlock == hashOf(c.byHeight[c.tip])
    ensures Linked(Grown(c, hashOf, h), hashOf)
  {}

  lemma ShapeOf(c: Store)
    requires Contiguous(c)
    ensures forall k :: k in c.byHeight <==> 0 <= k <= c.tip
  {}

  /** A header with its predecessor below it, checked against the store it is put on, keeps the
      invariant. */
  lemma GrownInv(c: Store, hashOf: HashOf, h: BlockHeader, checkpoint: int, latest: int, newLatest: int)
    requires Inv(c, hashOf, checkpoint, latest) && latest <= newLatest
    requires c.tip >= 0 ==> h.hashPrevBlock == hashOf(c.byHeight[c.tip])
    requires c.tip + 1 > checkpoint ==> Checked(Grown(c, hashOf, h), hashOf, c.tip + 1, newLatest)
    ensures Inv(Grown(c, hashOf, h), hashOf, checkpoint, newLatest)
  {
    hide Checked, Worked, Indexed, Linked, Contiguous, WithHeader, WithWork;
    var d := Grown(c, hashOf, h);
    GrownShape(c, hashOf, h);
    GrownWork(c, hashOf, h);
    GrownIndex(c, hashOf, h);
    GrownLinked(c, hashOf, h);
    ShapeOf(c);
    ShapeOf(d);
    forall k | k in d.byHeight && k > checkpoint
      ensures Checked(d, hashOf, k, newLatest)
    {
      if k <= c.tip { CheckedKept(c, d, hashOf, k, latest, newLatest); }
    }
  }

  lemma CheckedKept(c: Store, d: Store, hashOf: HashOf, k: int, latest: int, newLatest: int)
    requires Contiguous(c) && Contiguous(d) && Extends(c, d) && latest <= newLatest
    requires Checked(c, hashOf, k, latest)
    ensures Checked(d, hashOf, k, newLatest)
  {
    hide MedianTimePast, TargetOf, Asert.NextBits;
    if k > 0 { MedianKept(c, d, k - 1); }
  }

  // ---- one header at a height that is already stored ----

  function WorkAt(c: Store, k: int): nat
    requires k in c.byHeight
  {
    BlockWork(CompactTarget(c.byHeight[k].nBits))
  }

  lemma {:induction false} RewrittenTotal(c: Store, hashOf: HashOf, h: BlockHeader, k: nat, n: nat)
    requires Contiguous(c) && k <= c.tip && n <= c.tip + 1
    ensures var d := Put(c, hashOf, h, k);
      k in d.byHeight && TotalWork(d, n) == TotalWork(c, n) + if n <= k then 0 else WorkAt(d, k) - WorkAt(c, k)
  {
    hide BlockWork, CompactTarget;
    if n > 0 { RewrittenTotal(c, hashOf, h, k, n - 1); }
  }

  lemma ShiftMod(x: nat, w: nat, m: nat)
    requires w < m
    ensures (x + w) % m == x % m <==> w == 0
  {
    Radix.DivModDef(x, m);
    var q, r := x / m, x % m;
    if r + w < m {
      Radix.DivModUnique(x + w, m, q, r + w);
    } else {
      assert (q + 1) * m == q * m + m;
      Radix.DivModUnique(x + w, m, q + 1, r + w - m);
    }
  }

  /** The work of a replaced header is never taken back: the total stays the sum of the stored
      headers' work exactly when the replaced header had none. */
  lemma RewriteKeepsWorkIff(c: Store, hashOf: HashOf, h: BlockHeader, k: nat)
    requires Contiguous(c) && Worked(c) && k <= c.tip
    ensures Worked(Put(c, hashOf, h, k)) <==> WorkAt(c, k) == 0
  {
    hide BlockWork, CompactTarget;
    var d := Put(c, hashOf, h, k);
    var was, now, total := WorkAt(c, k), WorkAt(d, k), TotalWork(c, c.tip + 1);
    RewrittenTotal(c, hashOf, h, k, c.tip + 1);
    SumMod(total, now, Two256());
    ShiftMod(total + now - was, was, Two256());
  }

  /** Nor is the hash of a replaced header: the index stays sound exactly when the new header hashes
      alike, or the index did not point at this height for it. */
  lemma RewriteKeepsIndexIff(c: Store, hashOf: HashOf, h: BlockHeader, k: nat)
    requires Contiguous(c) && Indexed(c, hashOf) && k <= c.tip
    ensures var x := hashOf(c.byHeight[k]);
      Indexed(Put(c, hashOf, h, k), hashOf) <==> hashOf(h) == x || c.byHash[x] != k
  {
    var d, x := Put(c, hashOf, h, k), hashOf(c.byHeight[k]);
    if hashOf(h) != x && c.byHash[x] == k {
      assert x in d.byHash && d.byHash[x] == k;
    } else {
      forall y | y in d.byHash
        ensures d.byHash[y] in d.byHeight && hashOf(d.byHeight[d.byHash[y]]) == y
      {}
      forall j | j in d.byHeight
        ensures hashOf(d.byHeight[j]) in d.byHash
      {}
    }
  }

  /** And the links hold exactly when the new header names the one below, and the one above, if there
      is one, names the new header. */
  lemma RewriteKeepsLinksIff(c: Store, hashOf: HashOf, h: BlockHeader, k: nat)
    requires Contiguous(c) && Linked(c, hashOf) && k <= c.tip
    ensures Linked(Put(c, hashOf, h, k), hashOf) <==>
      && (k > 0 ==> h.hashPrevBlock == hashOf(c.byHeight[k - 1]))
      && (k < c.tip ==> c.byHeight[k + 1].hashPrevBlock == hashOf(h))
  {
    var d := Put(c, hashOf, h, k);
    assert k in d.byHeight && d.byHeight[k] == h;
    assert k > 0 ==> k - 1 in d.byHeight && d.byHeight[k - 1] == c.byHeight[k - 1];
    assert k < c.tip ==> k + 1 in d.byHeight && d.byHeight[k + 1] == c.byHeight[k + 1] && k + 1 - 1 == k;
  }

  // ---- consequences of the invariant ----

  lemma {:induction false} TimesAreWindow(c: Store, height: int, n: nat)
    requires Contiguous(c) && 0 <= height <= c.tip
    ensures |TimesFrom(c, height, n)| == if n <= height + 1 then n else height + 1
    decreases n
  {
    if n > 0 && height > 0 { TimesAreWindow(c, height - 1, n - 1); }
  }

  lemma {:induction false} TimesPrefix(c: Store, height: int, n: nat)
    requires n > 0
    ensures TimesFrom(c, height, n - 1)
         == if |TimesFrom(c, height, n)| < n then TimesFrom(c, height, n) else TimesFrom(c, height, n)[..n - 1]
    decreases n
  {
    if n > 1 && height >= 0 && height in c.byHeight { TimesPrefix(c, height - 1, n - 1); }
  }

  /** The headers at heights lo..hi whose time is before m. */
  ghost function Earlier(c: Store, lo: int, hi: int, m: int): set<int> {
    set k | lo <= k <= hi && k in c.byHeight && c.byHeight[k].nTime < m
  }

  lemma {:induction false} BelowIsEarlier(c: Store, height: int, n: nat, m: int)
    requires Contiguous(c) && -1 <= height <= c.tip && n <= height + 1
    ensures Below(TimesFrom(c, height, n), m) == |Earlier(c, height - n + 1, height, m)|
    decreases n
  {
    if n == 0 {
      assert Earlier(c, height + 1, height, m) == {};
    } else {
      BelowIsEarlier(c, height - 1, n - 1, m);
      var rest := Earlier(c, height - n + 1, height - 1, m);
      assert Earlier(c, height - n + 1, height, m)
          == if c.byHeight[height].nTime < m then rest + {height} else rest;
      assert TimesFrom(c, height, n)[1..] == TimesFrom(c, height - 1, n - 1);
    }
  }

  /** Median time past is the upper median of the block times at a height and the ten below, as far as
      there are: it is at least m if and only if at most half of those are before m. */
  lemma MedianTimePastIff(c: Store, height: int, m: int)
    requires Contiguous(c) && 0 <= height <= c.tip
    ensures var n := if height + 1 < 11 then height + 1 else 11;
      MedianTimePast(c, height) >= m
      <==> |set k | height - n < k <= height && k in c.byHeight && c.byHeight[k].nTime < m| <= n / 2
  {
    hide Below, UpperMedian, TimesFrom;
    var n := if height + 1 < 11 then height + 1 else 11;
    TimesAreWindow(c, height, WINDOW);
    SameWindow(c, height);
    MedianAtLeast(TimesFrom(c, height, WINDOW), m);
    BelowIsEarlier(c, height, n, m);
    assert Earlier(c, height - n + 1, height, m)
        == set k | height - n < k <= height && k in c.byHeight && c.byHeight[k].nTime < m;
  }

  lemma SameWindow(c: Store, height: int)
    requires Contiguous(c) && 0 <= height <= c.tip
    ensures var n := if height + 1 < 11 then height + 1 else 11;
      TimesFrom(c, height, WINDOW) == TimesFrom(c, height, n)
  {
    if height + 1 < WINDOW { ShortWindow(c, height, height + 1, WINDOW); }
  }

  lemma {:induction false} ShortWindow(c: Store, height: int, n: nat, w: nat)
    requires Contiguous(c) && -1 <= height <= c.tip && height + 1 == n <= w
    ensures TimesFrom(c, height, w) == TimesFrom(c, height, n)
    decreases n
  {
    if n > 0 { ShortWindow(c, height - 1, n - 1, w - 1); }
  }

  /** One block up, the window slides by that block's time. */
  lemma WindowSlides(c: Store, height: int)
    requires Contiguous(c) && 0 <= height < c.tip
    ensures TimesFrom(c, height + 1, WINDOW) == Slide(TimesFrom(c, height, WINDOW), c.byHeight[height + 1].nTime)
  {
    TimesPrefix(c, height, WINDOW);
  }

  lemma InvIsContiguous(c: Store, hashOf: HashOf, checkpoint: int, latest: int)
    requires Inv(c, hashOf, checkpoint, latest)
    ensures Contiguous(c)
  {}

  lemma LaterThanMedian(c: Store, hashOf: HashOf, checkpoint: int, latest: int, k: int)
    requires Inv(c, hashOf, checkpoint, latest) && 0 < k <= c.tip && k > checkpoint
    ensures k in c.byHeight && c.byHeight[k].nTime > MedianTimePast(c, k - 1)
  {
    hide MedianTimePast, TargetOf, Asert.NextBits, Num, Worked, Indexed, Linked;
    assert Checked(c, hashOf, k, latest);
  }

  /** Median time past never goes backwards above the checkpoint, along any chain a run can leave. */
  lemma {:induction false} MedianNeverFalls(c: Store, hashOf: HashOf, checkpoint: int, latest: int, a: int, b: int)
    requires Inv(c, hashOf, checkpoint, latest) && 0 <= a && checkpoint <= a <= b <= c.tip
    ensures MedianTimePast(c, a) <= MedianTimePast(c, b)
    decreases b - a
  {
    hide Inv, UpperMedian, TimesFrom;
    assert Contiguous(c) by { InvIsContiguous(c, hashOf, checkpoint, latest); }
    if a < b {
      MedianNeverFalls(c, hashOf, checkpoint, latest, a, b - 1);
      LaterThanMedian(c, hashOf, checkpoint, latest, b);
      TimesAreWindow(c, b - 1, WINDOW);
      WindowSlides(c, b - 1);
      SlideKeepsMedian(TimesFrom(c, b - 1, WINDOW), c.byHeight[b].nTime);
    }
  }

  /** Chain work is the exact sum of the headers' work while that stays below 2^256, and a header
      with a target adds to it. */
  lemma WorkGrows(c: Store, hashOf: HashOf, h: BlockHeader)
    requires Contiguous(c) && Worked(c)
    requires CompactTarget(h.nBits) >= 1
    requires TotalWork(Grown(c, hashOf, h), c.tip + 2) < Two256()
    ensures c.work == TotalWork(c, c.tip + 1)
    ensures Grown(c, hashOf, h).work == TotalWork(Grown(c, hashOf, h), c.tip + 2) > c.work
  {
    hide BlockWork, CompactTarget;
    var d := Grown(c, hashOf, h);
    GrownShape(c, hashOf, h);
    GrownWork(c, hashOf, h);
    WorkKept(c, d, c.tip + 1);
    TargetHasWork(CompactTarget(h.nBits));
    Radix.DivModUnique(d.work, Two256(), 0, d.work);
    var t, u := TotalWork(c, c.tip + 1), TotalWork(d, c.tip + 2);
    Radix.DivModUnique(t, Two256(), 0, t);
    Radix.DivModUnique(u, Two256(), 0, u);
  }

  /** Two headers of the two chains, at heights up to n, never hash alike unless they are equal. */
  ghost predicate NoCollision(c: Store, d: Store, hashOf: HashOf, n: int) {
    forall j, k :: (j in c.byHeight && k in d.byHeight && j <= n && k <= n
                    && hashOf(c.byHeight[j]) == hashOf(d.byHeight[k])) ==>
      c.byHeight[j] == d.byHeight[k]
  }

  /** Links carry a hash down: chains with the same hash at height n are the same up to n. */
  lemma {:induction false} HashFixesHistory(c: Store, d: Store, hashOf: HashOf, n: int, k: int)
    requires Contiguous(c) && Contiguous(d) && Linked(c, hashOf) && Linked(d, hashOf)
    requires 0 <= k <= n && n <= c.tip && n <= d.tip
    requires hashOf(c.byHeight[n]) == hashOf(d.byHeight[n]) && NoCollision(c, d, hashOf, n)
    ensures c.byHeight[k] == d.byHeight[k]
    decreases n - k
  {
    if k < n { HashFixesHistory(c, d, hashOf, n, k + 1); }
  }
}
