/** Transactions and Merkle proofs that wait for their other half. */
module PendingTx {
  import opened Words
  import opened Wrappers

  const MAX_PENDING := 4096
  const PAIR_TIMEOUT_MS := 30000
  const MAX_RETRY := 3

  datatype Entry = Entry(
    txid: Uint256,
    hasTx: bool,
    hasMerkle: bool,
    height: int,
    blockHash: Uint256,
    firstSeen: int,
    retryCount: int)

  /** m_map and m_fifo. */
  datatype State = State(entries: map<Uint256, Entry>, fifo: seq<Uint256>)

  const EMPTY := State(map[], [])

  // ---- the operations on the state ----

  /** The queue without the first occurrence of x. */
  function Without(fifo: seq<Uint256>, x: Uint256): (r: seq<Uint256>)
    ensures |r| == if x in fifo then |fifo| - 1 else |fifo|
  {
    if fifo == [] then []
    else if fifo[0] == x then fifo[1..]
    else [fifo[0]] + Without(fifo[1..], x)
  }

  lemma WithoutStep(fifo: seq<Uint256>, i: nat, x: Uint256)
    requires i < |fifo| && Without(fifo, x) == fifo[..i] + Without(fifo[i..], x)
    ensures fifo[i] == x ==> Without(fifo, x) == fifo[..i] + fifo[i + 1..]
    ensures fifo[i] != x ==> Without(fifo, x) == fifo[..i + 1] + Without(fifo[i + 1..], x)
  {
    var tail := fifo[i..];
    assert tail[0] == fifo[i] && tail[1..] == fifo[i + 1..];
    if fifo[i] != x {
      var rest := Without(tail[1..], x);
      assert Without(tail, x) == [fifo[i]] + rest;
      assert fifo[..i] + ([fifo[i]] + rest) == (fifo[..i] + [fifo[i]]) + rest;
      assert fifo[..i] + [fifo[i]] == fifo[..i + 1];
    }
  }

  function Erase(s: State, txid: Uint256): State {
    State(s.entries - {txid}, Without(s.fifo, txid))
  }

  /** One eviction: the front entry is erased, queue place and all, and then the new front loses
      its place in the queue while its entry stays. */
  function Evict(s: State): State
    requires |s.fifo| >= 2
  {
    State(s.entries - {s.fifo[0]}, s.fifo[2..])
  }

  /** Whether an operation that adds an entry makes the map overflow. */
  predicate Overflows(s: State, txid: Uint256) {
    txid !in s.entries && |s.entries| >= MAX_PENDING
  }

  /** Whether the operation is defined: an eviction reads two queue places, one of which may be the
      new entry's own. */
  predicate Defined(s: State, txid: Uint256) {
    Overflows(s, txid) ==> |s.fifo| >= 1
  }

  function Insert(s: State, e: Entry): State
    requires e.txid !in s.entries && Defined(s, e.txid)
  {
    var t := State(s.entries[e.txid := e], s.fifo + [e.txid]);
    if Overflows(s, e.txid) then Evict(t) else t
  }

  function AddTx(s: State, txid: Uint256, now: int): State
    requires Defined(s, txid)
  {
    if txid in s.entries then s.(entries := s.entries[txid := s.entries[txid].(hasTx := true)])
    else Insert(s, Entry(txid, true, false, -1, NULL256, now, 0))
  }

  function AddMerkle(s: State, txid: Uint256, height: int, blockHash: Uint256, now: int): State
    requires Defined(s, txid)
  {
    if txid in s.entries then
      s.(entries := s.entries[txid := s.entries[txid].(hasMerkle := true, height := height, blockHash := blockHash)])
    else Insert(s, Entry(txid, false, true, height, blockHash, now, 0))
  }

  /** The pair for txid, if both halves are there. */
  function Paired(s: State, txid: Uint256): Option<Entry> {
    if txid in s.entries && s.entries[txid].hasTx && s.entries[txid].hasMerkle then Some(s.entries[txid]) else None
  }

  function TryPair(s: State, txid: Uint256): State {
    if Paired(s, txid).Some? then Erase(s, txid) else s
  }

  /** An unpaired entry that has waited long enough. */
  predicate Due(e: Entry, now: int) {
    !(e.hasTx && e.hasMerkle) && now - e.firstSeen >= PAIR_TIMEOUT_MS
  }

  predicate DueIn(s: State, txid: Uint256, now: int) {
    txid in s.entries && Due(s.entries[txid], now)
  }

  predicate Dropped(s: State, txid: Uint256, now: int) {
    DueIn(s, txid, now) && s.entries[txid].retryCount + 1 >= MAX_RETRY
  }

  predicate Retried(s: State, txid: Uint256, now: int) {
    DueIn(s, txid, now) && s.entries[txid].retryCount + 1 < MAX_RETRY
  }

  /** The queue without what a timeout drops. */
  function Kept(s: State, fifo: seq<Uint256>, now: int): seq<Uint256> {
    if fifo == [] then []
    else (if Dropped(s, fifo[0], now) then [] else [fifo[0]]) + Kept(s, fifo[1..], now)
  }

  function Aged(e: Entry, now: int): Entry {
    if Due(e, now) then e.(retryCount := e.retryCount + 1) else e
  }

  /** Expire: every due entry is one retry older, and gone with its third. */
  function Expire(s: State, now: int): State {
    State(map k | k in s.entries && !Dropped(s, k, now) :: Aged(s.entries[k], now), Kept(s, s.fifo, now))
  }

  /** The entries queued for another request, in the order the map is walked. */
  function ToRetry(s: State, now: int, order: seq<Uint256>): seq<Uint256> {
    if order == [] then []
    else (if Retried(s, order[0], now) then [order[0]] else []) + ToRetry(s, now, order[1..])
  }

  // ---- Expire, one entry at a time ----

  function DueOf(s: State, now: int, order: seq<Uint256>): seq<Uint256> {
    if order == [] then []
    else (if DueIn(s, order[0], now) then [order[0]] else []) + DueOf(s, now, order[1..])
  }

  function KeptSome(s: State, fifo: seq<Uint256>, now: int, done: seq<Uint256>): seq<Uint256> {
    if fifo == [] then []
    else (if fifo[0] in done && Dropped(s, fifo[0], now) then [] else [fifo[0]]) + KeptSome(s, fifo[1..], now, done)
  }

  /** The state once the due entries in `done` have been dealt with. */
  function ExpireSome(s: State, now: int, done: seq<Uint256>): State {
    State(map k | k in s.entries && !(k in done && Dropped(s, k, now)) ::
            if k in done then Aged(s.entries[k], now) else s.entries[k],
          KeptSome(s, s.fifo, now, done))
  }

  lemma {:induction false} DueSnoc(s: State, now: int, order: seq<Uint256>, x: Uint256)
    ensures DueOf(s, now, order + [x]) == DueOf(s, now, order) + if DueIn(s, x, now) then [x] else []
  {
    if order != [] {
      assert (order + [x])[1..] == order[1..] + [x];
      DueSnoc(s, now, order[1..], x);
    }
  }

  lemma {:induction false} DueMember(s: State, now: int, order: seq<Uint256>)
    ensures forall x :: x in DueOf(s, now, order) <==> x in order && DueIn(s, x, now)
  {
    if order != [] {
      DueMember(s, now, order[1..]);
      assert order == [order[0]] + order[1..];
    }
  }

  lemma {:induction false} DueDistinct(s: State, now: int, order: seq<Uint256>)
    requires Distinct(order)
    ensures Distinct(DueOf(s, now, order))
  {
    if order != [] {
      DueDistinct(s, now, order[1..]);
      DueMember(s, now, order[1..]);
      var r := DueOf(s, now, order[1..]);
      forall i | 0 <= i < |r|
        ensures r[i] != order[0]
      {
        assert r[i] in r;
      }
    }
  }

  lemma {:induction false} NothingKept(s: State, now: int)
    ensures ExpireSome(s, now, []) == s
  {
    KeptNone(s, s.fifo, now);
    assert ExpireSome(s, now, []).entries == s.entries;
  }

  lemma {:induction false} KeptNone(s: State, fifo: seq<Uint256>, now: int)
    ensures KeptSome(s, fifo, now, []) == fifo
  {
    if fifo != [] { KeptNone(s, fifo[1..], now); }
  }

  lemma {:induction false} KeptSomeElsewhere(s: State, fifo: seq<Uint256>, now: int, done: seq<Uint256>, x: Uint256)
    requires x !in fifo || !Dropped(s, x, now)
    ensures KeptSome(s, fifo, now, done + [x]) == KeptSome(s, fifo, now, done)
  {
    if fifo != [] { KeptSomeElsewhere(s, fifo[1..], now, done, x); }
  }

  lemma {:induction false} KeptSomeDrops(s: State, fifo: seq<Uint256>, now: int, done: seq<Uint256>, x: Uint256)
    requires Distinct(fifo) && x !in done && Dropped(s, x, now)
    ensures KeptSome(s, fifo, now, done + [x]) == Without(KeptSome(s, fifo, now, done), x)
  {
    if fifo == [] {
    } else if fifo[0] == x {
      KeptSomeElsewhere(s, fifo[1..], now, done, x);
    } else {
      KeptSomeDrops(s, fifo[1..], now, done, x);
      var rest := KeptSome(s, fifo[1..], now, done);
      assert [] + rest == rest && ([fifo[0]] + rest)[1..] == rest;
    }
  }

  /** One due entry more: one retry older, and erased if that was its third. */
  lemma ExpireNext(s: State, now: int, done: seq<Uint256>, x: Uint256)
    requires Distinct(s.fifo) && x !in done && DueIn(s, x, now)
    ensures var t := ExpireSome(s, now, done);
      && x in t.entries && t.entries[x] == s.entries[x]
      && ExpireSome(s, now, done + [x]) ==
         if Dropped(s, x, now) then Erase(t, x)
         else t.(entries := t.entries[x := s.entries[x].(retryCount := s.entries[x].retryCount + 1)])
  {
    var t, u := ExpireSome(s, now, done), ExpireSome(s, now, done + [x]);
    if Dropped(s, x, now) {
      KeptSomeDrops(s, s.fifo, now, done, x);
      assert u.entries == Erase(t, x).entries;
    } else {
      KeptSomeElsewhere(s, s.fifo, now, done, x);
      assert u.entries == t.entries[x := s.entries[x].(retryCount := s.entries[x].retryCount + 1)];
    }
  }

  lemma {:induction false} KeptAll(s: State, fifo: seq<Uint256>, now: int, done: seq<Uint256>)
    requires forall x :: x in fifo && Dropped(s, x, now) ==> x in done
    ensures KeptSome(s, fifo, now, done) == Kept(s, fifo, now)
  {
    if fifo != [] { KeptAll(s, fifo[1..], now, done); }
  }

  lemma ExpireWhole(s: State, now: int, order: seq<Uint256>)
    requires forall k :: k in order <==> k in s.entries
    ensures ExpireSome(s, now, DueOf(s, now, order)) == Expire(s, now)
  {
    var done := DueOf(s, now, order);
    DueMember(s, now, order);
    KeptAll(s, s.fifo, now, done);
    assert ExpireSome(s, now, done).entries == Expire(s, now).entries;
  }

  lemma {:induction false} RetryOfDue(s: State, now: int, order: seq<Uint256>)
    ensures ToRetry(s, now, DueOf(s, now, order)) == ToRetry(s, now, order)
  {
    if order != [] {
      RetryOfDue(s, now, order[1..]);
      var rest := DueOf(s, now, order[1..]);
      if DueIn(s, order[0], now) { assert ([order[0]] + rest)[1..] == rest; } else { assert [] + rest == rest; }
    }
  }

  // ---- the object ----

  ghost predicate Distinct(s: seq<Uint256>) {
    forall i, j :: 0 <= i < j < |s| ==> s[i] != s[j]
  }

  /** What every defined run keeps. */
  ghost predicate Inv(s: State) {
    && Distinct(s.fifo)
    && (forall x :: x in s.fifo ==> x in s.entries)
    && |s.entries| <= MAX_PENDING
    && forall k :: k in s.entries ==>
         && s.entries[k].txid == k
         && 0 <= s.entries[k].retryCount < MAX_RETRY
         && (s.entries[k].hasTx || s.entries[k].hasMerkle)
  }

  class PendingTxMap {
    var entries: map<Uint256, Entry>
    var fifo: seq<Uint256>

    constructor ()
      ensures View() == EMPTY
    {
      entries, fifo := map[], [];
    }

    ghost function View(): State
      reads this
    {
      State(entries, fifo)
    }

    method EraseTx(txid: Uint256)
      modifies this
      ensures View() == Erase(old(View()), txid)
    {
      entries := entries - {txid};
      ghost var before := fifo;
      var i := 0;
      while i < |fifo|
        invariant 0 <= i <= |fifo| && fifo == before && entries == old(entries) - {txid}
        invariant Without(before, txid) == before[..i] + Without(before[i..], txid)
      {
        WithoutStep(before, i, txid);
        if fifo[i] == txid {
          fifo := fifo[..i] + fifo[i + 1..];
          return;
        }
        i := i + 1;
      }
      assert fifo[..i] == fifo;
    }

    /** EnforceFifo after one insertion into a map that was within its limit. */
    method EnforceFifo()
      requires |entries| <= MAX_PENDING + 1
      requires |entries| > MAX_PENDING ==> |fifo| >= 2 && fifo[0] in entries
      modifies this
      ensures View() == if |old(entries)| > MAX_PENDING then Evict(old(View())) else old(View())
    {
      while |entries| > MAX_PENDING
        invariant |entries| <= |old(entries)|
        invariant |entries| == |old(entries)| ==> View() == old(View())
        invariant |entries| < |old(entries)| ==>
          |old(entries)| > MAX_PENDING >= |entries| && View() == Evict(old(View()))
        decreases |entries|
      {
        var front := fifo[0];
        ghost var before := entries;
        assert before.Keys == (before - {front}).Keys + {front};
        EraseTx(front);
        fifo := fifo[1..];
        assert |entries.Keys| == |before.Keys| - 1;
      }
    }

    method Add(e: Entry)
      requires Inv(View()) && e.txid !in entries && Defined(View(), e.txid)
      modifies this
      ensures View() == Insert(old(View()), e)
    {
      ghost var s := View();
      entries := entries[e.txid := e];
      fifo := fifo + [e.txid];
      assert entries.Keys == s.entries.Keys + {e.txid};
      assert |entries.Keys| == |s.entries.Keys| + 1;
      EnforceFifo();
    }

    method AddTxid(txid: Uint256, now: int) returns (added: bool)
      requires Inv(View()) && Defined(View(), txid)
      modifies this
      ensures View() == AddTx(old(View()), txid, now) && added == (txid !in old(entries))
    {
      if txid in entries {
        entries := entries[txid := entries[txid].(hasTx := true)];
        return false;
      }
      Add(Entry(txid, true, false, -1, NULL256, now, 0));
      return true;
    }

    method AddProof(txid: Uint256, height: int, blockHash: Uint256, now: int) returns (added: bool)
      requires Inv(View()) && Defined(View(), txid)
      modifies this
      ensures View() == AddMerkle(old(View()), txid, height, blockHash, now) && added == (txid !in old(entries))
    {
      if txid in entries {
        entries := entries[txid := entries[txid].(hasMerkle := true, height := height, blockHash := blockHash)];
        return false;
      }
      Add(Entry(txid, false, true, height, blockHash, now, 0));
      return true;
    }

    method TakePair(txid: Uint256) returns (pair: Option<Entry>)
      modifies this
      ensures pair == Paired(old(View()), txid) && View() == TryPair(old(View()), txid)
    {
      if txid !in entries { return None; }
      if !entries[txid].hasTx || !entries[txid].hasMerkle { return None; }
      pair := Some(entries[txid]);
      EraseTx(txid);
    }

    /** Expire. `order` is the order in which the hash map happens to be walked. */
    method ExpireAll(now: int, order: seq<Uint256>) returns (toRetry: seq<Uint256>)
      requires Inv(View()) && Distinct(order) && forall k :: k in order <==> k in entries
      modifies this
      ensures View() == Expire(old(View()), now) && toRetry == ToRetry(old(View()), now, order)
    {
      ghost var s := View();
      assert Distinct(s.fifo);
      var expired := Expired(now, order);
      toRetry := [];
      NothingKept(s, now);
      hide ExpireSome, DueOf, DueIn, Distinct, Inv, Retried, Expire, ToRetry;
      for i := 0 to |expired|
        invariant View() == ExpireSome(s, now, expired[..i])
        invariant toRetry + ToRetry(s, now, expired[i..]) == ToRetry(s, now, expired)
      {
        RetryNext(s, now, expired, i, toRetry);
        NextDue(s, now, order, i);
        var retry := ExpireOne(now, expired[i], s, expired[..i]);
        if retry {
          toRetry := toRetry + [expired[i]];
        }
      }
      assert expired[..|expired|] == expired;
      ExpireWhole(s, now, order);
      RetryOfDue(s, now, order);
    }

    /** The first loop of Expire: who is due. */
    method Expired(now: int, order: seq<Uint256>) returns (expired: seq<Uint256>)
      requires forall k :: k in order ==> k in entries
      ensures expired == DueOf(View(), now, order)
    {
      expired := [];
      for i := 0 to |order|
        invariant expired == DueOf(View(), now, order[..i])
      {
        assert order[..i + 1] == order[..i] + [order[i]];
        DueSnoc(View(), now, order[..i], order[i]);
        if Due(entries[order[i]], now) {
          expired := expired + [order[i]];
        }
      }
      assert order[..|order|] == order;
    }

    /** One turn of the second loop: the entry is one retry older, and erased with its third. */
    method ExpireOne(now: int, txid: Uint256, ghost s: State, ghost done: seq<Uint256>) returns (retry: bool)
      requires View() == ExpireSome(s, now, done)
      requires Distinct(s.fifo) && DueIn(s, txid, now) && txid !in done
      modifies this
      ensures View() == ExpireSome(s, now, done + [txid]) && retry == Retried(s, txid, now)
    {
      hide ExpireSome, Distinct, Without;
      ExpireNext(s, now, done, txid);
      var e := entries[txid].(retryCount := entries[txid].retryCount + 1);
      ghost var before := entries;
      entries := entries[txid := e];
      if e.retryCount >= MAX_RETRY {
        EraseTx(txid);
        assert before[txid := e] - {txid} == before - {txid};
        return false;
      }
      return true;
    }
  }

  lemma RetryNext(s: State, now: int, expired: seq<Uint256>, i: nat, queued: seq<Uint256>)
    requires i < |expired|
    ensures expired[..i + 1] == expired[..i] + [expired[i]]
    ensures queued + ToRetry(s, now, expired[i..])
         == (if Retried(s, expired[i], now) then queued + [expired[i]] else queued) + ToRetry(s, now, expired[i + 1..])
  {
    assert expired[i..][1..] == expired[i + 1..];
  }

  lemma NextDue(s: State, now: int, order: seq<Uint256>, i: nat)
    requires Distinct(order) && i < |DueOf(s, now, order)|
    ensures var due := DueOf(s, now, order);
      DueIn(s, due[i], now) && due[i] !in due[..i]
  {
    DueDistinct(s, now, order);
    DueMember(s, now, order);
    assert DueOf(s, now, order)[i] in DueOf(s, now, order);
  }

  // ---- runs ----

  datatype Op =
    | OpTx(txid: Uint256, now: int)
    | OpMerkle(txid: Uint256, height: int, blockHash: Uint256, now: int)
    | OpPair(txid: Uint256)
    | OpRemove(txid: Uint256)
    | OpExpire(now: int)

  /** Every operation is defined, except for adding a new entry to a full map whose queue is empty. */
  predicate OpDefined(s: State, op: Op) {
    match op
    case OpTx(txid, _) => Defined(s, txid)
    case OpMerkle(txid, _, _, _) => Defined(s, txid)
    case _ => true
  }

  function Step(s: State, op: Op): State
    requires OpDefined(s, op)
  {
    match op
    case OpTx(txid, now) => AddTx(s, txid, now)
    case OpMerkle(txid, height, blockHash, now) => AddMerkle(s, txid, height, blockHash, now)
    case OpPair(txid) => TryPair(s, txid)
    case OpRemove(txid) => Erase(s, txid)
    case OpExpire(now) => Expire(s, now)
  }

  predicate RunDefined(s: State, ops: seq<Op>)
    decreases |ops|, 0
  {
    ops == [] || (RunDefined(s, ops[..|ops| - 1]) && OpDefined(Run(s, ops[..|ops| - 1]), ops[|ops| - 1]))
  }

  function Run(s: State, ops: seq<Op>): State
    requires RunDefined(s, ops)
    decreases |ops|, 1
  {
    if ops == [] then s else Step(Run(s, ops[..|ops| - 1]), ops[|ops| - 1])
  }

  lemma {:induction false} WithoutMembers(fifo: seq<Uint256>, x: Uint256)
    requires Distinct(fifo)
    ensures Distinct(Without(fifo, x))
    ensures forall y :: y in Without(fifo, x) <==> y in fifo && y != x
  {
    if fifo == [] {
    } else if fifo[0] == x {
      assert fifo == [fifo[0]] + fifo[1..];
    } else {
      WithoutMembers(fifo[1..], x);
      var r := Without(fifo[1..], x);
      assert fifo == [fifo[0]] + fifo[1..];
      forall i | 0 <= i < |r|
        ensures r[i] != fifo[0]
      {
        assert r[i] in r;
      }
    }
  }

  lemma {:induction false} KeptMembers(s: State, fifo: seq<Uint256>, now: int)
    requires Distinct(fifo)
    ensures Distinct(Kept(s, fifo, now))
    ensures forall y :: y in Kept(s, fifo, now) <==> y in fifo && !Dropped(s, y, now)
  {
    if fifo != [] {
      KeptMembers(s, fifo[1..], now);
      var r := Kept(s, fifo[1..], now);
      assert fifo == [fifo[0]] + fifo[1..];
      forall i | 0 <= i < |r|
        ensures r[i] != fifo[0]
      {
        assert r[i] in r;
      }
    }
  }

  lemma FewerKeys(a: map<Uint256, Entry>, b: map<Uint256, Entry>)
    requires a.Keys <= b.Keys
    ensures |a| <= |b|
  {
    SubsetSize(a.Keys, b.Keys);
  }

  lemma {:induction false} SubsetSize(a: set<Uint256>, b: set<Uint256>)
    requires a <= b
    ensures |a| <= |b|
  {
    if a != {} {
      var x :| x in a;
      SubsetSize(a - {x}, b - {x});
    }
  }

  lemma EraseInv(s: State, txid: Uint256)
    requires Inv(s)
    ensures Inv(Erase(s, txid))
  {
    WithoutMembers(s.fifo, txid);
    FewerKeys(Erase(s, txid).entries, s.entries);
  }

  lemma InsertInv(s: State, e: Entry)
    requires Inv(s) && e.txid !in s.entries && Defined(s, e.txid)
    requires e.retryCount == 0 && (e.hasTx || e.hasMerkle)
    ensures Inv(Insert(s, e))
  {
    var t := State(s.entries[e.txid := e], s.fifo + [e.txid]);
    assert t.entries.Keys == s.entries.Keys + {e.txid};
    assert |t.entries.Keys| == |s.entries.Keys| + 1;
    assert Distinct(t.fifo);
    if Overflows(s, e.txid) { EvictInv(t); }
  }

  /** What Insert leaves just before it evicts. */
  ghost predicate Overfull(t: State) {
    && Distinct(t.fifo) && |t.fifo| >= 2
    && (forall x :: x in t.fifo ==> x in t.entries)
    && |t.entries| == MAX_PENDING + 1
    && forall k :: k in t.entries ==>
         && t.entries[k].txid == k
         && 0 <= t.entries[k].retryCount < MAX_RETRY
         && (t.entries[k].hasTx || t.entries[k].hasMerkle)
  }

  lemma EvictInv(t: State)
    requires Overfull(t)
    ensures Inv(Evict(t))
  {
    var u := Evict(t);
    assert t.entries.Keys == u.entries.Keys + {t.fifo[0]};
    assert |t.entries.Keys| == |u.entries.Keys| + 1;
    forall x | x in u.fifo
      ensures x in u.entries
    {
      var i :| 0 <= i < |u.fifo| && u.fifo[i] == x;
      assert t.fifo[i + 2] == x && t.fifo[0] != x;
    }
  }

  lemma UpdateInv(s: State, e: Entry)
    requires Inv(s) && e.txid in s.entries
    requires 0 <= e.retryCount < MAX_RETRY && (e.hasTx || e.hasMerkle)
    ensures Inv(s.(entries := s.entries[e.txid := e]))
  {
    assert s.entries[e.txid := e].Keys == s.entries.Keys;
  }

  lemma ExpireInv(s: State, now: int)
    requires Inv(s)
    ensures Inv(Expire(s, now))
  {
    KeptMembers(s, s.fifo, now);
    FewerKeys(Expire(s, now).entries, s.entries);
  }

  lemma StepInv(s: State, op: Op)
    requires Inv(s) && OpDefined(s, op)
    ensures Inv(Step(s, op))
  {
    match op
    case OpTx(txid, now) =>
      if txid in s.entries { UpdateInv(s, s.entries[txid].(hasTx := true)); }
      else { InsertInv(s, Entry(txid, true, false, -1, NULL256, now, 0)); }
    case OpMerkle(txid, height, blockHash, now) =>
      if txid in s.entries {
        UpdateInv(s, s.entries[txid].(hasMerkle := true, height := height, blockHash := blockHash));
      }
      else { InsertInv(s, Entry(txid, false, true, height, blockHash, now, 0)); }
    case OpPair(txid) => EraseInv(s, txid);
    case OpRemove(txid) => EraseInv(s, txid);
    case OpExpire(now) => ExpireInv(s, now);
  }

  /** Every defined run keeps the queue duplicate-free and within the map, the map within its limit,
      and every retry count below three. */
  lemma {:induction false} RunInv(ops: seq<Op>)
    requires RunDefined(EMPTY, ops)
    ensures Inv(Run(EMPTY, ops))
    decreases |ops|
  {
    if ops != [] {
      RunInv(ops[..|ops| - 1]);
      StepInv(Run(EMPTY, ops[..|ops| - 1]), ops[|ops| - 1]);
    }
  }

  // ---- pairing over a run ----

  /** Which halves of txid have arrived since it has been in the map without a break. */
  function Arrived(ops: seq<Op>, txid: Uint256): (r: (bool, bool))
    requires RunDefined(EMPTY, ops)
    decreases |ops|
  {
    if txid !in Run(EMPTY, ops).entries || ops == [] then (false, false)
    else
      var op := ops[|ops| - 1];
      var before := Arrived(ops[..|ops| - 1], txid);
      (before.0 || (op.OpTx? && op.txid == txid), before.1 || (op.OpMerkle? && op.txid == txid))
  }

  /** An entry that is there after a step got its halves before or in that step. */
  lemma StepHalves(s: State, op: Op, txid: Uint256)
    requires Inv(s) && OpDefined(s, op) && txid in Step(s, op).entries
    ensures var e := Step(s, op).entries[txid];
      && (e.hasTx <==> (txid in s.entries && s.entries[txid].hasTx) || (op.OpTx? && op.txid == txid))
      && (e.hasMerkle <==> (txid in s.entries && s.entries[txid].hasMerkle) || (op.OpMerkle? && op.txid == txid))
  {
    hide Inv, Without, Kept;
  }

  /** TryPair yields txid exactly when both halves have arrived, in whichever order, since it was
      last added. */
  lemma {:induction false} PairedIffBothArrived(ops: seq<Op>, txid: Uint256)
    requires RunDefined(EMPTY, ops)
    ensures Paired(Run(EMPTY, ops), txid).Some? <==> Arrived(ops, txid) == (true, true)
    ensures txid in Run(EMPTY, ops).entries ==>
      var e := Run(EMPTY, ops).entries[txid]; Arrived(ops, txid) == (e.hasTx, e.hasMerkle)
    decreases |ops|
  {
    if ops != [] && txid in Run(EMPTY, ops).entries {
      var before, op := ops[..|ops| - 1], ops[|ops| - 1];
      PairedIffBothArrived(before, txid);
      RunInv(before);
      StepHalves(Run(EMPTY, before), op, txid);
    }
  }

  /** And once taken the pair is gone. */
  lemma PairTakenOnce(s: State, txid: Uint256)
    requires Inv(s)
    ensures Paired(s, txid).Some? ==>
      txid !in TryPair(s, txid).entries && txid !in TryPair(s, txid).fifo && Paired(TryPair(s, txid), txid).None?
    ensures forall k :: k != txid && k in s.entries ==>
      k in TryPair(s, txid).entries && TryPair(s, txid).entries[k] == s.entries[k]
  {
    WithoutMembers(s.fifo, txid);
  }

  // ---- retries over a run ----

  /** How often txid has been queued for another request since it was last added. */
  function Queued(ops: seq<Op>, txid: Uint256): nat
    requires RunDefined(EMPTY, ops)
    decreases |ops|
  {
    if txid !in Run(EMPTY, ops).entries || ops == [] then 0
    else
      var before, op := ops[..|ops| - 1], ops[|ops| - 1];
      Queued(before, txid) + if op.OpExpire? && Retried(Run(EMPTY, before), txid, op.now) then 1 else 0
  }

  lemma StepRetries(s: State, op: Op, txid: Uint256)
    requires Inv(s) && OpDefined(s, op) && txid in Step(s, op).entries
    ensures Step(s, op).entries[txid].retryCount ==
      (if txid in s.entries then s.entries[txid].retryCount else 0)
      + if op.OpExpire? && Retried(s, txid, op.now) then 1 else 0
  {
    hide Inv, Without, Kept;
  }

  /** The retry count of an entry is the number of times it has been queued, and that is at most
      two. */
  lemma {:induction false} QueuedAtMostTwice(ops: seq<Op>, txid: Uint256)
    requires RunDefined(EMPTY, ops)
    ensures Queued(ops, txid) <= 2
    ensures txid in Run(EMPTY, ops).entries ==> Run(EMPTY, ops).entries[txid].retryCount == Queued(ops, txid)
    decreases |ops|
  {
    RunInv(ops);
    if ops != [] && txid in Run(EMPTY, ops).entries {
      var before, op := ops[..|ops| - 1], ops[|ops| - 1];
      QueuedAtMostTwice(before, txid);
      RunInv(before);
      StepRetries(Run(EMPTY, before), op, txid);
    }
  }

  lemma {:induction false} RetryMembers(s: State, now: int, order: seq<Uint256>)
    ensures forall x :: x in ToRetry(s, now, order) <==> x in order && Retried(s, x, now)
  {
    if order != [] {
      RetryMembers(s, now, order[1..]);
      assert order == [order[0]] + order[1..];
    }
  }

  /** What a timeout does to an entry: nothing if it is paired or younger than 30 seconds, a retry the first and
      second time, and removal with no retry the third. */
  lemma TimeoutOutcome(s: State, now: int, order: seq<Uint256>, txid: Uint256)
    requires Inv(s) && txid in s.entries && forall k :: k in order <==> k in s.entries
    ensures var e, t := s.entries[txid], Expire(s, now);
      if (e.hasTx && e.hasMerkle) || now < e.firstSeen + 30000 then
        txid in t.entries && t.entries[txid] == e && txid !in ToRetry(s, now, order)
      else if e.retryCount < 2 then
        && txid in t.entries && t.entries[txid] == e.(retryCount := e.retryCount + 1)
        && txid in ToRetry(s, now, order)
      else txid !in t.entries && txid !in t.fifo && txid !in ToRetry(s, now, order)
  {
    RetryMembers(s, now, order);
    KeptMembers(s, s.fifo, now);
  }

  // ---- the queue over a run ----

  /** No operation of the run has evicted anything. */
  predicate NoEviction(ops: seq<Op>)
    requires RunDefined(EMPTY, ops)
    decreases |ops|
  {
    ops == [] ||
    (var before, op := ops[..|ops| - 1], ops[|ops| - 1];
     NoEviction(before) && ((op.OpTx? || op.OpMerkle?) ==> !Overflows(Run(EMPTY, before), op.txid)))
  }

  ghost predicate AllQueued(s: State) {
    forall k :: k in s.entries ==> k in s.fifo
  }

  lemma StepQueued(s: State, op: Op)
    requires Inv(s) && AllQueued(s) && OpDefined(s, op)
    requires (op.OpTx? || op.OpMerkle?) ==> !Overflows(s, op.txid)
    ensures AllQueued(Step(s, op))
  {
    match op
    case OpTx(_, _) =>
    case OpMerkle(_, _, _, _) =>
    case OpPair(txid) => WithoutMembers(s.fifo, txid);
    case OpRemove(txid) => WithoutMembers(s.fifo, txid);
    case OpExpire(now) => KeptMembers(s, s.fifo, now);
  }

  /** Until the first eviction every entry has its place in the queue. */
  lemma {:induction false} QueueIsWhole(ops: seq<Op>)
    requires RunDefined(EMPTY, ops) && NoEviction(ops)
    ensures forall k :: k in Run(EMPTY, ops).entries <==> k in Run(EMPTY, ops).fifo
    decreases |ops|
  {
    RunInv(ops);
    if ops != [] {
      var before := ops[..|ops| - 1];
      QueueIsWhole(before);
      RunInv(before);
      StepQueued(Run(EMPTY, before), ops[|ops| - 1]);
    }
  }

  /** `r` is `fifo` with some elements left out. */
  ghost predicate Thinned(r: seq<Uint256>, fifo: seq<Uint256>)
  {
    exists at: seq<nat> :: Picks(r, fifo, at)
  }

  ghost predicate Picks(r: seq<Uint256>, fifo: seq<Uint256>, at: seq<nat>) {
    && |at| == |r|
    && (forall i :: 0 <= i < |at| ==> at[i] < |fifo| && r[i] == fifo[at[i]])
    && forall i, j :: 0 <= i < j < |at| ==> at[i] < at[j]
  }

  lemma {:induction false} PickTail(r: seq<Uint256>, fifo: seq<Uint256>)
    requires fifo != [] && Thinned(r, fifo[1..])
    ensures Thinned(r, fifo) && Thinned([fifo[0]] + r, fifo)
  {
    var at: seq<nat> :| Picks(r, fifo[1..], at);
    var up := UpOne(at);
    assert Picks(r, fifo, up);
    assert Picks([fifo[0]] + r, fifo, [0] + up);
  }

  function UpOne(at: seq<nat>): (r: seq<nat>)
    ensures |r| == |at| && forall i :: 0 <= i < |at| ==> r[i] == at[i] + 1
  {
    if at == [] then [] else [at[0] + 1] + UpOne(at[1..])
  }

  lemma {:induction false} WithoutThins(fifo: seq<Uint256>, x: Uint256)
    ensures Thinned(Without(fifo, x), fifo)
  {
    if fifo == [] {
      assert Picks([], fifo, []);
    } else if fifo[0] == x {
      Whole(fifo[1..]);
      PickTail(fifo[1..], fifo);
    } else {
      WithoutThins(fifo[1..], x);
      PickTail(Without(fifo[1..], x), fifo);
    }
  }

  lemma {:induction false} Whole(fifo: seq<Uint256>)
    ensures Thinned(fifo, fifo)
  {
    if fifo == [] {
      assert Picks([], fifo, []);
    } else {
      Whole(fifo[1..]);
      PickTail(fifo[1..], fifo);
      assert [fifo[0]] + fifo[1..] == fifo;
    }
  }

  lemma {:induction false} KeptThins(s: State, fifo: seq<Uint256>, now: int)
    ensures Thinned(Kept(s, fifo, now), fifo)
  {
    if fifo == [] {
      assert Picks([], fifo, []);
    } else {
      KeptThins(s, fifo[1..], now);
      PickTail(Kept(s, fifo[1..], now), fifo);
      assert [] + Kept(s, fifo[1..], now) == Kept(s, fifo[1..], now);
    }
  }

  predicate Adds(op: Op) { op.OpTx? || op.OpMerkle? }

  /** The operation adds an entry for x that was not there. */
  predicate Inserts(s: State, op: Op, x: Uint256) { Adds(op) && op.txid == x && x !in s.entries }

  /** The queue with the new entry at the back, if the operation inserts one. */
  function Pushed(s: State, op: Op): seq<Uint256> {
    if Adds(op) && Inserts(s, op, op.txid) then s.fifo + [op.txid] else s.fifo
  }

  /** One operation: the new entry goes to the back, and some places may go. */
  lemma StepThins(s: State, op: Op)
    requires Inv(s) && OpDefined(s, op)
    ensures Thinned(Step(s, op).fifo, Pushed(s, op))
  {
    hide Thinned, Inv, Expire, Without;
    Whole(s.fifo);
    match op
    case OpTx(txid, now) =>
      if txid !in s.entries { InsertThins(s, Entry(txid, true, false, -1, NULL256, now, 0)); }
    case OpMerkle(txid, height, blockHash, now) =>
      if txid !in s.entries { InsertThins(s, Entry(txid, false, true, height, blockHash, now, 0)); }
    case OpPair(txid) => WithoutThins(s.fifo, txid);
    case OpRemove(txid) => WithoutThins(s.fifo, txid);
    case OpExpire(now) => ExpireThins(s, now);
  }

  lemma ExpireThins(s: State, now: int)
    ensures Thinned(Expire(s, now).fifo, s.fifo)
  {
    KeptThins(s, s.fifo, now);
  }

  lemma InsertThins(s: State, e: Entry)
    requires e.txid !in s.entries && Defined(s, e.txid)
    ensures Thinned(Insert(s, e).fifo, s.fifo + [e.txid])
  {
    hide Thinned;
    var fifo := s.fifo + [e.txid];
    Whole(fifo);
    if Overflows(s, e.txid) {
      Whole(fifo[2..]);
      PickTail(fifo[2..], fifo[1..]);
      PickTail(fifo[2..], fifo);
    }
  }

  /** Which operation of a run inserted x last; -1 if none did. */
  function InsertedAt(ops: seq<Op>, x: Uint256): (i: int)
    requires RunDefined(EMPTY, ops)
    ensures -1 <= i < |ops|
    decreases |ops|
  {
    if ops == [] then -1
    else
      var before := ops[..|ops| - 1];
      if Inserts(Run(EMPTY, before), ops[|ops| - 1], x) then |ops| - 1 else InsertedAt(before, x)
  }

  /** Numbered by the operations that inserted them, the entries of a queue increase strictly. */
  ghost predicate Increasing(ops: seq<Op>, fifo: seq<Uint256>)
    requires RunDefined(EMPTY, ops)
  {
    && (forall i :: 0 <= i < |fifo| ==> InsertedAt(ops, fifo[i]) >= 0)
    && forall i, j :: 0 <= i < j < |fifo| ==> InsertedAt(ops, fifo[i]) < InsertedAt(ops, fifo[j])
  }

  lemma ThinnedIncreasing(ops: seq<Op>, r: seq<Uint256>, fifo: seq<Uint256>)
    requires RunDefined(EMPTY, ops) && Increasing(ops, fifo) && Thinned(r, fifo)
    ensures Increasing(ops, r)
  {
    hide InsertedAt, RunDefined;
    var at: seq<nat> :| Picks(r, fifo, at);
    forall i, j | 0 <= i < j < |r|
      ensures InsertedAt(ops, r[i]) < InsertedAt(ops, r[j])
    {
      assert r[i] == fifo[at[i]] && r[j] == fifo[at[j]] && at[i] < at[j];
    }
  }

  /** The queue is in insertion order over every defined run, whatever the clock says and however
      many evictions there were: of two entries in it the one in front was inserted by the earlier
      operation. */
  lemma {:induction false} QueueIsInInsertionOrder(ops: seq<Op>)
    requires RunDefined(EMPTY, ops)
    ensures Increasing(ops, Run(EMPTY, ops).fifo)
    decreases |ops|
  {
    if ops != [] {
      var before, op := ops[..|ops| - 1], ops[|ops| - 1];
      QueueIsInInsertionOrder(before);
      RunInv(before);
      var s := Run(EMPTY, before);
      StepThins(s, op);
      NextIncreasing(ops);
      ThinnedIncreasing(ops, Step(s, op).fifo, Pushed(s, op));
    }
  }

  lemma NextIncreasing(ops: seq<Op>)
    requires ops != [] && RunDefined(EMPTY, ops) && RunDefined(EMPTY, ops[..|ops| - 1])
    requires var s := Run(EMPTY, ops[..|ops| - 1]); Inv(s) && Increasing(ops[..|ops| - 1], s.fifo)
    ensures Increasing(ops, Pushed(Run(EMPTY, ops[..|ops| - 1]), ops[|ops| - 1]))
  {
    hide Run, RunDefined;
    var before, op := ops[..|ops| - 1], ops[|ops| - 1];
    var s := Run(EMPTY, before);
    forall i | 0 <= i < |s.fifo|
      ensures InsertedAt(ops, s.fifo[i]) == InsertedAt(before, s.fifo[i])
    {
      assert s.fifo[i] in s.fifo;
    }
  }

  // ---- what a pair carries ----

  /** The last proof of a run for x; -1 if there is none. */
  function LastProof(ops: seq<Op>, x: Uint256): (i: int)
    ensures -1 <= i < |ops|
    ensures i >= 0 ==> ops[i].OpMerkle? && ops[i].txid == x
    ensures forall j :: i < j < |ops| ==> !(ops[j].OpMerkle? && ops[j].txid == x)
    decreases |ops|
  {
    if ops == [] then -1
    else if ops[|ops| - 1].OpMerkle? && ops[|ops| - 1].txid == x then |ops| - 1
    else LastProof(ops[..|ops| - 1], x)
  }

  predicate NoProof(e: Entry) { !e.hasMerkle && e.height == -1 && e.blockHash == NULL256 }

  predicate SameProof(e: Entry, f: Entry) {
    e.hasMerkle == f.hasMerkle && e.height == f.height && e.blockHash == f.blockHash
  }

  lemma StepProof(s: State, op: Op, x: Uint256)
    requires Inv(s) && OpDefined(s, op) && x in Step(s, op).entries
    ensures var e := Step(s, op).entries[x];
      && e.txid == x
      && (op.OpMerkle? && op.txid == x ==> e.hasMerkle && e.height == op.height && e.blockHash == op.blockHash)
      && (!(op.OpMerkle? && op.txid == x) && Inserts(s, op, x) ==> NoProof(e))
      && (!(op.OpMerkle? && op.txid == x) && !Inserts(s, op, x) ==> x in s.entries && SameProof(e, s.entries[x]))
  {
    hide Inv, Without, Kept;
    InvTxid(s);
  }

  lemma InvTxid(s: State)
    requires Inv(s)
    ensures forall k :: k in s.entries ==> s.entries[k].txid == k
  {}

  /** An entry carries the height and block hash of the last proof that came since it was inserted,
      and none before the first. */
  lemma {:induction false} EntryCarriesLastProof(ops: seq<Op>, x: Uint256)
    requires RunDefined(EMPTY, ops) && x in Run(EMPTY, ops).entries
    ensures var e, i := Run(EMPTY, ops).entries[x], LastProof(ops, x);
      && e.txid == x && InsertedAt(ops, x) >= 0
      && (i >= InsertedAt(ops, x) ==> e.hasMerkle && e.height == ops[i].height && e.blockHash == ops[i].blockHash)
      && (i < InsertedAt(ops, x) ==> !e.hasMerkle && e.height == -1 && e.blockHash == NULL256)
    decreases |ops|
  {
    hide Step;
    var before, op := ops[..|ops| - 1], ops[|ops| - 1];
    RunInv(before);
    StepProof(Run(EMPTY, before), op, x);
    if !Inserts(Run(EMPTY, before), op, x) { EntryCarriesLastProof(before, x); }
  }

  /** So a pair that is yielded is the txid's own, with the height and block hash of the last proof
      received for it. */
  lemma PairCarriesLastProof(ops: seq<Op>, x: Uint256)
    requires RunDefined(EMPTY, ops) && Paired(Run(EMPTY, ops), x).Some?
    ensures var e, i := Paired(Run(EMPTY, ops), x).value, LastProof(ops, x);
      && 0 <= InsertedAt(ops, x) <= i
      && e.txid == x && e.height == ops[i].height && e.blockHash == ops[i].blockHash
  {
    hide Run, RunDefined, InsertedAt, LastProof;
    EntryCarriesLastProof(ops, x);
    SeenWhenInserted(ops, x);
  }

  // ---- the queue and the clock ----

  lemma StepSeen(s: State, op: Op, x: Uint256)
    requires Inv(s) && OpDefined(s, op) && x in Step(s, op).entries
    ensures Inserts(s, op, x) ==> Step(s, op).entries[x].firstSeen == op.now
    ensures !Inserts(s, op, x) ==> x in s.entries && Step(s, op).entries[x].firstSeen == s.entries[x].firstSeen
  {
    hide Inv, Without, Kept;
  }

  /** An entry was first seen when it was inserted. */
  lemma {:induction false} SeenWhenInserted(ops: seq<Op>, x: Uint256)
    requires RunDefined(EMPTY, ops) && x in Run(EMPTY, ops).entries
    ensures var i := InsertedAt(ops, x);
      && i >= 0 && Adds(ops[i]) && ops[i].txid == x
      && Run(EMPTY, ops).entries[x].firstSeen == ops[i].now
    decreases |ops|
  {
    hide Step;
    var before, op := ops[..|ops| - 1], ops[|ops| - 1];
    var s := Run(EMPTY, before);
    RunInv(before);
    StepSeen(s, op, x);
    if !Inserts(s, op, x) { SeenWhenInserted(before, x); }
  }

  /** The clock does not go back between additions, and none is later than t. */
  ghost predicate Timely(ops: seq<Op>, t: int) {
    forall i, j :: 0 <= i <= j < |ops| && Adds(ops[i]) && Adds(ops[j]) ==> ops[i].now <= ops[j].now <= t
  }

  /** The queue is in the order in which its entries were first seen, none later than t. */
  ghost predicate InOrder(s: State, t: int) {
    && (forall x :: x in s.fifo ==> x in s.entries && s.entries[x].firstSeen <= t)
    && forall i, j :: 0 <= i < j < |s.fifo| ==>
         s.fifo[i] in s.entries && s.fifo[j] in s.entries
         && s.entries[s.fifo[i]].firstSeen <= s.entries[s.fifo[j]].firstSeen
  }

  /** So with a clock that does not go back the queue is oldest first. */
  lemma QueueIsOldestFirst(ops: seq<Op>, t: int)
    requires RunDefined(EMPTY, ops) && Timely(ops, t)
    ensures InOrder(Run(EMPTY, ops), t)
  {
    hide Run, RunDefined, InsertedAt;
    RunInv(ops);
    QueueIsInInsertionOrder(ops);
    var s := Run(EMPTY, ops);
    forall x | x in s.fifo
      ensures x in s.entries && s.entries[x].firstSeen <= t
    {
      SeenWhenInserted(ops, x);
    }
    forall i, j | 0 <= i < j < |s.fifo|
      ensures s.fifo[i] in s.entries && s.fifo[j] in s.entries
      ensures s.entries[s.fifo[i]].firstSeen <= s.entries[s.fifo[j]].firstSeen
    {
      SeenWhenInserted(ops, s.fifo[i]);
      SeenWhenInserted(ops, s.fifo[j]);
    }
  }

  // ---- how long evictions stay defined ----

  /** Additions of distinct transactions and nothing else. */
  ghost predicate FreshAdds(ops: seq<Op>) {
    && (forall i :: 0 <= i < |ops| ==> ops[i].OpTx?)
    && forall i, j :: 0 <= i < j < |ops| ==> ops[i].txid != ops[j].txid
  }

  /** After n of them the map holds min(n, 4096) entries; the queue grows to 4096 and from then on
      loses one place net with every addition, because each eviction takes two. */
  lemma {:induction false} FreshSizes(ops: seq<Op>)
    requires FreshAdds(ops) && |ops| <= 2 * MAX_PENDING
    ensures RunDefined(EMPTY, ops)
    ensures var s := Run(EMPTY, ops);
      && |s.entries| == (if |ops| <= MAX_PENDING then |ops| else MAX_PENDING)
      && |s.fifo| == (if |ops| <= MAX_PENDING then |ops| else 2 * MAX_PENDING - |ops|)
      && OnlyAdded(s, ops)
    decreases |ops|
  {
    if ops != [] {
      var before, op := ops[..|ops| - 1], ops[|ops| - 1];
      FreshSizes(before);
      RunInv(before);
      var s := Run(EMPTY, before);
      NextIsFresh(s, ops);
      FreshStep(s, op);
      OnlyAddedStep(s, Step(s, op), ops);
    }
  }

  /** Every entry was put there by one of the additions. */
  ghost predicate OnlyAdded(s: State, ops: seq<Op>)
    requires forall i :: 0 <= i < |ops| ==> ops[i].OpTx?
  {
    forall k :: k in s.entries ==> exists i :: 0 <= i < |ops| && ops[i].txid == k
  }

  lemma NextIsFresh(s: State, ops: seq<Op>)
    requires FreshAdds(ops) && ops != [] && OnlyAdded(s, ops[..|ops| - 1])
    ensures ops[|ops| - 1].txid !in s.entries
  {}

  lemma OnlyAddedStep(s: State, t: State, ops: seq<Op>)
    requires FreshAdds(ops) && ops != [] && OnlyAdded(s, ops[..|ops| - 1])
    requires forall k :: k in t.entries ==> k == ops[|ops| - 1].txid || k in s.entries
    ensures OnlyAdded(t, ops)
  {
    var before := ops[..|ops| - 1];
    forall k | k in t.entries
      ensures exists i :: 0 <= i < |ops| && ops[i].txid == k
    {
      if k == ops[|ops| - 1].txid {
        assert ops[|ops| - 1].txid == k;
      } else {
        var i :| 0 <= i < |before| && before[i].txid == k;
        assert ops[i].txid == k;
      }
    }
  }

  lemma FreshStep(s: State, op: Op)
    requires Inv(s) && op.OpTx? && op.txid !in s.entries && Defined(s, op.txid)
    ensures var t := Step(s, op);
      && |t.entries| == (if |s.entries| < MAX_PENDING then |s.entries| + 1 else |s.entries|)
      && |t.fifo| == (if |s.entries| < MAX_PENDING then |s.fifo| + 1 else |s.fifo| - 1)
      && forall k :: k in t.entries ==> k == op.txid || k in s.entries
  {
    var e := Entry(op.txid, true, false, -1, NULL256, op.now, 0);
    var u := State(s.entries[e.txid := e], s.fifo + [e.txid]);
    assert u.entries.Keys == s.entries.Keys + {e.txid};
    assert |u.entries.Keys| == |s.entries.Keys| + 1;
    if Overflows(s, e.txid) {
      assert u.entries.Keys == Evict(u).entries.Keys + {u.fifo[0]};
      assert |u.entries.Keys| == |Evict(u).entries.Keys| + 1;
    }
  }

  lemma {:induction false} PrefixDefined(ops: seq<Op>, n: nat)
    requires RunDefined(EMPTY, ops) && n <= |ops|
    ensures RunDefined(EMPTY, ops[..n])
    decreases |ops|
  {
    if n < |ops| {
      PrefixDefined(ops[..|ops| - 1], n);
      assert ops[..|ops| - 1][..n] == ops[..n];
    } else {
      assert ops[..n] == ops;
    }
  }

  /** The queue is then empty, and the next addition finds the map full with nothing to drop. */
  lemma OneTooMany(ops: seq<Op>)
    requires FreshAdds(ops) && |ops| == 2 * MAX_PENDING + 1
    ensures !RunDefined(EMPTY, ops)
  {
    var before := ops[..|ops| - 1];
    FreshSizes(before);
    NextIsFresh(Run(EMPTY, before), ops);
  }

  /** A run of additions of distinct transactions is defined exactly up to 8192 of them: the next one
      finds the map full and no second queue place to drop. */
  lemma FreshAddsDefinedIff(ops: seq<Op>)
    requires FreshAdds(ops)
    ensures RunDefined(EMPTY, ops) <==> |ops| <= 2 * MAX_PENDING
  {
    if |ops| <= 2 * MAX_PENDING {
      FreshSizes(ops);
    } else {
      var n := 2 * MAX_PENDING + 1;
      OneTooMany(ops[..n]);
      if RunDefined(EMPTY, ops) {
        PrefixDefined(ops, n);
      }
    }
  }
}
