/** Header validation and the processing of a `headers` message. */
module Sync {
  import Radix
  import opened Words
  import opened Wrappers
  import opened Header
  import opened Limbs
  import opened Difficulty
  import opened Chain
  import opened ChainStore
  import Asert
  import opened Message
  import Wire

  // ---- ValidateHeader ----

  /** The outcome of checking one header. */
  datatype Verdict =
    | Good
    | Bad(reason: string)
      /** The nBits field sends the byte code outside its buffer; nothing further is modelled. */
    | Unmodelled

  /** The limit on a block's time: `static_cast<uint32_t>(adjusted_time_now + 2 * 3600)`. */
  function LatestTime(now: int): u32 { Lo32(now + 7200) }

  function MinTime(prev: Option<BlockHeader>, mtp: int): u32 {
    if mtp >= 0 then Lo32(mtp) else if prev.Some? then prev.value.nTime else 0
  }

  /** ValidateHeader, in the order of its checks. */
  function Validate(hashOf: HashOf, h: BlockHeader, prev: Option<BlockHeader>, height: int,
                    historical: bool, now: int, mtp: int): Verdict
  {
    if height < 0 then Bad("bad-height")
    else if prev.Some? && h.hashPrevBlock != hashOf(prev.value) then Bad("bad-prevblk")
    else if prev.None? && height > 0 then Bad("bad-prevblk")
    else if historical then Good
    else
      match TargetOf(h.nBits)
      case Undefined => Unmodelled
      case NoTarget => Bad("bad-diffbits")
      case At(target) =>
        if Num(hashOf(h)) > target then Bad("high-hash")
        else if h.nTime <= MinTime(prev, mtp) then Bad("time-too-old")
        else if h.nTime > LatestTime(now) then Bad("time-too-new")
        else if h.nVersion < 4 then Bad("bad-version")
        else Good
  }

  method ValidateHeader(hashOf: HashOf, h: BlockHeader, prev: Option<BlockHeader>, height: int,
                        historical: bool, now: int, mtp: int) returns (v: Verdict)
    ensures v == Validate(hashOf, h, prev, height, historical, now, mtp)
  {
    if height < 0 { return Bad("bad-height"); }
    if prev.Some? && h.hashPrevBlock != hashOf(prev.value) { return Bad("bad-prevblk"); }
    if prev.None? && height > 0 { return Bad("bad-prevblk"); }
    if historical { return Good; }
    var target := TargetFromBits(h.nBits);
    if target.OutOfBounds? { return Unmodelled; }
    if target.Refused? { return Bad("bad-diffbits"); }
    var enough := HashLeTarget(hashOf(h), target.be);
    if !enough { return Bad("high-hash"); }
    var minTime: u32 := if mtp >= 0 then Lo32(mtp) else if prev.Some? then prev.value.nTime else 0;
    if h.nTime <= minTime { return Bad("time-too-old"); }
    if h.nTime > Lo32(now + 2 * 3600) { return Bad("time-too-new"); }
    if h.nVersion < 4 { return Bad("bad-version"); }
    return Good;
  }

  // ---- one header of a message ----

  /** The arguments of ProcessHeaders that stay the same for all headers of a message. */
  datatype Setting = Setting(hashOf: HashOf, checkpoint: int, start: int, now: int)

  function Predecessor(c: Store, height: int): Option<BlockHeader> {
    if height > 0 && height - 1 in c.byHeight then Some(c.byHeight[height - 1]) else None
  }

  /** What one header at a height meets: validation, then the difficulty rule. */
  function Examine(g: Setting, c: Store, h: BlockHeader, height: int): Verdict {
    var prev := Predecessor(c, height);
    var mtp := if prev.Some? then MedianTimePast(c, height - 1) else -1;
    var historical := height <= g.checkpoint;
    var v := Validate(g.hashOf, h, prev, height, historical, g.now, mtp);
    if !v.Good? then v
    else if !historical && prev.Some? && h.nBits != Asert.NextBits(prev.value, height - 1) then Bad("bad-diffbits")
    else Good
  }

  function Accept(g: Setting, c: Store, h: BlockHeader, height: int): Store {
    Put(c, g.hashOf, h, height)
  }

  // ---- a message ----

  const ENTRY := 81

  /** Header i of a message whose headers start at p, and the byte that follows it. */
  function HeaderAt(payload: Bytes, p: nat, i: nat): BlockHeader
    requires p + ENTRY * i + ENTRY <= |payload|
  {
    Parse(payload[p + ENTRY * i..p + ENTRY * i + ENTRY])
  }

  function TxCountAt(payload: Bytes, p: nat, i: nat): u8
    requires p + ENTRY * i + ENTRY <= |payload|
  {
    payload[p + ENTRY * i + 80]
  }

  /** The store after a message, how many headers were accepted, and how it ended. */
  datatype Result = Result(store: Store, accepted: nat, verdict: Verdict)

  /** Headers i, i + 1, ... up to count: stop at the first that is not good, keeping what was
      accepted before it. */
  function Headers(g: Setting, c: Store, payload: Bytes, p: nat, i: nat, count: nat): Result
    requires i <= count && p + ENTRY * count <= |payload|
    decreases count - i
  {
    if i == count then Result(c, i, Good)
    else if TxCountAt(payload, p, i) != 0 then Result(c, i, Bad("bad-headers-txcount"))
    else
      var h := HeaderAt(payload, p, i);
      var v := Examine(g, c, h, g.start + i);
      if v.Good? then Headers(g, Accept(g, c, h, g.start + i), payload, p, i + 1, count)
      else Result(c, i, v)
  }

  function HeadersMessage(g: Setting, c: Store, payload: Bytes): Result {
    var count := Wire.ReadCompactSize(payload, 0);
    if count.Short? || count.value > 2000 || count.next + ENTRY * count.value > |payload|
    then Result(c, 0, Bad("bad-headers-format"))
    else Headers(g, c, payload, count.next, 0, count.value)
  }

  /** The command "headers". */
  const HEADERS: Bytes := [104, 101, 97, 100, 101, 114, 115]

  /** Messages are discarded up to the first `headers`; a peer that has none left fails. */
  function Process(g: Setting, c: Store, inbox: seq<LightMessage>): Result {
    if inbox == [] then Result(c, 0, Bad("read-failed"))
    else if inbox[0].command == HEADERS then HeadersMessage(g, c, inbox[0].payload)
    else Process(g, c, inbox[1..])
  }

  // ---- the method ----

  /** The messages a peer still has to deliver. */
  class Peer {
    var inbox: seq<LightMessage>

    constructor (inbox: seq<LightMessage>)
      ensures this.inbox == inbox
    {
      this.inbox := inbox;
    }

    method ReadMessage() returns (ok: bool, msg: LightMessage)
      modifies this
      ensures ok <==> old(inbox) != []
      ensures ok ==> msg == old(inbox)[0] && inbox == old(inbox)[1..]
      ensures !ok ==> inbox == old(inbox)
    {
      if inbox == [] { return false, LightMessage([], []); }
      ok, msg, inbox := true, inbox[0], inbox[1..];
    }
  }

  /** What the int result and last_reason of ProcessHeaders say. */
  ghost predicate Reports(n: int, reason: Verdict, r: Result) {
    reason == r.verdict && n == if r.verdict.Good? then r.accepted else -1
  }

  /** CLightSync::ProcessHeaders. */
  method ProcessHeaders(peer: Peer, store: ChainStore, checkpoint: int, start: i64, now: int)
    returns (n: int, reason: Verdict)
    requires store.Valid() && start <= Asert.MAX_HEIGHT - 2000
    modifies peer, store, store.chainworkArith.words
    ensures store.Valid()
    ensures var r := Process(Setting(store.hashOf, checkpoint, start, now), old(store.View()), old(peer.inbox));
      store.View() == r.store && Reports(n, reason, r)
  {
    ghost var g, c := Setting(store.hashOf, checkpoint, start, now), store.View();
    ghost var all := peer.inbox;
    while true
      invariant store.Valid() && store.View() == c
      invariant Process(g, c, peer.inbox) == Process(g, c, all)
      decreases |peer.inbox|
    {
      var ok, msg := peer.ReadMessage();
      if !ok { return -1, Bad("read-failed"); }
      if msg.command == HEADERS {
        n, reason := HandleMessage(store, checkpoint, start, now, msg.payload);
        return;
      }
    }
  }

  method HandleMessage(store: ChainStore, checkpoint: int, start: i64, now: int, payload: Bytes)
    returns (n: int, reason: Verdict)
    requires store.Valid() && start <= Asert.MAX_HEIGHT - 2000
    modifies store, store.chainworkArith.words
    ensures store.Valid()
    ensures var r := HeadersMessage(Setting(store.hashOf, checkpoint, start, now), old(store.View()), payload);
      store.View() == r.store && Reports(n, reason, r)
  {
    hide Examine, Accept, Parse, Wire.ReadCompactSize, ChainStore.Valid, ChainStore.View;
    ghost var g, c := Setting(store.hashOf, checkpoint, start, now), store.View();
    var count := Wire.ReadCompactSize(payload, 0);
    if count.Short? || count.value > 2000 || count.next + ENTRY * count.value > |payload| {
      return -1, Bad("bad-headers-format");
    }
    var p, i := count.next, 0;
    while i < count.value
      invariant 0 <= i <= count.value
      invariant store.Valid()
      invariant Headers(g, store.View(), payload, p, i, count.value) == Headers(g, c, payload, p, 0, count.value)
    {
      var hp := p + ENTRY * i;
      var h := Parse(payload[hp..hp + ENTRY]);
      if payload[hp + 80] != 0 { return -1, Bad("bad-headers-txcount"); }
      var v := HandleHeader(store, checkpoint, start, now, h, start + i);
      if !v.Good? { return -1, v; }
      i := i + 1;
    }
    return count.value, Good;
  }

  /** The loop body for one header: it is stored exactly when every check passes. */
  method HandleHeader(store: ChainStore, checkpoint: int, start: i64, now: int, h: BlockHeader, height: i64)
    returns (v: Verdict)
    requires store.Valid() && height <= Asert.MAX_HEIGHT
    modifies store, store.chainworkArith.words
    ensures store.Valid()
    ensures var g := Setting(store.hashOf, checkpoint, start, now);
      && v == Examine(g, old(store.View()), h, height)
      && store.View() == if v.Good? then Accept(g, old(store.View()), h, height) else old(store.View())
  {
    hide Validate, WithHeader, WithWork, MedianTimePast, Asert.NextBits, Num;
    var historical := height <= checkpoint;
    var prev := None;
    if height > 0 {
      var found, header := store.GetHeaderAtHeight(height - 1);
      if found { prev := Some(header); }
    }
    var mtp := -1;
    if prev.Some? {
      mtp := store.GetMedianTimePast(height - 1);
    }
    v := ValidateHeader(store.hashOf, h, prev, height, historical, now, mtp);
    if !v.Good? { return; }
    if !historical && prev.Some? && height > 0 {
      Asert.HeightsFit(prev.value, height - 1);
      var expected := Asert.GetNextASERTBits(prev.value, height - 1);
      if h.nBits != expected { return Bad("bad-diffbits"); }
    }
    store.AddHeader(h, height);
    store.AddWork(h.nBits);
  }

  // ---- every run ----

  /** A header accepted on top of a sound chain is linked to it and, above the checkpoint, fully
      checked. */
  lemma AcceptedIsChecked(g: Setting, c: Store, h: BlockHeader, latest: int)
    requires Inv(c, g.hashOf, g.checkpoint, latest) && Examine(g, c, h, c.tip + 1).Good?
    ensures c.tip >= 0 ==> h.hashPrevBlock == g.hashOf(c.byHeight[c.tip])
    ensures c.tip + 1 > g.checkpoint ==>
      Checked(Grown(c, g.hashOf, h), g.hashOf, c.tip + 1, LatestTime(g.now))
    ensures Grown(c, g.hashOf, h).tip == c.tip + 1 && Extends(c, Grown(c, g.hashOf, h))
  {
    hide Inv, Examine, Checked, Put;
    AcceptedIffChecked(g, c, h, latest);
    InvIsContiguous(c, g.hashOf, g.checkpoint, latest);
    GrownShape(c, g.hashOf, h);
  }

  /** What a header must meet on top of a chain: the link and, above the checkpoint, every rule, with
      a time at most two hours after the client's clock as 32 bits tell it. */
  ghost predicate Acceptable(g: Setting, c: Store, h: BlockHeader)
    requires Contiguous(c)
  {
    && (c.tip >= 0 ==> h.hashPrevBlock == g.hashOf(c.byHeight[c.tip]))
    && (c.tip + 1 > g.checkpoint ==>
          && Checked(Grown(c, g.hashOf, h), g.hashOf, c.tip + 1, (g.now + 7200) % 0x1_0000_0000)
          && (c.tip < 0 ==> h.nTime > 0))
  }

  /** And nothing else is refused: on top of a sound chain a header is accepted if and only if it is
      linked and, above the checkpoint, fully checked; the first header of all must not bear time 0. */
  lemma AcceptedIffChecked(g: Setting, c: Store, h: BlockHeader, latest: int)
    requires Inv(c, g.hashOf, g.checkpoint, latest)
    ensures Examine(g, c, h, c.tip + 1).Good? <==> Acceptable(g, c, h)
  {
    hide Linked, Indexed, Worked, MedianTimePast, TargetOf, Num, Asert.NextBits, Checked, Put;
    CheckedOnTop(c, g.hashOf, h, LatestTime(g.now));
    if c.tip >= 0 {
      Radix.DivModUnique(MedianTimePast(c, c.tip), TWO32, 0, MedianTimePast(c, c.tip));
    }
  }

  /** The rules of the new segment in terms of the chain before the header. */
  lemma CheckedOnTop(c: Store, hashOf: HashOf, h: BlockHeader, latest: int)
    requires Contiguous(c)
    ensures Checked(Grown(c, hashOf, h), hashOf, c.tip + 1, latest) <==>
      && TargetOf(h.nBits).At? && Num(hashOf(h)) <= TargetOf(h.nBits).target
      && h.nTime <= latest && h.nVersion >= 4
      && (c.tip >= 0 ==> h.nTime > MedianTimePast(c, c.tip) && h.nBits == Asert.NextBits(c.byHeight[c.tip], c.tip))
  {
    hide MedianTimePast, TargetOf, Num, Asert.NextBits, Put;
    GrownShape(c, hashOf, h);
    if c.tip >= 0 { MedianKept(c, Grown(c, hashOf, h), c.tip); }
  }

  lemma {:induction false} HeadersKeepInv(g: Setting, c: Store, payload: Bytes, p: nat, i: nat, count: nat,
                                          latest: int, newLatest: int)
    requires i <= count && p + ENTRY * count <= |payload|
    requires Inv(c, g.hashOf, g.checkpoint, latest) && c.tip + 1 == g.start + i
    requires latest <= newLatest && LatestTime(g.now) <= newLatest
    ensures var r := Headers(g, c, payload, p, i, count);
      && Inv(r.store, g.hashOf, g.checkpoint, newLatest)
      && Extends(c, r.store)
      && r.store.tip == c.tip + r.accepted - i
    decreases count - i
  {
    hide Inv, Examine, Checked, Parse, Contiguous, WithHeader, WithWork;
    if i == count || TxCountAt(payload, p, i) != 0 {
      SoundLater(c, g, latest, newLatest);
    } else {
      var h := HeaderAt(payload, p, i);
      if Examine(g, c, h, g.start + i).Good? {
        AcceptedIsChecked(g, c, h, latest);
        var d := Grown(c, g.hashOf, h);
        LaterLimit(d, g.hashOf, c.tip + 1, LatestTime(g.now), newLatest);
        GrownInv(c, g.hashOf, h, g.checkpoint, latest, newLatest);
        assert Accept(g, c, h, g.start + i) == d;
        HeadersKeepInv(g, d, payload, p, i + 1, count, newLatest, newLatest);
      } else {
        SoundLater(c, g, latest, newLatest);
      }
    }
  }

  lemma LaterLimit(c: Store, hashOf: HashOf, k: int, latest: int, newLatest: int)
    requires latest <= newLatest
    ensures Checked(c, hashOf, k, latest) ==> Checked(c, hashOf, k, newLatest)
  {}

  lemma {:induction false} ProcessFinds(g: Setting, c: Store, inbox: seq<LightMessage>)
    ensures Process(g, c, inbox) == Result(c, 0, Bad("read-failed"))
      || exists i :: 0 <= i < |inbox| && Process(g, c, inbox) == HeadersMessage(g, c, inbox[i].payload)
  {
    if inbox != [] && inbox[0].command != HEADERS {
      ProcessFinds(g, c, inbox[1..]);
      if Process(g, c, inbox) != Result(c, 0, Bad("read-failed")) {
        var i :| 0 <= i < |inbox[1..]| && Process(g, c, inbox[1..]) == HeadersMessage(g, c, inbox[1..][i].payload);
        assert inbox[1..][i] == inbox[i + 1];
      }
    }
  }

  /** One call of ProcessHeaders on top of a sound chain, whatever the peer sends and however the
      call ends: the chain stays sound, nothing stored is lost or changed, and it grows by exactly
      the headers accepted. */
  lemma ProcessKeepsInv(g: Setting, c: Store, inbox: seq<LightMessage>, latest: int, newLatest: int)
    requires Inv(c, g.hashOf, g.checkpoint, latest) && g.start == c.tip + 1
    requires latest <= newLatest && LatestTime(g.now) <= newLatest
    ensures var r := Process(g, c, inbox);
      && Inv(r.store, g.hashOf, g.checkpoint, newLatest)
      && Extends(c, r.store)
      && r.store.tip == c.tip + r.accepted
  {
    ProcessFinds(g, c, inbox);
    if Process(g, c, inbox) == Result(c, 0, Bad("read-failed")) {
      SoundLater(c, g, latest, newLatest);
    } else {
      var i :| 0 <= i < |inbox| && Process(g, c, inbox) == HeadersMessage(g, c, inbox[i].payload);
      HeadersMessageKeepsInv(g, c, inbox[i].payload, latest, newLatest);
    }
  }

  lemma SoundLater(c: Store, g: Setting, latest: int, newLatest: int)
    requires Inv(c, g.hashOf, g.checkpoint, latest) && latest <= newLatest
    ensures Inv(c, g.hashOf, g.checkpoint, newLatest)
  {}

  lemma HeadersMessageKeepsInv(g: Setting, c: Store, payload: Bytes, latest: int, newLatest: int)
    requires Inv(c, g.hashOf, g.checkpoint, latest) && g.start == c.tip + 1
    requires latest <= newLatest && LatestTime(g.now) <= newLatest
    ensures var r := HeadersMessage(g, c, payload);
      && Inv(r.store, g.hashOf, g.checkpoint, newLatest)
      && Extends(c, r.store)
      && r.store.tip == c.tip + r.accepted
  {
    var count := Wire.ReadCompactSize(payload, 0);
    if count.Short? || count.value > 2000 || count.next + ENTRY * count.value > |payload| {
      SoundLater(c, g, latest, newLatest);
    } else {
      HeadersKeepInv(g, c, payload, count.next, 0, count.value, latest, newLatest);
    }
  }

  /** A call that starts beyond tip + 1 finds no predecessor: whatever the peer sends, nothing is
      accepted. */
  lemma GapAcceptsNothing(g: Setting, c: Store, inbox: seq<LightMessage>)
    requires Contiguous(c) && g.start > c.tip + 1
    ensures Process(g, c, inbox).store == c && Process(g, c, inbox).accepted == 0
  {
    ProcessFinds(g, c, inbox);
    if Process(g, c, inbox) != Result(c, 0, Bad("read-failed")) {
      var i :| 0 <= i < |inbox| && Process(g, c, inbox) == HeadersMessage(g, c, inbox[i].payload);
      var payload := inbox[i].payload;
      var count := Wire.ReadCompactSize(payload, 0);
      if !count.Short? && count.value > 0 && count.value <= 2000 && count.next + ENTRY * count.value <= |payload| {
        assert Examine(g, c, HeaderAt(payload, count.next, 0), g.start) == Bad("bad-prevblk");
      }
    }
  }

  /** A call that starts at or below the tip and gets one header accepted leaves a total that is no
      longer the sum of the stored headers' work, unless the header it replaced carried none. */
  lemma OverlapBreaksWork(g: Setting, c: Store, h: BlockHeader)
    requires Contiguous(c) && Worked(c) && 0 <= g.start <= c.tip
    requires Examine(g, c, h, g.start).Good? && CompactTarget(c.byHeight[g.start].nBits) >= 1
    ensures !Worked(Accept(g, c, h, g.start))
  {
    RewriteKeepsWorkIff(c, g.hashOf, h, g.start);
    TargetHasWork(CompactTarget(c.byHeight[g.start].nBits));
  }

  /** A sync: calls one after the other, each at the tip the last one left, each with its own peer
      and its own clock. */
  datatype Call = Call(now: int, inbox: seq<LightMessage>)

  function RunCalls(hashOf: HashOf, checkpoint: int, c: Store, calls: seq<Call>): Store
    decreases |calls|
  {
    if calls == [] then c
    else
      var g := Setting(hashOf, checkpoint, c.tip + 1, calls[0].now);
      RunCalls(hashOf, checkpoint, Process(g, c, calls[0].inbox).store, calls[1..])
  }

  /** Safety over whole runs: after any number of calls from an empty store the chain is contiguous,
      linked, indexed and work-summed, every header above the checkpoint is fully checked, none
      lies later than the limit of some call, and median time past has never gone back. */
  lemma RunIsSound(hashOf: HashOf, checkpoint: int, calls: seq<Call>, latest: int)
    requires forall i :: 0 <= i < |calls| ==> LatestTime(calls[i].now) <= latest
    ensures var c := RunCalls(hashOf, checkpoint, EMPTY, calls);
      && Inv(c, hashOf, checkpoint, latest)
      && forall a, b :: 0 <= a && checkpoint <= a <= b <= c.tip ==> MedianTimePast(c, a) <= MedianTimePast(c, b)
  {
    EmptyInv(hashOf, checkpoint, latest);
    RunKeepsInv(hashOf, checkpoint, EMPTY, calls, latest);
    var c := RunCalls(hashOf, checkpoint, EMPTY, calls);
    forall a, b | 0 <= a && checkpoint <= a <= b <= c.tip
      ensures MedianTimePast(c, a) <= MedianTimePast(c, b)
    {
      MedianNeverFalls(c, hashOf, checkpoint, latest, a, b);
    }
  }

  lemma {:induction false} RunKeepsInv(hashOf: HashOf, checkpoint: int, c: Store, calls: seq<Call>, latest: int)
    requires Inv(c, hashOf, checkpoint, latest)
    requires forall i :: 0 <= i < |calls| ==> LatestTime(calls[i].now) <= latest
    ensures Inv(RunCalls(hashOf, checkpoint, c, calls), hashOf, checkpoint, latest)
    ensures Extends(c, RunCalls(hashOf, checkpoint, c, calls))
    decreases |calls|
  {
    hide Inv, Process;
    if calls != [] {
      var g := Setting(hashOf, checkpoint, c.tip + 1, calls[0].now);
      ProcessKeepsInv(g, c, calls[0].inbox, latest, latest);
      RunKeepsInv(hashOf, checkpoint, Process(g, c, calls[0].inbox).store, calls[1..], latest);
    }
  }
}
