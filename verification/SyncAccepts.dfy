/** What a well-formed `headers` message achieves: told from its bytes. */
module SyncAccepts {
  import opened Words
  import opened Header
  import opened Chain
  import opened Message
  import opened Sync
  import Wire

  // ---- the wire form of a headers message ----

  /** A header with the transaction count that follows it. */
  datatype Item = Item(header: BlockHeader, txCount: u8)

  function Items(items: seq<Item>): (r: Bytes)
    ensures |r| == 81 * |items|
  {
    if items == [] then []
    else Serialize(items[0].header) + [items[0].txCount] + Items(items[1..])
  }

  /** The count, the items, and whatever follows. */
  function HeadersPayload(items: seq<Item>, suffix: Bytes): Bytes
    requires |items| < TWO64
  {
    Wire.WriteCompactSize(|items|) + Items(items) + suffix
  }

  /** The command is the word "headers". */
  lemma CommandIsHeaders()
    ensures |HEADERS| == |"headers"| && forall i :: 0 <= i < |HEADERS| ==> HEADERS[i] == "headers"[i] as int
  {}

  // ---- what the items are worth ----

  /** A chain grown by headers, one on top of the other. */
  function GrownBy(c: Store, hashOf: HashOf, items: seq<Item>): Store
    decreases |items|
  {
    if items == [] then c else GrownBy(Grown(c, hashOf, items[0].header), hashOf, items[1..])
  }

  /** No transactions, and everything a header must meet on top of the chain. */
  ghost predicate Fine(g: Setting, c: Store, item: Item)
    requires Contiguous(c)
  {
    item.txCount == 0 && Acceptable(g, c, item.header)
  }

  /** The first k items are fine, each on the chain grown by those before it, and the next, if there
      is one, is not. */
  ghost predicate FineUpTo(g: Setting, c: Store, items: seq<Item>, k: nat)
    requires Contiguous(c) && k <= |items|
    decreases k
  {
    if k == 0 then items != [] ==> !Fine(g, c, items[0])
    else
      GrownShape(c, g.hashOf, items[0].header);
      Fine(g, c, items[0]) && FineUpTo(g, Grown(c, g.hashOf, items[0].header), items[1..], k - 1)
  }

  // ---- reading the items back ----

  lemma {:induction false} ItemStands(s: Bytes, p: nat, items: seq<Item>, i: nat)
    requires Wire.Has(s, p, Items(items)) && i < |items|
    ensures p + 81 * i + 81 <= |s|
    ensures HeaderAt(s, p, i) == items[i].header && TxCountAt(s, p, i) == items[i].txCount
    decreases i
  {
    hide Serialize, Parse;
    var head := Serialize(items[0].header) + [items[0].txCount];
    Wire.HasBoth(s, p, head, Items(items[1..]));
    if i == 0 {
      ParseSerialize(items[0].header, [items[0].txCount]);
      assert s[p..p + 81] == head;
      assert head[80] == items[0].txCount;
    } else {
      ItemStands(s, p + 81, items[1..], i - 1);
    }
  }

  lemma PayloadParts(items: seq<Item>, suffix: Bytes)
    requires |items| < TWO64
    ensures var s, n := HeadersPayload(items, suffix), |Wire.WriteCompactSize(|items|)|;
      && Wire.ReadCompactSize(s, 0) == Wire.Read(|items|, n)
      && Wire.Has(s, n, Items(items)) && n + 81 * |items| <= |s|
  {
    hide Wire.WriteCompactSize, Wire.ReadCompactSize, Items;
    var s, count := HeadersPayload(items, suffix), Wire.WriteCompactSize(|items|);
    assert s == count + (Items(items) + suffix);
    assert Wire.Has(s, 0, count + (Items(items) + suffix));
    Wire.HasBoth(s, 0, count, Items(items) + suffix);
    Wire.HasBoth(s, |count|, Items(items), suffix);
    Wire.CompactSizeRoundTrip(s, 0, |items|);
  }

  // ---- processing them ----

  /** A fine header keeps the invariant, so the next one finds a sound chain again. */
  lemma FineKeepsInv(g: Setting, c: Store, h: BlockHeader, latest: int)
    requires Inv(c, g.hashOf, g.checkpoint, latest) && LatestTime(g.now) <= latest
    requires Examine(g, c, h, c.tip + 1).Good?
    ensures Inv(Grown(c, g.hashOf, h), g.hashOf, g.checkpoint, latest)
    ensures Grown(c, g.hashOf, h).tip == c.tip + 1
  {
    hide Inv, Examine, Checked, Put;
    AcceptedIsChecked(g, c, h, latest);
    LaterLimit(Grown(c, g.hashOf, h), g.hashOf, c.tip + 1, LatestTime(g.now), latest);
    GrownInv(c, g.hashOf, h, g.checkpoint, latest, latest);
  }

  lemma {:induction false} ItemsAccepted(g: Setting, c: Store, s: Bytes, p: nat, all: seq<Item>, i: nat, k: nat,
                                         latest: int)
    requires Wire.Has(s, p, Items(all)) && p + 81 * |all| <= |s| && i <= |all| && k <= |all| - i
    requires Inv(c, g.hashOf, g.checkpoint, latest) && LatestTime(g.now) <= latest
    requires g.start + i == c.tip + 1 && FineUpTo(g, c, all[i..], k)
    ensures var r := Headers(g, c, s, p, i, |all|);
      && r.store == GrownBy(c, g.hashOf, all[i..i + k]) && r.accepted == i + k
      && (r.verdict.Good? <==> i + k == |all|)
    decreases k
  {
    hide Inv, Examine, Items, Acceptable, Grown, HeaderAt, TxCountAt;
    InvIsContiguous(c, g.hashOf, g.checkpoint, latest);
    if i < |all| {
      ItemStands(s, p, all, i);
      AcceptedIffChecked(g, c, all[i].header, latest);
      if k > 0 {
        var d := Grown(c, g.hashOf, all[i].header);
        FineKeepsInv(g, c, all[i].header, latest);
        assert all[i..][1..] == all[i + 1..];
        ItemsAccepted(g, d, s, p, all, i + 1, k - 1, latest);
        assert all[i..i + k][1..] == all[i + 1..i + k];
        AcceptIsGrown(g, c, all[i].header);
      }
    }
  }

  lemma AcceptIsGrown(g: Setting, c: Store, h: BlockHeader)
    ensures Accept(g, c, h, c.tip + 1) == Grown(c, g.hashOf, h)
  {}

  lemma {:induction false} NoiseDropped(g: Setting, c: Store, noise: seq<LightMessage>, rest: seq<LightMessage>)
    requires forall i :: 0 <= i < |noise| ==> noise[i].command != HEADERS
    ensures Process(g, c, noise + rest) == Process(g, c, rest)
  {
    if noise == [] {
      assert noise + rest == rest;
    } else {
      assert (noise + rest)[1..] == noise[1..] + rest;
      NoiseDropped(g, c, noise[1..], rest);
    }
  }

  /** A call at tip + 1 of a sound chain: messages with other commands are passed over; of the items of
      the first `headers` message exactly those before the first that is not fine are accepted, and the
      chain is grown by them in order; the call succeeds if and only if all are fine. */
  lemma HeadersAccepted(g: Setting, c: Store, noise: seq<LightMessage>, items: seq<Item>, suffix: Bytes,
                        rest: seq<LightMessage>, k: nat, latest: int)
    requires Inv(c, g.hashOf, g.checkpoint, latest) && g.start == c.tip + 1
    requires forall i :: 0 <= i < |noise| ==> noise[i].command != HEADERS
    requires k <= |items| <= 2000 && FineUpTo(g, c, items, k)
    ensures var r := Process(g, c, noise + [LightMessage(HEADERS, HeadersPayload(items, suffix))] + rest);
      && r.store == GrownBy(c, g.hashOf, items[..k]) && r.accepted == k
      && (r.verdict.Good? <==> k == |items|)
  {
    hide Inv, HeadersPayload, Headers;
    var s := HeadersPayload(items, suffix);
    var m := LightMessage(HEADERS, s);
    assert noise + [m] + rest == noise + ([m] + rest);
    NoiseDropped(g, c, noise, [m] + rest);
    PayloadParts(items, suffix);
    var p := |Wire.WriteCompactSize(|items|)|;
    var newLatest := if latest < LatestTime(g.now) then LatestTime(g.now) else latest;
    SoundLater(c, g, latest, newLatest);
    assert items[0..] == items;
    ItemsAccepted(g, c, s, p, items, 0, k, newLatest);
  }

  // ---- messages that are refused outright ----

  /** More than 2000 items: nothing is accepted, however fine they are. */
  lemma TooManyRefused(g: Setting, c: Store, noise: seq<LightMessage>, items: seq<Item>, suffix: Bytes,
                       rest: seq<LightMessage>)
    requires forall i :: 0 <= i < |noise| ==> noise[i].command != HEADERS
    requires 2000 < |items| < TWO64
    ensures Process(g, c, noise + [LightMessage(HEADERS, HeadersPayload(items, suffix))] + rest)
         == Result(c, 0, Bad("bad-headers-format"))
  {
    hide HeadersPayload, Headers;
    var m := LightMessage(HEADERS, HeadersPayload(items, suffix));
    assert noise + [m] + rest == noise + ([m] + rest);
    NoiseDropped(g, c, noise, [m] + rest);
    PayloadParts(items, suffix);
  }

  /** A payload cut off anywhere: nothing is accepted, not even the headers that are whole. */
  lemma CutRefused(g: Setting, c: Store, noise: seq<LightMessage>, items: seq<Item>, n: nat, rest: seq<LightMessage>)
    requires forall i :: 0 <= i < |noise| ==> noise[i].command != HEADERS
    requires |items| < TWO64 && n < |HeadersPayload(items, [])|
    ensures Process(g, c, noise + [LightMessage(HEADERS, HeadersPayload(items, [])[..n])] + rest)
         == Result(c, 0, Bad("bad-headers-format"))
  {
    hide Headers, Items, Wire.WriteCompactSize, Wire.ReadCompactSize;
    var s := HeadersPayload(items, []);
    var m := LightMessage(HEADERS, s[..n]);
    assert noise + [m] + rest == noise + ([m] + rest);
    NoiseDropped(g, c, noise, [m] + rest);
    PayloadParts(items, []);
    if Wire.ReadCompactSize(s[..n], 0).Read? {
      assert s[..n] + s[n..] == s;
      Wire.CompactSizeExtends(s[..n], s[n..], 0);
    }
  }
}
