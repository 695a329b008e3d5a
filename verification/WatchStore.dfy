/** The store of watched transactions: two maps in memory and their image in a key-value database. */
module WatchStore {
  import opened Words
  import opened Wrappers

  // ---- records ----

  datatype TxRecord = TxRecord(
    txid: Uint256,
    height: i64,
    blockHash: Uint256,
    txBlob: Bytes,
    proofBlob: Bytes,
    scriptVerified: bool)

  /** static_cast between int64_t and uint64_t. */
  function ToU64(x: i64): u64 { if x < 0 then x + TWO64 else x }

  function ToI64(x: u64): i64 { if x < 0x8000_0000_0000_0000 then x else x - TWO64 }

  /** SerializeRecord; the lengths are cast to 32 bits. */
  function Encode(rec: TxRecord): Bytes {
    LE(ToU64(rec.height), 8) + rec.blockHash + [if rec.scriptVerified then 1 else 0]
    + LE(Lo32(|rec.txBlob|), 4) + rec.txBlob + LE(Lo32(|rec.proofBlob|), 4) + rec.proofBlob
  }

  /** The result of DeserializeRecord. Its length checks add in 32 bits, so a length near 2^32 can
      pass them and send the copy that follows beyond the value. */
  datatype Decoded = Record(rec: TxRecord) | Rejected | OutOfBounds

  function Decode(txid: Uint256, s: Bytes): Decoded {
    if |s| < 45 then Rejected
    else
      var blob := ReadU32(s, 41);
      if |s| < Lo32(49 + blob) then Rejected
      else if |s| < 49 + blob then OutOfBounds
      else
        var proof := ReadU32(s, 45 + blob);
        if |s| < Lo32(49 + blob + proof) then Rejected
        else if |s| < 49 + blob + proof then OutOfBounds
        else Record(TxRecord(txid, ToI64(ReadU64(s, 0)), s[8..40], s[45..45 + blob],
                             s[49 + blob..49 + blob + proof], s[40] != 0))
  }

  /** Both blobs have lengths that 32 bits can hold. */
  predicate Bounded(rec: TxRecord) { |rec.txBlob| < TWO32 && |rec.proofBlob| < TWO32 }

  lemma EncodedParts(rec: TxRecord)
    ensures var s, b := Encode(rec), |rec.txBlob|;
      && |s| == 49 + b + |rec.proofBlob|
      && s[0..8] == LE(ToU64(rec.height), 8) && s[8..40] == rec.blockHash
      && s[40] == (if rec.scriptVerified then 1 else 0)
      && s[41..45] == LE(Lo32(b), 4)
      && s[45..45 + b] == rec.txBlob
      && s[45 + b..49 + b] == LE(Lo32(|rec.proofBlob|), 4)
      && s[49 + b..] == rec.proofBlob
  {
    hide LE, Lo32;
  }

  /** A record comes back from its value exactly when both blobs are shorter than 2^32 bytes. */
  lemma RecordRoundTripIff(rec: TxRecord)
    ensures Decode(rec.txid, Encode(rec)) == Record(rec) <==> Bounded(rec)
  {
    hide Encode, ReadU32, ReadU64, LE;
    var s, b := Encode(rec), |rec.txBlob|;
    EncodedParts(rec);
    U32RoundTrip(Lo32(b), s, 41);
    U64RoundTrip(ToU64(rec.height), s, 0);
    if b < TWO32 {
      U32RoundTrip(Lo32(|rec.proofBlob|), s, 45 + b);
    }
    if Bounded(rec) {
      assert s[49 + b..49 + b + |rec.proofBlob|] == rec.proofBlob;
    }
  }

  // ---- keys ----

  function TxKey(txid: Uint256): Bytes { [1] + txid }

  function AddrKey(addr: Bytes, txid: Uint256): Bytes { [2] + addr + [0] + txid }

  predicate IsTxKey(key: Bytes) { |key| >= 33 && key[0] == 1 }

  /** An entry of the address index. */
  datatype Pair = Pair(addr: Bytes, txid: Uint256)

  /** The address and txid LoadFromDB reads from a key. */
  function KeyPair(key: Bytes): Option<Pair> {
    if |key| > 33 && key[0] == 2 then
      var rest := key[1..];
      var sep := FirstNul(rest);
      if |rest| - sep == 33 then Some(Pair(rest[..sep], rest[sep + 1..])) else None
    else None
  }

  /** Keys of records start with 0x01, index keys with 0x02; both end in the txid. */
  lemma KeyForms(addr: Bytes, txid: Uint256)
    ensures |TxKey(txid)| == 33 && TxKey(txid)[0] == 0x01 && TxKey(txid)[1..] == txid
    ensures var k := AddrKey(addr, txid);
      |k| == |addr| + 34 && k[0] == 0x02 && k[1..|addr| + 1] == addr && k[|addr| + 1] == 0 && k[|addr| + 2..] == txid
  {}

  /** An index key is read back exactly when its address has no zero byte. */
  lemma AddrKeyRoundTripIff(addr: Bytes, txid: Uint256)
    ensures KeyPair(AddrKey(addr, txid)) == Some(Pair(addr, txid)) <==> NulFree(addr)
  {
    var rest := AddrKey(addr, txid)[1..];
    assert rest == addr + [0] + txid;
    assert rest[|addr|] == 0;
    assert rest[..|addr|] == addr && rest[|addr| + 1..] == txid;
    assert forall i :: 0 <= i < |addr| ==> rest[i] == addr[i];
    var sep := FirstNul(rest);
    assert sep <= |addr|;
    assert sep < |addr| ==> addr[sep] == 0;
  }

  lemma KeyPairNulFree(key: Bytes)
    ensures KeyPair(key).Some? ==> NulFree(KeyPair(key).value.addr)
  {}

  // ---- loading ----

  /** m_tx_store, and the keys of m_addr_tx_index (its values are all true). */
  datatype Memory = Memory(txs: map<Uint256, TxRecord>, index: set<Pair>)

  const NOTHING := Memory(map[], {})

  type Db = map<Bytes, Bytes>

  /** The record a key supplies. */
  function RecordAt(db: Db, key: Bytes): (r: Option<TxRecord>)
    ensures r.Some? ==> key in db && IsTxKey(key) && r.value.txid == key[1..33]
  {
    if key in db && IsTxKey(key) && Decode(key[1..33], db[key]).Record? then Some(Decode(key[1..33], db[key]).rec)
    else None
  }

  /** No value of a transaction key sends DeserializeRecord out of bounds. */
  ghost predicate Readable(db: Db) {
    forall k :: k in db && IsTxKey(k) ==> !Decode(k[1..33], db[k]).OutOfBounds?
  }

  /** The loop body of LoadFromDB; `emplace` keeps what is already there. */
  function LoadEntry(db: Db, key: Bytes, m: Memory): Memory {
    if IsTxKey(key) then
      var r := RecordAt(db, key);
      if r.Some? && r.value.txid !in m.txs then m.(txs := m.txs[r.value.txid := r.value]) else m
    else
      var p := KeyPair(key);
      if p.Some? then m.(index := m.index + {p.value}) else m
  }

  /** LoadFromDB, into empty maps, over the keys in the order the iterator gives them. */
  function Load(db: Db, keys: seq<Bytes>): Memory
    decreases |keys|
  {
    if keys == [] then NOTHING
    else LoadEntry(db, keys[|keys| - 1], Load(db, keys[..|keys| - 1]))
  }

  /** LevelDB's bytewise order. */
  predicate Less(a: Bytes, b: Bytes) {
    b != [] && (a == [] || a[0] < b[0] || (a[0] == b[0] && Less(a[1..], b[1..])))
  }

  lemma {:induction false} LessAsymmetric(a: Bytes, b: Bytes)
    requires Less(a, b)
    ensures !Less(b, a)
  {
    if a != [] && a[0] == b[0] { LessAsymmetric(a[1..], b[1..]); }
  }

  /** What the database's iterator visits: every key once, in order. */
  ghost predicate Listing(db: Db, keys: seq<Bytes>) {
    && (forall k :: k in db <==> k in keys)
    && forall i, j :: 0 <= i < j < |keys| ==> Less(keys[i], keys[j])
  }

  // ---- the image of a database ----

  predicate Supplies(db: Db, key: Bytes, txid: Uint256) {
    RecordAt(db, key).Some? && RecordAt(db, key).value.txid == txid
  }

  /** Of the keys that supply a record for a txid, the first. */
  ghost predicate IsFirst(db: Db, key: Bytes, txid: Uint256) {
    Supplies(db, key, txid) && forall k :: k != key && Supplies(db, k, txid) ==> Less(key, k)
  }

  /** The memory is what the database says: for every txid its first readable record, for every
      address key its pair, and nothing else. */
  ghost predicate TxImage(db: Db, txs: map<Uint256, TxRecord>) {
    && (forall k, x :: Supplies(db, k, x) ==> x in txs)
    && (forall x :: x in txs ==> exists k :: IsFirst(db, k, x) && RecordAt(db, k) == Some(txs[x]))
  }

  ghost predicate IndexImage(db: Db, index: set<Pair>) {
    && (forall k :: k in db && KeyPair(k).Some? ==> KeyPair(k).value in index)
    && (forall p :: p in index ==> exists k :: k in db && KeyPair(k) == Some(p))
  }

  ghost predicate Image(db: Db, m: Memory) {
    Readable(db) && TxImage(db, m.txs) && IndexImage(db, m.index)
  }

  lemma FirstIsUnique(db: Db, x: Uint256, k: Bytes, l: Bytes)
    requires IsFirst(db, k, x) && IsFirst(db, l, x)
    ensures k == l
  {
    if k != l { LessAsymmetric(k, l); }
  }

  /** There is only one such memory. */
  lemma ImageIsUnique(db: Db, m: Memory, n: Memory)
    requires Image(db, m) && Image(db, n)
    ensures m == n
  {
    hide RecordAt, KeyPair, Less, Readable;
    forall x | x in m.txs
      ensures x in n.txs && m.txs[x] == n.txs[x]
    {
      var k :| IsFirst(db, k, x) && RecordAt(db, k) == Some(m.txs[x]);
      assert Supplies(db, k, x);
      var l :| IsFirst(db, l, x) && RecordAt(db, l) == Some(n.txs[x]);
      FirstIsUnique(db, x, k, l);
    }
    forall x | x in n.txs
      ensures x in m.txs
    {
      var k :| IsFirst(db, k, x) && RecordAt(db, k) == Some(n.txs[x]);
      assert Supplies(db, k, x);
    }
    assert m.index == n.index;
  }

  /** What loading the first keys of a listing leaves. */
  ghost predicate LoadedTxs(db: Db, keys: seq<Bytes>, txs: map<Uint256, TxRecord>) {
    && (forall i, x :: 0 <= i < |keys| && Supplies(db, keys[i], x) ==> x in txs)
    && (forall x :: x in txs ==> exists i :: EarliestAt(db, keys, i, x) && RecordAt(db, keys[i]) == Some(txs[x]))
  }

  ghost predicate EarliestAt(db: Db, keys: seq<Bytes>, i: int, x: Uint256) {
    && 0 <= i < |keys|
    && Supplies(db, keys[i], x)
    && forall j :: 0 <= j < i ==> !Supplies(db, keys[j], x)
  }

  ghost predicate LoadedIndex(keys: seq<Bytes>, index: set<Pair>) {
    && (forall k :: k in keys && KeyPair(k).Some? ==> KeyPair(k).value in index)
    && (forall p :: p in index ==> exists k :: k in keys && KeyPair(k) == Some(p))
  }

  lemma {:induction false} LoadFinds(db: Db, keys: seq<Bytes>)
    ensures LoadedTxs(db, keys, Load(db, keys).txs) && LoadedIndex(keys, Load(db, keys).index)
    decreases |keys|
  {
    hide RecordAt, KeyPair, LoadedTxs, LoadedIndex, LoadEntry;
    if keys == [] {
      NothingLoaded(db);
    } else {
      var before, key := keys[..|keys| - 1], keys[|keys| - 1];
      LoadFinds(db, before);
      LoadEntryTxs(db, keys, Load(db, before));
      LoadEntryIndex(db, keys, Load(db, before));
    }
  }

  lemma NothingLoaded(db: Db)
    ensures LoadedTxs(db, [], NOTHING.txs) && LoadedIndex([], NOTHING.index)
  {}

  lemma LoadEntryTxs(db: Db, keys: seq<Bytes>, m: Memory)
    requires keys != [] && LoadedTxs(db, keys[..|keys| - 1], m.txs)
    ensures LoadedTxs(db, keys, LoadEntry(db, keys[|keys| - 1], m).txs)
  {
    hide KeyPair, Decode;
    var before, key, n := keys[..|keys| - 1], keys[|keys| - 1], |keys| - 1;
    var txs := LoadEntry(db, key, m).txs;
    forall i, x | 0 <= i < |keys| && Supplies(db, keys[i], x)
      ensures x in txs
    {
      if i < n { assert before[i] == keys[i]; }
    }
    forall x | x in txs
      ensures exists i :: EarliestAt(db, keys, i, x) && RecordAt(db, keys[i]) == Some(txs[x])
    {
      if x in m.txs {
        var i :| EarliestAt(db, before, i, x) && RecordAt(db, before[i]) == Some(m.txs[x]);
        assert EarliestAt(db, keys, i, x);
      } else {
        forall j | 0 <= j < n ensures !Supplies(db, keys[j], x) { assert before[j] == keys[j]; }
        assert EarliestAt(db, keys, n, x);
      }
    }
  }

  lemma LoadEntryIndex(db: Db, keys: seq<Bytes>, m: Memory)
    requires keys != [] && LoadedIndex(keys[..|keys| - 1], m.index)
    ensures LoadedIndex(keys, LoadEntry(db, keys[|keys| - 1], m).index)
  {
    var before, key := keys[..|keys| - 1], keys[|keys| - 1];
    var index := LoadEntry(db, key, m).index;
    assert IsTxKey(key) ==> KeyPair(key).None?;
    assert forall k :: k in keys ==> k in before || k == key;
    forall p | p in index
      ensures exists k :: k in keys && KeyPair(k) == Some(p)
    {
      if p in m.index {
        var k :| k in before && KeyPair(k) == Some(p);
        assert k in keys;
      } else {
        assert key in keys && KeyPair(key) == Some(p);
      }
    }
  }

  /** Loading a database gives its image, whatever the database holds. */
  lemma LoadIsImage(db: Db, keys: seq<Bytes>)
    requires Listing(db, keys) && Readable(db)
    ensures Image(db, Load(db, keys))
  {
    hide RecordAt, KeyPair, Less, Load, Readable;
    var m := Load(db, keys);
    LoadFinds(db, keys);
    forall k, x | Supplies(db, k, x)
      ensures x in m.txs
    {
      SuppliedIsStored(db, k, x);
      var i :| 0 <= i < |keys| && keys[i] == k;
    }
    forall x | x in m.txs
      ensures exists k :: IsFirst(db, k, x) && RecordAt(db, k) == Some(m.txs[x])
    {
      var i :| EarliestAt(db, keys, i, x) && RecordAt(db, keys[i]) == Some(m.txs[x]);
      EarliestIsFirst(db, keys, i, x);
    }
  }

  lemma SuppliedIsStored(db: Db, k: Bytes, x: Uint256)
    requires Supplies(db, k, x)
    ensures k in db
  {}

  lemma EarliestIsFirst(db: Db, keys: seq<Bytes>, i: int, x: Uint256)
    requires Listing(db, keys) && EarliestAt(db, keys, i, x)
    ensures IsFirst(db, keys[i], x)
  {
    hide Less, RecordAt;
    forall k | k != keys[i] && Supplies(db, k, x)
      ensures Less(keys[i], k)
    {
      SuppliedIsStored(db, k, x);
      var j :| 0 <= j < |keys| && keys[j] == k;
    }
  }

  // ---- committing ----

  /** The batch CommitTx writes: the record unless the txid is known, and the index entry. */
  function Batch(db: Db, m: Memory, addr: Bytes, rec: TxRecord): Db {
    (if rec.txid in m.txs then db else db[TxKey(rec.txid) := Encode(rec)])[AddrKey(addr, rec.txid) := []]
  }

  /** The update of the two maps; `emplace` keeps a record that is already there. */
  function Remember(m: Memory, addr: Bytes, rec: TxRecord): Memory {
    Memory(if rec.txid in m.txs then m.txs else m.txs[rec.txid := rec], m.index + {Pair(addr, rec.txid)})
  }

  /** The database handle and the memory. */
  datatype Store = Store(db: Option<Db>, mem: Memory)

  /** CommitTx succeeds unless the disk is full or an open database refuses the batch. */
  predicate Commits(s: Store, full: bool, wrote: bool) { !full && (s.db.None? || wrote) }

  function Commit(s: Store, addr: Bytes, rec: TxRecord, full: bool, wrote: bool): Store {
    if !Commits(s, full, wrote) then s
    else Store(if s.db.None? then None else Some(Batch(s.db.value, s.mem, addr, rec)), Remember(s.mem, addr, rec))
  }

  /** A new record under its own key: the key supplies it exactly when its blobs are bounded, and
      all other keys supply what they did. */
  lemma PutRecord(db: Db, rec: TxRecord, k: Bytes)
    ensures var d := db[TxKey(rec.txid) := Encode(rec)];
      RecordAt(d, k) ==
        if k != TxKey(rec.txid) then RecordAt(db, k)
        else if Decode(rec.txid, Encode(rec)).Record? then Some(Decode(rec.txid, Encode(rec)).rec) else None
    ensures KeyPair(TxKey(rec.txid)).None?
  {
    hide Decode, Encode;
    assert TxKey(rec.txid)[1..33] == rec.txid;
  }

  lemma PutIndex(db: Db, addr: Bytes, txid: Uint256, k: Bytes)
    ensures RecordAt(db[AddrKey(addr, txid) := []], k) == RecordAt(db, k)
    ensures !IsTxKey(AddrKey(addr, txid))
  {
    hide Decode;
  }

  /** What a batch supplies for each key. */
  lemma BatchRecordAt(db: Db, m: Memory, addr: Bytes, rec: TxRecord, k: Bytes)
    ensures RecordAt(Batch(db, m, addr, rec), k) ==
      if rec.txid in m.txs || k != TxKey(rec.txid) then RecordAt(db, k)
      else if Decode(rec.txid, Encode(rec)).Record? then Some(Decode(rec.txid, Encode(rec)).rec) else None
  {
    hide Decode, Encode, RecordAt, AddrKey, TxKey;
    PutRecord(db, rec, k);
    PutIndex(db, addr, rec.txid, k);
    PutIndex(db[TxKey(rec.txid) := Encode(rec)], addr, rec.txid, k);
  }

  lemma BatchReadable(db: Db, m: Memory, addr: Bytes, rec: TxRecord)
    requires Readable(db) && (rec.txid in m.txs || Bounded(rec))
    ensures Readable(Batch(db, m, addr, rec))
  {
    hide Decode, Encode;
    PutIndex(db, addr, rec.txid, []);
    RecordRoundTripIff(rec);
    assert TxKey(rec.txid)[1..33] == rec.txid;
  }

  lemma BatchKnown(db: Db, m: Memory, addr: Bytes, rec: TxRecord)
    requires TxImage(db, m.txs) && rec.txid in m.txs
    ensures TxImage(Batch(db, m, addr, rec), m.txs)
  {
    hide RecordAt, Less;
    var d := Batch(db, m, addr, rec);
    forall k ensures RecordAt(d, k) == RecordAt(db, k) { BatchRecordAt(db, m, addr, rec, k); }
    forall k, x | Supplies(d, k, x) ensures x in m.txs { assert Supplies(db, k, x); }
    forall x | x in m.txs
      ensures exists k :: IsFirst(d, k, x) && RecordAt(d, k) == Some(m.txs[x])
    {
      var k :| IsFirst(db, k, x) && RecordAt(db, k) == Some(m.txs[x]);
      assert IsFirst(d, k, x);
    }
  }

  lemma BatchNew(db: Db, m: Memory, addr: Bytes, rec: TxRecord)
    requires TxImage(db, m.txs) && rec.txid !in m.txs && Bounded(rec)
    ensures TxImage(Batch(db, m, addr, rec), m.txs[rec.txid := rec])
  {
    hide RecordAt, Less, Decode, Encode, TxKey, Batch;
    var d, key, txs := Batch(db, m, addr, rec), TxKey(rec.txid), m.txs[rec.txid := rec];
    RecordRoundTripIff(rec);
    forall k ensures RecordAt(d, k) == if k == key then Some(rec) else RecordAt(db, k) {
      BatchRecordAt(db, m, addr, rec, k);
    }
    forall k | k != key ensures !Supplies(d, k, rec.txid) {
      assert Supplies(db, k, rec.txid) ==> rec.txid in m.txs;
    }
    assert Supplies(d, key, rec.txid);
    assert IsFirst(d, key, rec.txid);
    forall k, x | Supplies(d, k, x) ensures x in txs {
      if k != key { assert Supplies(db, k, x); }
    }
    forall x | x in txs && x != rec.txid
      ensures exists k :: IsFirst(d, k, x) && RecordAt(d, k) == Some(txs[x])
    {
      var k :| IsFirst(db, k, x) && RecordAt(db, k) == Some(m.txs[x]);
      KeyOwner(db, k, x, rec.txid);
      assert IsFirst(d, k, x);
    }
  }

  lemma KeyOwner(db: Db, k: Bytes, x: Uint256, y: Uint256)
    requires Supplies(db, k, x) && x != y
    ensures k != TxKey(y)
  {
    assert TxKey(y)[1..33] == y;
  }

  lemma BatchIndex(db: Db, m: Memory, addr: Bytes, rec: TxRecord)
    requires IndexImage(db, m.index) && NulFree(addr)
    ensures IndexImage(Batch(db, m, addr, rec), Remember(m, addr, rec).index)
  {
    hide KeyPair, Encode, AddrKey, TxKey;
    var d, key, p := Batch(db, m, addr, rec), AddrKey(addr, rec.txid), Pair(addr, rec.txid);
    AddrKeyRoundTripIff(addr, rec.txid);
    PutRecord(db, rec, []);
    assert key in d;
    forall q | q in m.index
      ensures exists k :: k in d && KeyPair(k) == Some(q)
    {
      var k :| k in db && KeyPair(k) == Some(q);
      assert k in d;
    }
  }

  /** After a commit the memory is still the image of the database exactly when the address has no
      zero byte and a record that had to be written has blobs that 32 bits can measure. */
  lemma CommitKeepsImageIff(db: Db, m: Memory, addr: Bytes, rec: TxRecord)
    requires Image(db, m)
    ensures Image(Batch(db, m, addr, rec), Remember(m, addr, rec))
      <==> NulFree(addr) && (rec.txid in m.txs || Bounded(rec))
  {
    hide Readable, TxImage, IndexImage, Batch;
    if NulFree(addr) && (rec.txid in m.txs || Bounded(rec)) {
      BatchReadable(db, m, addr, rec);
      BatchIndex(db, m, addr, rec);
      if rec.txid in m.txs { BatchKnown(db, m, addr, rec); } else { BatchNew(db, m, addr, rec); }
    } else if Image(Batch(db, m, addr, rec), Remember(m, addr, rec)) {
      OnlyNulFree(db, m, addr, rec);
      OnlyBounded(db, m, addr, rec);
    }
  }

  lemma OnlyNulFree(db: Db, m: Memory, addr: Bytes, rec: TxRecord)
    requires IndexImage(Batch(db, m, addr, rec), Remember(m, addr, rec).index)
    ensures NulFree(addr)
  {
    hide KeyPair, Batch;
    assert Pair(addr, rec.txid) in Remember(m, addr, rec).index;
    var k :| k in Batch(db, m, addr, rec) && KeyPair(k) == Some(Pair(addr, rec.txid));
    KeyPairNulFree(k);
  }

  lemma OnlyBounded(db: Db, m: Memory, addr: Bytes, rec: TxRecord)
    requires TxImage(db, m.txs)
    requires TxImage(Batch(db, m, addr, rec), Remember(m, addr, rec).txs)
    ensures rec.txid in m.txs || Bounded(rec)
  {
    hide Decode, Encode, Less, Batch, TxKey;
    var d, txs := Batch(db, m, addr, rec), Remember(m, addr, rec).txs;
    if rec.txid !in m.txs {
      assert rec.txid in txs && txs[rec.txid] == rec;
      var k :| IsFirst(d, k, rec.txid) && RecordAt(d, k) == Some(rec);
      BatchRecordAt(db, m, addr, rec, k);
      assert k != TxKey(rec.txid) ==> Supplies(db, k, rec.txid);
      RecordRoundTripIff(rec);
    }
  }

  // ---- runs of commits ----

  /** One call of CommitTx, whether the disk was full at the time and whether the batch went
      through. */
  datatype Op = Op(addr: Bytes, rec: TxRecord, full: bool, wrote: bool)

  function Run(s: Store, ops: seq<Op>): Store
    decreases |ops|
  {
    if ops == [] then s
    else
      var op := ops[|ops| - 1];
      Commit(Run(s, ops[..|ops| - 1]), op.addr, op.rec, op.full, op.wrote)
  }

  predicate Proper(op: Op) { NulFree(op.addr) && Bounded(op.rec) }

  /** An open store whose memory is the image of its database. */
  ghost predicate Faithful(s: Store) { s.db.Some? && Image(s.db.value, s.mem) }

  /** Write-through over every run: the memory stays what reading the database back would give. */
  lemma {:induction false} RunStaysFaithful(s: Store, ops: seq<Op>)
    requires Faithful(s) && forall i :: 0 <= i < |ops| ==> Proper(ops[i])
    ensures Faithful(Run(s, ops))
    decreases |ops|
  {
    hide Image, NulFree, Bounded, Batch, Remember;
    if ops != [] {
      var before, op := ops[..|ops| - 1], ops[|ops| - 1];
      assert Proper(op);
      RunStaysFaithful(s, before);
      var t := Run(s, before);
      CommitKeepsImageIff(t.db.value, t.mem, op.addr, op.rec);
    }
  }

  /** So closing and opening again restores exactly the memory that was lost. */
  lemma ReopenRestores(s: Store, ops: seq<Op>, keys: seq<Bytes>)
    requires Faithful(s) && forall i :: 0 <= i < |ops| ==> Proper(ops[i])
    requires Run(s, ops).db.Some? ==> Listing(Run(s, ops).db.value, keys)
    ensures Run(s, ops).db.Some? && Load(Run(s, ops).db.value, keys) == Run(s, ops).mem
  {
    hide Listing, Load, TxImage, IndexImage, Run;
    RunStaysFaithful(s, ops);
    var t := Run(s, ops);
    LoadIsImage(t.db.value, keys);
    ImageIsUnique(t.db.value, t.mem, Load(t.db.value, keys));
  }

  /** Whether a call of a run went through: an open database must take the batch, a closed one is not
      asked. */
  predicate Succeeds(open: bool, op: Op) { !op.full && (!open || op.wrote) }

  lemma {:induction false} RunStaysOpen(s: Store, ops: seq<Op>)
    ensures Run(s, ops).db.Some? == s.db.Some?
    decreases |ops|
  {
    hide Batch, Remember;
    if ops != [] { RunStaysOpen(s, ops[..|ops| - 1]); }
  }

  /** The first successful call for a txid. */
  ghost predicate FirstFor(open: bool, ops: seq<Op>, i: int, x: Uint256) {
    && 0 <= i < |ops| && Succeeds(open, ops[i]) && ops[i].rec.txid == x
    && forall j :: 0 <= j < i && Succeeds(open, ops[j]) ==> ops[j].rec.txid != x
  }

  /** First record wins: a record present at the start is never replaced, and every other one is
      that of the first successful call for its txid. */
  lemma {:induction false} FirstRecordWins(s: Store, ops: seq<Op>, x: Uint256)
    ensures var txs, open := Run(s, ops).mem.txs, s.db.Some?;
      && (x in s.mem.txs ==> x in txs && txs[x] == s.mem.txs[x])
      && (x in txs && x !in s.mem.txs ==> exists i :: FirstFor(open, ops, i, x) && txs[x] == ops[i].rec)
      && (x !in txs ==> forall i :: 0 <= i < |ops| && Succeeds(open, ops[i]) ==> ops[i].rec.txid != x)
    decreases |ops|
  {
    hide Batch;
    var open := s.db.Some?;
    if ops != [] {
      var before, op := ops[..|ops| - 1], ops[|ops| - 1];
      FirstRecordWins(s, before, x);
      RunStaysOpen(s, before);
      var txs := Run(s, before).mem.txs;
      if x !in s.mem.txs && x in txs {
        var i :| FirstFor(open, before, i, x) && txs[x] == before[i].rec;
        assert FirstFor(open, ops, i, x);
      } else if x !in txs {
        assert forall i :: 0 <= i < |before| ==> before[i] == ops[i];
        assert x in Run(s, ops).mem.txs ==> FirstFor(open, ops, |ops| - 1, x);
      }
    }
  }

  /** Every entry of the address index has its record. */
  ghost predicate Backed(m: Memory) { forall p :: p in m.index ==> p.txid in m.txs }

  /** Call i of the run went through and is for that pair. */
  predicate Puts(open: bool, ops: seq<Op>, i: int, p: Pair) {
    0 <= i < |ops| && Succeeds(open, ops[i]) && Pair(ops[i].addr, ops[i].rec.txid) == p
  }

  /** The index holds what it held and the pair of every successful call, each with its record. */
  lemma {:induction false} IndexIsBacked(s: Store, ops: seq<Op>)
    requires Backed(s.mem)
    ensures var m := Run(s, ops).mem;
      && Backed(m)
      && forall p :: p in m.index <==> p in s.mem.index || exists i :: Puts(s.db.Some?, ops, i, p)
    decreases |ops|
  {
    hide Batch;
    var open := s.db.Some?;
    if ops != [] {
      var before, op := ops[..|ops| - 1], ops[|ops| - 1];
      IndexIsBacked(s, before);
      RunStaysOpen(s, before);
      var m, n := Run(s, before).mem, Run(s, ops).mem;
      forall p
        ensures p in n.index <==> p in s.mem.index || exists i :: Puts(open, ops, i, p)
      {
        if p in m.index && p !in s.mem.index {
          var i :| Puts(open, before, i, p);
          assert Puts(open, ops, i, p);
        } else if p !in m.index {
          assert forall i :: 0 <= i < |before| ==> Puts(open, before, i, p) == Puts(open, ops, i, p);
          assert p in n.index ==> Puts(open, ops, |ops| - 1, p);
        }
      }
    }
  }

  // ---- clearing the memory ----

  /** ClearMemory leaves the database as it is, so the memory is then its image only if the database
      holds nothing readable. */
  lemma ClearedIsImageIff(db: Db)
    requires Readable(db)
    ensures Image(db, NOTHING) <==> forall k :: k in db ==> RecordAt(db, k).None? && KeyPair(k).None?
  {
    hide Readable, KeyPair, Decode;
    if Image(db, NOTHING) {
      forall k | k in db ensures RecordAt(db, k).None? && KeyPair(k).None? {
        assert RecordAt(db, k).Some? ==> Supplies(db, k, RecordAt(db, k).value.txid);
      }
    }
  }

  /** After it the first record no longer wins: the next commit for a txid overwrites the record in
      the database, whatever it was. */
  lemma ClearedThenOverwritten(db: Db, addr: Bytes, rec: TxRecord)
    ensures var d := Commit(Store(Some(db), NOTHING), addr, rec, false, true).db.value;
      TxKey(rec.txid) in d && d[TxKey(rec.txid)] == Encode(rec)
  {
    hide Encode;
    assert TxKey(rec.txid)[0] != AddrKey(addr, rec.txid)[0];
  }

  // ---- the object ----

  /** CLightWatchStore. */
  class LightWatchStore {
    var db: Option<Db>
    var txs: map<Uint256, TxRecord>
    var index: set<Pair>
    var diskFull: bool

    ghost function View(): Store
      reads this
    {
      Store(db, Memory(txs, index))
    }

    constructor ()
      ensures View() == Store(None, NOTHING) && !diskFull
    {
      db, txs, index, diskFull := None, map[], {}, false;
    }

    /** Open: `found` is what LevelDB opens at the path, if it can, and `keys` what its iterator
        visits. The memory becomes the image of what is found. */
    method Open(found: Option<Db>, keys: seq<Bytes>) returns (ok: bool)
      requires found.Some? ==> Listing(found.value, keys) && Readable(found.value)
      modifies this
      ensures ok == found.Some? && db == found && diskFull == old(diskFull)
      ensures ok ==> Faithful(View())
      ensures !ok ==> View().mem == NOTHING
    {
      hide Load, Readable, TxImage, IndexImage;
      Close();
      if found.None? { return false; }
      db := found;
      LoadFromDB(keys);
      LoadIsImage(found.value, keys);
      ok := true;
    }

    method Close()
      modifies this
      ensures View() == Store(None, NOTHING) && diskFull == old(diskFull)
    {
      db := None;
      txs, index := map[], {};
    }

    method ClearMemory()
      modifies this
      ensures View() == Store(old(db), NOTHING) && diskFull == old(diskFull)
    {
      txs, index := map[], {};
    }

    /** LoadFromDB over the keys the iterator gives. */
    method LoadFromDB(keys: seq<Bytes>)
      requires db.Some? && View().mem == NOTHING
      requires forall k :: k in keys ==> k in db.value
      requires Readable(db.value)
      modifies this
      ensures db == old(db) && diskFull == old(diskFull)
      ensures View().mem == Load(db.value, keys)
    {
      hide Decode, Readable;
      for i := 0 to |keys|
        invariant db == old(db) && diskFull == old(diskFull)
        invariant View().mem == Load(db.value, keys[..i])
      {
        var key := keys[i];
        assert keys[..i + 1][..i] == keys[..i] && keys[..i + 1][i] == key;
        if |key| >= 33 && key[0] == 1 {
          var d := Decode(key[1..33], db.value[key]);
          if d.Record? && d.rec.txid !in txs {
            txs := txs[d.rec.txid := d.rec];
          }
        } else if |key| > 33 && key[0] == 2 {
          var rest := key[1..];
          var sep := FirstNul(rest);
          if sep != |rest| && |rest| - sep == 33 {
            index := index + {Pair(rest[..sep], rest[sep + 1..])};
          }
        }
      }
      assert keys[..|keys|] == keys;
    }

    /** CommitTx; `wrote` is whether the database takes the batch. Nothing changes on failure. */
    method CommitTx(addr: Bytes, rec: TxRecord, wrote: bool) returns (ok: bool)
      modifies this
      ensures ok == Commits(old(View()), diskFull, wrote) && diskFull == old(diskFull)
      ensures View() == Commit(old(View()), addr, rec, diskFull, wrote)
    {
      if diskFull { return false; }
      if db.Some? {
        var d := db.value;
        if rec.txid !in txs {
          d := d[TxKey(rec.txid) := Encode(rec)];
        }
        d := d[AddrKey(addr, rec.txid) := []];
        if !wrote { return false; }
        db := Some(d);
      }
      if rec.txid !in txs {
        txs := txs[rec.txid := rec];
      }
      index := index + {Pair(addr, rec.txid)};
      ok := true;
    }

    /** GetTx answers for the database without reading it: while the memory is its image, what is found
        is the first readable record of that txid, and nothing is found only if there is none. */
    method GetTx(txid: Uint256) returns (found: Option<TxRecord>)
      ensures found.Some? <==> txid in txs
      ensures found.Some? ==> found.value == txs[txid]
      ensures Faithful(View()) && found.Some? ==>
        exists k :: IsFirst(db.value, k, txid) && RecordAt(db.value, k) == found
      ensures Faithful(View()) && found.None? ==> forall k :: !Supplies(db.value, k, txid)
    {
      found := if txid in txs then Some(txs[txid]) else None;
    }
  }
}
