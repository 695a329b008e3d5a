/** The framing of P2P messages over a byte stream that arrives in chunks. */
module Message {
  import opened Words
  import opened Sha256

  const HEADER_SIZE := 24
  const COMMAND_SIZE := 12
  const MAX_PAYLOAD := 0x200_0000

  datatype LightMessage = LightMessage(command: Bytes, payload: Bytes)

  // ---- frames ----

  /** The first four bytes of SHA256D, as a little-endian word. */
  function Checksum(payload: Bytes): u32 { ReadU32(Sha256d(payload), 0) }

  /** On the wire it is the first four bytes of the double hash. */
  lemma ChecksumBytes(payload: Bytes)
    ensures LE(Checksum(payload), 4) == Sha256d(payload)[..4]
  {
    hide Sha256d, LE;
    U32Written(Sha256d(payload), 0);
  }

  /** What EncodeMessage accepts. */
  predicate Fits(m: LightMessage) { |m.command| <= COMMAND_SIZE && |m.payload| <= MAX_PAYLOAD }

  function FrameHeader(magic: Bytes, m: LightMessage): (h: Bytes)
    requires |magic| == 4 && Fits(m)
    ensures |h| == HEADER_SIZE
  {
    magic + (m.command + Zeros(COMMAND_SIZE - |m.command|)) + LE(|m.payload|, 4) + LE(Checksum(m.payload), 4)
  }

  function Frame(magic: Bytes, m: LightMessage): Bytes
    requires |magic| == 4 && Fits(m)
  {
    FrameHeader(magic, m) + m.payload
  }

  // ---- reading a frame off a stream ----

  datatype Parsed = Got(msg: LightMessage, rest: Bytes) | Refused

  /** What ReadMessage makes of a stream: the message in front and what follows it, or a refusal. */
  function ParseFrame(magic: Bytes, s: Bytes): Parsed
    requires |magic| == 4
  {
    if |s| < HEADER_SIZE || s[..4] != magic then Refused
    else
      var n := ReadU32(s, 16);
      if n > MAX_PAYLOAD || |s| < HEADER_SIZE + n then Refused
      else
        var payload := s[HEADER_SIZE..HEADER_SIZE + n];
        if Checksum(payload) != ReadU32(s, 20) then Refused
        else Got(LightMessage(s[4..4 + FirstNul(s[4..16])], payload), s[HEADER_SIZE + n..])
  }

  lemma FrameParts(magic: Bytes, m: LightMessage, rest: Bytes)
    requires |magic| == 4 && Fits(m)
    ensures var s := Frame(magic, m) + rest;
      && |s| == HEADER_SIZE + |m.payload| + |rest|
      && s[..4] == magic
      && s[4..16] == m.command + Zeros(COMMAND_SIZE - |m.command|)
      && s[16..20] == LE(|m.payload|, 4) && s[20..24] == LE(Checksum(m.payload), 4)
      && s[24..24 + |m.payload|] == m.payload && s[24 + |m.payload|..] == rest
  {
    hide LE, Checksum, Zeros;
  }

  lemma {:induction false} CutLength(s: Bytes, n: nat)
    ensures FirstNul(s + Zeros(n)) == FirstNul(s)
  {
    if s == [] {
      assert s + Zeros(n) == Zeros(n);
    } else {
      assert (s + Zeros(n))[1..] == s[1..] + Zeros(n);
      CutLength(s[1..], n);
    }
  }

  lemma CommandOf(s: Bytes)
    requires |s| >= 16
    ensures s[4..16][..FirstNul(s[4..16])] == s[4..4 + FirstNul(s[4..16])]
  {}

  lemma CutCommand(c: Bytes, field: Bytes, n: nat)
    requires field == c + Zeros(n)
    ensures field[..FirstNul(field)] == c[..FirstNul(c)]
    ensures c[..FirstNul(c)] == c <==> NulFree(c)
  {
    hide FirstNul;
    CutLength(c, n);
    var k := FirstNul(c);
    assert |c[..k]| == k;
    assert k < |c| ==> c[k] == 0;
  }

  /** A frame at the head of a stream is read back, leaving what follows it, exactly when its command
      has no zero byte; otherwise the command comes back cut off there. */
  lemma FrameRoundTrip(magic: Bytes, m: LightMessage, rest: Bytes)
    requires |magic| == 4 && Fits(m)
    ensures ParseFrame(magic, Frame(magic, m) + rest)
         == Got(LightMessage(m.command[..FirstNul(m.command)], m.payload), rest)
    ensures ParseFrame(magic, Frame(magic, m) + rest) == Got(m, rest) <==> NulFree(m.command)
  {
    hide LE, Checksum, Frame, ReadU32, FirstNul;
    var s := Frame(magic, m) + rest;
    FrameParts(magic, m, rest);
    U32RoundTrip(|m.payload|, s, 16);
    U32RoundTrip(Checksum(m.payload), s, 20);
    CommandOf(s);
    CutCommand(m.command, s[4..16], COMMAND_SIZE - |m.command|);
  }

  /** What has been read is the encoding of the message, up to the bytes of the command field behind
      the command: the magic, the length and the checksum are fixed, those bytes are not looked at. */
  lemma ReadIsFrameIff(magic: Bytes, s: Bytes)
    requires |magic| == 4 && ParseFrame(magic, s).Got?
    ensures var m, rest := ParseFrame(magic, s).msg, ParseFrame(magic, s).rest;
      && Fits(m) && NulFree(m.command)
      && (s == Frame(magic, m) + rest <==> s[4 + |m.command|..16] == Zeros(COMMAND_SIZE - |m.command|))
  {
    hide Checksum, FirstNul, ReadU32, Frame, LE;
    var m, rest := ParseFrame(magic, s).msg, ParseFrame(magic, s).rest;
    var k := |m.command|;
    assert s[4..16] == m.command + s[4 + k..16];
    U32Written(s, 16);
    U32Written(s, 20);
    FrameParts(magic, m, rest);
    if s == Frame(magic, m) + rest {
      assert s[4..16][k..] == Zeros(COMMAND_SIZE - k);
    }
    Parts(s, |m.payload|);
    if s[4 + k..16] == Zeros(COMMAND_SIZE - k) {
      SplitFrame(magic, m, rest);
    }
  }

  lemma Parts(s: Bytes, n: nat)
    requires 24 + n <= |s|
    ensures s == s[..4] + s[4..16] + s[16..20] + s[20..24] + s[24..24 + n] + s[24 + n..]
  {}

  lemma SplitFrame(magic: Bytes, m: LightMessage, rest: Bytes)
    requires |magic| == 4 && Fits(m)
    ensures Frame(magic, m) + rest
         == magic + (m.command + Zeros(COMMAND_SIZE - |m.command|)) + LE(|m.payload|, 4)
            + LE(Checksum(m.payload), 4) + m.payload + rest
  {
    hide Checksum, LE, Zeros;
  }

  // ---- streams of frames ----

  function Frames(magic: Bytes, ms: seq<LightMessage>): Bytes
    requires |magic| == 4 && forall i :: 0 <= i < |ms| ==> Fits(ms[i])
  {
    if ms == [] then [] else Frame(magic, ms[0]) + Frames(magic, ms[1..])
  }

  /** Reading n messages one after the other: the messages before the first refusal, and the stream
      that is left. */
  function ParseFrames(magic: Bytes, s: Bytes, n: nat): (seq<LightMessage>, Bytes)
    requires |magic| == 4
  {
    if n == 0 then ([], s)
    else
      match ParseFrame(magic, s)
      case Refused => ([], s)
      case Got(m, rest) => var r := ParseFrames(magic, rest, n - 1); ([m] + r.0, r.1)
  }

  /** A whole conversation comes back message by message. */
  lemma {:induction false} StreamRoundTrip(magic: Bytes, ms: seq<LightMessage>, rest: Bytes)
    requires |magic| == 4 && forall i :: 0 <= i < |ms| ==> Fits(ms[i]) && NulFree(ms[i].command)
    ensures ParseFrames(magic, Frames(magic, ms) + rest, |ms|) == (ms, rest)
  {
    hide Frame, ParseFrame, Fits, NulFree;
    if ms == [] {
      assert Frames(magic, ms) + rest == rest;
    } else {
      var more := Frames(magic, ms[1..]) + rest;
      assert Frames(magic, ms) + rest == Frame(magic, ms[0]) + more;
      FrameRoundTrip(magic, ms[0], more);
      StreamRoundTrip(magic, ms[1..], rest);
      assert [ms[0]] + ms[1..] == ms;
    }
  }

  // ---- the socket ----

  /** The bytes that can be read before the next timeout or the end of the connection. Chunks are
      what the network delivers; an empty one stands for a receive timeout. */
  function Available(chunks: seq<Bytes>): Bytes {
    if chunks == [] || chunks[0] == [] then [] else chunks[0] + Available(chunks[1..])
  }

  /** Without timeouts every chunking of a byte string makes the same stream. */
  lemma {:induction false} ChunksMakeStream(chunks: seq<Bytes>)
    requires forall i :: 0 <= i < |chunks| ==> chunks[i] != []
    ensures Available(chunks) == Concat(chunks)
  {
    if chunks != [] { ChunksMakeStream(chunks[1..]); }
  }

  /** A conversation is recovered message by message under every split into nonempty chunks. */
  lemma SplitRoundTrip(magic: Bytes, ms: seq<LightMessage>, rest: Bytes, chunks: seq<Bytes>)
    requires |magic| == 4 && forall i :: 0 <= i < |ms| ==> Fits(ms[i]) && NulFree(ms[i].command)
    requires forall i :: 0 <= i < |chunks| ==> chunks[i] != []
    requires Concat(chunks) == Frames(magic, ms) + rest
    ensures ParseFrames(magic, Available(chunks), |ms|) == (ms, rest)
  {
    ChunksMakeStream(chunks);
    StreamRoundTrip(magic, ms, rest);
  }

  class LightSocket {
    var chunks: seq<Bytes>
    var connected: bool

    constructor (chunks: seq<Bytes>)
      ensures this.chunks == chunks && connected
    {
      this.chunks, connected := chunks, true;
    }

    function Stream(): Bytes
      reads this
    {
      if connected then Available(chunks) else []
    }

    /** RecvSome into buf[at..]: at least one byte if one is available, and at most n. */
    method RecvSome(buf: array<u8>, at: nat, n: nat) returns (got: nat)
      requires 0 < n <= buf.Length - at
      modifies this, buf
      ensures got <= n && (got == 0 <==> old(Stream()) == [])
      ensures got <= |old(Stream())| && buf[..at + got] == old(buf[..at]) + old(Stream())[..got]
      ensures got > 0 ==> connected && Stream() == old(Stream())[got..]
    {
      ghost var stream, before := Stream(), buf[..at];
      if !connected { return 0; }
      if chunks == [] { Close(); return 0; }
      var chunk := chunks[0];
      if chunk == [] { chunks := chunks[1..]; return 0; }
      got := if |chunk| <= n then |chunk| else n;
      for i := 0 to got
        modifies buf
        invariant buf[..at + i] == before + chunk[..i]
      {
        buf[at + i] := chunk[i];
        assert buf[..at + i + 1] == buf[..at + i] + [chunk[i]];
        assert chunk[..i + 1] == chunk[..i] + [chunk[i]];
      }
      assert stream == chunk + Available(chunks[1..]);
      assert stream[..got] == chunk[..got];
      if got == |chunk| {
        chunks := chunks[1..];
        assert stream[got..] == Available(chunks);
      } else {
        chunks := [chunk[got..]] + chunks[1..];
        assert stream[got..] == chunk[got..] + Available(chunks[1..]);
      }
    }

    method Close()
      modifies this
      ensures !connected && Stream() == []
    {
      connected := false;
    }
  }

  /** ReadExact: fills the whole buffer from the stream, however it is cut, or fails because the
      stream is too short. */
  method ReadExact(sock: LightSocket, buf: array<u8>) returns (ok: bool)
    modifies sock, buf
    ensures ok <==> buf.Length <= |old(sock.Stream())|
    ensures ok ==> buf[..] == old(sock.Stream())[..buf.Length]
    ensures ok ==> sock.Stream() == old(sock.Stream())[buf.Length..]
    ensures ok && old(sock.connected) ==> sock.connected
  {
    hide LightSocket.Stream;
    ghost var stream := sock.Stream();
    var got := 0;
    while got < buf.Length
      invariant got <= buf.Length && got <= |stream|
      invariant buf[..got] == stream[..got] && sock.Stream() == stream[got..]
      invariant old(sock.connected) ==> sock.connected
    {
      var n := sock.RecvSome(buf, got, buf.Length - got);
      if n == 0 { return false; }
      assert stream[got..][..n] == stream[got..got + n];
      assert stream[..got] + stream[got..got + n] == stream[..got + n];
      got := got + n;
    }
    return true;
  }

  method VerifyChecksum(payload: Bytes, checksum: u32) returns (ok: bool)
    ensures ok <==> Checksum(payload) == checksum
  {
    hide Sha256d;
    var hash := HashTwice(payload);
    ok := ReadU32(hash, 0) == checksum;
  }

  /** ReadMessage depends on the stream alone, not on how it is cut into chunks: it returns what
      ParseFrame reads, and closes the connection otherwise. */
  method ReadMessage(sock: LightSocket, magic: Bytes) returns (ok: bool, msg: LightMessage)
    requires |magic| == 4
    modifies sock
    ensures ok <==> ParseFrame(magic, old(sock.Stream())).Got?
    ensures ok ==> ParseFrame(magic, old(sock.Stream())) == Got(msg, sock.Stream())
    ensures !ok ==> !sock.connected
  {
    hide Checksum, ReadU32, FirstNul, LightSocket.Stream;
    ghost var stream := sock.Stream();
    msg := LightMessage([], []);
    var header := new u8[HEADER_SIZE];
    ok := ReadExact(sock, header);
    if !ok { sock.Close(); return; }
    var h := header[..];
    assert h[..4] == stream[..4];
    if h[..4] != magic { sock.Close(); return false, msg; }
    var cmd := h[4..16];
    assert cmd == stream[4..16];
    CommandOf(stream);
    msg := msg.(command := cmd[..FirstNul(cmd)]);
    WordsOfPrefix(h, stream);
    var n, sum := ReadU32(h, 16), ReadU32(h, 20);
    if n > MAX_PAYLOAD { sock.Close(); return false, msg; }
    var payload := new u8[n];
    if n > 0 {
      ok := ReadExact(sock, payload);
      if !ok { sock.Close(); return; }
    }
    msg := msg.(payload := payload[..]);
    TakeDrop(stream, 24, n);
    assert msg.payload == stream[24..24 + n];
    ok := VerifyChecksum(msg.payload, sum);
    if !ok { sock.Close(); return; }
    DropDrop(stream, 24, n);
    ok := true;
  }

  lemma DropDrop(s: Bytes, a: nat, b: nat)
    requires a + b <= |s|
    ensures s[a..][b..] == s[a + b..]
  {}

  lemma TakeDrop(s: Bytes, a: nat, b: nat)
    requires a + b <= |s|
    ensures s[a..][..b] == s[a..a + b]
  {}

  lemma WordsOfPrefix(h: Bytes, s: Bytes)
    requires |h| == 24 <= |s| && h == s[..24]
    ensures ReadU32(h, 16) == ReadU32(s, 16) && ReadU32(h, 20) == ReadU32(s, 20)
  {
    assert h[16..20] == s[16..20];
    assert h[20..24] == s[20..24];
  }

  /** s with src written over it at a position. */
  function Splice(s: Bytes, at: nat, src: Bytes): (r: Bytes)
    requires at + |src| <= |s|
    ensures |r| == |s|
  {
    s[..at] + src + s[at + |src|..]
  }

  /** memcpy into a buffer. */
  method CopyTo(out: array<u8>, at: nat, src: Bytes)
    requires at + |src| <= out.Length
    modifies out
    ensures out[..] == Splice(old(out[..]), at, src)
  {
    ghost var was := out[..];
    for i := 0 to |src|
      invariant out[..] == was[..at] + src[..i] + was[at + i..]
    {
      out[at + i] := src[i];
      assert src[..i + 1] == src[..i] + [src[i]];
    }
    assert src[..|src|] == src;
  }

  /** The writes of EncodeMessage cover the buffer and leave the frame in it. */
  lemma WritesMakeFrame(s: Bytes, magic: Bytes, m: LightMessage)
    requires |magic| == 4 && Fits(m) && |s| == HEADER_SIZE + |m.payload|
    ensures var a := Splice(Splice(Splice(s, 0, magic), 4, Zeros(COMMAND_SIZE)), 4, m.command);
      var b := Splice(Splice(a, 16, LE(|m.payload|, 4)), 20, LE(Checksum(m.payload), 4));
      Splice(b, HEADER_SIZE, m.payload) == Frame(magic, m)
  {
    hide Checksum, LE, Frame, Zeros;
    var a := Splice(Splice(Splice(s, 0, magic), 4, Zeros(COMMAND_SIZE)), 4, m.command);
    FirstWrites(s, magic, Zeros(COMMAND_SIZE), m.command);
    ZerosTail(COMMAND_SIZE, |m.command|);
    var n, c := LE(|m.payload|, 4), LE(Checksum(m.payload), 4);
    LaterWrites(a, n, c, m.payload);
    SplitFrame(magic, m, []);
    assert Frame(magic, m) + [] == Frame(magic, m);
    assert a[..16] == magic + (m.command + Zeros(COMMAND_SIZE - |m.command|));
  }

  lemma FirstWrites(s: Bytes, magic: Bytes, zeros: Bytes, command: Bytes)
    requires |magic| == 4 && |command| <= |zeros| == COMMAND_SIZE && |s| >= HEADER_SIZE
    ensures Splice(Splice(Splice(s, 0, magic), 4, zeros), 4, command)[..16]
         == magic + (command + zeros[|command|..])
  {}

  lemma ZerosTail(n: nat, k: nat)
    requires k <= n
    ensures Zeros(n)[k..] == Zeros(n - k)
  {}

  lemma LaterWrites(a: Bytes, n: Bytes, c: Bytes, payload: Bytes)
    requires |n| == 4 && |c| == 4 && |a| == HEADER_SIZE + |payload|
    ensures Splice(Splice(Splice(a, 16, n), 20, c), HEADER_SIZE, payload) == a[..16] + n + c + payload
  {}

  lemma SpliceNothing(s: Bytes, at: nat, src: Bytes)
    requires at <= |s| && src == []
    ensures Splice(s, at, src) == s
  {}

  /** EncodeMessage. */
  method EncodeMessage(magic: Bytes, m: LightMessage) returns (ok: bool, out: array<u8>)
    requires |magic| == 4
    ensures ok <==> Fits(m)
    ensures ok ==> fresh(out) && out[..] == Frame(magic, m)
  {
    hide Sha256d, ReadU32, LE, Frame, Splice;
    if |m.command| > COMMAND_SIZE || |m.payload| > MAX_PAYLOAD {
      out := new u8[0];
      return false, out;
    }
    out := new u8[HEADER_SIZE + |m.payload|];
    ghost var blank := out[..];
    CopyTo(out, 0, magic);
    CopyTo(out, 4, Zeros(COMMAND_SIZE));
    CopyTo(out, 4, m.command);
    CopyTo(out, 16, LE(|m.payload|, 4));
    var hash := HashTwice(m.payload);
    CopyTo(out, 20, LE(ReadU32(hash, 0), 4));
    if m.payload != [] {
      CopyTo(out, HEADER_SIZE, m.payload);
    } else {
      SpliceNothing(out[..], HEADER_SIZE, m.payload);
    }
    WritesMakeFrame(blank, magic, m);
    ok := true;
  }
}
