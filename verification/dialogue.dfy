/**
 The conversation seen from a client that keeps to the protocol.

 Requests and replies are values here, with their own encoding; the theorem says that such a
 client, decrypting with the key it derived itself, finds exactly one reply per request, in order.
 */
module Dialogue {
  import opened Bytes
  import opened Ciphers
  import opened NetStructs
  import opened Options
  import opened Reading
  import opened Resumption
  import opened Framing
  import opened UruCrypt
  import opened Conversation

  datatype Request =
    | Ping(time: nat, transId: nat, payload: seq<byte>)
    | FileServer(transId: nat, isPatcher: byte)
    | AuthServer(transId: nat)

  // What fits the slack of the receive buffers.
  const MAX_PAYLOAD: nat := 26
  const MAX_HELLO: nat := 29
  const TWO32: nat := 0x1_0000_0000

  predicate RequestOk(q: Request) {
    && q.transId < TWO32
    && (q.Ping? ==> q.time < TWO32 && |q.payload| <= MAX_PAYLOAD)
  }

  function Encode(q: Request): seq<byte> {
    match q
    case Ping(time, transId, payload) =>
      ToLE(PING, 2) + ToLE(time, 4) + ToLE(transId, 4) + ToLE(|payload|, 4) + payload
    case FileServer(transId, isPatcher) => ToLE(FILE_SRV, 2) + ToLE(transId, 4) + [isPatcher]
    case AuthServer(transId) => ToLE(AUTH_SRV, 2) + ToLE(transId, 4)
  }

  /** A ping comes back as it is; an address request gets the address, under its transaction id. */
  function ReplyTo(cfg: Config, q: Request): seq<byte> {
    match q
    case Ping(_, _, _) => Encode(q)
    case FileServer(transId, _) => AddressReply(ToLE(transId, 4), cfg.fileAddr)
    case AuthServer(transId) => AddressReply(ToLE(transId, 4), cfg.authAddr)
  }

  function EncodeAll(qs: seq<Request>): seq<byte> {
    if qs == [] then [] else Encode(qs[0]) + EncodeAll(qs[1..])
  }

  function RepliesTo(cfg: Config, qs: seq<Request>): seq<byte> {
    if qs == [] then [] else ReplyTo(cfg, qs[0]) + RepliesTo(cfg, qs[1..])
  }

  lemma TypeBytes(ty: nat)
    requires ty <= AUTH_SRV
    ensures FromLE(ToLE(ty, 2)) == ty
  {
    Pow256Of4();
    LERoundTrip(ty, 2);
  }

  lemma FixedFrame(ns: NetStruct, d: seq<byte>)
    requires TailVariable(ns) && !IsVariable(ns[|ns| - 1]) && |d| >= MemSize(ns)
    ensures FrameOf(ns, d) == Message(MemSize(ns))
  {
    FixedWire(ns, |ns| - 1);
    CapacitySlack(MemSize(ns));
    assert MemOff(ns, |ns|) == TailAt(ns) + DeclaredSz(ns[|ns| - 1]);
  }

  lemma PingFrame(time: nat, transId: nat, payload: seq<byte>, more: seq<byte>)
    requires |payload| <= MAX_PAYLOAD
    ensures WellFormed(PING_REQUEST)
    ensures var msg := Encode(Ping(time, transId, payload)); FrameOf(PING_REQUEST, msg + more) == Message(|msg|)
  {
    RequestTables();
    var head := ToLE(PING, 2) + ToLE(time, 4) + ToLE(transId, 4);
    var size := ToLE(|payload|, 4);
    var d := head + size + payload + more;
    BufferFrame(PING_REQUEST, head, payload, more);
    assert Encode(Ping(time, transId, payload)) + more == d;
  }

  /** A descriptor that ends in a plain buffer, on bytes whose size field tells the truth. */
  lemma BufferFrame(ns: NetStruct, head: seq<byte>, payload: seq<byte>, more: seq<byte>)
    requires EndsInBuffer(ns, false) && |head| + 4 == MemSize(ns)
    requires |payload| <= Capacity(MemSize(ns)) - MemSize(ns)
    ensures FrameOf(ns, head + ToLE(|payload|, 4) + payload + more) == Message(MemSize(ns) + |payload|)
  {
    CapacitySlack(MemSize(ns));
    hide CalcFieldSz, FrameOf, MemOff, MemSize, Capacity, WellFormed, TailAt, Announced, EndsInBuffer, FromLE, ToLE;
    var d := head + ToLE(|payload|, 4) + payload + more;
    AnnouncedIs(ns, head, |payload|, payload + more, false);
    assert head + ToLE(|payload|, 4) + (payload + more) == d;
    PlainBufferSizes(ns, d);
  }

  lemma RedundantFrame(ns: NetStruct, head: seq<byte>, payload: seq<byte>, more: seq<byte>)
    requires EndsInBuffer(ns, true) && |head| + 4 == MemSize(ns)
    requires |payload| <= Capacity(MemSize(ns)) - MemSize(ns)
    ensures FrameOf(ns, head + ToLE(|payload| + 4, 4) + payload + more) == Message(MemSize(ns) + |payload|)
  {
    CapacitySlack(MemSize(ns));
    hide CalcFieldSz, FrameOf, MemOff, MemSize, Capacity, WellFormed, TailAt, Announced, EndsInBuffer, FromLE, ToLE;
    var d := head + ToLE(|payload| + 4, 4) + payload + more;
    AnnouncedIs(ns, head, |payload| + 4, payload + more, true);
    assert head + ToLE(|payload| + 4, 4) + (payload + more) == d;
    RedundantBufferSizes(ns, d);
  }

  lemma AnnouncedIs(ns: NetStruct, head: seq<byte>, size: nat, rest: seq<byte>, redundant: bool)
    requires EndsInBuffer(ns, redundant) && |head| + 4 == MemSize(ns) && size <= 36
    ensures TailAt(ns) == MemSize(ns) && Announced(ns, head + ToLE(size, 4) + rest) == size
    ensures size <= 36 && Capacity(MemSize(ns)) - MemSize(ns) <= 32
  {
    var d := head + ToLE(size, 4) + rest;
    assert MemOff(ns, |ns|) == TailAt(ns) + DeclaredSz(ns[|ns| - 1]);
    assert d[TailAt(ns) - 4..TailAt(ns)] == ToLE(size, 4);
    Pow256Of4();
    LERoundTrip(size, 4);
    CapacitySlack(MemSize(ns));
  }

  /** A request in front of anything is the next message, and its reply is the one it should get. */
  lemma OneRequest(cfg: Config, q: Request, more: seq<byte>)
    requires RequestOk(q)
    ensures |Encode(q)| >= 6
    ensures NextMessage(AwaitMessage, Encode(q) + more) == Take(|Encode(q)|)
    ensures Reply(cfg, Encode(q)) == ReplyTo(cfg, q)
  {
    hide FrameOf, Capacity;
    var msg := Encode(q);
    RequestTables();
    var ty := if q.Ping? then PING else if q.FileServer? then FILE_SRV else AUTH_SRV;
    TypeBytes(ty);
    assert msg[..2] == (msg + more)[..2] == ToLE(ty, 2);
    match q
    case Ping(time, transId, payload) => PingFrame(time, transId, payload, more);
    case FileServer(transId, _) =>
      FixedFrame(FILE_SRV_REQUEST, msg + more);
      assert msg[2..6] == ToLE(transId, 4);
    case AuthServer(transId) =>
      FixedFrame(AUTH_SRV_REQUEST, msg + more);
      assert msg[2..6] == ToLE(transId, 4);
  }

  /** One reply per request, in order, each at its own place in both keystreams. */
  lemma {:induction false} RequestsAnswered(cfg: Config, enc: Cipher, dec: Cipher, qs: seq<Request>)
    requires ConfigOk(cfg) && forall i :: 0 <= i < |qs| ==> RequestOk(qs[i])
    ensures Converse(cfg, Conv(AwaitMessage, enc, dec), Crypt(dec, EncodeAll(qs))) ==
      Transcript(Conv(AwaitMessage, Advance(enc, |RepliesTo(cfg, qs)|), Advance(dec, |EncodeAll(qs)|)),
        Crypt(enc, RepliesTo(cfg, qs)), [])
    decreases |qs|
  {
    hide Crypt, Advance, Encode, Reply, ReplyTo, NextMessage, Converse;
    var c := Conv(AwaitMessage, enc, dec);
    AdvanceTwice(enc, 0, 0);
    AdvanceTwice(dec, 0, 0);
    var plain := EncodeAll(qs);
    var raw := Crypt(dec, plain);
    CryptInvolution(dec, plain);
    if qs == [] {
      NothingHeard(cfg, c);
      assert raw == [] && Crypt(enc, []) == [];
    } else {
      var msg, rest := Encode(qs[0]), EncodeAll(qs[1..]);
      var reply, replies := ReplyTo(cfg, qs[0]), RepliesTo(cfg, qs[1..]);
      OneRequest(cfg, qs[0], rest);
      TakeThen(cfg, c, raw, |msg|);
      assert plain[..|msg|] == msg;
      CryptSplit(dec, msg, rest);
      assert raw[|msg|..] == Crypt(Advance(dec, |msg|), rest);
      RequestsAnswered(cfg, Advance(enc, |reply|), Advance(dec, |msg|), qs[1..]);
      AdvanceTwice(enc, |reply|, |replies|);
      AdvanceTwice(dec, |msg|, |rest|);
      CryptSplit(enc, reply, replies);
    }
  }

  lemma NothingHeard(cfg: Config, c: Conv)
    requires ConfigOk(cfg) && c.stage.AwaitMessage?
    ensures Converse(cfg, c, []) == Transcript(c, [], [])
  {
  }

  // --- What the client reads ------------------------------------------------------------------

  /** A reply as a client takes it apart. */
  datatype Answered = Pong(time: nat, transId: nat, payload: seq<byte>) | Address(transId: nat, chars: seq<nat>)

  function Chars(s: seq<byte>): (chars: seq<nat>)
    requires |s| % 2 == 0
    ensures |chars| == |s| / 2
  {
    seq(|s| / 2, i requires 0 <= i < |s| / 2 => FromLE(s[2 * i..2 * i + 2]))
  }

  /** The first reply in some bytes, and its length. */
  function FirstReply(d: seq<byte>): (r: Option<(Answered, nat)>)
    ensures r.Some? ==> 0 < r.value.1 <= |d|
  {
    if |d| >= 14 && FromLE(d[..2]) == 0 && |d| >= 14 + FromLE(d[10..14]) then
      var n := 14 + FromLE(d[10..14]);
      Some((Pong(FromLE(d[2..6]), FromLE(d[6..10]), d[14..n]), n))
    else if |d| >= 8 && FromLE(d[..2]) == 1 && |d| >= 8 + 2 * FromLE(d[6..8]) then
      var n := 8 + 2 * FromLE(d[6..8]);
      Some((Address(FromLE(d[2..6]), Chars(d[8..n])), n))
    else None
  }

  function ReadReplies(d: seq<byte>): seq<Answered>
    decreases |d|
  {
    var first := FirstReply(d);
    if first.None? then [] else [first.value.0] + ReadReplies(d[first.value.1..])
  }

  /** What a request is to be answered with. */
  predicate AnsweredBy(cfg: Config, q: Request, a: Answered) {
    match q
    case Ping(time, transId, payload) => a == Pong(time, transId, payload)
    case FileServer(transId, _) => a.Address? && a.transId == transId && AddressGiven(a.chars, cfg.fileAddr)
    case AuthServer(transId) => a.Address? && a.transId == transId && AddressGiven(a.chars, cfg.authAddr)
  }

  /** An address as it is given: up to 23 characters, and a terminator for a 24th. */
  predicate AddressGiven(chars: seq<nat>, addr: seq<char16>) {
    && |chars| == Min(24, |addr|)
    && forall i :: 0 <= i < |chars| ==> chars[i] == if i == 23 then 0 else addr[i]
  }

  lemma AnnouncedIsRead(r: seq<byte>, more: seq<byte>, transId: nat, addr: seq<char16>)
    requires Announces(r, transId, addr)
    ensures var first := FirstReply(r + more);
      && first.Some? && first.value.1 == |r| && first.value.0.Address?
      && first.value.0.transId == transId && AddressGiven(first.value.0.chars, addr)
  {
    hide FromLE;
    var d, n := r + more, Min(24, |addr|);
    assert d[..2] == r[..2] && d[2..6] == r[2..6] && d[6..8] == r[6..8];
    assert d[8..8 + 2 * n] == r[8..];
    forall i | 0 <= i < n ensures Chars(d[8..8 + 2 * n])[i] == if i == 23 then 0 else addr[i] {
      assert r[8..][2 * i..2 * i + 2] == r[8 + 2 * i..10 + 2 * i];
    }
  }

  lemma PongIsRead(time: nat, transId: nat, payload: seq<byte>, more: seq<byte>)
    requires RequestOk(Ping(time, transId, payload))
    ensures var r := Encode(Ping(time, transId, payload));
      FirstReply(r + more) == Some((Pong(time, transId, payload), |r|))
  {
    hide FromLE, ToLE;
    var r := Encode(Ping(time, transId, payload));
    var d := r + more;
    Pow256Of4();
    LERoundTrip(0, 2);
    LERoundTrip(time, 4);
    LERoundTrip(transId, 4);
    LERoundTrip(|payload|, 4);
    assert d[..2] == ToLE(0, 2) && d[2..6] == ToLE(time, 4) && d[6..10] == ToLE(transId, 4);
    assert d[10..14] == ToLE(|payload|, 4) && d[14..14 + |payload|] == payload;
  }

  /** The reply to a request, in front of anything, is read as the answer it should be. */
  lemma ReplyIsRead(cfg: Config, q: Request, more: seq<byte>)
    requires RequestOk(q)
    ensures var first := FirstReply(ReplyTo(cfg, q) + more);
      first.Some? && first.value.1 == |ReplyTo(cfg, q)| && AnsweredBy(cfg, q, first.value.0)
  {
    hide FirstReply, Encode, AddressReply, Announces;
    match q
    case Ping(time, transId, payload) => PongIsRead(time, transId, payload, more);
    case FileServer(transId, _) =>
      AddressReplyAnnounces(transId, cfg.fileAddr);
      AnnouncedIsRead(ReplyTo(cfg, q), more, transId, cfg.fileAddr);
    case AuthServer(transId) =>
      AddressReplyAnnounces(transId, cfg.authAddr);
      AnnouncedIsRead(ReplyTo(cfg, q), more, transId, cfg.authAddr);
  }

  /** One answer for each request, in their order. */
  ghost predicate AllAnswered(cfg: Config, qs: seq<Request>, answers: seq<Answered>) {
    |answers| == |qs| && forall i :: 0 <= i < |qs| ==> AnsweredBy(cfg, qs[i], answers[i])
  }

  /** A client that takes the replies apart finds its requests answered. */
  lemma {:induction false} RepliesAreRead(cfg: Config, qs: seq<Request>)
    requires forall i :: 0 <= i < |qs| ==> RequestOk(qs[i])
    ensures AllAnswered(cfg, qs, ReadReplies(RepliesTo(cfg, qs)))
    decreases |qs|
  {
    hide FirstReply, ReplyTo, AnsweredBy;
    if qs == [] {
      NothingToRead();
    } else {
      var r, rest := ReplyTo(cfg, qs[0]), RepliesTo(cfg, qs[1..]);
      ReplyIsRead(cfg, qs[0], rest);
      RepliesAreRead(cfg, qs[1..]);
      assert (r + rest)[|r|..] == rest;
      var first := FirstReply(r + rest);
      assert ReadReplies(r + rest) == [first.value.0] + ReadReplies(rest);
    }
  }

  lemma NothingToRead()
    ensures ReadReplies([]) == []
  {
  }

  // --- A whole connection -----------------------------------------------------------------------

  /** The client's opening: connection header, encryption header, and g^b mod n as the seed. */
  function Opening(fields: seq<byte>, hello: seq<byte>, y: nat): seq<byte> {
    [CLI2GATE] + fields + ToLE(|hello| + 4, 4) + hello + [C2S_CONNECT, 66] + ToLE(y, KEY_SIZE)
  }

  lemma HelloHeard(cfg: Config, fields: seq<byte>, hello: seq<byte>, more: seq<byte>)
    requires ConfigOk(cfg) && |fields| == 30 && |hello| <= MAX_HELLO
    ensures var msg := [CLI2GATE] + fields + ToLE(|hello| + 4, 4) + hello;
      Converse(cfg, START, msg + more) == Converse(cfg, Conv(AwaitEncryption, Null, Null), more)
  {
    hide FrameOf, Capacity, Converse;
    var msg := [CLI2GATE] + fields + ToLE(|hello| + 4, 4) + hello;
    HandshakeTables(64);
    assert Capacity(35) == 64 by { HelloCapacity(); }
    RedundantFrame(CONNECTION_HEADER, [CLI2GATE] + fields, hello, more);
    assert NextMessage(AwaitConnection, msg + more) == Take(|msg|);
    TakeThen(cfg, START, msg + more, |msg|);
    assert (msg + more)[..|msg|] == msg && (msg + more)[|msg|..] == more;
    NoPrefix(Converse(cfg, Conv(AwaitEncryption, Null, Null), more));
  }

  lemma HelloCapacity()
    ensures Capacity(35) == 64
  {
  }

  lemma NoPrefix(t: Transcript)
    ensures Prefixed([], t) == t
  {
    assert [] + t.out == t.out;
  }

  lemma EncryptionHeard(cfg: Config, more: seq<byte>)
    requires ConfigOk(cfg)
    ensures Converse(cfg, Conv(AwaitEncryption, Null, Null), [C2S_CONNECT, 66] + more) ==
      Converse(cfg, Conv(AwaitSeed, Null, Null), more)
  {
    hide FrameOf, Capacity, Converse;
    var msg: seq<byte> := [C2S_CONNECT, 66];
    HandshakeTables(64);
    FixedFrame(ENCRYPT_HEADER, msg + more);
    TakeThen(cfg, Conv(AwaitEncryption, Null, Null), msg + more, 2);
    assert (msg + more)[..2] == msg && (msg + more)[2..] == more;
    NoPrefix(Converse(cfg, Conv(AwaitSeed, Null, Null), more));
  }

  lemma SeedHeard(cfg: Config, y: seq<byte>, more: seq<byte>)
    requires ConfigOk(cfg) && |y| == 64
    ensures var keyed := Keyed(cfg.rc4(ServerKey(cfg.k, cfg.n, y, cfg.seed)), 0);
      Converse(cfg, Conv(AwaitSeed, Null, Null), y + more) ==
        Prefixed([1, 9] + cfg.seed, Converse(cfg, Conv(AwaitMessage, keyed, keyed), more))
  {
    hide FrameOf, Capacity, Converse;
    HandshakeTables(64);
    FixedFrame(SeedStruct(64), y + more);
    TakeThen(cfg, Conv(AwaitSeed, Null, Null), y + more, 64);
    assert (y + more)[..64] == y && (y + more)[64..] == more;
  }

  /**
   A client that opens with its public value and then sends requests encrypted under the key it
   derived gets, after the clear 9-byte reply, exactly the replies to its requests, in order, and
   can read them with that same key. The whole input is used up.
   */
  lemma ClientGetsItsReplies(cfg: Config, g: nat, b: nat, fields: seq<byte>, hello: seq<byte>, qs: seq<Request>)
    requires ConfigOk(cfg) && 0 < cfg.n <= Pow256(KEY_SIZE)
    requires |fields| == 30 && |hello| <= MAX_HELLO && forall i :: 0 <= i < |qs| ==> RequestOk(qs[i])
    ensures var stream := Keyed(cfg.rc4(ClientKey(b, cfg.n, ModExp(g, cfg.k, cfg.n), cfg.seed)), 0);
      var raw := Opening(fields, hello, ModExp(g, b, cfg.n)) + Crypt(stream, EncodeAll(qs));
      var t := Converse(cfg, START, raw);
      && t.left == [] && t.conv.stage.AwaitMessage?
      && |t.out| == 9 + |RepliesTo(cfg, qs)|
      && t.out[..9] == [1, 9] + cfg.seed
      && Crypt(stream, t.out[9..]) == RepliesTo(cfg, qs)
  {
    hide Converse, Crypt;
    var y := ToLE(ModExp(g, b, cfg.n), KEY_SIZE);
    var stream := Keyed(cfg.rc4(ClientKey(b, cfg.n, ModExp(g, cfg.k, cfg.n), cfg.seed)), 0);
    KeyAgreement(g, b, cfg.k, cfg.n, cfg.seed);
    var body := Crypt(stream, EncodeAll(qs));
    var hi := [CLI2GATE] + fields + ToLE(|hello| + 4, 4) + hello;
    assert Opening(fields, hello, ModExp(g, b, cfg.n)) + body == hi + ([C2S_CONNECT, 66] + (y + body));
    HelloHeard(cfg, fields, hello, [C2S_CONNECT, 66] + (y + body));
    EncryptionHeard(cfg, y + body);
    SeedHeard(cfg, y, body);
    RequestsAnswered(cfg, stream, stream, qs);
    CryptInvolution(stream, RepliesTo(cfg, qs));
    var t := Converse(cfg, START, Opening(fields, hello, ModExp(g, b, cfg.n)) + body);
    assert t.out[9..] == Crypt(stream, RepliesTo(cfg, qs));
  }

  // --- What is refused --------------------------------------------------------------------------

  /** A refusal ends the conversation; nothing behind it is answered. */
  lemma RefusedThen(cfg: Config, c: Conv, raw: seq<byte>, len: nat)
    requires ConfigOk(cfg) && NextMessage(c.stage, Crypt(c.dec, raw)) == Take(len)
    requires var r := React(cfg, c.stage, Crypt(c.dec, raw)[..len]); r.stage.Closed? && r.out == [] && r.rekey.None?
    ensures var t := Converse(cfg, c, raw); t.conv.stage.Closed? && t.out == []
  {
    hide NextMessage, React, Converse;
    TakeThen(cfg, c, raw, len);
    var next := Answer(cfg, c, Crypt(c.dec, raw)[..len]).0;
    ClosedConverse(cfg, next, raw[len..]);
    assert Crypt(c.enc, []) == [];
  }

  lemma ClosedConverse(cfg: Config, c: Conv, raw: seq<byte>)
    requires ConfigOk(cfg) && c.stage.Closed?
    ensures Converse(cfg, c, raw) == Transcript(c, [], raw)
  {
  }

  /** The connection header decides: type 0x16 goes on with what is behind it, any other is refused. */
  lemma ConnectionDecides(cfg: Config, raw: seq<byte>)
    requires ConfigOk(cfg) && TailVariable(CONNECTION_HEADER) && FrameOf(CONNECTION_HEADER, raw).Message?
    ensures |raw| > 0
    ensures var t, len := Converse(cfg, START, raw), FrameOf(CONNECTION_HEADER, raw).len;
      if raw[0] == 0x16 then t == Converse(cfg, Conv(AwaitEncryption, Null, Null), raw[len..])
      else t.conv.stage.Closed? && t.out == []
  {
    hide FrameOf, Capacity, Converse;
    var len := FrameOf(CONNECTION_HEADER, raw).len;
    assert NextMessage(AwaitConnection, raw) == Take(len);
    if raw[0] == 0x16 {
      TakeThen(cfg, START, raw, len);
      NoPrefix(Converse(cfg, Conv(AwaitEncryption, Null, Null), raw[len..]));
    } else {
      RefusedThen(cfg, START, raw, len);
    }
  }

  /** So does the encryption header: a connect message of 66 bytes, and no other. */
  lemma EncryptionDecides(cfg: Config, raw: seq<byte>)
    requires ConfigOk(cfg) && |raw| >= 2
    ensures var t := Converse(cfg, Conv(AwaitEncryption, Null, Null), raw);
      if raw[0] == 0 && raw[1] == 66 then t == Converse(cfg, Conv(AwaitSeed, Null, Null), raw[2..])
      else t.conv.stage.Closed? && t.out == []
  {
    hide FrameOf, Capacity, Converse;
    HandshakeTables(64);
    FixedFrame(ENCRYPT_HEADER, raw);
    var c := Conv(AwaitEncryption, Null, Null);
    assert NextMessage(AwaitEncryption, raw) == Take(2);
    if raw[0] == 0 && raw[1] == 66 {
      TakeThen(cfg, c, raw, 2);
      NoPrefix(Converse(cfg, Conv(AwaitSeed, Null, Null), raw[2..]));
    } else {
      RefusedThen(cfg, c, raw, 2);
    }
  }

  /** Whatever else is sent: a connection of another kind, or another handshake, is closed without a
      byte of output. */
  lemma OthersRefused(cfg: Config, raw: seq<byte>)
    requires ConfigOk(cfg) && TailVariable(CONNECTION_HEADER) && FrameOf(CONNECTION_HEADER, raw).Message?
    requires var len := FrameOf(CONNECTION_HEADER, raw).len;
      |raw| > 0 && (raw[0] != 0x16 || (|raw| >= len + 2 && (raw[len] != 0 || raw[len + 1] != 66)))
    ensures var t := Converse(cfg, START, raw); t.conv.stage.Closed? && t.out == []
  {
    hide FrameOf, Capacity, Converse;
    var len := FrameOf(CONNECTION_HEADER, raw).len;
    ConnectionDecides(cfg, raw);
    if raw[0] == 0x16 {
      EncryptionDecides(cfg, raw[len..]);
    }
  }

  /** A message of an unknown type ends the conversation; the requests in front of it are answered,
      and nothing else. */
  lemma UnknownRequestRefused(cfg: Config, enc: Cipher, dec: Cipher, qs: seq<Request>, ty: nat, more: seq<byte>)
    requires ConfigOk(cfg) && (forall i :: 0 <= i < |qs| ==> RequestOk(qs[i])) && 3 <= ty < 0x1_0000
    ensures var t := Converse(cfg, Conv(AwaitMessage, enc, dec), Crypt(dec, EncodeAll(qs) + (ToLE(ty, 2) + more)));
      t.conv.stage.Closed? && t.out == Crypt(enc, RepliesTo(cfg, qs))
  {
    hide Converse, Crypt, Advance;
    var c, tail := Conv(AwaitMessage, enc, dec), ToLE(ty, 2) + more;
    var d := Advance(dec, |EncodeAll(qs)|);
    CryptSplit(dec, EncodeAll(qs), tail);
    RequestsAnswered(cfg, enc, dec, qs);
    ConverseSplit(cfg, c, Crypt(dec, EncodeAll(qs)), Crypt(d, tail));
    CryptInvolution(d, tail);
    Pow256Of4();
    LERoundTrip(ty, 2);
    assert tail[..2] == ToLE(ty, 2);
    assert [] + Crypt(d, tail) == Crypt(d, tail);
    RefusedAtOnce(cfg, Conv(AwaitMessage, Advance(enc, |RepliesTo(cfg, qs)|), d), Crypt(d, tail));
  }

  lemma RefusedAtOnce(cfg: Config, c: Conv, raw: seq<byte>)
    requires ConfigOk(cfg) && c.stage.AwaitMessage? && |raw| >= 2 && FromLE(Crypt(c.dec, raw)[..2]) >= 3
    ensures Converse(cfg, c, raw) == Transcript(c.(stage := Closed), [], raw)
  {
  }
}
