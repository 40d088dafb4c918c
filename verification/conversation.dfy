/**
 What the gatekeeper says, as a function of what it hears.

 `Converse` cuts the raw input of a connection into messages and answers each one; no socket, no
 flags, no partial reads. The server is proved to have sent, or to hold ready to send, exactly
 this output for the bytes it has taken.
 */
module Conversation {
  import opened Bytes
  import opened Ciphers
  import opened NetStructs
  import opened Reading
  import opened Options
  import opened Resumption
  import opened Framing
  import opened UruCrypt

  type char16 = x: int | 0 <= x < 0x1_0000

  /** The server's side of the configuration, and the random seed drawn for this connection. */
  datatype Config = Config(
    fileAddr: seq<char16>, authAddr: seq<char16>, k: nat, n: nat,
    rc4: seq<byte> -> nat -> byte, seed: seq<byte>)

  const SEED_SIZE: nat := 7
  const ADDRESS_CHARS: nat := 24

  predicate ConfigOk(cfg: Config) {
    |cfg.seed| == SEED_SIZE
  }

  // Connection types, handshake messages and gatekeeper messages.
  const CLI2GATE: nat := 0x16
  const C2S_CONNECT: nat := 0
  const S2C_ENCRYPT: nat := 1
  const PING: nat := 0
  const FILE_SRV: nat := 1
  const AUTH_SRV: nat := 2

  datatype Stage = AwaitConnection | AwaitEncryption | AwaitSeed | AwaitMessage | Closed | Broken

  function RequestStruct(ty: nat): NetStruct
    requires ty <= AUTH_SRV
  {
    if ty == PING then PING_REQUEST else if ty == FILE_SRV then FILE_SRV_REQUEST else AUTH_SRV_REQUEST
  }

  lemma RequestStructOk(ty: nat)
    requires ty <= AUTH_SRV
    ensures TailVariable(RequestStruct(ty)) && |RequestStruct(ty)| > 1 && RequestStruct(ty)[0] == UINT16
    ensures MemSize(RequestStruct(ty)) >= 6 && !IsVariable(RequestStruct(ty)[1])
  {
    RequestTables();
  }

  // --- Answers --------------------------------------------------------------------------------

  /** The characters of an address that are sent: at most 24, and the 24th becomes a terminator. */
  function Clip(addr: seq<char16>): (chars: seq<char16>)
    ensures |chars| <= ADDRESS_CHARS
  {
    if |addr| < ADDRESS_CHARS then addr else addr[..ADDRESS_CHARS - 1] + [0]
  }

  function Utf16(chars: seq<char16>): (s: seq<byte>)
    ensures |s| == 2 * |chars|
  {
    if chars == [] then [] else ToLE(chars[0], 2) + Utf16(chars[1..])
  }

  /** An address reply. Requests for either server are answered with the file server's message type. */
  function AddressReply(transId: seq<byte>, addr: seq<char16>): seq<byte> {
    ToLE(FILE_SRV, 2) + transId + ToLE(|Clip(addr)|, 2) + Utf16(Clip(addr))
  }

  /** The characters of an address as they are sent, one by one. */
  lemma ClipAt(addr: seq<char16>)
    ensures |Clip(addr)| == Min(24, |addr|)
    ensures forall i :: 0 <= i < Min(24, |addr|) ==> Clip(addr)[i] == if i == 23 then 0 else addr[i]
  {
  }

  lemma {:induction false} Utf16At(chars: seq<char16>, i: nat)
    requires i < |chars|
    ensures FromLE(Utf16(chars)[2 * i..2 * i + 2]) == chars[i]
  {
    var s, first, rest := Utf16(chars), ToLE(chars[0], 2), Utf16(chars[1..]);
    if i == 0 {
      assert s[0..2] == first;
      Pow256Of4();
      LERoundTrip(chars[0], 2);
    } else {
      Utf16At(chars[1..], i - 1);
      assert s[2 * i..2 * i + 2] == rest[2 * (i - 1)..2 * (i - 1) + 2];
    }
  }

  /** The bytes say, read as a client reads them: message type 1, this transaction, this address. */
  predicate Announces(r: seq<byte>, transId: nat, addr: seq<char16>) {
    var n := Min(24, |addr|);
    && |r| == 8 + 2 * n
    && FromLE(r[..2]) == 1 && FromLE(r[2..6]) == transId && FromLE(r[6..8]) == n
    && forall i :: 0 <= i < n ==> FromLE(r[8 + 2 * i..10 + 2 * i]) == if i == 23 then 0 else addr[i]
  }

  lemma AddressReplyAnnounces(transId: nat, addr: seq<char16>)
    requires transId < 0x1_0000_0000
    ensures Announces(AddressReply(ToLE(transId, 4), addr), transId, addr)
  {
    hide Clip, Utf16, ToLE, FromLE;
    var r, chars := AddressReply(ToLE(transId, 4), addr), Clip(addr);
    var n := |chars|;
    ClipAt(addr);
    Pow256Of4();
    LERoundTrip(1, 2);
    LERoundTrip(transId, 4);
    LERoundTrip(n, 2);
    assert r[..2] == ToLE(1, 2) && r[2..6] == ToLE(transId, 4) && r[6..8] == ToLE(n, 2);
    forall i | 0 <= i < n ensures FromLE(r[8 + 2 * i..10 + 2 * i]) == if i == 23 then 0 else addr[i] {
      Utf16At(chars, i);
      assert r[8 + 2 * i..10 + 2 * i] == Utf16(chars)[2 * i..2 * i + 2];
    }
  }

  /** The reply to a complete request. */
  function Reply(cfg: Config, msg: seq<byte>): seq<byte>
    requires |msg| >= 6
  {
    var ty := FromLE(msg[..2]);
    if ty == PING then msg
    else AddressReply(msg[2..6], if ty == FILE_SRV then cfg.fileAddr else cfg.authAddr)
  }

  /** A reaction to a complete message: where the conversation goes, what is sent, and the
      ciphers from then on (none: they stay). */
  datatype Reaction = Reaction(stage: Stage, out: seq<byte>, rekey: Option<Cipher>)

  predicate Whole(stage: Stage, msg: seq<byte>) {
    match stage
    case AwaitConnection => |msg| >= 1
    case AwaitEncryption => |msg| == 2
    case AwaitSeed => |msg| == 64
    case AwaitMessage => |msg| >= 6
    case _ => false
  }

  function React(cfg: Config, stage: Stage, msg: seq<byte>): Reaction
    requires ConfigOk(cfg) && Whole(stage, msg)
  {
    match stage
    case AwaitConnection => Reaction(if msg[0] == CLI2GATE then AwaitEncryption else Closed, [], None)
    case AwaitEncryption =>
      Reaction(if msg[0] == C2S_CONNECT && msg[1] == 66 then AwaitSeed else Closed, [], None)
    case AwaitSeed =>
      var key := ServerKey(cfg.k, cfg.n, msg, cfg.seed);
      Reaction(AwaitMessage, [S2C_ENCRYPT, 9] + cfg.seed, Some(Keyed(cfg.rc4(key), 0)))
    case AwaitMessage => Reaction(AwaitMessage, Reply(cfg, msg), None)
  }

  // --- The conversation -----------------------------------------------------------------------

  datatype Conv = Conv(stage: Stage, enc: Cipher, dec: Cipher)

  datatype Next = Wait | Refuse | Overflow | Take(len: nat)

  function FromFrame(f: Frame): Next {
    match f
    case Incomplete => Wait
    case TooMany => Refuse
    case TooLong => Overflow
    case Message(len) => Take(len)
  }

  function StageStruct(stage: Stage, d: seq<byte>): NetStruct
    requires stage.AwaitMessage? ==> |d| >= 2 && FromLE(d[..2]) <= AUTH_SRV
  {
    match stage
    case AwaitConnection => CONNECTION_HEADER
    case AwaitEncryption => ENCRYPT_HEADER
    case AwaitSeed => SeedStruct(64)
    case AwaitMessage => RequestStruct(FromLE(d[..2]))
    case _ => MSG_STD_HEADER
  }

  lemma StageStructOk(stage: Stage, d: seq<byte>)
    requires stage.AwaitMessage? ==> |d| >= 2 && FromLE(d[..2]) <= AUTH_SRV
    ensures TailVariable(StageStruct(stage, d))
  {
    HandshakeTables(64);
    RequestTables();
  }

  /** The first message of decrypted input. */
  function NextMessage(stage: Stage, d: seq<byte>): (x: Next)
    ensures x.Take? ==> 0 < x.len <= |d| && Whole(stage, d[..x.len])
  {
    if stage.Closed? || stage.Broken? then Wait
    else if stage.AwaitMessage? && |d| < 2 then Wait
    else if stage.AwaitMessage? && FromLE(d[..2]) > AUTH_SRV then Refuse
    else
      StageStructOk(stage, d);
      FrameLength(stage, d);
      FromFrame(FrameOf(StageStruct(stage, d), d))
  }

  lemma FrameLength(stage: Stage, d: seq<byte>)
    requires stage.AwaitMessage? ==> |d| >= 2 && FromLE(d[..2]) <= AUTH_SRV
    requires !stage.Closed? && !stage.Broken?
    ensures TailVariable(StageStruct(stage, d))
    ensures var f := FrameOf(StageStruct(stage, d), d); f.Message? ==> 0 < f.len && Whole(stage, d[..f.len])
  {
    hide FrameOf, WellFormed, TailVariable, MemOff, CalcFieldSz;
    StageStructOk(stage, d);
    var ns := StageStruct(stage, d);
    if FrameOf(ns, d).Message? {
      FrameCoversFixed(ns, d);
      match stage
      case AwaitConnection => HandshakeTables(64);
      case AwaitEncryption => HandshakeTables(64);
      case AwaitSeed => HandshakeTables(64);
      case AwaitMessage => RequestTables();
    }
  }

  /** A message is at least as long as its fixed fields; without a variable field it is exactly that. */
  lemma FrameCoversFixed(ns: NetStruct, d: seq<byte>)
    requires TailVariable(ns) && FrameOf(ns, d).Message?
    ensures IsVariable(ns[|ns| - 1]) ==> FrameOf(ns, d).len >= TailAt(ns)
    ensures !IsVariable(ns[|ns| - 1]) ==> FrameOf(ns, d).len == MemSize(ns)
    ensures IsVariable(ns[|ns| - 1]) ==> TailAt(ns) + DeclaredSz(ns[|ns| - 1]) == MemSize(ns)
  {
  }

  datatype Transcript = Transcript(conv: Conv, out: seq<byte>, left: seq<byte>)

  /** The conversation after one more message. */
  function Answer(cfg: Config, c: Conv, msg: seq<byte>): (Conv, seq<byte>)
    requires ConfigOk(cfg) && Whole(c.stage, msg)
  {
    var r := React(cfg, c.stage, msg);
    var out := Crypt(c.enc, r.out);
    if r.rekey.Some? then (Conv(r.stage, r.rekey.value, r.rekey.value), out)
    else (Conv(r.stage, Advance(c.enc, |r.out|), Advance(c.dec, |msg|)), out)
  }

  /** All complete messages of `raw`, answered in turn; `left` is the unfinished rest. */
  function Converse(cfg: Config, c: Conv, raw: seq<byte>): Transcript
    requires ConfigOk(cfg)
    decreases |raw|
  {
    var plain := Crypt(c.dec, raw);
    match NextMessage(c.stage, plain)
    case Wait => Transcript(c, [], raw)
    case Refuse => Transcript(c.(stage := Closed), [], raw)
    case Overflow => Transcript(c.(stage := Broken), [], raw)
    case Take(len) =>
      var (next, out) := Answer(cfg, c, plain[..len]);
      var t := Converse(cfg, next, raw[len..]);
      t.(out := out + t.out)
  }

  const START := Conv(AwaitConnection, Null, Null)

  predicate Ended(c: Conv) {
    c.stage.Closed? || c.stage.Broken?
  }

  // --- Hearing more -----------------------------------------------------------------------------

  /** What is decided about the first message stays decided. */
  lemma NextStable(stage: Stage, a: seq<byte>, b: seq<byte>)
    requires !NextMessage(stage, a).Wait?
    ensures NextMessage(stage, a + b) == NextMessage(stage, a)
  {
    hide CalcFieldSz, WellFormed;
    if stage.AwaitMessage? {
      assert (a + b)[..2] == a[..2];
    }
    if !NextMessage(stage, a).Refuse? || !stage.AwaitMessage? || FromLE(a[..2]) <= AUTH_SRV {
      StageStructOk(stage, a);
      FrameStable(StageStruct(stage, a), a, b);
    }
  }

  /** Hearing `b` after an earlier transcript. */
  function Extend(cfg: Config, t: Transcript, b: seq<byte>): Transcript
    requires ConfigOk(cfg)
  {
    if Ended(t.conv) then t.(left := t.left + b)
    else
      var u := Converse(cfg, t.conv, t.left + b);
      u.(out := t.out + u.out)
  }

  function Prefixed(out: seq<byte>, t: Transcript): Transcript {
    t.(out := out + t.out)
  }

  lemma ExtendPrefixed(cfg: Config, out: seq<byte>, t: Transcript, b: seq<byte>)
    requires ConfigOk(cfg)
    ensures Extend(cfg, Prefixed(out, t), b) == Prefixed(out, Extend(cfg, t, b))
  {
    hide Converse;
    if !Ended(t.conv) {
      var u := Converse(cfg, t.conv, t.left + b);
      assert out + (t.out + u.out) == out + t.out + u.out;
    }
  }

  lemma TakeThen(cfg: Config, c: Conv, raw: seq<byte>, len: nat)
    requires ConfigOk(cfg) && NextMessage(c.stage, Crypt(c.dec, raw)) == Take(len)
    ensures var (next, out) := Answer(cfg, c, Crypt(c.dec, raw)[..len]);
      Converse(cfg, c, raw) == Prefixed(out, Converse(cfg, next, raw[len..]))
  {
  }

  lemma WaitThen(cfg: Config, c: Conv, a: seq<byte>, b: seq<byte>)
    requires ConfigOk(cfg) && !NextMessage(c.stage, Crypt(c.dec, a)).Take?
    ensures Converse(cfg, c, a + b) == Extend(cfg, Converse(cfg, c, a), b)
  {
    hide NextMessage, Answer;
    CryptSplit(c.dec, a, b);
    if NextMessage(c.stage, Crypt(c.dec, a)).Wait? {
      if Ended(c) {
        EndedWaits(c, a + b);
      }
      assert [] + Converse(cfg, c, a + b).out == Converse(cfg, c, a + b).out;
    } else {
      NextStable(c.stage, Crypt(c.dec, a), Crypt(Advance(c.dec, |a|), b));
    }
  }

  lemma EndedWaits(c: Conv, raw: seq<byte>)
    requires Ended(c)
    ensures NextMessage(c.stage, Crypt(c.dec, raw)) == Wait
  {
  }

  /** Hearing `b` after `a` is hearing `a + b`, wherever the cut is. */
  lemma {:induction false} ConverseSplit(cfg: Config, c: Conv, a: seq<byte>, b: seq<byte>)
    requires ConfigOk(cfg)
    ensures Converse(cfg, c, a + b) == Extend(cfg, Converse(cfg, c, a), b)
    decreases |a|
  {
    hide Converse, NextMessage, Answer, Extend, Crypt;
    var plain := Crypt(c.dec, a);
    if NextMessage(c.stage, plain).Take? {
      var len := NextMessage(c.stage, plain).len;
      var rest := Crypt(Advance(c.dec, |a|), b);
      CryptSplit(c.dec, a, b);
      NextStable(c.stage, plain, rest);
      assert (plain + rest)[..len] == plain[..len] && (a + b)[len..] == a[len..] + b;
      var (next, out) := Answer(cfg, c, plain[..len]);
      TakeThen(cfg, c, a, len);
      TakeThen(cfg, c, a + b, len);
      ConverseSplit(cfg, next, a[len..], b);
      ExtendPrefixed(cfg, out, Converse(cfg, next, a[len..]), b);
    } else {
      WaitThen(cfg, c, a, b);
    }
  }

  // --- One key, each keystream position once ----------------------------------------------------

  /** The replies to the complete requests of plain input, up to the first refused one. */
  function Replies(cfg: Config, d: seq<byte>): seq<byte>
    decreases |d|
  {
    match NextMessage(AwaitMessage, d)
    case Take(len) => Reply(cfg, d[..len]) + Replies(cfg, d[len..])
    case _ => []
  }

  /**
   Once requests are being served the ciphers are never set up again: the output is the replies
   under one keystream, from the position where it stood, and the input one keystream without gap.
   */
  lemma {:induction false} OneKeystream(cfg: Config, c: Conv, raw: seq<byte>)
    requires ConfigOk(cfg) && c.stage.AwaitMessage?
    ensures var t := Converse(cfg, c, raw);
      && t.out == Crypt(c.enc, Replies(cfg, Crypt(c.dec, raw))) && t.conv.enc == Advance(c.enc, |t.out|)
      && |t.left| <= |raw| && t.conv.dec == Advance(c.dec, |raw| - |t.left|)
      && (t.conv.stage.AwaitMessage? || Ended(t.conv))
    decreases |raw|
  {
    hide Crypt, Advance, NextMessage, Reply;
    var plain := Crypt(c.dec, raw);
    AdvanceTwice(c.enc, 0, 0);
    AdvanceTwice(c.dec, 0, 0);
    if NextMessage(AwaitMessage, plain).Take? {
      var len := NextMessage(AwaitMessage, plain).len;
      var reply, rest := Reply(cfg, plain[..len]), Replies(cfg, plain[len..]);
      TakeThen(cfg, c, raw, len);
      CryptTake(c.dec, raw, len);
      CryptSplit(c.enc, reply, rest);
      OneKeystream(cfg, Conv(AwaitMessage, Advance(c.enc, |reply|), Advance(c.dec, len)), raw[len..]);
      AdvanceTwice(c.enc, |reply|, |rest|);
      var u := Converse(cfg, Conv(AwaitMessage, Advance(c.enc, |reply|), Advance(c.dec, len)), raw[len..]);
      AdvanceTwice(c.dec, len, |raw[len..]| - |u.left|);
    } else {
      assert Crypt(c.enc, []) == [];
    }
  }
}
