/**
 A client connection: the handlers, the flags that say what comes next, and the read pump.

 `Valid` holds in every state, whatever the socket does. `InSync` says that what the connection
 has taken in and given out is the reference conversation; it holds as long as no read stopped
 inside a field.
 */
module Gatekeeper {
  import opened Bytes
  import opened Ciphers
  import opened NetStructs
  import opened Reading
  import opened Options
  import opened Resumption
  import opened Framing
  import opened UruCrypt
  import opened Conversation
  import opened GatekeeperMessages
  import opened ClientIo
  import opened Synchrony
  import opened Progress

  datatype Handler = Incoming | Gate

  /** A delivered message is in memory as announced, so it has a wire form. */
  lemma DeliveredEncodable(ns: NetStruct, mem: seq<byte>)
    requires TailVariable(ns) && |mem| == Capacity(MemSize(ns)) && WireLength(ns, mem) <= |mem|
    ensures Encodable(ns, mem) && Serialize(ns, mem) == mem[..WireLength(ns, mem)]
    ensures WireLength(ns, mem) >= TailAt(ns)
    ensures !IsVariable(ns[|ns| - 1]) ==> WireLength(ns, mem) == MemSize(ns)
    ensures IsVariable(ns[|ns| - 1]) ==> TailAt(ns) + DeclaredSz(ns[|ns| - 1]) == MemSize(ns)
  {
    CapacitySlack(MemSize(ns));
    SizeBelowSentinel(ns);
    assert MemOff(ns, |ns|) == TailAt(ns) + DeclaredSz(ns[|ns| - 1]);
    hide CalcFieldSz;
    forall i | 0 <= i < |ns|
      ensures FieldWire(ns, i, mem) < SENTINEL && MemOff(ns, i) + FieldWire(ns, i, mem) <= |mem|
    {
      WireInside(ns, i, mem);
    }
    SerializeIsPrefix(ns, 0, mem);
    assert mem[0..WireLength(ns, mem)] == mem[..WireLength(ns, mem)];
  }

  lemma SizeBelowSentinel(ns: NetStruct)
    requires WellFormed(ns)
    ensures Capacity(MemSize(ns)) < SENTINEL
  {
    CapacitySlack(MemSize(ns));
  }

  /** The messages of every stage are long enough for the handlers. */
  lemma DeliveredWhole(stage: Stage, mem: seq<byte>)
    requires !stage.Closed? && !stage.Broken?
    requires |mem| >= 2 && (stage.AwaitMessage? ==> FromLE(mem[..2]) <= AUTH_SRV)
    requires var ns := StageStruct(stage, mem);
      TailVariable(ns) && |mem| == Capacity(MemSize(ns)) && WireLength(ns, mem) <= |mem|
    ensures var ns := StageStruct(stage, mem);
      Encodable(ns, mem) && Whole(stage, Serialize(ns, mem)) && Serialize(ns, mem) <= mem
  {
    hide Capacity, Encodable, Serialize, WireLength;
    var ns := StageStruct(stage, mem);
    DeliveredEncodable(ns, mem);
    HandshakeTables(64);
    RequestTables();
  }

  /** The replies to the messages that were served, in order. */
  function Answers(cfg: Config, served: seq<seq<byte>>): seq<byte>
    requires AllWhole(served)
  {
    if served == [] then []
    else
      var last := |served| - 1;
      Answers(cfg, served[..last]) + Reply(cfg, served[last])
  }

  predicate AllWhole(served: seq<seq<byte>>) {
    forall i :: 0 <= i < |served| ==> |served[i]| >= 6
  }

  /** What was handed over for sending, in any state: nothing, or the clear reply and then, under one
      key that was set up once, the replies to the messages served. */
  ghost predicate Issued(cfg: Config, encrypted: bool, log: Log, served: seq<seq<byte>>) {
    if !encrypted then log == Log([], Null, [], 0) && served == []
    else
      && log.setups == 1 && log.past == [1, 9] + cfg.seed
      && log.epoch.Keyed? && log.epoch.pos == 0
      && AllWhole(served) && log.issued == Answers(cfg, served)
  }

  lemma IssuedMore(cfg: Config, log: Log, served: seq<seq<byte>>, msg: seq<byte>)
    requires Issued(cfg, true, log, served) && Whole(AwaitMessage, msg)
    ensures Issued(cfg, true, log.(issued := log.issued + Reply(cfg, msg)), served + [msg])
  {
    hide Reply;
    assert (served + [msg])[..|served|] == served;
  }

  lemma IssuedFirst(cfg: Config, epoch: Cipher)
    requires epoch.Keyed? && epoch.pos == 0
    ensures Issued(cfg, true, Log([1, 9] + cfg.seed, epoch, [], 1), [])
  {
  }

  lemma AllLeft(script: seq<Event>)
    ensures Rest(script, script)
  {
  }

  /** The sending side of a connection: whether something is queued, and how much was handed over. */
  datatype Sending = Sending(net: Net, queued: bool, out: nat)

  /** Something is queued exactly while not all that was handed over is sent. */
  predicate SendingOk(s: Sending) {
    |s.net.sent| <= s.out && (s.queued <==> |s.net.sent| < s.out)
  }

  lemma UnsentSome(ws: seq<IoState>)
    requires AllOk(ws)
    ensures ws != [] <==> Unsent(ws) != []
  {
  }

  /** Sending went on: the connection was shut down only if it was closed or a write failed, and what
      is queued was queued before, or was offered to the socket and not taken in full. */
  predicate WriteSide(before: Sending, after: Sending, closed: bool) {
    && SentOn(before.net, after.net) && before.out <= after.out
    && (after.net.down ==> before.net.down || closed || Failed in before.net.writeScript)
    && (after.queued ==>
          || (before.queued && after.net.writeScript == before.net.writeScript)
          || TookShort(before.net.writeScript, after.net.writeScript, after.out))
  }

  lemma WriteSideTrans(a: Sending, b: Sending, c: Sending, closed: bool)
    requires WriteSide(a, b, false) && WriteSide(b, c, closed)
    ensures WriteSide(a, c, closed)
    ensures c.queued && (b.queued ==> TookShort(a.net.writeScript, b.net.writeScript, b.out)) ==>
      TookShort(a.net.writeScript, c.net.writeScript, c.out)
  {
    hide TookShort, Grants;
    var wa, wb, wc := a.net.writeScript, b.net.writeScript, c.net.writeScript;
    RestTrans(wa, wb, wc);
    if Failed in wb {
      RestMembers(wa, wb, Failed);
    }
    if TookShort(wb, wc, c.out) {
      TookShortOn(wa, wb, wc, c.out, c.out);
    } else if TookShort(wa, wb, b.out) && wb == wc {
      TookShortOn(wa, wb, wc, b.out, c.out);
    }
  }

  /** Reading leaves the sending side alone, but for a shutdown. */
  lemma WriteSideReads(before: Sending, after: Sending, closed: bool)
    requires after.net.sent == before.net.sent && after.net.writeScript == before.net.writeScript
    requires after.queued == before.queued && after.out == before.out
    requires after.net.down ==> before.net.down || closed
    ensures WriteSide(before, after, closed)
  {
  }

  lemma WriteSideStarts(s: Sending, closed: bool)
    ensures WriteSide(s, s, closed)
  {
  }

  class Client {
    const io: ClientBase
    const cfg: Config
    var encrypted: bool
    var wantClientSeed: bool
    var wantMsgHeader: bool
    var handler: Handler
    /** Size of the client seed, in the descriptor that is built for it. */
    var encryptCount: nat

    /** All raw bytes taken from the socket. */
    ghost var heard: seq<byte>
    /** A message was refused, and the connection shut down for it. */
    ghost var refused: bool
    /** The requests that were answered. */
    ghost var served: seq<seq<byte>>
    /** How much had been heard when the key was set up. */
    ghost var keyedAt: nat

    ghost function StageNow(): (s: Stage)
      reads this
      ensures !s.Closed? && !s.Broken?
    {
      if handler.Incoming? then AwaitConnection
      else if encrypted then AwaitMessage
      else if wantClientSeed then AwaitSeed
      else AwaitEncryption
    }

    /** Flags, handler and ciphers agree. */
    ghost predicate FlagsOk()
      reads this, io
    {
      && ConfigOk(cfg) && io.rc4 == cfg.rc4
      && (handler.Incoming? ==> !encrypted && !wantClientSeed)
      && !(encrypted && wantClientSeed)
      && (wantMsgHeader ==> encrypted)
      && (wantClientSeed ==> encryptCount == 64)
      && (encrypted <==> io.encrypt.Keyed?) && (encrypted <==> io.decrypt.Keyed?)
      && Issued(cfg, encrypted, io.log, served)
      && (encrypted ==> keyedAt <= |heard| && io.decrypt == Advance(io.log.epoch, |heard| - keyedAt))
    }

    /** A request whose type is known is being read. */
    predicate InBody()
      reads this
    {
      encrypted && !wantMsgHeader
    }

    /** The descriptor the flags call for; `front` begins with the type of the request. */
    ghost function StructNow(front: seq<byte>): (ns: NetStruct)
      requires InBody() ==> |front| >= 2 && FromLE(front[..2]) <= AUTH_SRV
      reads this
      ensures TailVariable(ns)
    {
      RequestTables();
      if encrypted && wantMsgHeader then MSG_STD_HEADER
      else StageStructOk(StageNow(), front); StageStruct(StageNow(), front)
    }

    /** The pending read is the one the flags call for. */
    ghost predicate PendingOk()
      requires io.ReadOk()
      reads this, io, io.readBuf
    {
      && io.HasPendingRead()
      && |io.Rd().mem| >= 2
      && (InBody() ==> io.readField >= 1 && FromLE(io.Rd().mem[..2]) <= AUTH_SRV)
      && io.readStruct.value == StructNow(io.Rd().mem)
    }

    ghost predicate Valid()
      reads this, io, io.readBuf
    {
      && io.Valid() && io.NoLostWakeup() && FlagsOk()
      && (refused ==> io.net.down)
      && (!refused ==> PendingOk())
    }

    /** A complete message is there, and nothing is pending yet. */
    ghost predicate Delivered(buf: array<byte>)
      reads this, io, io.readBuf, buf
    {
      && io.Valid() && io.NoLostWakeup() && FlagsOk() && !io.HasPendingRead() && !refused
      && buf.Length == io.readBufSz && buf.Length >= 2
      && (InBody() ==> FromLE(buf[..][..2]) <= AUTH_SRV)
      && var ns := StructNow(buf[..]);
         buf.Length == Capacity(MemSize(ns)) && WireLength(ns, buf[..]) <= buf.Length
    }

    /** The message as it was on the wire. */
    ghost function MessageIn(buf: array<byte>): seq<byte>
      requires Delivered(buf)
      reads this, io, io.readBuf, buf
    {
      var ns := StructNow(buf[..]);
      DeliveredEncodable(ns, buf[..]);
      Serialize(ns, buf[..])
    }

    ghost function SendingNow(): (s: Sending)
      requires io.WritesOk()
      reads this, io
      ensures SendingOk(s)
    {
      UnsentSome(io.writes);
      Sending(io.net, io.writes != [], |io.Outgoing()|)
    }

    /** What a handler leaves alone. */
    twostate predicate InputKept()
      requires io.WritesOk()
      reads this, io
    {
      && SentOnly(old(io.net), io.net) && io.QueueTried() && io.torn == old(io.torn)
      && heard == old(heard) && !refused && KeyKept()
    }

    /** A key that is set up stays, and what was answered was answered. */
    twostate predicate KeyKept()
      reads this, io
    {
      (old(encrypted) ==> encrypted && io.log.epoch == old(io.log.epoch)) && old(served) <= served
    }

    /** A fresh read of the next message is registered. */
    ghost predicate Registered()
      requires io.ReadOk()
      reads this, io, io.readBuf
    {
      FlagsOk() && !InBody() && io.HasPendingRead() && io.Rd() == Blank(StructNow([]))
    }

    /** The reaction the reference prescribes, taken by the connection. */
    twostate predicate Reacted(new ok: bool, stage: Stage, msg: seq<byte>)
      requires ConfigOk(cfg) && Whole(stage, msg) && old(io.WritesOk())
      reads this, io, io.readBuf
    {
      var r := React(cfg, stage, msg);
      && ok == !r.stage.Closed?
      && io.Valid() && io.NoLostWakeup() && FlagsOk() && InputKept()
      && io.Outgoing() == old(io.Outgoing()) + Crypt(old(io.encrypt), r.out)
      && (ok ==> StageNow() == r.stage && Registered())
      && io.encrypt == (if r.rekey.Some? then r.rekey.value else Advance(old(io.encrypt), |r.out|))
      && io.decrypt == (if r.rekey.Some? then r.rekey.value else old(io.decrypt))
    }

    constructor (net: Net, cfg: Config)
      requires ConfigOk(cfg) && !net.down && net.sent == []
      ensures Valid() && fresh(io) && !refused && io.net == net && heard == [] && !io.torn
      ensures this.cfg == cfg && io.writes == []
      ensures WellFormed(CONNECTION_HEADER)
      ensures Here() == Point(AwaitConnection, false, Null, Null, Blank(CONNECTION_HEADER))
    {
      HandshakeTables(64);
      var base := new ClientBase(net, cfg.rc4);
      base.Read(CONNECTION_HEADER);
      this.io, this.cfg := base, cfg;
      encrypted, wantClientSeed, wantMsgHeader := false, false, false;
      handler, encryptCount := Incoming, 0;
      heard, refused, served, keyedAt := [], false, [], 0;
      new;
      CapacitySlack(35);
    }

    // --- Handlers -----------------------------------------------------------------------------

    method IncomingRead(buf: array<byte>) returns (ok: bool)
      requires Delivered(buf) && StageNow().AwaitConnection?
      modifies this, io
      ensures Whole(AwaitConnection, old(MessageIn(buf))) && Reacted(ok, AwaitConnection, old(MessageIn(buf)))
      ensures ok <==> old(buf[0]) == 0x16
      ensures io.Outgoing() == old(io.Outgoing()) && (ok ==> handler.Gate? && io.readStruct == Some(ENCRYPT_HEADER))
    {
      hide Issued, Unsent, Crypt, SentOnly, TookShort, Serialize, Encodable, WireLength;
      SentNothing(io.net);
      WholeMessage(buf);
      AdvanceTwice(io.encrypt, 0, 0);
      HandshakeTables(64);
      if buf[0] != CLI2GATE {
        return false;
      }
      handler := Gate;
      encryptCount := 0;
      io.Read(ENCRYPT_HEADER);
      return true;
    }

    /** What is delivered is a whole message of its stage, in front in the buffer. */
    lemma WholeMessage(buf: array<byte>)
      requires Delivered(buf) && !(encrypted && wantMsgHeader)
      ensures var msg := MessageIn(buf); Whole(StageNow(), msg) && msg <= buf[..]
    {
      DeliveredWhole(StageNow(), buf[..]);
    }

    method HandleHandshake(buf: array<byte>) returns (ok: bool)
      requires Delivered(buf) && StageNow().AwaitEncryption?
      modifies this, io
      ensures Whole(AwaitEncryption, old(MessageIn(buf))) && Reacted(ok, AwaitEncryption, old(MessageIn(buf)))
      ensures ok <==> old(buf[0]) == 0 && old(buf[1]) == 66
      ensures io.Outgoing() == old(io.Outgoing())
      ensures ok ==> wantClientSeed && io.readStruct == Some([NetField(Blob, 1, 64)])
    {
      hide Issued, Unsent, Crypt, SentOnly, TookShort, Serialize, Encodable, WireLength;
      SentNothing(io.net);
      WholeMessage(buf);
      AdvanceTwice(io.encrypt, 0, 0);
      HandshakeTables(64);
      if buf[0] != C2S_CONNECT {
        return false;
      }
      if buf[1] != 2 && buf[1] != 66 {
        return false;
      }
      if buf[1] == 2 {
        // an empty handshake asks for an unencrypted connection
        return false;
      }
      encryptCount := buf[1] - 2;
      io.Read(SeedStruct(encryptCount));
      wantClientSeed := true;
      return true;
    }

    /** The clear reply that carries the server's seed, and the key that follows from it. */
    method MakeReply(yData: seq<byte>) returns (reply: seq<byte>, key: seq<byte>)
      requires ConfigOk(cfg) && |yData| == 64
      ensures key == ServerKey(cfg.k, cfg.n, yData, cfg.seed)
      ensures KeyHolds(key, cfg.seed, ModExp(FromLE(yData), cfg.k, cfg.n))
      ensures TailVariable(ENCRYPT_S2C) && Encodable(ENCRYPT_S2C, reply)
      ensures Serialize(ENCRYPT_S2C, reply) == [1, 9] + cfg.seed
    {
      HandshakeTables(64);
      var srvSeed, keyBuf := new byte[SEED_SIZE], new byte[SEED_SIZE];
      var ok := MakeServerKey(cfg.k, cfg.n, yData, SEED_SIZE, cfg.seed, srvSeed, keyBuf);
      assert ok;
      reply, key := [S2C_ENCRYPT, 9] + srvSeed[..], keyBuf[..];
      FixedMessageWire(ENCRYPT_S2C, reply);
      assert reply[..9] == reply;
    }

    /** Answer the client's seed in the clear, then switch both ciphers on. A seed of 64 bytes is
        long enough for the key, so this cannot fail. */
    method HandleYData(buf: array<byte>) returns (ok: bool)
      requires Delivered(buf) && StageNow().AwaitSeed?
      modifies this, io
      ensures Whole(AwaitSeed, old(MessageIn(buf))) && Reacted(ok, AwaitSeed, old(MessageIn(buf)))
      ensures ok && io.Outgoing() == old(io.Outgoing()) + ([1, 9] + cfg.seed)
      ensures buf.Length >= 64 && exists key ::
        && io.encrypt == io.decrypt == Keyed(io.rc4(key), 0)
        && KeyHolds(key, cfg.seed, ModExp(FromLE(old(buf[..64])), cfg.k, cfg.n))
    {
      hide Crypt, Advance, Serialize, Encodable, CalcFieldSz, WellFormed, TailVariable, SentOnly;
      hide MemOff, Capacity, WireLength, ServerKey, Issued, Unsent, StageStruct, FromLE;
      WholeMessage(buf);
      assert buf[..encryptCount] == MessageIn(buf);
      assert encryptCount == 64;
      wantClientSeed := false;
      var reply, key := MakeReply(buf[..encryptCount]);
      NothingIssued();
      SendSeed(reply, key);
      encrypted, keyedAt := true, |heard|;
      IssuedFirst(cfg, io.encrypt);
      AdvanceTwice(io.encrypt, 0, 0);
      ok := HandleEncryption();
    }

    /** The seed goes out in the clear; everything behind it is under the key. */
    method SendSeed(reply: seq<byte>, key: seq<byte>)
      requires io.Valid() && io.NoLostWakeup() && io.Outgoing() == [] && io.encrypt == Null
      requires TailVariable(ENCRYPT_S2C) && Encodable(ENCRYPT_S2C, reply)
      modifies io
      ensures io.Valid() && io.NoLostWakeup() && SentOnly(old(io.net), io.net) && io.torn == old(io.torn)
      ensures io.QueueTried() && io.readStruct == old(io.readStruct)
      ensures io.Outgoing() == Serialize(ENCRYPT_S2C, reply)
      ensures io.encrypt == io.decrypt == Keyed(io.rc4(key), 0)
      ensures io.log == Log(Serialize(ENCRYPT_S2C, reply), Keyed(io.rc4(key), 0), [], old(io.log.setups) + 1)
    {
      hide Advance, Serialize, Encodable, CalcFieldSz, WellFormed, TailVariable, SentOnly, MemOff, Capacity, Unsent;
      io.EnqueueWrite(ENCRYPT_S2C, reply);
      io.SetCryptKey(key);
    }

    /** Before the key is set up nothing was handed over. */
    lemma NothingIssued()
      requires io.Valid() && FlagsOk() && !encrypted
      ensures io.Outgoing() == [] && io.encrypt == Null && served == [] && io.log.setups == 0
      ensures forall plain :: [] + Crypt(Null, plain) == plain
    {
    }

    /** Begin reading encrypted messages. */
    method HandleEncryption() returns (ok: bool)
      requires io.Valid() && !io.HasPendingRead()
      modifies this`wantMsgHeader, io`readStruct
      ensures ok && wantMsgHeader && io.Valid() && io.readStruct == Some(MSG_STD_HEADER)
      ensures WellFormed(MSG_STD_HEADER) && io.Rd() == Blank(MSG_STD_HEADER)
    {
      RequestTables();
      wantMsgHeader := true;
      io.Read(MSG_STD_HEADER);
      ok := true;
    }

    method EncryptedRead(buf: array<byte>) returns (ok: bool)
      requires Delivered(buf) && (StageNow().AwaitEncryption? || StageNow().AwaitSeed?)
      modifies this, io
      ensures Whole(old(StageNow()), old(MessageIn(buf))) && Reacted(ok, old(StageNow()), old(MessageIn(buf)))
    {
      if !wantClientSeed {
        ok := HandleHandshake(buf);
      } else {
        ok := HandleYData(buf);
      }
    }

    /** The type is there: choose the descriptor and read on behind the type, in the same buffer. */
    method ReadMsg(buf: array<byte>) returns (ok: bool)
      requires io.Valid() && io.NoLostWakeup() && FlagsOk() && !io.HasPendingRead() && !refused
      requires InBody() && buf.Length == io.readBufSz == Capacity(2)
      modifies io
      ensures io.Valid() && io.NoLostWakeup() && FlagsOk() && InputKept() && io.Outgoing() == old(io.Outgoing())
      ensures io.encrypt == old(io.encrypt) && io.decrypt == old(io.decrypt)
      ensures var ty := FromLE(buf[..2]);
        && ok == (ty <= 2)
        && (ty == 0 ==> io.readStruct == Some(PING_REQUEST))
        && (ty == 1 ==> io.readStruct == Some(FILE_SRV_REQUEST))
        && (ty == 2 ==> io.readStruct == Some(AUTH_SRV_REQUEST))
        && (ok ==>
              var ns := RequestStruct(ty);
              && io.HasPendingRead() && WellFormed(ns) && Capacity(2) <= Capacity(MemSize(ns))
              && io.Rd() == Reader(ns, 1, 0, Grow(buf[..], Capacity(MemSize(ns)))))
    {
      hide Issued, Unsent, Crypt, Advance, CalcFieldSz, SentOnly, FromLE, MemOff, WellFormed;
      HeaderSize();
      SentNothing(io.net);
      var ty := FromLE(buf[..2]);
      if ty > AUTH_SRV {
        return false;
      }
      RequestStructOk(ty);
      var ns := if ty == PING then PING_REQUEST else if ty == FILE_SRV then FILE_SRV_REQUEST else AUTH_SRV_REQUEST;
      assert ns == RequestStruct(ty);
      SecondField(ns);
      io.ReadInto(ns, Some(1), buf);
      return true;
    }

    method HandlePing(buf: array<byte>)
      requires io.Valid() && io.NoLostWakeup() && TailVariable(PING_REPLY) && Encodable(PING_REPLY, buf[..])
      modifies io
      ensures Sent(Serialize(PING_REPLY, buf[..]))
    {
      io.EnqueueWrite(PING_REPLY, buf[..]);
    }

    method HandleAddressRequest(buf: array<byte>, addr: seq<char16>)
      requires io.Valid() && io.NoLostWakeup() && buf.Length >= 6
      modifies io
      ensures Sent(AddressReply(buf[2..6], addr))
    {
      var transId := FromLE(buf[2..6]);
      LEUnique(buf[2..6]);
      Pow256Of4();
      RequestTables();
      var reply := BuildAddressReply(transId, addr);
      io.EnqueueWrite(FILE_SRV_REPLY, reply[..]);
    }

    /** `plain` was encrypted and handed over for sending; nothing else happened to the connection. */
    twostate predicate Sent(plain: seq<byte>)
      requires old(io.Valid())
      reads io, io.readBuf
    {
      && io.Valid() && (old(io.NoLostWakeup()) ==> io.NoLostWakeup())
      && SentOnly(old(io.net), io.net) && io.QueueTried() && io.torn == old(io.torn)
      && io.log == old(io.log).(issued := old(io.log.issued) + plain)
      && io.readStruct == old(io.readStruct) && io.readField == old(io.readField) && io.readOffset == old(io.readOffset)
      && io.readBuf == old(io.readBuf) && io.readBufSz == old(io.readBufSz)
      && io.Outgoing() == old(io.Outgoing()) + Crypt(old(io.encrypt), plain)
      && io.encrypt == Advance(old(io.encrypt), |plain|) && io.decrypt == old(io.decrypt)
    }

    /** Answer a complete request. Its type was checked before its body was read. */
    method DispatchMsg(buf: array<byte>) returns (ok: bool)
      requires io.Valid() && io.NoLostWakeup() && ConfigOk(cfg)
      requires buf.Length >= 6 && FromLE(buf[..2]) <= AUTH_SRV
      requires FromLE(buf[..2]) == PING ==> TailVariable(PING_REPLY) && Encodable(PING_REPLY, buf[..])
      modifies io
      ensures ok
      ensures var ty := FromLE(buf[..2]);
        Sent(if ty == PING then Serialize(PING_REPLY, buf[..])
             else AddressReply(buf[2..6], if ty == FILE_SRV then cfg.fileAddr else cfg.authAddr))
    {
      var ty := FromLE(buf[..2]);
      if ty == PING {
        HandlePing(buf);
      } else if ty == FILE_SRV {
        HandleAddressRequest(buf, cfg.fileAddr);
      } else {
        assert ty == AUTH_SRV;
        HandleAddressRequest(buf, cfg.authAddr);
      }
      return true;
    }

    /** A complete request: register the next header, then answer. Registering first is safe, as it
        only changes the state. */
    method BodyRead(buf: array<byte>) returns (ok: bool)
      requires Delivered(buf) && handler.Gate? && InBody()
      modifies this, io
      ensures Whole(AwaitMessage, old(MessageIn(buf))) && Reacted(ok, AwaitMessage, old(MessageIn(buf)))
    {
      hide Crypt, Serialize, Encodable, CalcFieldSz, WellFormed, TailVariable, MemOff, Capacity, WireLength;
      hide Issued, Unsent, SentOnly;
      WholeMessage(buf);
      HeaderSize();
      ghost var msg := MessageIn(buf);
      if FromLE(buf[..][..2]) == PING {
        EncodablePing(buf);
      }
      wantMsgHeader := true;
      io.Read(MSG_STD_HEADER);
      assert buf[..2] == buf[..][..2] == msg[..2] && buf[2..6] == msg[2..6];
      IssuedMore(cfg, io.log, served, msg);
      ok := DispatchMsg(buf);
      served := served + [msg];
    }

    lemma EncodablePing(buf: array<byte>)
      requires Delivered(buf) && InBody() && handler.Gate? && FromLE(buf[..][..2]) == PING
      ensures TailVariable(PING_REPLY) && Encodable(PING_REPLY, buf[..])
      ensures Serialize(PING_REPLY, buf[..]) == MessageIn(buf)
    {
      RequestTables();
      DeliveredEncodable(PING_REPLY, buf[..]);
    }

    /** The gatekeeper's handler: handshake, message type, or message. */
    method GateRead(buf: array<byte>) returns (ok: bool)
      requires Delivered(buf) && handler.Gate?
      modifies this, io
      ensures old(encrypted && wantMsgHeader) ==> TypeTaken(ok, buf)
      ensures !old(encrypted && wantMsgHeader) ==>
        Whole(old(StageNow()), old(MessageIn(buf))) && Reacted(ok, old(StageNow()), old(MessageIn(buf)))
    {
      hide Issued, Unsent, Crypt, Advance, CalcFieldSz, Serialize, Encodable, WireLength, TailVariable, SentOnly, React;
      if !encrypted {
        ok := EncryptedRead(buf);
      } else if wantMsgHeader {
        HeaderSize();
        wantMsgHeader := false;
        ok := ReadMsg(buf);
      } else {
        ok := BodyRead(buf);
      }
    }

    /** The type of a request was taken up, or refused. */
    twostate predicate TypeTaken(new ok: bool, buf: array<byte>)
      requires old(io.WritesOk()) && buf.Length >= 2
      reads this, io, io.readBuf, buf
    {
      var ty := FromLE(buf[..][..2]);
      && io.Valid() && io.NoLostWakeup() && FlagsOk() && InputKept() && InBody()
      && io.Outgoing() == old(io.Outgoing()) && io.encrypt == old(io.encrypt) && io.decrypt == old(io.decrypt)
      && ok == (ty <= AUTH_SRV)
      && (ok ==>
            var ns := RequestStruct(ty);
            && io.HasPendingRead() && WellFormed(ns) && buf.Length <= Capacity(MemSize(ns))
            && io.Rd() == Reader(ns, 1, 0, Grow(buf[..], Capacity(MemSize(ns)))))
    }

    method HandlerRead(buf: array<byte>) returns (ok: bool)
      requires Delivered(buf)
      modifies this, io
      ensures old(encrypted && wantMsgHeader) ==> TypeTaken(ok, buf)
      ensures !old(encrypted && wantMsgHeader) ==>
        Whole(old(StageNow()), old(MessageIn(buf))) && Reacted(ok, old(StageNow()), old(MessageIn(buf)))
    {
      if handler.Incoming? {
        ok := IncomingRead(buf);
      } else {
        ok := GateRead(buf);
      }
    }

    // --- The pumps ----------------------------------------------------------------------------

    ghost function Here(): Point
      requires io.ReadOk() && io.HasPendingRead()
      reads this, io, io.readBuf
    {
      Point(StageNow(), encrypted && wantMsgHeader, io.encrypt, io.decrypt, io.Rd())
    }

    /** What was taken and what was given out are the reference conversation. */
    ghost predicate InSync()
      requires Valid()
      reads this, io, io.readBuf
    {
      if refused then SyncClosed(cfg, heard, io.Outgoing()) else Sync(cfg, heard, io.Outgoing(), Here())
    }

    lemma SyncMeans()
      requires Valid() && InSync()
      ensures var t := Converse(cfg, START, heard);
        io.Outgoing() == t.out && !t.conv.stage.Broken? && (refused <==> t.conv.stage.Closed?)
    {
    }

    lemma SyncStarts()
      requires Valid() && !refused && heard == [] && io.net.sent == [] && io.writes == []
      requires WellFormed(CONNECTION_HEADER)
      requires Here() == Point(AwaitConnection, false, Null, Null, Blank(CONNECTION_HEADER))
      ensures InSync()
    {
      StartInSync(cfg);
      assert io.Outgoing() == [];
    }

    /** How a pump left the socket: it was asked and had nothing, or failed, or a message was refused; or
        the read loop asks for nothing, or the stream is at its end. */
    twostate predicate Drained(new outcome: Outcome)
      reads this, io, io.readBuf
    {
      && Rest(old(io.net.readScript), io.net.readScript)
      && (outcome.Blocked? ==> SaidNothing(old(io.net.readScript), io.net.readScript))
      && (outcome.Shut? ==> io.net.down && (refused || SaidFailed(old(io.net.readScript), io.net.readScript)))
      && (outcome.Spinning? ==>
            io.ReadOk() && io.HasPendingRead() && (Request(io.Rd()) == 0 || io.net.incoming == []))
    }

    /** In step with the reference, on a schedule that will hand out the rest of the stream gently. */
    ghost predicate OnCourse()
      requires Valid()
      reads this, io, io.readBuf
    {
      InSync() && !io.torn && !refused && Gentle(cfg, heard, io.net.incoming, io.net.readScript)
    }

    /** Take what the socket has of the current message. */
    method TakeMessage() returns (outcome: Outcome, buf: array?<byte>)
      requires Valid() && !refused
      modifies io, this`heard, this`refused
      ensures var res, incoming := old(Run(io.Rd(), io.Plain(), io.net.readScript)), old(io.net.incoming);
        && outcome == res.outcome && io.net.readScript == res.events && io.torn == (old(io.torn) || res.torn)
        && heard == old(heard) + incoming[..res.used]
        && io.net == old(io.net).(incoming := incoming[res.used..], readScript := io.net.readScript,
             down := old(io.net.down) || outcome.Shut?)
        && io.writes == old(io.writes) && io.encrypt == old(io.encrypt) && io.log == old(io.log)
        && (!outcome.Fault? ==> io.decrypt == Advance(old(io.decrypt), res.used))
        && (outcome.Complete? <==> buf != null)
        && (outcome.Complete? ==> Delivered(buf) && buf[..] == res.reader.mem && res.used > 0)
        && (outcome.Complete? ==> StructNow(buf[..]) == old(io.Rd().ns))
        && (!outcome.Complete? && !outcome.Fault? ==>
              && Valid() && io.HasPendingRead() && io.Rd() == res.reader
              && refused == (CurrentWire(res.reader) == SENTINEL))
      ensures Drained(outcome)
    {
      hide Run, Crypt, CalcFieldSz, Capacity, WellFormed, TailVariable, MemOff, StageStruct, Unsent, Issued;
      hide FromLE, RequestStruct, Request;
      ghost var rd, plain, script := io.Rd(), io.Plain(), io.net.readScript;
      ghost var incoming, res := io.net.incoming, Run(rd, plain, script);
      ghost var used;
      FinishedInside(rd, plain, script);
      FrontKept(rd, plain, script);
      ShutMeans(rd, plain, script);
      RunDrains(rd, plain, script);
      if encrypted {
        AdvanceTwice(io.log.epoch, |heard| - keyedAt, res.used);
      }
      TypeStays(rd, res.reader.mem);
      outcome, buf, used := io.HandleRead();
      heard := heard + incoming[..used];
      if !outcome.Complete? && !outcome.Fault? && CurrentWire(io.Rd()) == SENTINEL {
        refused := true;
      }
    }

    /** Reading on behind the type of a request leaves the type. */
    lemma TypeStays(r: Reader, mem: seq<byte>)
      requires Valid() && !refused && r == io.Rd() && At(r) <= |mem| && mem[..At(r)] == r.mem[..At(r)]
      ensures InBody() ==> |mem| >= 2 && mem[..2] == r.mem[..2]
      ensures StructNow(mem) == StructNow(r.mem) == r.ns
    {
      hide Issued, Unsent, Crypt, Capacity, CalcFieldSz;
      if InBody() {
        RequestStructOk(FromLE(r.mem[..2]));
        SecondField(r.ns);
        MemOffMonotone(r.ns, 1, r.field);
        assert mem[..2] == mem[..At(r)][..2];
      }
    }

    /** A fresh read is the one the flags call for. */
    lemma RegisteredPending()
      requires io.Valid() && Registered()
      ensures PendingOk() && io.Rd() == Blank(io.Rd().ns)
      ensures Starts(StageNow(), encrypted && wantMsgHeader, io.Rd().ns)
    {
      hide CalcFieldSz;
      HandshakeTables(64);
      RequestTables();
      assert StructNow(io.Rd().mem) == StructNow([]);
    }

    /** Reading on behind the type is what the flags call for. */
    lemma BodyPending(mem: seq<byte>)
      requires io.Valid() && FlagsOk() && InBody() && io.HasPendingRead()
      requires |mem| >= 2 && FromLE(mem[..2]) <= AUTH_SRV && WellFormed(RequestStruct(FromLE(mem[..2])))
      requires var ns := RequestStruct(FromLE(mem[..2]));
        |mem| <= Capacity(MemSize(ns)) && io.Rd() == Reader(ns, 1, 0, Grow(mem, Capacity(MemSize(ns))))
      ensures PendingOk()
    {
      hide CalcFieldSz, WellFormed, Capacity;
      assert io.Rd().mem[..2] == mem[..2];
    }

    /** Sending went on; the connection was shut down only for a failure or a refusal. */
    twostate predicate WritesKept(new outcome: Outcome)
      requires old(io.WritesOk())
      reads this, io
    {
      && io.WritesOk() && WriteSide(old(SendingNow()), SendingNow(), refused || outcome.Shut?)
      && KeyKept() && io.Conserved() && Issued(cfg, encrypted, io.log, served)
    }

    /** Hand a complete message to its handler; a refusal shuts the connection down. An accepting
        handler has always registered the next read. */
    method Deliver(buf: array<byte>) returns (ok: bool)
      requires Delivered(buf)
      modifies this, io
      ensures Valid() && ok == !refused && (ok ==> io.HasPendingRead())
      ensures heard == old(heard) && io.torn == old(io.torn) && io.net.incoming == old(io.net.incoming)
      ensures io.net.readScript == old(io.net.readScript)
      ensures WritesKept(Complete)
      ensures old(encrypted && wantMsgHeader) ==>
        var ty := FromLE(buf[..][..2]);
        && io.Outgoing() == old(io.Outgoing()) && ok == (ty <= AUTH_SRV)
        && (ok ==>
              var ns := RequestStruct(ty);
              && WellFormed(ns) && buf.Length <= Capacity(MemSize(ns))
              && Here() == Point(old(StageNow()), false, old(io.encrypt), old(io.decrypt),
                   Reader(ns, 1, 0, Grow(buf[..], Capacity(MemSize(ns))))))
      ensures !old(encrypted && wantMsgHeader) ==> Whole(old(StageNow()), old(MessageIn(buf)))
      ensures !old(encrypted && wantMsgHeader) ==>
        var r := React(cfg, old(StageNow()), old(MessageIn(buf)));
        && io.Outgoing() == old(io.Outgoing()) + Crypt(old(io.encrypt), r.out) && ok == !r.stage.Closed?
        && (ok ==>
              && io.Rd() == Blank(io.Rd().ns) && Starts(r.stage, encrypted && wantMsgHeader, io.Rd().ns)
              && Here() == Point(r.stage, encrypted && wantMsgHeader,
                   if r.rekey.Some? then r.rekey.value else Advance(old(io.encrypt), |r.out|),
                   if r.rekey.Some? then r.rekey.value else old(io.decrypt), Blank(io.Rd().ns)))
    {
      hide Crypt, Advance, CalcFieldSz, Capacity, WellFormed, TailVariable, MemOff;
      hide StageStruct, React, Serialize, WireLength, Unsent, Issued;
      ghost var header := encrypted && wantMsgHeader;
      ok := HandlerRead(buf);
      if ok {
        if header {
          BodyPending(buf[..]);
        } else {
          RegisteredPending();
        }
        assert io.HasPendingRead();
      } else {
        io.net := io.net.(down := true);
        refused := true;
      }
    }

    /** Take what comes of a message, and hand it to its handler if it is complete. */
    method TakeAndDeliver() returns (outcome: Outcome, ok: bool)
      requires Valid() && !refused
      modifies this, io
      ensures !outcome.Fault? ==> Valid()
      ensures ok ==> !refused
      ensures outcome.Complete? ==> ok == !refused && |io.net.incoming| < |old(io.net.incoming)|
      ensures !outcome.Complete? ==> !ok && |io.net.incoming| <= |old(io.net.incoming)|
      ensures Drained(outcome) && Kept(outcome)
      ensures var res, incoming := old(Run(io.Rd(), io.Plain(), io.net.readScript)), old(io.net.incoming);
        && outcome == res.outcome && io.torn == (old(io.torn) || res.torn) && io.net.readScript == res.events
        && heard == old(heard) + incoming[..res.used] && io.net.incoming == incoming[res.used..]
    {
      hide Run, Crypt, Advance, CalcFieldSz, Capacity, WellFormed, TailVariable, MemOff;
      hide StageStruct, Sync, SyncClosed, SyncBroken, React, Serialize, WireLength, Unsent, Issued, Gentle;
      hide Request, CurrentWire, Encodable, SaidNothing, SaidFailed, FromLE, Starts, RequestStruct, Grow;
      hide WriteSide, SentOn, TookShort, Grants, SendingOk;
      var buf;
      ghost var before := SendingNow();
      ghost var h, out, p, incoming, script := heard, io.Outgoing(), Here(), io.net.incoming, io.net.readScript;
      ghost var synced := InSync();
      outcome, buf := TakeMessage();
      assert heard + io.net.incoming == h + incoming;
      ok := false;
      ghost var header, mid := encrypted && wantMsgHeader, SendingNow();
      WriteSideReads(before, mid, refused || outcome.Shut?);
      if outcome.Complete? {
        ok := Deliver(buf);
        WriteSideTrans(before, mid, SendingNow(), refused);
      }
      if synced && !io.torn {
        if outcome.Fault? {
          CallOverruns(cfg, h, out, p, incoming, script);
        } else if !outcome.Complete? {
          if outcome.Spinning? {
            CallSpins(cfg, h, out, p, incoming, script);
          }
          CallWaits(cfg, h, out, p, incoming, script);
        } else if header {
          CallTypes(cfg, h, out, p, incoming, script);
        } else {
          CallDelivers(cfg, h, out, p, incoming, script);
        }
      }
    }

    /** One turn of the read pump; on a gentle schedule it ends with a message that is accepted, or waits. */
    method PumpOnce() returns (outcome: Outcome, ok: bool)
      requires Valid() && !refused
      modifies this, io
      ensures !outcome.Fault? ==> Valid()
      ensures ok ==> !refused
      ensures outcome.Complete? ==> ok == !refused && |io.net.incoming| < |old(io.net.incoming)|
      ensures !outcome.Complete? ==> !ok && |io.net.incoming| <= |old(io.net.incoming)|
      ensures Drained(outcome) && Kept(outcome)
      ensures old(OnCourse()) ==> (outcome.Blocked? || (outcome.Complete? && ok)) && OnCourse()
    {
      hide Issued, Unsent, Crypt, Advance, WellFormed, Capacity, Gentle, Sync, SyncClosed, SyncBroken, StageStruct;
      hide Run, Converse, Request, CalcFieldSz, TailVariable, FromLE, WriteSide, Rest, SaidNothing, SaidFailed;
      ghost var course := OnCourse();
      if course {
        GentleCall(cfg, heard, io.Outgoing(), Here(), io.net.incoming, io.net.readScript);
      }
      outcome, ok := TakeAndDeliver();
      if course {
        SyncMeans();
      }
    }

    /** Nothing that arrived is lost, and the connection stays with the reference conversation as
        long as no read stops inside a field. */
    twostate predicate Kept(new outcome: Outcome)
      requires old(Valid()) && ConfigOk(cfg)
      requires !outcome.Fault? ==> Valid()
      reads this, io, io.readBuf
    {
      && heard + io.net.incoming == old(heard + io.net.incoming) && old(heard) <= heard
      && (old(io.torn) ==> io.torn)
      && (old(InSync()) && !io.torn && !outcome.Fault? ==> InSync())
      && WritesKept(outcome)
      && (old(InSync()) && !io.torn && outcome.Fault? ==> SyncBroken(cfg, heard, io.Outgoing()))
      && (old(InSync()) && !io.torn && outcome.Spinning? ==> io.net.incoming == [])
    }

    /**
     Take messages until the socket has nothing, fails or is shut, or a message is refused. The
     last outcome says which: after `Complete` it was a refusal.
     */
    method PumpRead() returns (outcome: Outcome)
      requires Valid() && !refused
      modifies this, io
      ensures !outcome.Fault? ==> Valid()
      ensures outcome.Complete? ==> refused
      ensures Drained(outcome) && Kept(outcome)
      ensures old(OnCourse()) ==> outcome.Blocked? && OnCourse()
    {
      hide Issued, Unsent, Crypt, Advance, WellFormed, Capacity, Gentle, Sync, SyncClosed, SyncBroken, StageStruct;
      hide Run, Converse, Request, CalcFieldSz, TailVariable, FromLE, WriteSide;
      hide Rest, SaidNothing, SaidFailed, StructAt, CurrentWire, TookShort;
      WriteSideStarts(SendingNow(), refused);
      AllLeft(io.net.readScript);
      var ok := true;
      outcome := Complete;
      while ok
        invariant !outcome.Fault? ==> Valid()
        invariant ok ==> !refused && outcome.Complete?
        invariant !ok && outcome.Complete? ==> refused
        invariant Drained(outcome) && Kept(outcome)
        invariant old(OnCourse()) ==> (if ok then outcome.Complete? else outcome.Blocked?) && OnCourse()
        decreases |io.net.incoming|, ok
      {
        ghost var before := SendingNow();
        outcome, ok := PumpOnce();
        RestTrans(old(io.net.readScript), before.net.readScript, io.net.readScript);
        WriteSideTrans(old(SendingNow()), before, SendingNow(), refused || outcome.Shut?);
      }
    }

    /** Send until nothing is queued or the socket does not take all it was given. */
    method PumpWrite()
      requires Valid()
      modifies this, io
      ensures Valid() && Kept(Blocked) && refused == old(refused) && io.net.readScript == old(io.net.readScript)
      ensures io.writes == [] ||
        (io.writeStalled && TookShort(old(io.net.writeScript), io.net.writeScript, |io.Outgoing()|))
      ensures io.Outgoing() == old(io.Outgoing())
      ensures old(OnCourse()) ==> OnCourse()
    {
      hide Issued, Unsent, Crypt, Advance, WellFormed, Capacity, Sync, SyncClosed, SyncBroken, StageStruct, Gentle;
      hide SentOnly, CalcFieldSz, FromLE, TailVariable, MemOff, TookShort, Grants;
      SentNothing(io.net);
      var popped := true;
      while popped
        invariant io.Valid() && FlagsOk() && (refused ==> io.net.down) && (!refused ==> PendingOk())
        invariant !popped ==> io.NoLostWakeup()
        invariant !popped && io.writes != [] ==>
          TookShort(old(io.net.writeScript), io.net.writeScript, |io.Outgoing()|)
        invariant heard == old(heard) && refused == old(refused) && io.torn == old(io.torn)
        invariant io.net.incoming == old(io.net.incoming) && io.net.readScript == old(io.net.readScript)
        invariant io.Outgoing() == old(io.Outgoing())
        invariant !refused ==> Here() == old(Here())
        invariant SentOnly(old(io.net), io.net) && KeyKept()
        decreases |io.writes|, popped
      {
        ghost var before := io.net;
        SentOnlyMeans(old(io.net), before);
        popped := io.HandleWrite();
        SentOnlyTrans(old(io.net), before, io.net);
        if !popped && io.writes != [] {
          ghost var out := |io.Outgoing()|;
          TookShortOn(old(io.net.writeScript), before.writeScript, io.net.writeScript, out, out);
        }
      }
      SentOnlyMeans(old(io.net), io.net);
    }

    /**
     One event of the dispatcher. A hang-up comes first and ends the connection; the others are
     only delivered while the connection is not shut down.
     */
    method HandleDispatch(write: bool, read: bool, hup: bool) returns (alive: bool, outcome: Outcome)
      requires Valid() && (io.net.down ==> hup)
      modifies this, io
      ensures alive == !hup
      ensures !alive ==> io.net == old(io.net) && io.writes == old(io.writes)
      ensures !outcome.Fault? ==> Valid()
      ensures Kept(outcome)
      ensures alive && write && io.writes != [] ==>
        TookShort(old(io.net.writeScript), io.net.writeScript, |io.Outgoing()|)
      ensures alive && read ==> Drained(outcome)
      ensures !(alive && read) ==> outcome.Blocked? && io.net.readScript == old(io.net.readScript)
      ensures old(OnCourse()) ==> outcome.Blocked? && OnCourse()
    {
      hide Issued, Unsent, Crypt, Advance, WellFormed, Capacity, Gentle, Sync, SyncClosed, SyncBroken, StageStruct;
      hide Converse, Request, CalcFieldSz, TailVariable, FromLE, WriteSide, Rest, SaidNothing, SaidFailed, TookShort;
      outcome := Blocked;
      WriteSideStarts(SendingNow(), refused);
      if hup {
        return false, outcome;
      }
      if write {
        PumpWrite();
      }
      ghost var before := SendingNow();
      if read {
        outcome := PumpRead();
        WriteSideTrans(old(SendingNow()), before, SendingNow(), refused || outcome.Shut?);
      }
      return true, outcome;
    }
  }

  lemma BrokenMeans(cfg: Config, heard: seq<byte>, out: seq<byte>)
    requires ConfigOk(cfg) && SyncBroken(cfg, heard, out)
    ensures Converse(cfg, START, heard).out == out && Converse(cfg, START, heard).conv.stage.Broken?
  {
  }

  datatype Dispatch = Dispatch(write: bool, read: bool, hup: bool)

  /** How many of the events let the connection read, and how many let it write. */
  function Reads(events: seq<Dispatch>): nat {
    if events == [] then 0
    else Reads(events[..|events| - 1]) + if events[|events| - 1].read then 1 else 0
  }

  function Writes(events: seq<Dispatch>): nat {
    if events == [] then 0
    else Writes(events[..|events| - 1]) + if events[|events| - 1].write then 1 else 0
  }

  lemma NoEvents(events: seq<Dispatch>)
    ensures Reads(events[..0]) == Writes(events[..0]) == 0
  {
  }

  lemma EventsOn(events: seq<Dispatch>, i: nat)
    requires 0 < i <= |events|
    ensures Reads(events[..i]) == Reads(events[..i - 1]) + if events[i - 1].read then 1 else 0
    ensures Writes(events[..i]) == Writes(events[..i - 1]) + if events[i - 1].write then 1 else 0
  {
    assert events[..i][..i - 1] == events[..i - 1];
  }

  predicate NoHangUp(events: seq<Dispatch>) {
    forall i :: 0 <= i < |events| ==> !events[i].hup
  }

  /** The whole stream arrives: the schedule hands it out gently, there is a read event for every pause
      and one more, and neither a hang-up nor a failed write ends the connection before. */
  predicate Arrives(net: Net, cfg: Config, events: seq<Dispatch>)
    requires ConfigOk(cfg)
  {
    && Gentle(cfg, [], net.incoming, net.readScript) && Pauses(net.readScript) < Reads(events)
    && NoHangUp(events) && Failed !in net.writeScript
  }

  /** What the whole stream is answered with. */
  function AllOut(net: Net, cfg: Config): seq<byte>
    requires ConfigOk(cfg)
  {
    Converse(cfg, START, net.incoming).out
  }

  /** The first `n` events are enough for the stream to arrive; behind them there is a write event for
      every step of the socket that may not take all of the output, and one more. */
  predicate DepartsAfter(net: Net, cfg: Config, events: seq<Dispatch>, n: nat)
    requires ConfigOk(cfg) && n <= |events|
  {
    && Pauses(net.readScript) < Reads(events[..n])
    && Writes(events[..n]) + ShortSteps(net.writeScript, |AllOut(net, cfg)|) < Writes(events)
  }

  predicate Departs(net: Net, cfg: Config, events: seq<Dispatch>)
    requires ConfigOk(cfg)
  {
    Arrives(net, cfg, events) && exists n: nat :: n <= |events| && DepartsAfter(net, cfg, events, n)
  }

  /** How far a gentle stream has come after that many read events. */
  ghost predicate Arriving(c: Client, net: Net, readEvents: nat)
    requires c.Valid()
    reads c, c.io, c.io.readBuf
  {
    && c.OnCourse() && !c.io.net.down
    && (c.io.net.incoming == [] || Pauses(c.io.net.readScript) + readEvents <= Pauses(net.readScript))
  }

  /** How far its output has come, after `now` write events, `first` of them before it was complete:
      `limit` bytes, and what is queued still waits for one of the short steps that are left. */
  predicate Leaving(s: Sending, net: Net, limit: nat, first: nat, now: nat) {
    && s.net.incoming == [] && s.out == limit
    && (!s.queued || s.net.writeScript == []
        || ShortSteps(s.net.writeScript, limit) + now <= ShortSteps(net.writeScript, limit) + first)
  }

  /** One event, of a connection that may be arriving or leaving; after a shutdown it carries a hang-up. */
  method ServeEvent(c: Client, e: Dispatch, ghost net: Net, ghost readEvents: nat, ghost first: nat, ghost now: nat)
    returns (alive: bool, outcome: Outcome)
    requires c.Valid() && SentOn(net, c.io.net) && c.heard + c.io.net.incoming == net.incoming
    modifies c, c.io
    ensures !outcome.Fault? ==> c.Valid()
    ensures c.Kept(outcome) && SentOn(net, c.io.net)
    ensures old(Arriving(c, net, readEvents)) && !e.hup && Failed !in net.writeScript ==>
      alive && outcome.Blocked? && Arriving(c, net, readEvents + if e.read then 1 else 0)
    ensures old(Arriving(c, net, readEvents)) && !e.hup && Failed !in net.writeScript ==>
      old(Leaving(c.SendingNow(), net, |AllOut(net, c.cfg)|, first, now)) ==>
      Leaving(c.SendingNow(), net, |AllOut(net, c.cfg)|, first, now + if e.write then 1 else 0)
  {
    hide Converse, Sync, SyncClosed, SyncBroken, Crypt, Advance, Run, Gentle, Issued, Rest, SaidNothing, Pauses;
    hide WellFormed, TailVariable, Capacity, Unsent, SaidFailed, Request, CurrentWire, CalcFieldSz;
    hide WriteSide, ShortSteps, TookShort, Grants, SentOn, AllOut, StageStruct;
    hide Client.InSync, Client.PendingOk, ClientBase.ReadOk;
    ghost var course := Arriving(c, net, readEvents) && !e.hup && Failed !in net.writeScript;
    ghost var limit, before, heard := |AllOut(net, c.cfg)|, c.SendingNow(), c.heard;
    ghost var leaving := Leaving(before, net, limit, first, now);
    alive, outcome := c.HandleDispatch(e.write, e.read, e.hup || c.io.net.down);
    ghost var after, closed := c.SendingNow(), c.refused || outcome.Shut?;
    WriteSideSends(net, before, after, closed);
    if course {
      NothingTakenBack(heard, before.net.incoming, c.heard, c.io.net.incoming);
      ArrivesOn(net, before.net, c, e.read, readEvents);
      if leaving {
        AllHeard(net, c.cfg, c);
        LeavesOn(net, before, after, closed, e.write, limit, first, now);
      }
    }
  }

  lemma NothingTakenBack(heard: seq<byte>, incoming: seq<byte>, heard': seq<byte>, incoming': seq<byte>)
    requires heard + incoming == heard' + incoming' && heard <= heard'
    ensures |incoming'| <= |incoming|
  {
    assert |heard| + |incoming| == |heard'| + |incoming'|;
  }

  /**
   A whole connection, over any bytes, any behaviour of the socket and any dispatcher events; after
   a shutdown every event carries the hang-up. At the end, and so after every prefix of the events:

   If the stream arrives in reads that end between fields, all of it has been heard; if there are
   enough write events behind that, all that it is answered with has been sent, unless the socket
   takes nothing any more. As long as no read stopped inside a field, the bytes sent and queued are
   what the reference conversation says about the bytes taken; the connection is refused exactly
   when the reference closes, a message overruns its buffer exactly when the reference breaks off,
   and the read loop never ends only when the stream has ended. Even after a read that stopped
   inside a field, what was sent and queued is nothing, or the clear reply and the replies to the
   requests served, under one keystream.
   */
  method Serve(net: Net, cfg: Config, events: seq<Dispatch>) returns (c: Client, outcome: Outcome)
    requires ConfigOk(cfg) && !net.down && net.sent == []
    ensures c.cfg == cfg && c.heard + c.io.net.incoming == net.incoming
    ensures !outcome.Fault? ==> c.Valid()
    ensures Arrives(net, cfg, events) ==> c.heard == net.incoming && !c.io.torn && outcome.Blocked?
    ensures Departs(net, cfg, events) && c.io.net.writeScript != [] ==>
      c.io.writes == [] && c.io.net.sent == AllOut(net, cfg)
    ensures SentOn(net, c.io.net)
    ensures c.io.WritesOk() && Issued(cfg, c.encrypted, c.io.log, c.served)
    ensures c.io.Outgoing() == c.io.log.past + Crypt(c.io.log.epoch, c.io.log.issued)
    ensures !c.io.torn ==> c.io.Outgoing() == Converse(cfg, START, c.heard).out
    ensures !c.io.torn ==> (outcome.Fault? <==> Converse(cfg, START, c.heard).conv.stage.Broken?)
    ensures !c.io.torn ==> (!outcome.Fault? && c.refused <==> Converse(cfg, START, c.heard).conv.stage.Closed?)
    ensures !c.io.torn && outcome.Spinning? ==> c.io.net.incoming == []
  {
    hide Converse, Sync, SyncClosed, SyncBroken, Crypt, Advance, Run, Gentle, Issued, Rest, SaidNothing, Pauses;
    hide WellFormed, TailVariable, Capacity, Unsent, WriteSide, SaidFailed, Request, CurrentWire, CalcFieldSz;
    hide Arrives, Arriving, Departs, DepartsAfter, Leaving, Reads, Writes, ShortSteps, TookShort, Grants, SentOn;
    hide Client.InSync, Client.OnCourse, Client.PendingOk, ClientBase.ReadOk;
    c := new Client(net, cfg);
    c.SyncStarts();
    NoEvents(events);
    SentOnStarts(net);
    ghost var n := |events| + 1;
    if Departs(net, cfg, events) {
      n := DepartsMeans(net, cfg, events);
      assert Arrives(net, cfg, events);
    }
    outcome := Blocked;
    var alive, i := true, 0;
    if Arrives(net, cfg, events) {
      ArrivesFirst(net, cfg, events, c);
    }
    while i < |events| && alive && !outcome.Fault? && !outcome.Spinning?
      invariant 0 <= i <= |events| && (n <= |events| ==> Arrives(net, cfg, events))
      invariant fresh(c) && fresh(c.io) && c.cfg == cfg
      invariant !outcome.Fault? ==> c.Valid()
      invariant c.heard + c.io.net.incoming == net.incoming && SentOn(net, c.io.net)
      invariant c.io.WritesOk() && c.io.Conserved() && Issued(cfg, c.encrypted, c.io.log, c.served)
      invariant !outcome.Fault? && !c.io.torn ==> c.InSync()
      invariant outcome.Fault? && !c.io.torn ==> SyncBroken(cfg, c.heard, c.io.Outgoing())
      invariant outcome.Spinning? && !c.io.torn ==> c.io.net.incoming == []
      invariant Arrives(net, cfg, events) ==> alive && outcome.Blocked? && Arriving(c, net, Reads(events[..i]))
      invariant n < i ==>
        Leaving(c.SendingNow(), net, |AllOut(net, cfg)|, Writes(events[..n]), Writes(events[..i]))
    {
      if Arrives(net, cfg, events) {
        ArrivingMeans(net, cfg, events, c, Reads(events[..i]));
        if i == n {
          AllHeard(net, cfg, c);
          LeavesFirst(net, c.SendingNow(), |AllOut(net, cfg)|, Writes(events[..n]));
        }
      }
      ghost var first := if n <= i then Writes(events[..n]) else 0;
      alive, outcome := ServeEvent(c, events[i], net, Reads(events[..i]), first, Writes(events[..i]));
      i := i + 1;
      EventsOn(events, i);
    }
    if Arrives(net, cfg, events) {
      assert events[..i] == events;
      ArrivingMeans(net, cfg, events, c, Reads(events));
    }
    if Departs(net, cfg, events) {
      AllHeard(net, cfg, c);
      HasLeft(net, cfg, events, n, c.SendingNow());
      AllSent(c.io);
    }
    if !c.io.torn {
      if outcome.Fault? {
        BrokenMeans(cfg, c.heard, c.io.Outgoing());
      } else {
        c.SyncMeans();
      }
    }
  }

  // --- Arriving ---------------------------------------------------------------------------------

  lemma ArrivesFirst(net: Net, cfg: Config, events: seq<Dispatch>, c: Client)
    requires ConfigOk(cfg) && Arrives(net, cfg, events) && !net.down && c.cfg == cfg && c.io.net == net
    requires c.Valid() && c.InSync() && !c.io.torn && !c.refused && c.heard == []
    ensures Arriving(c, net, 0)
  {
  }

  lemma ArrivingMeans(net: Net, cfg: Config, events: seq<Dispatch>, c: Client, readEvents: nat)
    requires ConfigOk(cfg) && Arrives(net, cfg, events) && c.Valid() && Arriving(c, net, readEvents)
    ensures c.OnCourse() && c.InSync() && !c.io.torn && !c.io.net.down
    ensures c.io.net.incoming == [] || Pauses(c.io.net.readScript) + readEvents <= Pauses(net.readScript)
    ensures Pauses(net.readScript) < Reads(events)
    ensures Pauses(net.readScript) < readEvents ==> c.io.net.incoming == []
    ensures NoHangUp(events) && Failed !in net.writeScript
  {
  }

  /** One event on a gentle stream: a read event uses up a pause, or there is nothing left to read. */
  lemma ArrivesOn(net: Net, before: Net, c: Client, read: bool, readEvents: nat)
    requires c.Valid() && c.OnCourse() && !c.io.net.down
    requires |c.io.net.incoming| <= |before.incoming|
    requires read ==> SaidNothing(before.readScript, c.io.net.readScript)
    requires !read ==> before.readScript == c.io.net.readScript
    requires before.incoming == [] || Pauses(before.readScript) + readEvents <= Pauses(net.readScript)
    ensures Arriving(c, net, readEvents + if read then 1 else 0)
  {
    hide Converse, Sync, SyncClosed, SyncBroken, Crypt, Run, Issued;
    if read {
      PauseUsed(before.readScript, c.io.net.readScript);
    }
  }

  // --- Leaving ----------------------------------------------------------------------------------

  lemma SentOnStarts(net: Net)
    ensures SentOn(net, net)
  {
  }

  /** One event: what was sent stays sent, and without a failed write the connection stays up. */
  lemma WriteSideSends(net: Net, before: Sending, after: Sending, closed: bool)
    requires SentOn(net, before.net) && WriteSide(before, after, closed)
    ensures SentOn(net, after.net)
    ensures Failed !in net.writeScript && !closed && !before.net.down ==> !after.net.down
  {
    hide Grants;
    RestTrans(net.writeScript, before.net.writeScript, after.net.writeScript);
    if Failed in before.net.writeScript {
      RestMembers(net.writeScript, before.net.writeScript, Failed);
    }
  }

  lemma DepartsMeans(net: Net, cfg: Config, events: seq<Dispatch>) returns (n: nat)
    requires ConfigOk(cfg) && Departs(net, cfg, events)
    ensures n <= |events| && DepartsAfter(net, cfg, events, n) && Arrives(net, cfg, events)
    ensures n < |events| && Pauses(net.readScript) < Reads(events[..n])
  {
    n :| n <= |events| && DepartsAfter(net, cfg, events, n);
    assert events[..|events|] == events;
  }

  /** When the stream is heard to its end, all of the output is there. */
  lemma AllHeard(net: Net, cfg: Config, c: Client)
    requires ConfigOk(cfg) && c.cfg == cfg && c.Valid() && c.InSync()
    requires c.heard + c.io.net.incoming == net.incoming && c.io.net.incoming == []
    ensures c.io.Outgoing() == AllOut(net, cfg)
  {
    c.SyncMeans();
    assert c.heard == net.incoming;
  }

  lemma LeavesFirst(net: Net, s: Sending, limit: nat, first: nat)
    requires SentOn(net, s.net) && s.net.incoming == [] && s.out == limit
    ensures Leaving(s, net, limit, first, first)
  {
    ShortUsed(net.writeScript, s.net.writeScript, limit);
  }

  /** One event with the output complete: a write event uses up a short step, or all is sent. */
  lemma LeavesOn(
    net: Net, before: Sending, after: Sending, closed: bool, write: bool, limit: nat, first: nat, now: nat)
    requires Leaving(before, net, limit, first, now) && WriteSide(before, after, closed)
    requires SendingOk(before) && SendingOk(after) && after.net.incoming == [] && after.out == limit
    requires write && after.queued ==> TookShort(before.net.writeScript, after.net.writeScript, limit)
    ensures Leaving(after, net, limit, first, now + if write then 1 else 0)
  {
    hide Grants;
    if after.queued {
      ShortUsed(before.net.writeScript, after.net.writeScript, limit);
    }
  }

  lemma HasLeft(net: Net, cfg: Config, events: seq<Dispatch>, n: nat, s: Sending)
    requires ConfigOk(cfg) && n <= |events| && DepartsAfter(net, cfg, events, n)
    requires Leaving(s, net, |AllOut(net, cfg)|, Writes(events[..n]), Writes(events))
    ensures !s.queued || s.net.writeScript == []
  {
  }

  lemma AllSent(io: ClientBase)
    requires io.WritesOk()
    ensures io.writes == [] ==> io.net.sent == io.Outgoing()
  {
    assert Unsent([]) == [];
  }
}
