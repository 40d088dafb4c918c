/**
 A connection's state against the reference conversation, as values.

 `Sync` relates what was taken from the socket, what was given out, and the state of the reader
 and the ciphers. The lemmas say what one call of the reader and one reaction of a handler do to
 it.
 */
module Synchrony {
  import opened Bytes
  import opened Ciphers
  import opened NetStructs
  import opened Reading
  import opened Resumption
  import opened Framing
  import opened Conversation

  /** The descriptor being read fits the stage and the (decrypted) bytes of the message so far. */
  predicate Suits(stage: Stage, header: bool, ns: NetStruct, d: seq<byte>) {
    && !stage.Closed? && !stage.Broken? && TailVariable(ns)
    && (header ==> stage.AwaitMessage? && ns == MSG_STD_HEADER)
    && (!header ==> (stage.AwaitMessage? ==> |d| >= 2 && FromLE(d[..2]) <= AUTH_SRV) && ns == StageStruct(stage, d))
  }

  /** State of a connection that has not been refused. */
  datatype Point = Point(stage: Stage, header: bool, enc: Cipher, dec: Cipher, rd: Reader)

  ghost predicate Sync(cfg: Config, heard: seq<byte>, out: seq<byte>, p: Point)
    requires ConfigOk(cfg)
  {
    var t := Converse(cfg, START, heard);
    && t.out == out && t.conv.stage == p.stage && t.conv.enc == p.enc && p.dec == Advance(t.conv.dec, |t.left|)
    && OnBoundary(p.rd) && Holds(p.rd, Crypt(t.conv.dec, t.left))
    && Suits(p.stage, p.header, p.rd.ns, Crypt(t.conv.dec, t.left))
  }

  /** The reference has closed the conversation, after the same output. */
  ghost predicate SyncClosed(cfg: Config, heard: seq<byte>, out: seq<byte>)
    requires ConfigOk(cfg)
  {
    var t := Converse(cfg, START, heard);
    t.out == out && t.conv.stage.Closed?
  }

  /** The message at hand does not fit its buffer; the reference stops here too. */
  ghost predicate SyncBroken(cfg: Config, heard: seq<byte>, out: seq<byte>)
    requires ConfigOk(cfg)
  {
    var t := Converse(cfg, START, heard);
    t.out == out && t.conv.stage.Broken?
  }

  /** The bytes of the current message after `raw` came in, decrypted. */
  function Now(cfg: Config, heard: seq<byte>, raw: seq<byte>): seq<byte>
    requires ConfigOk(cfg)
  {
    var t := Converse(cfg, START, heard);
    Crypt(t.conv.dec, t.left + raw)
  }

  lemma StartInSync(cfg: Config)
    requires ConfigOk(cfg)
    ensures TailVariable(CONNECTION_HEADER)
    ensures Sync(cfg, [], [], Point(AwaitConnection, false, Null, Null, Blank(CONNECTION_HEADER)))
  {
    hide FrameOf, CalcFieldSz, WellFormed;
    HandshakeTables(64);
    BlankHolds(CONNECTION_HEADER);
    NothingFramed(CONNECTION_HEADER);
    assert Converse(cfg, START, []) == Transcript(START, [], []);
  }

  /** One call that never stopped inside a field. */
  lemma CallHeard(cfg: Config, heard: seq<byte>, out: seq<byte>, p: Point, incoming: seq<byte>, events: seq<Event>)
    requires ConfigOk(cfg) && Sync(cfg, heard, out, p)
    requires !Run(p.rd, Crypt(p.dec, incoming), events).torn
    ensures var t := Converse(cfg, START, heard); var res := Run(p.rd, Crypt(p.dec, incoming), events);
      && CallFramed(p.rd.ns, Now(cfg, heard, incoming[..res.used]), res)
      && Converse(cfg, START, heard + incoming[..res.used]) ==
           Prefixed(out, Converse(cfg, t.conv, t.left + incoming[..res.used]))
      && Suits(p.stage, p.header, p.rd.ns, Now(cfg, heard, incoming[..res.used]))
      && Advance(p.dec, res.used) == Advance(t.conv.dec, |t.left + incoming[..res.used]|)
  {
    hide Converse, Run, Crypt, Advance, CallFramed, TailVariable, StageStruct, Holds, ReaderOk, CurrentWire;
    var t, plain := Converse(cfg, START, heard), Crypt(p.dec, incoming);
    var res := Run(p.rd, plain, events);
    RunFrames(p.rd, Crypt(t.conv.dec, t.left), plain, events);
    ConverseSplit(cfg, START, heard, incoming[..res.used]);
    CryptTake(p.dec, incoming, res.used);
    CryptSplit(t.conv.dec, t.left, incoming[..res.used]);
    AdvanceTwice(t.conv.dec, |t.left|, res.used);
    StageStructSame(p.stage, Crypt(t.conv.dec, t.left), Now(cfg, heard, incoming[..res.used]));
  }

  lemma StageStructSame(stage: Stage, a: seq<byte>, b: seq<byte>)
    requires a <= b
    ensures |a| >= 2 ==> b[..2] == a[..2]
    ensures (stage.AwaitMessage? ==> |a| >= 2 && FromLE(a[..2]) <= AUTH_SRV) ==>
      (stage.AwaitMessage? ==> |b| >= 2 && FromLE(b[..2]) <= AUTH_SRV) && StageStruct(stage, a) == StageStruct(stage, b)
  {
    if |a| >= 2 {
      assert b[..|a|][..2] == b[..2];
    }
  }

  /** The frame of the pending descriptor, as the reference sees it. */
  lemma NextIs(stage: Stage, header: bool, ns: NetStruct, d: seq<byte>)
    requires Suits(stage, header, ns, d)
    ensures !header ==> NextMessage(stage, d) == FromFrame(FrameOf(ns, d))
    ensures header && FrameOf(ns, d) == Incomplete ==> NextMessage(stage, d) == Wait
    ensures header && FrameOf(ns, d) == Message(|d|) ==>
      |d| == 2 && NextMessage(stage, d) == (if FromLE(d[..2]) > AUTH_SRV then Refuse else Wait)
    ensures header ==> FrameOf(ns, d) != TooMany && FrameOf(ns, d) != TooLong
  {
    if header {
      RequestTables();
      assert TailAt(ns) == 0;
      if |d| == 2 && FromLE(d[..2]) <= AUTH_SRV {
        TypeAlone(d);
      }
    }
  }

  lemma TypeAlone(d: seq<byte>)
    requires |d| == 2 && FromLE(d[..2]) <= AUTH_SRV
    ensures TailVariable(RequestStruct(FromLE(d[..2]))) && FrameOf(RequestStruct(FromLE(d[..2])), d) == Incomplete
  {
    var ns := RequestStruct(FromLE(d[..2]));
    RequestStructOk(FromLE(d[..2]));
    assert MemOff(ns, |ns|) == TailAt(ns) + DeclaredSz(ns[|ns| - 1]);
    if TailAt(ns) <= 2 {
      assert !IsVariable(ns[|ns| - 1]);
      FixedWire(ns, |ns| - 1);
    }
  }

  // --- What the ends of a call mean -------------------------------------------------------------

  /** The message is not complete: the reader waits where it stopped. */
  lemma CallWaits(cfg: Config, heard: seq<byte>, out: seq<byte>, p: Point, incoming: seq<byte>, events: seq<Event>)
    requires ConfigOk(cfg) && Sync(cfg, heard, out, p)
    requires var res := Run(p.rd, Crypt(p.dec, incoming), events);
      !res.torn && !res.outcome.Complete? && !res.outcome.Fault?
    ensures var res := Run(p.rd, Crypt(p.dec, incoming), events); var heard' := heard + incoming[..res.used];
      if CurrentWire(res.reader) == SENTINEL then SyncClosed(cfg, heard', out)
      else Sync(cfg, heard', out, p.(dec := Advance(p.dec, res.used), rd := res.reader))
  {
    hide Run, Crypt, Advance, TailVariable, StageStruct, Holds, FrameOf, CurrentWire, NextMessage;
    var t := Converse(cfg, START, heard);
    var res := Run(p.rd, Crypt(p.dec, incoming), events);
    CallHeard(cfg, heard, out, p, incoming, events);
    var raw := t.left + incoming[..res.used];
    NextIs(p.stage, p.header, p.rd.ns, Crypt(t.conv.dec, raw));
    assert out + [] == out;
  }

  /** A write that does not fit. */
  lemma CallOverruns(cfg: Config, heard: seq<byte>, out: seq<byte>, p: Point, incoming: seq<byte>, events: seq<Event>)
    requires ConfigOk(cfg) && Sync(cfg, heard, out, p)
    requires var res := Run(p.rd, Crypt(p.dec, incoming), events); !res.torn && res.outcome.Fault?
    ensures SyncBroken(cfg, heard + incoming[..Run(p.rd, Crypt(p.dec, incoming), events).used], out)
  {
    hide Run, Crypt, Advance, TailVariable, StageStruct, Holds, FrameOf, CurrentWire, NextMessage;
    var t := Converse(cfg, START, heard);
    var res := Run(p.rd, Crypt(p.dec, incoming), events);
    CallHeard(cfg, heard, out, p, incoming, events);
    NextIs(p.stage, p.header, p.rd.ns, Crypt(t.conv.dec, t.left + incoming[..res.used]));
    assert out + [] == out;
  }

  /** The pending descriptor has only byte buffers, so reading it ends unless the stream does. */
  lemma CallSpins(cfg: Config, heard: seq<byte>, out: seq<byte>, p: Point, incoming: seq<byte>, events: seq<Event>)
    requires ConfigOk(cfg) && Sync(cfg, heard, out, p)
    requires var res := Run(p.rd, Crypt(p.dec, incoming), events); !res.torn && res.outcome.Spinning?
    ensures Run(p.rd, Crypt(p.dec, incoming), events).used == |incoming|
  {
    hide Run, Crypt, Converse, OnBoundary, Holds;
    var t := Converse(cfg, START, heard);
    SuitsByteBuffers(p.stage, p.header, p.rd.ns, Crypt(t.conv.dec, t.left));
    RunEnds(p.rd, Crypt(p.dec, incoming), events);
  }

  lemma SuitsByteBuffers(stage: Stage, header: bool, ns: NetStruct, d: seq<byte>)
    requires Suits(stage, header, ns, d)
    ensures ByteBuffers(ns)
  {
  }

  /** A descriptor that a stage may start to read. */
  predicate Starts(stage: Stage, header: bool, ns: NetStruct) {
    Suits(stage, header, ns, []) && |ns| > 0 && !IsVariable(ns[0])
  }

  /** A complete message, and the reaction of its handler. */
  lemma CallDelivers(cfg: Config, heard: seq<byte>, out: seq<byte>, p: Point, incoming: seq<byte>, events: seq<Event>)
    requires ConfigOk(cfg) && Sync(cfg, heard, out, p) && !p.header
    requires var res := Run(p.rd, Crypt(p.dec, incoming), events); !res.torn && res.outcome.Complete?
    ensures var res := Run(p.rd, Crypt(p.dec, incoming), events); var mem := res.reader.mem;
      && Encodable(p.rd.ns, mem) && Whole(p.stage, Serialize(p.rd.ns, mem))
      && var r := React(cfg, p.stage, Serialize(p.rd.ns, mem));
         var heard', out' := heard + incoming[..res.used], out + Crypt(p.enc, r.out);
         if r.stage.Closed? then SyncClosed(cfg, heard', out')
         else
           var enc := if r.rekey.Some? then r.rekey.value else Advance(p.enc, |r.out|);
           var dec := if r.rekey.Some? then r.rekey.value else Advance(p.dec, res.used);
           forall header, ns :: Starts(r.stage, header, ns) ==>
             Sync(cfg, heard', out', Point(r.stage, header, enc, dec, Blank(ns)))
  {
    hide Run, Crypt, Advance, TailVariable, StageStruct, Holds, FrameOf, CurrentWire, NextMessage;
    hide React, Serialize, Encodable;
    var t := Converse(cfg, START, heard);
    var res := Run(p.rd, Crypt(p.dec, incoming), events);
    CallHeard(cfg, heard, out, p, incoming, events);
    var raw := t.left + incoming[..res.used];
    var msg := Crypt(t.conv.dec, raw);
    NextIs(p.stage, p.header, p.rd.ns, msg);
    SerializeAfterRead(p.rd.ns, msg);
    assert msg[..|msg|] == msg;
    TakeThen(cfg, t.conv, raw, |raw|);
    var r := React(cfg, p.stage, msg);
    var (next, answer) := Answer(cfg, t.conv, msg);
    assert raw[|raw|..] == [];
    Silence(cfg, next);
    assert answer + [] == answer;
    assert Prefixed(answer, Converse(cfg, next, [])) == Transcript(next, answer, []);
    assert Converse(cfg, START, heard + incoming[..res.used]) == Transcript(next, out + answer, []);
    hide Converse;
    if !r.stage.Closed? {
      AdvanceTwice(next.dec, 0, 0);
      forall header, ns | Starts(r.stage, header, ns)
        ensures WellFormed(ns) && Holds(Blank(ns), Crypt(next.dec, []))
        ensures OnBoundary(Blank(ns)) && Crypt(next.dec, []) == []
      {
        StartHolds(r.stage, header, ns, next.dec);
      }
    }
  }

  lemma StartHolds(stage: Stage, header: bool, ns: NetStruct, dec: Cipher)
    requires Starts(stage, header, ns)
    ensures WellFormed(ns) && Holds(Blank(ns), Crypt(dec, [])) && OnBoundary(Blank(ns)) && Crypt(dec, []) == []
  {
    BlankHolds(ns);
    assert Crypt(dec, []) == [];
  }

  /** Nothing follows from hearing nothing. */
  lemma Silence(cfg: Config, c: Conv)
    requires ConfigOk(cfg)
    ensures Converse(cfg, c, []) == Transcript(c, [], [])
  {
    hide FrameOf, TailVariable, WellFormed;
    assert Crypt(c.dec, []) == [];
    if !Ended(c) && !c.stage.AwaitMessage? {
      StageStructOk(c.stage, []);
      NothingFramed(StageStruct(c.stage, []));
    }
  }

  /** The type of a request arrived: the body is read behind it, or the request refused. */
  lemma CallTypes(cfg: Config, heard: seq<byte>, out: seq<byte>, p: Point, incoming: seq<byte>, events: seq<Event>)
    requires ConfigOk(cfg) && Sync(cfg, heard, out, p) && p.header
    requires var res := Run(p.rd, Crypt(p.dec, incoming), events); !res.torn && res.outcome.Complete?
    ensures var res := Run(p.rd, Crypt(p.dec, incoming), events); var heard' := heard + incoming[..res.used];
      var mem, ty := res.reader.mem, FromLE(res.reader.mem[..2]);
      if ty > AUTH_SRV then SyncClosed(cfg, heard', out)
      else
        var ns := RequestStruct(ty);
        && WellFormed(ns) && |mem| <= Capacity(MemSize(ns))
        && Sync(cfg, heard', out, Point(p.stage, false, p.enc, Advance(p.dec, res.used),
             Reader(ns, 1, 0, Grow(mem, Capacity(MemSize(ns))))))
  {
    hide Run, Crypt, Advance, Holds, FrameOf, NextMessage, CurrentWire, CalcFieldSz, Feed;
    var t := Converse(cfg, START, heard);
    var res := Run(p.rd, Crypt(p.dec, incoming), events);
    CallHeard(cfg, heard, out, p, incoming, events);
    var raw := t.left + incoming[..res.used];
    var d := Crypt(t.conv.dec, raw);
    NextIs(p.stage, p.header, p.rd.ns, d);
    HeaderSize();
    assert res.reader.mem[..2] == d[..2] == d;
    assert out + [] == out;
    var ty := FromLE(d[..2]);
    if ty <= AUTH_SRV {
      RequestStructOk(ty);
      var ns := RequestStruct(ty);
      ResumeAfterHeader(ns, d);
      BodyOnBoundary(ns, Grow(res.reader.mem, Capacity(MemSize(ns))));
    }
  }

  lemma BodyOnBoundary(ns: NetStruct, mem: seq<byte>)
    requires TailVariable(ns) && |ns| > 1 && !IsVariable(ns[1]) && |mem| == Capacity(MemSize(ns))
    ensures OnBoundary(Reader(ns, 1, 0, mem))
  {
    FixedWire(ns, 1);
  }
}
