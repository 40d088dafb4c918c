/**
 How far a connection gets.

 `Gentle` says of a stream and a schedule, before anything is read, that the schedule hands out the
 whole stream in reads that end between fields; fields and messages are those of the reference
 conversation. On such a schedule no read stops inside a field, and everything is heard.
 */
module Progress {
  import opened Bytes
  import opened Ciphers
  import opened NetStructs
  import opened Reading
  import opened Resumption
  import opened Framing
  import opened Schedules
  import opened Conversation
  import opened Synchrony

  /** The unfinished message behind what was heard, decrypted. */
  function AtHand(t: Transcript): seq<byte> {
    Crypt(t.conv.dec, t.left)
  }

  /** The descriptor it is read with; the type of a request comes first, on its own. */
  function StructAt(stage: Stage, d: seq<byte>): (ns: NetStruct)
    ensures TailVariable(ns)
  {
    RequestTables();
    if stage.AwaitMessage? && (|d| < 2 || FromLE(d[..2]) > AUTH_SRV) then MSG_STD_HEADER
    else StageStructOk(stage, d); StageStruct(stage, d)
  }

  /** What was heard ends between two fields, and the conversation goes on. */
  predicate BetweenFields(cfg: Config, heard: seq<byte>)
    requires ConfigOk(cfg)
  {
    var t := Converse(cfg, START, heard);
    !Ended(t.conv) && OnField(StructAt(t.conv.stage, AtHand(t)), |t.left|)
  }

  /** How much is asked of the socket behind what was heard. */
  function Asked(cfg: Config, heard: seq<byte>): nat
    requires ConfigOk(cfg)
  {
    var t := Converse(cfg, START, heard);
    Ask(StructAt(t.conv.stage, AtHand(t)), AtHand(t))
  }

  /** The schedule hands out all of `more`, with any pauses, in reads that end between fields. */
  predicate Gentle(cfg: Config, heard: seq<byte>, more: seq<byte>, events: seq<Event>)
    requires ConfigOk(cfg)
    decreases |events|
  {
    if events == [] then more == []
    else match events[0]
      case WouldBlock => Gentle(cfg, heard, more, events[1..])
      case Failed => false
      case Deliver(n) =>
        && more != []
        && var k := Granted(n, Asked(cfg, heard), |more|);
           BetweenFields(cfg, heard + more[..k]) && Gentle(cfg, heard + more[..k], more[k..], events[1..])
  }

  // --- Hearing a little more --------------------------------------------------------------------

  /** What a conversation that ended has heard keeps it ended. */
  lemma EndedStays(cfg: Config, heard: seq<byte>, more: seq<byte>)
    requires ConfigOk(cfg) && Ended(Converse(cfg, START, heard).conv)
    ensures Ended(Converse(cfg, START, heard + more).conv)
  {
    ConverseSplit(cfg, START, heard, more);
  }

  /** While the message at hand is not complete, only it grows. */
  lemma HearsPart(cfg: Config, heard: seq<byte>, raw: seq<byte>)
    requires ConfigOk(cfg)
    requires var t := Converse(cfg, START, heard);
      !Ended(t.conv) && NextMessage(t.conv.stage, Crypt(t.conv.dec, t.left + raw)) == Wait
    ensures var t := Converse(cfg, START, heard); Converse(cfg, START, heard + raw) == t.(left := t.left + raw)
  {
    hide NextMessage, Crypt;
    var t := Converse(cfg, START, heard);
    ConverseSplit(cfg, START, heard, raw);
    assert t.out + [] == t.out;
  }

  /** A message that is refused, or does not fit, ends the conversation. */
  lemma HearsEnd(cfg: Config, heard: seq<byte>, raw: seq<byte>)
    requires ConfigOk(cfg)
    requires var t := Converse(cfg, START, heard);
      !Ended(t.conv) && NextMessage(t.conv.stage, Crypt(t.conv.dec, t.left + raw)) in {Refuse, Overflow}
    ensures Ended(Converse(cfg, START, heard + raw).conv)
  {
    hide NextMessage, Crypt;
    ConverseSplit(cfg, START, heard, raw);
  }

  /** The descriptor at hand is the pending one. */
  lemma PendingStruct(stage: Stage, header: bool, ns: NetStruct, d: seq<byte>)
    requires Suits(stage, header, ns, d) && FrameOf(ns, d) == Incomplete
    ensures StructAt(stage, d) == ns
  {
    if header {
      RequestTables();
    }
  }

  /** One read that leaves the conversation going, seen by the frame of the pending descriptor. */
  lemma ReadOn(cfg: Config, heard: seq<byte>, header: bool, ns: NetStruct, raw: seq<byte>)
    requires ConfigOk(cfg)
    requires var t := Converse(cfg, START, heard); Suits(t.conv.stage, header, ns, AtHand(t))
    requires !Ended(Converse(cfg, START, heard + raw).conv)
    ensures var t := Converse(cfg, START, heard); var d := Crypt(t.conv.dec, t.left + raw);
      && Suits(t.conv.stage, header, ns, d)
      && (FrameOf(ns, d) == Incomplete ==> Converse(cfg, START, heard + raw) == t.(left := t.left + raw))
      && FrameOf(ns, d) != TooMany && FrameOf(ns, d) != TooLong
  {
    hide Converse, NextMessage, FrameOf, Crypt, FieldsOk, FixedButLast, StageStruct;
    var t := Converse(cfg, START, heard);
    var d := Crypt(t.conv.dec, t.left + raw);
    CryptSplit(t.conv.dec, t.left, raw);
    StageStructSame(t.conv.stage, AtHand(t), d);
    NextIs(t.conv.stage, header, ns, d);
    if FrameOf(ns, d) == Incomplete {
      HearsPart(cfg, heard, raw);
    } else if FrameOf(ns, d) == TooMany || FrameOf(ns, d) == TooLong {
      HearsEnd(cfg, heard, raw);
    }
  }

  /** Position in a stream: what a call of the course `c` leaves. */
  predicate StillGentle(cfg: Config, heard: seq<byte>, incoming: seq<byte>, c: Course)
    requires ConfigOk(cfg)
  {
    && c.Ends? && (c.outcome.Complete? || c.outcome.Blocked?) && c.used <= |incoming|
    && Gentle(cfg, heard + incoming[..c.used], incoming[c.used..], c.events)
    && !Ended(Converse(cfg, START, heard + incoming[..c.used]).conv)
  }

  lemma StillGentleOn(cfg: Config, heard: seq<byte>, incoming: seq<byte>, k: nat, c: Course)
    requires ConfigOk(cfg) && k <= |incoming| && StillGentle(cfg, heard + incoming[..k], incoming[k..], c)
    ensures StillGentle(cfg, heard, incoming, Onward(c, k))
  {
    hide Converse, Gentle;
    var raw, rest := incoming[..k], incoming[k..];
    assert heard + raw + rest[..c.used] == heard + incoming[..k + c.used];
    assert rest[c.used..] == incoming[k + c.used..];
  }

  /** The bytes behind what is in place, decrypted. */
  function PlainAhead(t: Transcript, incoming: seq<byte>): (s: seq<byte>)
    ensures |s| == |incoming|
  {
    Crypt(Advance(t.conv.dec, |t.left|), incoming)
  }

  lemma PlainCut(t: Transcript, incoming: seq<byte>, k: nat)
    requires k <= |incoming|
    ensures var now := t.(left := t.left + incoming[..k]);
      && AtHand(now) == AtHand(t) + PlainAhead(t, incoming)[..k]
      && PlainAhead(now, incoming[k..]) == PlainAhead(t, incoming)[k..]
  {
    hide Crypt, Advance;
    CryptSplit(t.conv.dec, t.left, incoming[..k]);
    CryptTake(Advance(t.conv.dec, |t.left|), incoming, k);
    AdvanceTwice(t.conv.dec, |t.left|, k);
  }

  /** A call that does not get to read. */
  lemma NoRead(cfg: Config, heard: seq<byte>, ns: NetStruct, d: seq<byte>, incoming: seq<byte>, plain: seq<byte>,
               events: seq<Event>)
    requires ConfigOk(cfg) && Gentle(cfg, heard, incoming, events) && (events == [] || !events[0].Deliver?)
    requires !Ended(Converse(cfg, START, heard).conv) && WellFormed(ns) && FrameOf(ns, d) == Incomplete
    ensures StillGentle(cfg, heard, incoming, Follow(ns, d, plain, events))
  {
    hide Converse, FrameOf, FieldsOk;
    assert heard + incoming[..0] == heard && incoming[0..] == incoming;
  }

  /** A read of a gentle schedule. */
  lemma GentleRead(cfg: Config, heard: seq<byte>, incoming: seq<byte>, events: seq<Event>)
    requires ConfigOk(cfg) && Gentle(cfg, heard, incoming, events) && events != [] && events[0].Deliver?
    ensures incoming != []
    ensures var k := Granted(events[0].n, Asked(cfg, heard), |incoming|);
      && BetweenFields(cfg, heard + incoming[..k]) && !Ended(Converse(cfg, START, heard + incoming[..k]).conv)
      && Gentle(cfg, heard + incoming[..k], incoming[k..], events[1..])
      && StillGentle(cfg, heard, incoming, Ends(Complete, k, events[1..]))
  {
    hide Converse, StructAt, OnField, Ask;
  }

  /** One call on a gentle schedule. */
  lemma {:induction false} GentleFollows(
    cfg: Config, heard: seq<byte>, header: bool, ns: NetStruct, incoming: seq<byte>, events: seq<Event>)
    requires ConfigOk(cfg) && Gentle(cfg, heard, incoming, events)
    requires var t := Converse(cfg, START, heard);
      !Ended(t.conv) && Suits(t.conv.stage, header, ns, AtHand(t)) && FrameOf(ns, AtHand(t)) == Incomplete
    ensures var t := Converse(cfg, START, heard);
      StillGentle(cfg, heard, incoming, Follow(ns, AtHand(t), PlainAhead(t, incoming), events))
    decreases |events|
  {
    hide Converse, FrameOf, StageStruct, OnField, Ask, StructAt, FieldsOk, FixedButLast, StillGentle;
    hide PlainAhead, Gentle, Follow, Crypt;
    var t := Converse(cfg, START, heard);
    var d, plain := AtHand(t), PlainAhead(t, incoming);
    if events == [] || !events[0].Deliver? {
      NoRead(cfg, heard, ns, d, incoming, plain, events);
    } else {
      PendingStruct(t.conv.stage, header, ns, d);
      GentleRead(cfg, heard, incoming, events);
      FollowRead(ns, d, plain, events);
      var k := Granted(events[0].n, Ask(ns, d), |incoming|);
      ReadOn(cfg, heard, header, ns, incoming[..k]);
      PlainCut(t, incoming, k);
      var now := t.(left := t.left + incoming[..k]);
      if FrameOf(ns, AtHand(now)) == Incomplete {
        PendingStruct(t.conv.stage, header, ns, AtHand(now));
        GentleFollows(cfg, heard + incoming[..k], header, ns, incoming[k..], events[1..]);
        StillGentleOn(cfg, heard, incoming, k, Follow(ns, AtHand(now), plain[k..], events[1..]));
      }
    }
  }

  /** The same for the reader as written, on a connection in step with the reference. */
  lemma GentleCall(cfg: Config, heard: seq<byte>, out: seq<byte>, p: Point, incoming: seq<byte>, events: seq<Event>)
    requires ConfigOk(cfg) && Sync(cfg, heard, out, p) && Gentle(cfg, heard, incoming, events)
    ensures var res := Run(p.rd, Crypt(p.dec, incoming), events);
      && !res.torn && (res.outcome.Complete? || res.outcome.Blocked?)
      && Gentle(cfg, heard + incoming[..res.used], incoming[res.used..], res.events)
      && !Ended(Converse(cfg, START, heard + incoming[..res.used]).conv)
  {
    hide Converse, FrameOf, StageStruct, FieldsOk, FixedButLast, Gentle, Follow, Crypt, Run, Holds, OnBoundary;
    var t := Converse(cfg, START, heard);
    OnBoundaryOk(p.rd);
    RequestIsAsk(p.rd, AtHand(t));
    if FrameOf(p.rd.ns, AtHand(t)) == TooMany {
      NextIs(p.stage, p.header, p.rd.ns, AtHand(t));
      Undecided(cfg, START, heard);
    }
    GentleFollows(cfg, heard, p.header, p.rd.ns, incoming, events);
    RunFollows(p.rd, AtHand(t), PlainAhead(t, incoming), events);
  }

  /** What is left of a conversation that goes on is not decided yet. */
  lemma {:induction false} Undecided(cfg: Config, c: Conv, raw: seq<byte>)
    requires ConfigOk(cfg)
    ensures var t := Converse(cfg, c, raw); !Ended(t.conv) ==> NextMessage(t.conv.stage, AtHand(t)) == Wait
    decreases |raw|
  {
    hide NextMessage, Answer, Crypt;
    var plain := Crypt(c.dec, raw);
    if NextMessage(c.stage, plain).Take? {
      var len := NextMessage(c.stage, plain).len;
      TakeThen(cfg, c, raw, len);
      Undecided(cfg, Answer(cfg, c, plain[..len]).0, raw[len..]);
    }
  }

  // --- Pauses -----------------------------------------------------------------------------------

  /** How often the socket will have nothing. */
  function Pauses(events: seq<Event>): nat {
    if events == [] then 0 else (if events[0].WouldBlock? then 1 else 0) + Pauses(events[1..])
  }

  /** A call that drained the socket has used up a pause, or the schedule. */
  lemma {:induction false} PauseUsed(before: seq<Event>, after: seq<Event>)
    requires Rest(before, after)
    ensures Pauses(after) <= Pauses(before)
    ensures SaidNothing(before, after) && after != [] ==> Pauses(after) < Pauses(before)
    decreases |before|
  {
    if |after| < |before| {
      var j := |before| - |after|;
      assert before[1..][j - 1..] == after;
      if j > 1 {
        assert before[1..][j - 2] == before[j - 1];
      }
      PauseUsed(before[1..], after);
    }
  }

  // --- Schedules that are gentle ------------------------------------------------------------------

  /** The schedule on which every read returns all that was asked for, as far as the stream goes. */
  function FullReads(cfg: Config, heard: seq<byte>, more: seq<byte>): seq<Event>
    requires ConfigOk(cfg)
    decreases |more|
  {
    var k := Min(Asked(cfg, heard), |more|);
    if k == 0 then [] else [Deliver(|more|)] + FullReads(cfg, heard + more[..k], more[k..])
  }

  lemma {:induction false} FullReadsPause(cfg: Config, heard: seq<byte>, more: seq<byte>)
    requires ConfigOk(cfg)
    ensures Pauses(FullReads(cfg, heard, more)) == 0
    decreases |more|
  {
    hide Asked;
    var k := Min(Asked(cfg, heard), |more|);
    if k > 0 {
      FullReadsPause(cfg, heard + more[..k], more[k..]);
      assert FullReads(cfg, heard, more)[1..] == FullReads(cfg, heard + more[..k], more[k..]);
    }
  }

  /** The first bytes of a request are its type, and the reader goes on behind it. */
  lemma BehindType(d: seq<byte>)
    requires |d| == 2 && FromLE(d[..2]) <= AUTH_SRV
    ensures OnField(StructAt(AwaitMessage, d), 2)
  {
    hide FrameOf;
    var ns := RequestStruct(FromLE(d[..2]));
    RequestStructOk(FromLE(d[..2]));
    SecondField(ns);
    assert MemOff(ns, 1) == 2;
  }

  lemma AtStart(stage: Stage)
    ensures OnField(StructAt(stage, []), 0)
  {
    var ns := StructAt(stage, []);
    assert MemOff(ns, 0) == 0;
  }

  lemma AskPositive(ns: NetStruct, d: seq<byte>)
    requires TailVariable(ns) && FrameOf(ns, d) == Incomplete
    ensures Ask(ns, d) > 0
  {
    hide FieldsOk, FixedButLast, CalcFieldSz;
  }

  /** What is asked for completes a message with nothing left over. */
  lemma AskedExactly(ns: NetStruct, d: seq<byte>, more: seq<byte>)
    requires TailVariable(ns) && FrameOf(ns, d) == Incomplete && OnField(ns, |d|) && |more| <= Ask(ns, d)
    ensures var f := FrameOf(ns, d + more); f.Message? ==> f.len == |d + more|
  {
    hide FieldsOk, FixedButLast, CalcFieldSz, Capacity;
    var at := TailAt(ns);
    var j: nat :| j < |ns| && MemOff(ns, j) == |d|;
    MemOffMonotone(ns, j, |ns| - 1);
    if |d| >= at {
      assert (d + more)[..at] == d[..at];
    }
    if !IsVariable(ns[|ns| - 1]) {
      FixedTailIs(ns, d + more);
    }
  }

  lemma FixedTailIs(ns: NetStruct, d: seq<byte>)
    requires TailVariable(ns) && !IsVariable(ns[|ns| - 1])
    ensures |d| >= TailAt(ns) ==> TailAt(ns) + WireSz(ns, |ns| - 1, d[..TailAt(ns)]) == MemSize(ns)
  {
    assert MemOff(ns, |ns|) == TailAt(ns) + DeclaredSz(ns[|ns| - 1]);
  }

  /** Between fields the pending descriptor suits, and asks for something. */
  lemma PendingBetween(cfg: Config, heard: seq<byte>)
    requires ConfigOk(cfg) && BetweenFields(cfg, heard)
    ensures var t := Converse(cfg, START, heard); var d := AtHand(t); var ns := StructAt(t.conv.stage, d);
      && !Ended(t.conv) && Suits(t.conv.stage, t.conv.stage.AwaitMessage? && |d| < 2, ns, d)
      && FrameOf(ns, d) == Incomplete && OnField(ns, |d|) && Asked(cfg, heard) == Ask(ns, d) > 0
  {
    hide Converse, Crypt, FrameOf, FieldsOk, FixedButLast;
    var t := Converse(cfg, START, heard);
    var d := AtHand(t);
    var ns := StructAt(t.conv.stage, d);
    Undecided(cfg, START, heard);
    if t.conv.stage.AwaitMessage? && |d| < 2 {
      HeaderOnField(|d|);
      NothingFramed(ns);
      assert d == [];
    }
    AskPositive(ns, d);
  }

  lemma HeaderOnField(n: nat)
    requires OnField(MSG_STD_HEADER, n)
    ensures TailVariable(MSG_STD_HEADER) && !IsVariable(MSG_STD_HEADER[0]) && n == 0
  {
    RequestTables();
  }

  /** A complete message leaves nothing, and the next one starts between fields. */
  lemma HearsMessage(cfg: Config, heard: seq<byte>, raw: seq<byte>)
    requires ConfigOk(cfg) && !Ended(Converse(cfg, START, heard + raw).conv)
    requires var t := Converse(cfg, START, heard);
      !Ended(t.conv) && NextMessage(t.conv.stage, Crypt(t.conv.dec, t.left + raw)) == Take(|t.left + raw|)
    ensures BetweenFields(cfg, heard + raw)
  {
    hide NextMessage, Crypt, Answer, OnField, StructAt, Converse;
    var t := Converse(cfg, START, heard);
    var all := t.left + raw;
    ConverseSplit(cfg, START, heard, raw);
    TakeThen(cfg, t.conv, all, |all|);
    var next := Answer(cfg, t.conv, Crypt(t.conv.dec, all)[..|all|]).0;
    assert all[|all|..] == [];
    Silence(cfg, next);
    assert AtHand(Converse(cfg, START, heard + raw)) == [];
    AtStart(next.stage);
  }

  /** One read that returns all that was asked for, from between fields. */
  lemma FullReadGentle(cfg: Config, heard: seq<byte>, more: seq<byte>, k: nat)
    requires ConfigOk(cfg) && BetweenFields(cfg, heard) && k == Asked(cfg, heard) <= |more|
    requires !Ended(Converse(cfg, START, heard + more[..k]).conv)
    ensures BetweenFields(cfg, heard + more[..k])
  {
    hide Converse, FrameOf, StageStruct, OnField, Ask, Asked, StructAt, FieldsOk, FixedButLast, Crypt, NextMessage;
    hide BetweenFields, PlainAhead;
    PendingBetween(cfg, heard);
    var t, raw := Converse(cfg, START, heard), more[..k];
    var d := AtHand(t);
    var ns, header := StructAt(t.conv.stage, d), t.conv.stage.AwaitMessage? && |d| < 2;
    var now := t.(left := t.left + raw);
    ReadOn(cfg, heard, header, ns, raw);
    PlainCut(t, more, k);
    AskedExactly(ns, d, PlainAhead(t, more)[..k]);
    FullReadRests(ns, d, PlainAhead(t, more), k);
    FullReadEnds(cfg, heard, raw, header, ns);
  }

  lemma FullReadEnds(cfg: Config, heard: seq<byte>, raw: seq<byte>, header: bool, ns: NetStruct)
    requires ConfigOk(cfg) && !Ended(Converse(cfg, START, heard + raw).conv)
    requires var t := Converse(cfg, START, heard); var d := Crypt(t.conv.dec, t.left + raw);
      && !Ended(t.conv) && Suits(t.conv.stage, header, ns, d)
      && (FrameOf(ns, d) == Incomplete ==>
            OnField(ns, |d|) && Converse(cfg, START, heard + raw) == t.(left := t.left + raw))
      && (FrameOf(ns, d) == Incomplete || FrameOf(ns, d) == Message(|d|))
    ensures BetweenFields(cfg, heard + raw)
  {
    hide Converse, FrameOf, StageStruct, OnField, StructAt, FieldsOk, FixedButLast, Crypt, NextMessage;
    var t := Converse(cfg, START, heard);
    var d := Crypt(t.conv.dec, t.left + raw);
    NextIs(t.conv.stage, header, ns, d);
    if FrameOf(ns, d) == Incomplete {
      PendingStruct(t.conv.stage, header, ns, d);
    } else if !header {
      HearsMessage(cfg, heard, raw);
    } else if NextMessage(t.conv.stage, d) == Refuse {
      HearsEnd(cfg, heard, raw);
    } else {
      HearsPart(cfg, heard, raw);
      BehindType(d);
    }
  }

  /** Reads that return all that was asked for never end inside a field, unless the stream does. */
  lemma {:induction false} FullReadsGentle(cfg: Config, heard: seq<byte>, more: seq<byte>)
    requires ConfigOk(cfg) && BetweenFields(cfg, heard) && BetweenFields(cfg, heard + more)
    ensures Gentle(cfg, heard, more, FullReads(cfg, heard, more))
    decreases |more|
  {
    hide BetweenFields, Asked, Converse;
    PendingBetween(cfg, heard);
    var k := Min(Asked(cfg, heard), |more|);
    if more != [] {
      assert heard + more[..k] + more[k..] == heard + more;
      if k < |more| {
        if Ended(Converse(cfg, START, heard + more[..k]).conv) {
          EndedStays(cfg, heard + more[..k], more[k..]);
          PendingBetween(cfg, heard + more);
        }
        FullReadGentle(cfg, heard, more, k);
      } else {
        assert more[..k] == more;
      }
      FullReadsGentle(cfg, heard + more[..k], more[k..]);
      assert FullReads(cfg, heard, more)[1..] == FullReads(cfg, heard + more[..k], more[k..]);
    }
  }
}
