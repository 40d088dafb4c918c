/**
 How a call goes, told from the table, the bytes and the socket's schedule alone.

 `Follow` plays a schedule against the boundaries of `FrameOf`; there is no reader in it. It says
 before the call whether a read will stop inside a field and, if none does, how the call ends. The
 reader as written is proved to follow it.
 */
module Schedules {
  import opened Bytes
  import opened NetStructs
  import opened Reading
  import opened Resumption
  import opened Framing

  /** Where the fixed fields end. */
  function FixedEnd(ns: NetStruct): (end: nat)
    requires WellFormed(ns)
    ensures TailAt(ns) <= end
  {
    MemOffMonotone(ns, |ns| - 1, |ns|);
    if IsVariable(ns[|ns| - 1]) then TailAt(ns) else MemSize(ns)
  }

  /** What is asked for behind the bytes `d`: the rest of the fixed fields, or the variable one. */
  function Ask(ns: NetStruct, d: seq<byte>): nat
    requires WellFormed(ns)
  {
    if |d| < FixedEnd(ns) then FixedEnd(ns) - |d| else WireSz(ns, |ns| - 1, d[..TailAt(ns)])
  }

  /** A field starts behind the first `n` bytes. */
  predicate OnField(ns: NetStruct, n: nat) {
    exists j: nat :: j < |ns| && MemOff(ns, j) == n
  }

  /** The course of a call: a read stops inside a field, or the call ends. */
  datatype Course = Torn | Ends(outcome: Outcome, used: nat, events: seq<Event>)

  function Onward(c: Course, k: nat): Course {
    if c.Torn? then Torn else c.(used := k + c.used)
  }

  function Follow(ns: NetStruct, d: seq<byte>, more: seq<byte>, events: seq<Event>): (c: Course)
    requires WellFormed(ns)
    ensures c.Ends? ==> c.used <= |more|
    decreases |events|
  {
    if FrameOf(ns, d) == TooMany then Ends(Shut, 0, events)
    else if events == [] then Ends(Blocked, 0, [])
    else match events[0]
      case WouldBlock => Ends(Blocked, 0, events[1..])
      case Failed => Ends(Shut, 0, events[1..])
      case Deliver(n) =>
        if more == [] then Ends(Spinning, 0, events[1..])
        else
          var k := Granted(n, Ask(ns, d), |more|);
          var heard := d + more[..k];
          match FrameOf(ns, heard)
          case Message(_) => Ends(Complete, k, events[1..])
          case TooLong => Ends(Fault, k, events[1..])
          case _ => if OnField(ns, |heard|) then Onward(Follow(ns, heard, more[k..], events[1..]), k) else Torn
  }

  /** A course whose next read returns something. */
  lemma FollowRead(ns: NetStruct, d: seq<byte>, more: seq<byte>, events: seq<Event>)
    requires WellFormed(ns) && FrameOf(ns, d) == Incomplete && more != [] && events != [] && events[0].Deliver?
    ensures var k := Granted(events[0].n, Ask(ns, d), |more|); var heard := d + more[..k];
      Follow(ns, d, more, events) ==
        match FrameOf(ns, heard)
        case Message(_) => Ends(Complete, k, events[1..])
        case TooLong => Ends(Fault, k, events[1..])
        case _ => if OnField(ns, |heard|) then Onward(Follow(ns, heard, more[k..], events[1..]), k) else Torn
  {
    hide FrameOf, Ask, FieldsOk, OnField;
  }

  // --- One read -------------------------------------------------------------------------------

  lemma {:induction false} FixedRunIs(ns: NetStruct, i: nat)
    requires TailVariable(ns) && i < |ns|
    ensures MemOff(ns, i) + FixedRun(ns, i) == FixedEnd(ns)
    decreases |ns| - i
  {
    if i + 1 < |ns| {
      assert !IsVariable(ns[i]);
      FixedRunIs(ns, i + 1);
    } else {
      assert FixedRun(ns, |ns|) == 0;
      assert MemOff(ns, |ns|) == MemOff(ns, i) + DeclaredSz(ns[i]);
    }
  }

  /** On a field boundary the reader asks for what the table says. */
  lemma RequestIsAsk(r: Reader, got: seq<byte>)
    requires TailVariable(r.ns) && Holds(r, got) && OnBoundary(r)
    ensures Request(r) == Ask(r.ns, got) > 0
    ensures Request(r) == CurrentWire(r) + FixedRun(r.ns, r.field + 1)
    ensures CurrentWire(r) == SENTINEL <==> FrameOf(r.ns, got) == TooMany
    ensures CurrentWire(r) != SENTINEL ==> FrameOf(r.ns, got) == Incomplete
  {
    hide Capacity;
    FixedRunIs(r.ns, r.field);
    assert got[..At(r)] == r.mem[..At(r)];
    if IsVariable(r.ns[r.field]) {
      assert r.field + 1 == |r.ns| && TailAt(r.ns) == At(r);
    } else {
      FixedWire(r.ns, r.field);
      MemOffMonotone(r.ns, r.field, |r.ns| - 1);
      FixedEndSmall(r.ns);
      if r.field + 1 < |r.ns| {
        InnerBoundary(r, got);
      }
    }
  }

  lemma FixedEndSmall(ns: NetStruct)
    requires WellFormed(ns)
    ensures FixedEnd(ns) <= MemSize(ns) < 0x1_0000_0000
  {
    MemOffMonotone(ns, |ns| - 1, |ns|);
  }

  lemma InnerBoundary(r: Reader, got: seq<byte>)
    requires TailVariable(r.ns) && Holds(r, got) && OnBoundary(r) && r.field + 1 < |r.ns|
    ensures |got| < TailAt(r.ns) && FrameOf(r.ns, got) == Incomplete
  {
    InnerWire(r);
    MemOffMonotone(r.ns, r.field + 1, |r.ns| - 1);
  }

  /** The bytes in place end on a field boundary exactly when the offset is zero. */
  lemma OffsetZero(r: Reader, got: seq<byte>)
    requires TailVariable(r.ns) && Holds(r, got) && r.offset < CurrentWire(r)
    ensures r.offset == 0 <==> OnField(r.ns, |got|)
  {
    hide CalcFieldSz, Capacity;
    if r.offset == 0 {
      assert MemOff(r.ns, r.field) == |got|;
    }
    if OnField(r.ns, |got|) {
      var j: nat :| j < |r.ns| && MemOff(r.ns, j) == |got|;
      if j <= r.field {
        MemOffMonotone(r.ns, j, r.field);
      } else {
        InnerWire(r);
        MemOffMonotone(r.ns, r.field + 1, j);
      }
    }
  }

  /** What one read leads to, told from the bytes. */
  predicate ReadEnds(ns: NetStruct, heard: seq<byte>, a: Absorbed)
    requires WellFormed(ns)
  {
    match FrameOf(ns, heard)
    case Message(_) => a.Completed?
    case TooLong => a.OutOfBounds?
    case _ =>
      && a.Stopped? && ReaderOk(a.reader) && a.reader.ns == ns
      && (a.reader.offset == 0 <==> OnField(ns, |heard|))
      && (a.reader.offset == 0 ==> Holds(a.reader, heard) && OnBoundary(a.reader))
  }

  /** A read that stops has left its bytes in place. */
  lemma {:induction false} AbsorbHolds(r: Reader, got: seq<byte>, data: seq<byte>)
    requires TailVariable(r.ns) && Holds(r, got) && r.offset == 0
    ensures var a := Absorb(r, At(r), data); a.Stopped? ==> Holds(a.reader, got + data)
    decreases |r.ns| - r.field
  {
    hide Absorb, CalcFieldSz, WellFormed, TailVariable, Capacity, Holds;
    HoldsOk(r, got);
    var wire := CurrentWire(r);
    if |data| < wire {
      AbsorbPart(r, data);
      if Fits(r, |data|) {
        PutHolds(r, got, data);
      }
    } else {
      AbsorbWhole(r, data);
      if Fits(r, wire) && r.field + 1 < |r.ns| {
        var now, rest := data[..wire], data[wire..];
        PutHolds(r, got, now);
        NextHolds(r, got, now);
        AbsorbHolds(NextField(Put(r, now)), got + now, rest);
        assert got + now + rest == got + data;
      }
    }
  }

  lemma HoldsOk(r: Reader, got: seq<byte>)
    requires Holds(r, got)
    ensures ReaderOk(r) && |got| == Position(r)
  {
  }

  lemma ReadFramed(r: Reader, got: seq<byte>, data: seq<byte>)
    requires TailVariable(r.ns) && Holds(r, got) && OnBoundary(r) && CurrentWire(r) != SENTINEL
    requires 0 < |data| <= Request(r)
    ensures ReadEnds(r.ns, got + data, Absorb(r, At(r), data))
  {
    hide Absorb, Feed, FrameOf, CalcFieldSz, WellFormed, TailVariable, Capacity, Image, Holds;
    HoldsOk(r, got);
    RequestIsAsk(r, got);
    AbsorbIsFeed(r, data);
    AbsorbKeepsShape(r, At(r), data);
    AbsorbHolds(r, got, data);
    var a := Absorb(r, At(r), data);
    if a.Stopped? {
      StoppedRests(a.reader, got + data);
    } else {
      FeedFrames(r, got, data);
    }
  }

  lemma StoppedRests(p: Reader, heard: seq<byte>)
    requires TailVariable(p.ns) && Holds(p, heard) && p.offset < CurrentWire(p)
    requires CurrentWire(p) == SENTINEL ==> p.offset == 0
    ensures FrameOf(p.ns, heard) == if CurrentWire(p) == SENTINEL then TooMany else Incomplete
    ensures p.offset == 0 <==> OnField(p.ns, |heard|)
  {
    hide FrameOf, CalcFieldSz, WellFormed, TailVariable, Capacity, Image, Feed, Holds;
    HoldsOk(p, heard);
    OffsetZero(p, heard);
    if p.offset == 0 {
      RequestIsAsk(p, heard);
    } else {
      PartOfField(p, heard);
    }
  }

  lemma PartOfField(p: Reader, heard: seq<byte>)
    requires TailVariable(p.ns) && Holds(p, heard) && p.offset < CurrentWire(p) != SENTINEL
    ensures FrameOf(p.ns, heard) == Incomplete
  {
    hide CalcFieldSz, Capacity;
    assert heard[..At(p)] == p.mem[..At(p)];
    if p.field + 1 < |p.ns| {
      InnerWire(p);
      MemOffMonotone(p.ns, p.field + 1, |p.ns| - 1);
    } else {
      assert TailAt(p.ns) == At(p);
    }
  }

  // --- A whole call ---------------------------------------------------------------------------

  /** The course of a call is the call of the reader as written. */
  predicate Follows(c: Course, t: Result) {
    match c
    case Torn => t.torn
    case Ends(outcome, used, events) => !t.torn && t.outcome == outcome && t.used == used && t.events == events
  }

  /**
   A call started on a field boundary stops inside a field exactly if its course, told from the
   bytes and the schedule, does; if it does not, it ends as its course does.
   */
  lemma {:induction false} RunFollows(r: Reader, got: seq<byte>, input: seq<byte>, events: seq<Event>)
    requires TailVariable(r.ns) && Holds(r, got) && OnBoundary(r)
    ensures Follows(Follow(r.ns, got, input, events), Run(r, input, events))
    decreases |events|
  {
    hide Absorb, FrameOf, CalcFieldSz, WellFormed, TailVariable, Capacity, Holds, Ask, OnField, OnBoundary;
    OnBoundaryOk(r);
    RequestIsAsk(r, got);
    if CurrentWire(r) != SENTINEL && events != [] && events[0].Deliver? && input != [] {
      var k := Granted(events[0].n, Request(r), |input|);
      ReadFramed(r, got, input[..k]);
      AbsorbKeepsShape(r, At(r), input[..k]);
      var a := Absorb(r, At(r), input[..k]);
      if a.Stopped? && a.reader.offset == 0 {
        RunFollows(a.reader, got + input[..k], input[k..], events[1..]);
      }
    }
  }

  lemma OnBoundaryOk(r: Reader)
    requires OnBoundary(r)
    ensures ReaderOk(r) && r.offset == 0
  {
  }

  // --- Many calls -----------------------------------------------------------------------------

  lemma {:induction false} FollowConsumes(ns: NetStruct, d: seq<byte>, more: seq<byte>, events: seq<Event>)
    requires WellFormed(ns)
    ensures var c := Follow(ns, d, more, events);
      c.Ends? ==> |c.events| <= |events| && (c.outcome.Blocked? && events != [] ==> |c.events| < |events|)
    decreases |events|
  {
    hide FrameOf, CalcFieldSz, WellFormed, Ask, OnField;
    if events != [] && events[0].Deliver? && more != [] {
      var k := Granted(events[0].n, Ask(ns, d), |more|);
      FollowConsumes(ns, d + more[..k], more[k..], events[1..]);
    }
  }

  /** Calls one after the other, until one does not end with would-block. */
  function FollowAll(ns: NetStruct, d: seq<byte>, more: seq<byte>, events: seq<Event>): Course
    requires WellFormed(ns)
    decreases |events|
  {
    var c := Follow(ns, d, more, events);
    FollowConsumes(ns, d, more, events);
    if c.Torn? || !c.outcome.Blocked? || events == [] then c
    else Onward(FollowAll(ns, d + more[..c.used], more[c.used..], c.events), c.used)
  }

  lemma {:induction false} DriveFollows(r: Reader, got: seq<byte>, input: seq<byte>, events: seq<Event>)
    requires TailVariable(r.ns) && Holds(r, got) && OnBoundary(r)
    ensures Follows(FollowAll(r.ns, got, input, events), Drive(r, input, events))
    decreases |events|
  {
    hide Run, Follow, FrameOf, CalcFieldSz, WellFormed, TailVariable, Capacity, Holds, OnBoundary;
    OnBoundaryOk(r);
    var t := Run(r, input, events);
    RunFollows(r, got, input, events);
    RunConsumesEvents(r, input, events);
    if !t.torn && t.outcome.Blocked? && events != [] {
      RunFrames(r, got, input, events);
      DriveFollows(t.reader, got + input[..t.used], input[t.used..], t.events);
    }
  }

  /**
   The exact condition, in terms of what can be known before the call: for every descriptor whose
   variable field comes last, every start on a field boundary, every input and every schedule, a
   completed message is the intended one with exactly its bytes taken if and only if none of the
   reads ends inside a field.
   */
  lemma ExactIffCutsBetweenFields(r: Reader, got: seq<byte>, input: seq<byte>, events: seq<Event>)
    requires TailVariable(r.ns) && Holds(r, got) && OnBoundary(r) && Drive(r, input, events).outcome.Complete?
    ensures var t := Drive(r, input, events);
      Feed(r, input[..t.used]) == Done(t.reader.mem, []) <==> FollowAll(r.ns, got, input, events) != Torn
  {
    hide Drive, Feed, FollowAll, FrameOf, CalcFieldSz, WellFormed, Capacity, Holds;
    DriveFollows(r, got, input, events);
    ExactIffAligned(r, input, events);
  }

  /** Reads that return all that was asked for never stop inside a field, if the message is all there. */
  lemma {:induction false} FullReadsNeverTear(ns: NetStruct, d: seq<byte>, more: seq<byte>, events: seq<Event>)
    requires TailVariable(ns) && FrameOf(ns, d) == Incomplete && OnField(ns, |d|)
    requires FrameOf(ns, d + more) != Incomplete
    requires forall i :: 0 <= i < |events| && events[i].Deliver? ==> events[i].n >= |more|
    ensures Follow(ns, d, more, events) != Torn
    decreases |events|
  {
    hide FrameOf, CalcFieldSz, FieldsOk, FixedButLast, OnField, Ask;
    if events != [] && events[0].Deliver? && more != [] {
      var k := Granted(events[0].n, Ask(ns, d), |more|);
      assert d + more[..k] + more[k..] == d + more;
      FullReadRests(ns, d, more, k);
      if FrameOf(ns, d + more[..k]) == Incomplete {
        FullReadsNeverTear(ns, d + more[..k], more[k..], events[1..]);
      }
    }
  }

  lemma FullReadRests(ns: NetStruct, d: seq<byte>, more: seq<byte>, k: nat)
    requires TailVariable(ns) && FrameOf(ns, d) == Incomplete && OnField(ns, |d|)
    requires k <= |more| && (k == Ask(ns, d) || (k == |more| <= Ask(ns, d) && FrameOf(ns, d + more) != Incomplete))
    ensures var f := FrameOf(ns, d + more[..k]); f == Incomplete || f == TooMany ==> OnField(ns, |d| + k)
  {
    hide FrameOf, Ask, Capacity, CalcFieldSz, FieldsOk, FixedButLast;
    var j: nat :| j < |ns| && MemOff(ns, j) == |d|;
    MemOffMonotone(ns, j, |ns| - 1);
    assert MemOff(ns, |ns| - 1) == TailAt(ns);
    assert k == |more| ==> d + more[..k] == d + more;
    if IsVariable(ns[|ns| - 1]) {
      AskedUpToTail(ns, d, more, k);
    } else {
      AskedUpToEnd(ns, d, more, k);
    }
  }

  lemma AskedUpToTail(ns: NetStruct, d: seq<byte>, more: seq<byte>, k: nat)
    requires TailVariable(ns) && IsVariable(ns[|ns| - 1]) && FrameOf(ns, d) == Incomplete && |d| <= TailAt(ns)
    requires k <= |more| && (k == Ask(ns, d) || (k == |more| <= Ask(ns, d) && FrameOf(ns, d + more[..k]) != Incomplete))
    ensures var f := FrameOf(ns, d + more[..k]); f == Incomplete || f == TooMany ==> |d| + k == TailAt(ns)
  {
    hide Capacity, CalcFieldSz, FieldsOk, FixedButLast;
    var heard := d + more[..k];
    if |d| == TailAt(ns) {
      assert heard[..|d|] == d == d[..|d|];
    }
  }

  lemma AskedUpToEnd(ns: NetStruct, d: seq<byte>, more: seq<byte>, k: nat)
    requires TailVariable(ns) && !IsVariable(ns[|ns| - 1]) && |d| <= TailAt(ns)
    requires k <= |more| && (k == Ask(ns, d) || (k == |more| && FrameOf(ns, d + more[..k]) != Incomplete))
    ensures var f := FrameOf(ns, d + more[..k]); f != Incomplete && f != TooMany
  {
    hide FieldsOk, FixedButLast;
    FixedWire(ns, |ns| - 1);
    CapacitySlack(MemSize(ns));
    assert MemOff(ns, |ns|) == TailAt(ns) + DeclaredSz(ns[|ns| - 1]);
  }

  // --- The end of the stream ------------------------------------------------------------------

  predicate OnlyDeliver(events: seq<Event>) {
    forall i :: 0 <= i < |events| ==> events[i].Deliver?
  }

  /**
   A peer that has closed its side: reads go on to succeed, with no bytes once the stream is used
   up. A call that does not stop inside a field then loops for ever exactly if the stream ends
   before the message is decided.
   */
  lemma SpinsIffCutShort(r: Reader, got: seq<byte>, input: seq<byte>, events: seq<Event>)
    requires TailVariable(r.ns) && Holds(r, got) && OnBoundary(r)
    requires OnlyDeliver(events) && |events| > |input| + 1 && Follow(r.ns, got, input, events) != Torn
    ensures var t := Run(r, input, events);
      && (t.outcome.Spinning? <==> FrameOf(r.ns, got + input) == Incomplete)
      && (t.outcome.Spinning? ==> t.used == |input|)
  {
    hide Run, Follow, FrameOf, CalcFieldSz, WellFormed, TailVariable, Capacity, Holds, OnBoundary, Rest, Request;
    OnBoundaryOk(r);
    var t := Run(r, input, events);
    var heard := got + input[..t.used];
    RunFollows(r, got, input, events);
    RunFrames(r, got, input, events);
    CutShort(r, got, input, events);
    assert heard + input[t.used..] == got + input;
    if FrameOf(r.ns, heard) != Incomplete {
      FrameStable(r.ns, heard, input[t.used..]);
    } else if t.outcome.Spinning? {
      RequestIsAsk(t.reader, heard);
      RunDrains(r, input, events);
      assert input[..|input|] == input;
    }
  }

  /** With reads that always succeed, a call that ends without deciding its message loops for ever. */
  lemma CutShort(r: Reader, got: seq<byte>, input: seq<byte>, events: seq<Event>)
    requires ReaderOk(r) && OnlyDeliver(events) && |events| > |input| + 1
    ensures var t := Run(r, input, events);
      !t.outcome.Blocked? && (t.outcome.Shut? ==> CurrentWire(t.reader) == SENTINEL)
  {
    hide Run, CalcFieldSz, WellFormed, Capacity;
    RunDrains(r, input, events);
    ReadsBounded(r, input, events);
  }

  /** A call whose next read is granted, with no bytes left, loops for ever on an unfinished message. */
  lemma SpinsAtEnd(r: Reader, got: seq<byte>, events: seq<Event>)
    requires TailVariable(r.ns) && Holds(r, got) && OnBoundary(r)
    ensures Run(r, [], events).outcome.Spinning? <==>
      FrameOf(r.ns, got) == Incomplete && events != [] && events[0].Deliver?
  {
    hide FrameOf, CalcFieldSz, WellFormed, TailVariable, Capacity, Holds;
    RunFollows(r, got, [], events);
    RequestIsAsk(r, got);
  }

  /** A peer that closes in front of a message, and the server's next read. */
  lemma ClosedInFront(ns: NetStruct, n: nat)
    requires TailVariable(ns) && !IsVariable(ns[0])
    ensures Run(Blank(ns), [], [Deliver(n)]).outcome.Spinning?
  {
    BlankHolds(ns);
    NothingFramed(ns);
    SpinsAtEnd(Blank(ns), [], [Deliver(n)]);
  }

  // --- Writes outside the buffer --------------------------------------------------------------

  /**
   Out-of-bounds writes. A call that takes a byte of the trailing buffer, and does not stop inside
   it, writes behind its allocation exactly if the announced size is accepted by the size check
   and above the slack of the allocation. A redundant size counts its own four bytes.
   */
  lemma OverrunIffAboveSlack(r: Reader, got: seq<byte>, input: seq<byte>, events: seq<Event>, redundant: bool)
    requires EndsInBuffer(r.ns, redundant) && Holds(r, got) && OnBoundary(r)
    requires Follow(r.ns, got, input, events) != Torn
    requires |got| + Run(r, input, events).used > TailAt(r.ns)
    ensures TailAt(r.ns) >= 4
    ensures var t := Run(r, input, events); var extra := if redundant then 4 else 0;
      var v, slack := Announced(r.ns, got + input), Capacity(MemSize(r.ns)) - MemSize(r.ns);
      t.outcome.Fault? <==> slack + extra < v <= 1024 + extra
  {
    hide Run, Follow, FrameOf, CalcFieldSz, WellFormed, EndsInBuffer, TailVariable, Announced, Capacity, OnBoundary;
    OnBoundaryOk(r);
    BufferTail(r.ns, redundant);
    var t := Run(r, input, events);
    var heard := got + input[..t.used];
    RunFollows(r, got, input, events);
    RunFrames(r, got, input, events);
    SizesDecide(r.ns, heard, redundant);
    AnnouncedStays(r.ns, heard, input[t.used..]);
    assert heard + input[t.used..] == got + input;
    if !t.outcome.Complete? && !t.outcome.Fault? && CurrentWire(t.reader) != SENTINEL {
      PausedInFront(t.reader, heard);
    }
  }

  lemma BufferTail(ns: NetStruct, redundant: bool)
    requires EndsInBuffer(ns, redundant)
    ensures TailVariable(ns) && TailAt(ns) == MemSize(ns) >= 4
  {
    TailSize(ns, Zeros(TailAt(ns)), redundant);
  }

  lemma PausedInFront(p: Reader, heard: seq<byte>)
    requires Holds(p, heard) && OnBoundary(p)
    ensures |heard| <= TailAt(p.ns)
  {
    MemOffMonotone(p.ns, p.field, |p.ns| - 1);
  }

  lemma AnnouncedStays(ns: NetStruct, a: seq<byte>, b: seq<byte>)
    requires WellFormed(ns) && |a| >= TailAt(ns) >= 4
    ensures Announced(ns, a + b) == Announced(ns, a)
  {
    assert (a + b)[TailAt(ns) - 4..TailAt(ns)] == a[TailAt(ns) - 4..TailAt(ns)];
  }

  /** What an announced size decides, however much of the buffer is there. */
  lemma SizesDecide(ns: NetStruct, d: seq<byte>, redundant: bool)
    requires EndsInBuffer(ns, redundant) && |d| >= TailAt(ns)
    ensures TailAt(ns) >= 4
    ensures var v, slack := Announced(ns, d), Capacity(MemSize(ns)) - MemSize(ns);
      var extra := if redundant then 4 else 0;
      match FrameOf(ns, d)
      case TooLong => slack + extra < v <= 1024 + extra
      case TooMany => v < extra || v > 1024 + extra
      case Message(_) => extra <= v <= slack + extra
      case Incomplete => true
  {
    hide CalcFieldSz, WellFormed, Capacity;
    TailSize(ns, d, redundant);
    CapacitySlack(MemSize(ns));
  }

  /** Every accepted size above the slack is an overrun: fixed fields first, then the whole buffer. */
  lemma OverrunHappens(ns: NetStruct, d: seq<byte>, n: nat, redundant: bool)
    requires EndsInBuffer(ns, redundant) && |d| == TailAt(ns) + n && TailAt(ns) >= 4
    requires Announced(ns, d) == n + (if redundant then 4 else 0)
    requires Capacity(MemSize(ns)) - MemSize(ns) < n <= 1024
    ensures Run(Blank(ns), d, [Deliver(TailAt(ns)), Deliver(n)]).outcome.Fault?
  {
    hide Run, Follow, FrameOf, Ask, OnField, FieldsOk, FixedButLast, Holds, OnBoundary, Announced;
    hide Capacity, MemOff, TailAt, MemSize;
    var at := TailAt(ns);
    var first, second := d[..at], d[at..];
    BufferFrames(ns, d, n, redundant);
    BlankHolds(ns);
    NothingFramed(ns);
    RunFollows(Blank(ns), [], d, [Deliver(at), Deliver(n)]);
    TailOnField(ns);
    assert [] + d[..at] == first && first + second[..n] == d;
    FollowRead(ns, [], d, [Deliver(at), Deliver(n)]);
    FollowRead(ns, first, second, [Deliver(n)]);
    assert [Deliver(at), Deliver(n)][1..] == [Deliver(n)];
  }

  lemma TailOnField(ns: NetStruct)
    requires WellFormed(ns)
    ensures OnField(ns, TailAt(ns))
  {
    assert MemOff(ns, |ns| - 1) == TailAt(ns);
  }

  lemma BufferFrames(ns: NetStruct, d: seq<byte>, n: nat, redundant: bool)
    requires EndsInBuffer(ns, redundant) && |d| == TailAt(ns) + n && TailAt(ns) >= 4
    requires Announced(ns, d) == n + (if redundant then 4 else 0)
    requires Capacity(MemSize(ns)) - MemSize(ns) < n <= 1024
    ensures TailVariable(ns) && !IsVariable(ns[0]) && n > 0
    ensures FrameOf(ns, d[..TailAt(ns)]) == Incomplete && FrameOf(ns, d) == TooLong
    ensures Ask(ns, []) == TailAt(ns) && Ask(ns, d[..TailAt(ns)]) == n
  {
    hide FieldsOk, FixedButLast, Capacity;
    var at := TailAt(ns);
    TailSize(ns, d, redundant);
    CapacitySlack(MemSize(ns));
    assert d[..at][..at] == d[..at];
    FrontFixed(ns);
  }

  lemma FrontFixed(ns: NetStruct)
    requires TailVariable(ns) && |ns| > 1
    ensures !IsVariable(ns[0])
  {
  }

  /** A ping with 27 bytes, one more than its buffer has room for. */
  lemma PingOverruns(d: seq<byte>)
    requires |d| == 41 && FromLE(d[10..14]) == 27
    ensures TailVariable(PING_REQUEST)
    ensures Run(Blank(PING_REQUEST), d, [Deliver(14), Deliver(27)]).outcome.Fault?
  {
    hide Run;
    RequestTables();
    var ns := PING_REQUEST;
    assert MemOff(ns, 5) == MemOff(ns, 4) + DeclaredSz(ns[4]);
    OverrunHappens(ns, d, 27, false);
  }
}
