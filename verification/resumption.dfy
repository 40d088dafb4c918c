/**
 What a stop inside a field does to the reader as written.

 After such a stop the field is read again in full, so the bytes that were already there count
 twice. The surplus never goes away: a call sequence that stopped inside a field either never
 completes its message or completes it with bytes that belong to the next one.
 */
module Resumption {
  import opened Bytes
  import opened NetStructs
  import opened Reading

  /** Bytes of the message in front of the reader, if all of them are in place. */
  function Position(r: Reader): nat
    requires ReaderOk(r)
  {
    At(r) + r.offset
  }

  function TailAt(ns: NetStruct): (at: nat)
    requires WellFormed(ns)
    ensures at <= Capacity(MemSize(ns))
  {
    MemOffMonotone(ns, |ns| - 1, |ns|);
    MemOff(ns, |ns| - 1)
  }

  /** Wire length of the message whose memory form is `mem`. */
  function WireLength(ns: NetStruct, mem: seq<byte>): nat
    requires WellFormed(ns) && |mem| == Capacity(MemSize(ns))
  {
    TailAt(ns) + WireSz(ns, |ns| - 1, mem[..TailAt(ns)])
  }

  /** The read did not ask for more than the fields whose size is known, less what is there. */
  predicate Budget(r: Reader, mempos: nat, available: nat)
    requires ReaderOk(r)
  {
    if IsVariable(r.ns[r.field]) then
      mempos == At(r) && available + r.offset <= CurrentWire(r)
    else
      At(r) <= mempos && available + (mempos - At(r)) + r.offset <= FixedRun(r.ns, r.field)
  }

  predicate Balanced(r: Reader, mempos: nat, taken: nat, a: Absorbed)
    requires ReaderOk(r)
  {
    match a
    case OutOfBounds => true
    case Completed(mem, rest) =>
      && rest == [] && mempos == At(r) && r.offset == 0 && |mem| == |r.mem|
      && taken + Position(r) == WireLength(r.ns, mem) <= |mem|
    case Stopped(p) =>
      && ReaderOk(p) && p.ns == r.ns && r.field <= p.field
      && (p.field == r.field ==> taken + Position(r) == Position(p))
      && (p.field > r.field ==> taken + Position(r) == Position(p) + r.offset)
  }

  predicate TurnFits(r: Reader, mempos: nat, data: seq<byte>, wire: nat)
    requires ReaderOk(r)
  {
    TurnInside(r, mempos, data) && wire == WireSz(r.ns, r.field, r.mem[..mempos])
  }

  lemma StopsHere(r: Reader, mempos: nat, data: seq<byte>, wire: nat)
    requires ReaderOk(r) && TurnFits(r, mempos, data, wire) && |data| < wire
    ensures Balanced(r, mempos, |data|, Stopped(Store(r, mempos + r.offset, data[..|data|])))
  {
    hide CalcFieldSz, WellFormed, Capacity;
  }

  lemma LastField(r: Reader, mempos: nat, data: seq<byte>, wire: nat)
    requires ReaderOk(r) && TurnFits(r, mempos, data, wire) && wire <= |data|
    requires Budget(r, mempos, |data|) && r.field + 1 == |r.ns|
    ensures Balanced(r, mempos, |data|, Completed(Store(r, mempos + r.offset, data[..wire]).mem, data[wire..]))
  {
    WriteBehind(r, mempos + r.offset, data[..wire]);
    var mem := Store(r, mempos + r.offset, data[..wire]).mem;
    assert mem[..At(r)] == r.mem[..At(r)];
    if !IsVariable(r.ns[r.field]) {
      assert FixedRun(r.ns, r.field) == DeclaredSz(r.ns[r.field]) + FixedRun(r.ns, r.field + 1);
    }
    assert WireLength(r.ns, mem) == At(r) + wire;
  }

  /** A whole field in the middle leaves the budget for the next one. */
  lemma InnerField(r: Reader, mempos: nat, data: seq<byte>, wire: nat)
    requires TailVariable(r.ns) && ReaderOk(r) && TurnFits(r, mempos, data, wire) && wire <= |data|
    requires Budget(r, mempos, |data|) && r.field + 1 < |r.ns|
    ensures var next := NextField(Store(r, mempos + r.offset, data[..wire]));
      && wire == DeclaredSz(r.ns[r.field]) && At(next) == At(r) + wire <= mempos + r.offset + wire
      && Budget(next, mempos + r.offset + wire, |data| - wire)
  {
    assert !IsVariable(r.ns[r.field]);
    assert FixedRun(r.ns, r.field) == DeclaredSz(r.ns[r.field]) + FixedRun(r.ns, r.field + 1);
    if IsVariable(r.ns[r.field + 1]) {
      assert FixedRun(r.ns, r.field + 1) == 0;
    }
  }

  /** The balance of the fields behind the first one carries over to the whole read. */
  lemma BalancedNext(r: Reader, mempos: nat, taken: nat, next: Reader, nextpos: nat, a: Absorbed)
    requires ReaderOk(r) && r.field + 1 < |r.ns|
    requires ReaderOk(next) && next.ns == r.ns && next.field == r.field + 1 && next.offset == 0
    requires var k := DeclaredSz(r.ns[r.field]);
      && k <= taken && At(r) <= mempos && nextpos == mempos + r.offset + k && At(next) == At(r) + k
      && Balanced(next, nextpos, taken - k, a)
    ensures Balanced(r, mempos, taken, a)
  {
    hide CalcFieldSz, Capacity, WellFormed, MemOff;
  }

  /** One read: what was taken, against what is in place afterwards. */
  lemma {:induction false} AbsorbBalance(r: Reader, mempos: nat, data: seq<byte>)
    requires TailVariable(r.ns) && ReaderOk(r) && At(r) <= mempos && Budget(r, mempos, |data|)
    ensures Balanced(r, mempos, |data|, Absorb(r, mempos, data))
    decreases |r.ns| - r.field
  {
    hide CalcFieldSz, WellFormed, Capacity, TailVariable, Splice, Balanced, Budget, FixedRun, MemOff;
    var a := Absorb(r, mempos, data);
    if a == OutOfBounds {
      OutOfBoundsBalanced(r, mempos, |data|);
    } else {
      AbsorbStarts(r, mempos, data);
      hide Absorb;
      var wire := WireSz(r.ns, r.field, r.mem[..mempos]);
      AbsorbTurn(r, mempos, data, wire, Min(wire, |data|));
      if |data| < wire {
        StopsHere(r, mempos, data, wire);
      } else if r.field + 1 == |r.ns| {
        LastField(r, mempos, data, wire);
      } else {
        InnerField(r, mempos, data, wire);
        var next := NextField(Store(r, mempos + r.offset, data[..wire]));
        AbsorbBalance(next, mempos + r.offset + wire, data[wire..]);
        BalancedNext(r, mempos, |data|, next, mempos + r.offset + wire, a);
      }
    }
  }

  lemma OutOfBoundsBalanced(r: Reader, mempos: nat, taken: nat)
    requires ReaderOk(r)
    ensures Balanced(r, mempos, taken, OutOfBounds)
  {
  }

  lemma AbsorbStarts(r: Reader, mempos: nat, data: seq<byte>)
    requires ReaderOk(r) && At(r) <= mempos && Absorb(r, mempos, data) != OutOfBounds
    ensures mempos <= |r.mem|
  {
  }

  /** The memory after a read. */
  function MemoryOf(a: Absorbed): seq<byte>
    requires !a.OutOfBounds?
  {
    if a.Completed? then a.mem else a.reader.mem
  }

  /**
   Where a read leaves its bytes: all in one piece, from where the reader stands on, whatever field
   they belong to. So behind a stop inside a field everything is as far off as the stop was.
   */
  lemma {:induction false} LaidOut(r: Reader, mempos: nat, data: seq<byte>)
    requires TailVariable(r.ns) && ReaderOk(r) && At(r) <= mempos && Budget(r, mempos, |data|)
    requires Absorb(r, mempos, data) != OutOfBounds
    ensures mempos + r.offset + |data| <= |r.mem|
    ensures MemoryOf(Absorb(r, mempos, data)) == Splice(r.mem, mempos + r.offset, data)
    decreases |r.ns| - r.field
  {
    hide CalcFieldSz, WellFormed, Capacity, TailVariable, Balanced, Budget, FixedRun, MemOff, Splice, TurnInside;
    AbsorbStarts(r, mempos, data);
    hide Absorb;
    var wire := WireSz(r.ns, r.field, r.mem[..mempos]);
    var k, pos := Min(wire, |data|), mempos + r.offset;
    AbsorbTurn(r, mempos, data, wire, k);
    TurnWrites(r, mempos, data, wire, k);
    if |data| < wire {
      assert data[..k] == data;
    } else if r.field + 1 == |r.ns| {
      LastField(r, mempos, data, wire);
      LastTakesAll(r, mempos, data, wire);
      assert data[..k] == data;
    } else {
      InnerField(r, mempos, data, wire);
      var next := NextField(Store(r, pos, data[..wire]));
      LaidOut(next, pos + wire, data[wire..]);
      SpliceTwice(r.mem, pos, data[..wire], data[wire..]);
      assert data[..wire] + data[wire..] == data;
    }
  }

  lemma TurnWrites(r: Reader, mempos: nat, data: seq<byte>, wire: nat, k: nat)
    requires ReaderOk(r) && TurnInside(r, mempos, data)
    requires wire == WireSz(r.ns, r.field, r.mem[..mempos]) && k == Min(wire, |data|)
    ensures TurnFits(r, mempos, data, wire) && mempos + r.offset + k <= |r.mem|
  {
  }

  lemma LastTakesAll(r: Reader, mempos: nat, data: seq<byte>, wire: nat)
    requires ReaderOk(r) && TurnFits(r, mempos, data, wire) && wire <= |data|
    requires Balanced(r, mempos, |data|, Completed(Store(r, mempos + r.offset, data[..wire]).mem, data[wire..]))
    ensures wire == |data|
  {
    assert data[wire..] == [];
  }

  // --- Whole calls ----------------------------------------------------------------------------

  /** A finished call took the message, and more than the message if a field was read again. */
  predicate Surplus(r: Reader, t: Result)
    requires ReaderOk(r) && ReaderOk(t.reader)
  {
    t.outcome.Complete? ==>
      && t.used + Position(r) >= WireLength(t.reader.ns, t.reader.mem)
      && (t.torn || r.offset > 0 ==> t.used + Position(r) > WireLength(t.reader.ns, t.reader.mem))
  }

  lemma RequestBudget(r: Reader, available: nat)
    requires TailVariable(r.ns) && ReaderOk(r) && 0 < available <= Request(r)
    ensures Budget(r, At(r), available)
  {
    var sum := CurrentWire(r) + FixedRun(r.ns, r.field + 1);
    assert sum % TWO64 <= sum;
    if IsVariable(r.ns[r.field]) {
      assert r.field + 1 == |r.ns|;
    } else {
      assert FixedRun(r.ns, r.field) == DeclaredSz(r.ns[r.field]) + FixedRun(r.ns, r.field + 1);
    }
  }

  lemma {:induction false} RunBalance(r: Reader, input: seq<byte>, events: seq<Event>)
    requires TailVariable(r.ns) && ReaderOk(r)
    ensures Surplus(r, Run(r, input, events))
    decreases |input|
  {
    hide Absorb, CalcFieldSz, WellFormed, Capacity, TailVariable;
    var t := Run(r, input, events);
    if t.used > 0 {
      var k := Granted(events[0].n, Request(r), |input|);
      RequestBudget(r, k);
      AbsorbBalance(r, At(r), input[..k]);
      AbsorbKeepsShape(r, At(r), input[..k]);
      var a := Absorb(r, At(r), input[..k]);
      if a.Stopped? {
        RunBalance(a.reader, input[k..], events[1..]);
      }
    }
  }

  /** A finished message announces no more than it has, whatever happened on the way. */
  lemma {:induction false} FinishedInside(r: Reader, input: seq<byte>, events: seq<Event>)
    requires TailVariable(r.ns) && ReaderOk(r)
    ensures var t := Run(r, input, events);
      t.outcome.Complete? ==> t.used > 0 && WireLength(r.ns, t.reader.mem) <= |t.reader.mem|
    decreases |input|
  {
    hide Absorb, CalcFieldSz, WellFormed, Capacity, TailVariable;
    var t := Run(r, input, events);
    if t.used > 0 {
      var k := Granted(events[0].n, Request(r), |input|);
      RequestBudget(r, k);
      AbsorbBalance(r, At(r), input[..k]);
      AbsorbKeepsShape(r, At(r), input[..k]);
      var a := Absorb(r, At(r), input[..k]);
      if a.Stopped? {
        FinishedInside(a.reader, input[k..], events[1..]);
      }
    }
  }

  /** A call that ends at a refused size shuts the connection. */
  lemma {:induction false} ShutMeans(r: Reader, input: seq<byte>, events: seq<Event>)
    requires ReaderOk(r)
    ensures var t := Run(r, input, events);
      CurrentWire(t.reader) == SENTINEL && !t.outcome.Complete? && !t.outcome.Fault? ==> t.outcome.Shut?
    decreases |input|
  {
    hide Absorb, CalcFieldSz, WellFormed;
    var t := Run(r, input, events);
    if t.used > 0 {
      var k := Granted(events[0].n, Request(r), |input|);
      AbsorbKeepsShape(r, At(r), input[..k]);
      var a := Absorb(r, At(r), input[..k]);
      if a.Stopped? {
        ShutMeans(a.reader, input[k..], events[1..]);
      }
    }
  }

  /** The bytes in front of the field a call starts at are left alone. */
  lemma {:induction false} FrontKept(r: Reader, input: seq<byte>, events: seq<Event>)
    requires ReaderOk(r)
    ensures var t := Run(r, input, events);
      && r.field <= t.reader.field && At(r) <= |t.reader.mem| && t.reader.mem[..At(r)] == r.mem[..At(r)]
    decreases |input|
  {
    hide Absorb, CalcFieldSz, WellFormed, Capacity;
    var t := Run(r, input, events);
    if t.used > 0 {
      var k := Granted(events[0].n, Request(r), |input|);
      AbsorbKeepsShape(r, At(r), input[..k]);
      var a := Absorb(r, At(r), input[..k]);
      if a.Stopped? {
        FrontKept(a.reader, input[k..], events[1..]);
        FrontOfFront(r, a.reader, t.reader.mem);
      }
    }
  }

  lemma FrontOfFront(r: Reader, p: Reader, mem: seq<byte>)
    requires ReaderOk(r) && ReaderOk(p) && p.ns == r.ns && r.field <= p.field && At(p) <= |mem|
    requires p.mem[..At(r)] == r.mem[..At(r)] && mem[..At(p)] == p.mem[..At(p)]
    ensures At(r) <= At(p) && mem[..At(r)] == r.mem[..At(r)]
  {
    MemOffMonotone(r.ns, r.field, p.field);
    assert mem[..At(r)] == mem[..At(p)][..At(r)] == p.mem[..At(p)][..At(r)];
  }

  lemma {:induction false} DriveBalance(r: Reader, input: seq<byte>, events: seq<Event>)
    requires TailVariable(r.ns) && ReaderOk(r)
    ensures Surplus(r, Drive(r, input, events))
    decreases |events|
  {
    hide Run, CalcFieldSz, WellFormed, Capacity, TailVariable;
    RunConsumesEvents(r, input, events);
    RunBalance(r, input, events);
    RunPosition(r, input, events);
    var t := Run(r, input, events);
    if t.outcome.Blocked? && events != [] {
      DriveBalance(t.reader, input[t.used..], t.events);
    }
  }

  /** A call that ends without a message is ahead of its reader by what was read again. */
  lemma {:induction false} RunPosition(r: Reader, input: seq<byte>, events: seq<Event>)
    requires TailVariable(r.ns) && ReaderOk(r)
    ensures var t := Run(r, input, events); t.outcome.Blocked? ==>
      && t.used + Position(r) >= Position(t.reader)
      && (t.torn || r.offset > 0 ==> t.reader.offset > 0 || t.used + Position(r) > Position(t.reader))
    decreases |input|
  {
    hide Absorb, CalcFieldSz, WellFormed, Capacity, TailVariable;
    var t := Run(r, input, events);
    if t.used > 0 {
      var k := Granted(events[0].n, Request(r), |input|);
      RequestBudget(r, k);
      AbsorbBalance(r, At(r), input[..k]);
      AbsorbKeepsShape(r, At(r), input[..k]);
      var a := Absorb(r, At(r), input[..k]);
      if a.Stopped? {
        RunPosition(a.reader, input[k..], events[1..]);
      }
    }
  }

  /** The intended reader takes the message and nothing else. */
  lemma {:induction false} FeedBalance(r: Reader, data: seq<byte>)
    requires TailVariable(r.ns) && ReaderOk(r) && r.offset <= CurrentWire(r)
    ensures var f := Feed(r, data);
      f.Done? ==> |f.mem| == |r.mem| && |data| + Position(r) == WireLength(r.ns, f.mem) + |f.rest|
    decreases |r.ns| - r.field
  {
    hide Feed, CalcFieldSz, WellFormed, Capacity, TailVariable;
    var k := Left(r);
    if Feed(r, data).Done? {
      FeedDone(r, data);
      FeedWhole(r, data);
      var p := Put(r, data[..k]);
      PutKeepsField(r, data[..k]);
      if r.field + 1 == |r.ns| {
        assert p.mem[..At(r)] == r.mem[..At(r)];
      } else {
        FixedInside(r.ns, r.field);
        FeedBalance(NextField(p), data[k..]);
      }
    }
  }

  lemma FixedInside(ns: NetStruct, i: nat)
    requires TailVariable(ns) && i + 1 < |ns|
    ensures forall prefix: seq<byte> :: |prefix| >= MemOff(ns, i) ==> WireSz(ns, i, prefix) == DeclaredSz(ns[i])
  {
    assert !IsVariable(ns[i]);
  }

  /**
   The reader as written delivers exactly the message it should, having taken exactly its bytes,
   if and only if no read stopped inside a field. Holds for every descriptor whose variable field
   comes last, every start on a field boundary, every input and every schedule over any number of
   calls.
   */
  lemma ExactIffAligned(r: Reader, input: seq<byte>, events: seq<Event>)
    requires TailVariable(r.ns) && OnBoundary(r) && Drive(r, input, events).outcome.Complete?
    ensures var t := Drive(r, input, events);
      Feed(r, input[..t.used]) == Done(t.reader.mem, []) <==> !t.torn
  {
    hide Drive, Feed, CalcFieldSz, WellFormed, Capacity;
    DriveAligned(r, input, events);
    DriveBalance(r, input, events);
    FeedBalance(r, input[..Drive(r, input, events).used]);
  }

  /** The two bytes of a message type, one at a time: the intended reader has the message, the
      reader as written asks the socket for nothing, for ever. */
  lemma StopInsideAField()
    ensures WellFormed(MSG_STD_HEADER)
    ensures var r := Reader(MSG_STD_HEADER, 0, 0, Zeros(32)); var input: seq<byte> := [1, 0];
      && OnBoundary(r)
      && Feed(r, input) == Done(input + Zeros(30), [])
      && var t := Drive(r, input, [Deliver(1), Deliver(1)]); t.outcome.Spinning? && t.used == 2 && t.torn
  {
    RequestTables();
    var r := Reader(MSG_STD_HEADER, 0, 0, Zeros(32));
    var input: seq<byte> := [1, 0];
    assert CurrentWire(r) == 2 && Request(r) == 2;
    FeedWhole(r, input);
    assert Put(r, input[..2]).mem == input + Zeros(30);
    var p := Put(r, input[..1]);
    PutKeepsField(r, input[..1]);
    assert Absorb(r, At(r), input[..1]) == Stopped(p);
    assert Request(p) == 1;
    var q := Put(p, input[1..][..1]);
    PutKeepsField(p, input[1..][..1]);
    assert Absorb(p, At(p), input[1..][..1]) == Stopped(q);
    assert Request(q) == 0;
    assert Run(q, [], []).outcome.Spinning?;
    assert input[1..][1..] == [] && [Deliver(1), Deliver(1)][1..] == [Deliver(1)];
    assert [Deliver(1)][1..] == [];
    assert Run(p, input[1..], [Deliver(1)]).outcome.Spinning?;
  }

  // --- Termination ----------------------------------------------------------------------------

  predicate ByteBuffers(ns: NetStruct) {
    forall i {:trigger ns[i]} :: 0 <= i < |ns| && IsVariable(ns[i]) ==> ns[i].elementSz == 1
  }

  /** With byte buffers the request is never reduced modulo the word size. */
  lemma RequestIsSum(r: Reader)
    requires ReaderOk(r) && ByteBuffers(r.ns) && CurrentWire(r) != SENTINEL
    ensures CurrentWire(r) + FixedRun(r.ns, r.field + 1) < TWO64
  {
    FixedRunSmall(r.ns, r.field + 1);
    if !IsVariable(r.ns[r.field]) {
      FixedWire(r.ns, r.field);
      assert CurrentWire(r) == DeclaredSz(r.ns[r.field]);
      FixedRunSmall(r.ns, r.field);
    }
  }

  lemma {:induction false} FixedRunSmall(ns: NetStruct, i: nat)
    requires WellFormed(ns) && i <= |ns|
    ensures MemOff(ns, i) + FixedRun(ns, i) <= MemSize(ns)
    decreases |ns| - i
  {
    if i < |ns| && !IsVariable(ns[i]) {
      FixedRunSmall(ns, i + 1);
    } else {
      MemOffMonotone(ns, i, |ns|);
    }
  }

  /**
   Termination. Started on a field boundary and never stopped inside a field, a call loops for
   ever only when the stream has ended; until then every read takes at least a byte, so there
   are at most as many reads as bytes, and one more that ends the call.
   */
  lemma {:induction false} RunEnds(r: Reader, input: seq<byte>, events: seq<Event>)
    requires OnBoundary(r) && ByteBuffers(r.ns)
    ensures var t := Run(r, input, events);
      && (!t.torn && t.outcome.Spinning? ==> t.used == |input|)
      && |events| <= |t.events| + t.used + 1
    decreases |input|
  {
    hide Absorb, CalcFieldSz, WellFormed, ByteBuffers;
    var t := Run(r, input, events);
    if CurrentWire(r) != SENTINEL {
      RequestIsSum(r);
    }
    if t.used > 0 {
      var k := Granted(events[0].n, Request(r), |input|);
      AbsorbKeepsShape(r, At(r), input[..k]);
      AbsorbIsFeed(r, input[..k]);
      var a := Absorb(r, At(r), input[..k]);
      if a.Stopped? {
        if a.reader.offset == 0 {
          RunEnds(a.reader, input[k..], events[1..]);
        } else {
          ReadsBounded(a.reader, input[k..], events[1..]);
        }
      }
    }
  }

  lemma {:induction false} ReadsBounded(r: Reader, input: seq<byte>, events: seq<Event>)
    requires ReaderOk(r)
    ensures var t := Run(r, input, events); |events| <= |t.events| + t.used + 1
    decreases |input|
  {
    hide Absorb, CalcFieldSz, WellFormed;
    var t := Run(r, input, events);
    if t.used > 0 {
      var k := Granted(events[0].n, Request(r), |input|);
      AbsorbKeepsShape(r, At(r), input[..k]);
      var a := Absorb(r, At(r), input[..k]);
      if a.Stopped? {
        ReadsBounded(a.reader, input[k..], events[1..]);
      }
    }
  }

  // --- The intended reader, cut anywhere ------------------------------------------------------

  function Flatten(chunks: seq<seq<byte>>): seq<byte> {
    if chunks == [] then [] else chunks[0] + Flatten(chunks[1..])
  }

  /** The repaired reader on one chunk after the other. */
  function FeedAll(f: Fed, chunks: seq<seq<byte>>): Fed
    requires f.More? ==> ReaderOk(f.reader)
    decreases |chunks|
  {
    if chunks == [] then f
    else
      var next := FeedMore(f, chunks[0]);
      if f.More? then FeedWaits(f.reader, chunks[0]); FeedAll(next, chunks[1..]) else FeedAll(next, chunks[1..])
  }

  /** Repaired reader: any fragmentation, inside fields or not, gives what one piece gives. */
  lemma {:induction false} AnyFragmentation(r: Reader, chunks: seq<seq<byte>>)
    requires Waiting(r)
    ensures FeedAll(More(r), chunks) == Feed(r, Flatten(chunks))
  {
    FeedNothing(r);
    FeedAllIsFeed(More(r), chunks);
  }

  lemma {:induction false} FeedAllIsFeed(f: Fed, chunks: seq<seq<byte>>)
    requires f.More? ==> Waiting(f.reader)
    ensures FeedAll(f, chunks) == FeedMore(f, Flatten(chunks))
    decreases |chunks|
  {
    hide Feed, CalcFieldSz, WellFormed;
    if chunks == [] {
      match f
      case More(r) => FeedNothing(r);
      case Done(mem, rest) => assert rest + Flatten(chunks) == rest;
      case _ =>
    } else {
      var next := FeedMore(f, chunks[0]);
      match f
      case More(r) =>
        FeedWaits(r, chunks[0]);
        FeedSplit(r, chunks[0], Flatten(chunks[1..]));
        FeedAllIsFeed(next, chunks[1..]);
      case Done(mem, rest) =>
        FeedAllIsFeed(next, chunks[1..]);
        assert rest + (chunks[0] + Flatten(chunks[1..])) == rest + chunks[0] + Flatten(chunks[1..]);
      case _ =>
        FeedAllIsFeed(next, chunks[1..]);
    }
  }
}
