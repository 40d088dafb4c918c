/**
 The resumable message reader, as values.

 `Absorb` and `Run` follow the reader of the server statement by statement, including what it
 does when a read stops in the middle of a field. `Feed` is the reader the code is meant to be:
 it keeps the part of a field that is already there and takes any fragmentation. The lemmas say
 when the two are the same.
 */
module Reading {
  import opened Bytes
  import opened NetStructs
  import opened Options

  const SENTINEL: nat := TWO64 - 1
  const MAX_BUF_COUNT: nat := 1024

  // --- Field sizes ----------------------------------------------------------------------------

  function ExtractInteger(f: NetField, bytes: seq<byte>): nat {
    if f.elementSz in {1, 2, 4, 8} then FromLE(bytes) else 0
  }

  /** Number of elements of `f`, from the size field stored at the end of `prefix`. */
  function ExtractElementCount(sz: NetField, f: NetField, prefix: seq<byte>): nat
    requires f.elementSz > 0 && sz.elementSz <= |prefix|
  {
    var raw := ExtractInteger(sz, prefix[|prefix| - sz.elementSz..]);
    var result := if f.kind.BufferRedundant? then (raw - sz.elementSz / f.elementSz) % TWO64 else raw;
    if result > MAX_BUF_COUNT then SENTINEL else result
  }

  datatype FieldSz = FieldSz(known: bool, alloc: nat, wire: nat)

  /**
   Sizes of field `i`. `prefix` is the part of the message in front of the field; without it the
   wire size of a variable field is not known.
   */
  function CalcFieldSz(ns: NetStruct, i: nat, prefix: Option<seq<byte>>): FieldSz
    requires WellFormed(ns) && i < |ns|
    requires prefix.Some? ==> MemOff(ns, i) <= |prefix.value|
  {
    var f := ns[i];
    if !IsVariable(f) then
      FieldSz(true, DeclaredSz(f), DeclaredSz(f))
    else if prefix.None? then
      FieldSz(false, DeclaredSz(f), 0)
    else
      RoomForSizeField(ns, i);
      FieldSz(true, DeclaredSz(f), f.elementSz * ExtractElementCount(ns[i - 1], f, prefix.value) % TWO64)
  }

  function WireSz(ns: NetStruct, i: nat, prefix: seq<byte>): nat
    requires WellFormed(ns) && i < |ns| && MemOff(ns, i) <= |prefix|
  {
    CalcFieldSz(ns, i, Some(prefix)).wire
  }

  /**
   The mark for too many elements is a count of 2^64 - 1, and the test for it looks at the wire
   size. Multiplied by the element size the mark becomes 2^64 minus that size: it is recognised
   for single-byte elements and for no others.
   */
  lemma OversizedWire(ns: NetStruct, i: nat, prefix: seq<byte>)
    requires WellFormed(ns) && i < |ns| && IsVariable(ns[i]) && MemOff(ns, i) <= |prefix|
    ensures i > 0 && ns[i - 1].elementSz <= |prefix|
    ensures ExtractElementCount(ns[i - 1], ns[i], prefix) == SENTINEL ==>
      WireSz(ns, i, prefix) == TWO64 - ns[i].elementSz
    ensures ExtractElementCount(ns[i - 1], ns[i], prefix) == SENTINEL ==>
      (WireSz(ns, i, prefix) == SENTINEL <==> ns[i].elementSz == 1)
  {
    RoomForSizeField(ns, i);
    assert FieldOk(ns, i);
    var e := ns[i].elementSz;
    assert e * SENTINEL == (e - 1) * TWO64 + (TWO64 - e);
    WrapsTo(e * SENTINEL, e - 1, TWO64 - e);
  }

  lemma WrapsTo(x: nat, q: nat, r: nat)
    requires x == q * TWO64 + r && r < TWO64
    ensures x % TWO64 == r
  {
  }

  /** The buffer the reader allocates for `requestSz` bytes. */
  function Capacity(requestSz: nat): nat {
    (requestSz / 8 + 4) * 8
  }

  lemma CapacitySlack(requestSz: nat)
    ensures requestSz + 25 <= Capacity(requestSz) <= requestSz + 32 && Capacity(requestSz) % 8 == 0
  {
  }

  // --- Reader state ---------------------------------------------------------------------------

  datatype Reader = Reader(ns: NetStruct, field: nat, offset: nat, mem: seq<byte>)

  predicate ReaderOk(r: Reader) {
    WellFormed(r.ns) && r.field < |r.ns| && |r.mem| == Capacity(MemSize(r.ns))
  }

  /** Offset of the current field. */
  function At(r: Reader): (at: nat)
    requires ReaderOk(r)
    ensures at == MemOff(r.ns, r.field) && at <= |r.mem|
  {
    MemOffMonotone(r.ns, r.field, |r.ns|);
    CapacitySlack(MemSize(r.ns));
    MemOff(r.ns, r.field)
  }

  function CurrentWire(r: Reader): nat
    requires ReaderOk(r)
  {
    WireSz(r.ns, r.field, r.mem[..At(r)])
  }

  /** Bytes of the current field that have not arrived yet. */
  function Left(r: Reader): nat
    requires ReaderOk(r)
  {
    if r.offset < CurrentWire(r) then CurrentWire(r) - r.offset else 0
  }

  predicate Fits(r: Reader, n: nat)
    requires ReaderOk(r)
  {
    At(r) + r.offset + n <= |r.mem|
  }

  /** The reader after more bytes of the current field were written at `pos`. */
  function Store(r: Reader, pos: nat, data: seq<byte>): (p: Reader)
    requires ReaderOk(r) && pos + |data| <= |r.mem|
    ensures ReaderOk(p)
  {
    r.(offset := r.offset + |data|, mem := Splice(r.mem, pos, data))
  }

  /** The next bytes of the current field, in their place. */
  function Put(r: Reader, data: seq<byte>): (p: Reader)
    requires ReaderOk(r) && Fits(r, |data|)
    ensures ReaderOk(p)
  {
    Store(r, At(r) + r.offset, data)
  }

  lemma PutKeepsField(r: Reader, data: seq<byte>)
    requires ReaderOk(r) && Fits(r, |data|)
    ensures var p := Put(r, data); ReaderOk(p) && At(p) == At(r) && CurrentWire(p) == CurrentWire(r)
    ensures Put(r, data).mem[..At(r)] == r.mem[..At(r)]
  {
    assert Put(r, data).mem[..At(r)] == r.mem[..At(r)];
  }

  lemma PutTwice(r: Reader, a: seq<byte>, b: seq<byte>)
    requires ReaderOk(r) && Fits(r, |a| + |b|)
    ensures ReaderOk(Put(r, a)) && Fits(Put(r, a), |b|)
    ensures Put(Put(r, a), b) == Put(r, a + b)
  {
    PutKeepsField(r, a);
    SpliceTwice(r.mem, At(r) + r.offset, a, b);
  }

  function NextField(r: Reader): (n: Reader)
    requires ReaderOk(r) && r.field + 1 < |r.ns|
    ensures ReaderOk(n)
  {
    r.(field := r.field + 1, offset := 0)
  }

  // --- The intended reader --------------------------------------------------------------------

  /** Outcome of handing bytes to a reader: a message and what is left over, a reader that waits
      for more, too many elements announced, or a write that does not fit the buffer. */
  datatype Fed =
    | Done(mem: seq<byte>, rest: seq<byte>)
    | More(reader: Reader)
    | Rejected
    | Overrun

  function Feed(r: Reader, data: seq<byte>): Fed
    requires ReaderOk(r)
    decreases |r.ns| - r.field
  {
    var k := Min(Left(r), |data|);
    if CurrentWire(r) == SENTINEL then Rejected
    else if !Fits(r, k) then Overrun
    else
      PutKeepsField(r, data[..k]);
      var p := Put(r, data[..k]);
      if k < Left(r) then More(p)
      else if r.field + 1 == |r.ns| then Done(p.mem, data[k..])
      else Feed(NextField(p), data[k..])
  }

  /** Handing over `data` after an earlier outcome. */
  function FeedMore(f: Fed, data: seq<byte>): Fed
    requires f.More? ==> ReaderOk(f.reader)
  {
    match f
    case Done(mem, rest) => Done(mem, rest + data)
    case More(r) => Feed(r, data)
    case Rejected => Rejected
    case Overrun => Overrun
  }

  /** A reader at rest: it waits for at least one byte of its current field. */
  predicate Waiting(r: Reader) {
    ReaderOk(r) && CurrentWire(r) != SENTINEL && Left(r) > 0 && Fits(r, 0)
  }

  lemma FeedNothing(r: Reader)
    requires Waiting(r)
    ensures Feed(r, []) == More(r)
  {
    var nothing: seq<byte> := [];
    assert nothing[..0] == nothing;
    assert Put(r, nothing).mem == r.mem;
  }

  lemma {:induction false} FeedWaits(r: Reader, data: seq<byte>)
    requires ReaderOk(r)
    ensures var f := Feed(r, data); f.More? ==> Waiting(f.reader) && f.reader.ns == r.ns && r.field <= f.reader.field
    decreases |r.ns| - r.field
  {
    var k := Min(Left(r), |data|);
    if CurrentWire(r) != SENTINEL && Fits(r, k) {
      PutKeepsField(r, data[..k]);
      if k == Left(r) && r.field + 1 < |r.ns| {
        FeedWaits(NextField(Put(r, data[..k])), data[k..]);
      }
    }
  }

  /**
   Fragmentation independence of the intended reader: cutting the bytes anywhere changes nothing.
   */
  lemma {:induction false} FeedSplit(r: Reader, a: seq<byte>, b: seq<byte>)
    requires ReaderOk(r)
    ensures Feed(r, a).More? ==> ReaderOk(Feed(r, a).reader)
    ensures Feed(r, a + b) == FeedMore(Feed(r, a), b)
    decreases |r.ns| - r.field
  {
    FeedWaits(r, a);
    var left := Left(r);
    if CurrentWire(r) == SENTINEL {
    } else if |a| < left {
      FeedSplitInField(r, a, b);
    } else {
      assert (a + b)[..left] == a[..left];
      assert (a + b)[left..] == a[left..] + b;
      if Fits(r, left) && r.field + 1 < |r.ns| {
        PutKeepsField(r, a[..left]);
        FeedSplit(NextField(Put(r, a[..left])), a[left..], b);
      }
    }
  }

  /** The cut lies inside the current field. */
  lemma FeedSplitInField(r: Reader, a: seq<byte>, b: seq<byte>)
    requires ReaderOk(r) && CurrentWire(r) != SENTINEL && |a| < Left(r)
    ensures Feed(r, a).More? ==> ReaderOk(Feed(r, a).reader)
    ensures Feed(r, a + b) == FeedMore(Feed(r, a), b)
  {
    hide CalcFieldSz, WellFormed, Capacity;
    FeedWaits(r, a);
    var k := Min(Left(r), |a + b|);
    assert a[..|a|] == a;
    if Fits(r, |a|) {
      PutKeepsField(r, a);
      var p := Put(r, a);
      assert Left(p) == Left(r) - |a|;
      assert (a + b)[..k] == a + b[..k - |a|];
      assert (a + b)[k..] == b[k - |a|..];
      if Fits(r, k) {
        PutTwice(r, a, b[..k - |a|]);
      }
    }
  }

  // --- The reader as written ------------------------------------------------------------------

  /** What one successful socket read led to. */
  datatype Absorbed =
    | Completed(mem: seq<byte>, rest: seq<byte>)
    | Stopped(reader: Reader)
    | OutOfBounds

  /**
   The field loop over the bytes of one read. `mempos` is where the loop believes the current
   field starts. The whole wire size of the field is compared with what was read even when
   `offset` bytes of it are already there, and the next field is taken to start at
   `mempos + offset` plus the size of this one.
   */
  function Absorb(r: Reader, mempos: nat, data: seq<byte>): Absorbed
    requires ReaderOk(r) && MemOff(r.ns, r.field) <= mempos
    decreases |r.ns| - r.field
  {
    if mempos > |r.mem| then OutOfBounds
    else
      var wire := WireSz(r.ns, r.field, r.mem[..mempos]);
      var k := Min(wire, |data|);
      var pos := mempos + r.offset;
      if pos + k > |r.mem| then OutOfBounds
      else
        var p := Store(r, pos, data[..k]);
        if k < wire then Stopped(p)
        else if r.field + 1 == |r.ns| then Completed(p.mem, data[k..])
        else Absorb(NextField(p), pos + DeclaredSz(r.ns[r.field]), data[k..])
  }

  /** Wire size of the fixed fields from `i` up to the next variable one. */
  function FixedRun(ns: NetStruct, i: nat): nat
    decreases |ns| - i
  {
    if i >= |ns| || IsVariable(ns[i]) then 0 else DeclaredSz(ns[i]) + FixedRun(ns, i + 1)
  }

  /** Sizes are added in 64-bit arithmetic. */
  function Reduce(x: nat): nat {
    x % TWO64
  }

  /** How much is asked of the socket: everything up to the next field of unknown size. */
  function Request(r: Reader): nat
    requires ReaderOk(r)
  {
    var total := Reduce(CurrentWire(r) + FixedRun(r.ns, r.field + 1));
    total - Min(total, r.offset)
  }

  /** What the kernel has in store for one read: bytes, nothing yet, or an error. */
  datatype Event = Deliver(n: nat) | WouldBlock | Failed

  /** What is left of a script. */
  predicate Rest(before: seq<Event>, after: seq<Event>) {
    |after| <= |before| && before[|before| - |after|..] == after
  }

  /** The socket was asked, and had nothing. */
  predicate SaidNothing(before: seq<Event>, after: seq<Event>) {
    Rest(before, after) && (after == [] || (|after| < |before| && before[|before| - |after| - 1].WouldBlock?))
  }

  /** The socket was asked, and failed. */
  predicate SaidFailed(before: seq<Event>, after: seq<Event>) {
    Rest(before, after) && |after| < |before| && before[|before| - |after| - 1].Failed?
  }

  lemma RestTrans(a: seq<Event>, b: seq<Event>, c: seq<Event>)
    requires Rest(a, b) && Rest(b, c)
    ensures Rest(a, c)
    ensures SaidNothing(b, c) ==> SaidNothing(a, c)
    ensures SaidFailed(b, c) ==> SaidFailed(a, c)
  {
    assert a[|a| - |c|..] == a[|a| - |b|..][|b| - |c|..];
  }

  /** A read returns at least one byte unless the stream has ended, and then none. */
  function Granted(n: nat, want: nat, available: nat): (k: nat)
    ensures k <= want && k <= available
    ensures k == 0 <==> want == 0 || available == 0
  {
    Min(Min(if n == 0 then 1 else n, want), available)
  }

  /** How one call of the reader ends. `Spinning` is the loop that never ends: it asks for nothing,
      or the stream is at its end, and the state stays as it is. */
  datatype Outcome = Complete | Blocked | Shut | Spinning | Fault

  datatype Result = Result(outcome: Outcome, reader: Reader, used: nat, events: seq<Event>, torn: bool)

  /**
   One call of the reader on the (decrypted) bytes the stream still has. `torn` tells that a read
   stopped inside a field.
   */
  function Run(r: Reader, input: seq<byte>, events: seq<Event>): (res: Result)
    requires ReaderOk(r)
    ensures res.used <= |input| && ReaderOk(res.reader) && res.reader.ns == r.ns
    decreases |input|
  {
    if CurrentWire(r) == SENTINEL then Result(Shut, r, 0, events, false)
    else if Request(r) == 0 then Result(Spinning, r, 0, events, false)
    else if events == [] then Result(Blocked, r, 0, [], false)
    else if events[0].WouldBlock? then Result(Blocked, r, 0, events[1..], false)
    else if events[0].Failed? then Result(Shut, r, 0, events[1..], false)
    else
      var k := Granted(events[0].n, Request(r), |input|);
      if k == 0 then Result(Spinning, r, 0, events[1..], false)
      else match Absorb(r, At(r), input[..k])
        case OutOfBounds => Result(Fault, r, k, events[1..], false)
        case Completed(mem, _) =>
          AbsorbKeepsShape(r, At(r), input[..k]);
          Result(Complete, r.(mem := mem), k, events[1..], false)
        case Stopped(p) =>
          AbsorbKeepsShape(r, At(r), input[..k]);
          var next := Run(p, input[k..], events[1..]);
          next.(used := k + next.used, torn := p.offset > 0 || next.torn)
  }

  /** What the end of a call says about the socket. */
  predicate Drains(t: Result, available: nat, events: seq<Event>)
    requires ReaderOk(t.reader)
  {
    && Rest(events, t.events)
    && (t.outcome.Blocked? ==> SaidNothing(events, t.events))
    && (t.outcome.Shut? ==> CurrentWire(t.reader) == SENTINEL || SaidFailed(events, t.events))
    && (t.outcome.Spinning? ==> Request(t.reader) == 0 || t.used == available)
  }

  /**
   A call that waits has asked the socket and got nothing; one that shuts the connection has met a
   failure or a refused size; one that loops for ever asks for nothing or is at the end of the stream.
   */
  lemma {:induction false} RunDrains(r: Reader, input: seq<byte>, events: seq<Event>)
    requires ReaderOk(r)
    ensures Drains(Run(r, input, events), |input|, events)
    decreases |input|
  {
    hide Absorb, CalcFieldSz, WellFormed, Capacity, Drains;
    var t := Run(r, input, events);
    if t.used == 0 {
      DrainsAtOnce(r, input, events);
    } else {
      var k := Granted(events[0].n, Request(r), |input|);
      AbsorbKeepsShape(r, At(r), input[..k]);
      var a := Absorb(r, At(r), input[..k]);
      if a.Stopped? {
        RunDrains(a.reader, input[k..], events[1..]);
        DrainsLater(Run(a.reader, input[k..], events[1..]), |input| - k, events, k, t);
      } else {
        DrainsWithout(t, |input|, events);
      }
    }
  }

  lemma DrainsAtOnce(r: Reader, input: seq<byte>, events: seq<Event>)
    requires ReaderOk(r) && Run(r, input, events).used == 0
    ensures Drains(Run(r, input, events), |input|, events)
  {
    hide Absorb, CalcFieldSz, WellFormed, Capacity;
  }

  lemma DrainsLater(next: Result, available: nat, events: seq<Event>, k: nat, t: Result)
    requires ReaderOk(next.reader) && events != [] && Drains(next, available, events[1..])
    requires t.reader == next.reader && t.outcome == next.outcome && t.events == next.events && t.used == k + next.used
    ensures Drains(t, available + k, events)
  {
    hide CalcFieldSz, WellFormed, Capacity, CurrentWire, Request;
    RestTrans(events, events[1..], t.events);
  }

  lemma DrainsWithout(t: Result, available: nat, events: seq<Event>)
    requires ReaderOk(t.reader) && events != [] && t.events == events[1..]
    requires t.outcome.Complete? || t.outcome.Fault?
    ensures Drains(t, available, events)
  {
  }

  /** The turn of the field loop that starts at `mempos` stays inside the buffer. */
  predicate TurnInside(r: Reader, mempos: nat, data: seq<byte>)
    requires ReaderOk(r)
  {
    && MemOff(r.ns, r.field) <= mempos <= |r.mem|
    && mempos + r.offset + Min(WireSz(r.ns, r.field, r.mem[..mempos]), |data|) <= |r.mem|
  }

  /** One turn of the field loop. */
  lemma AbsorbTurn(r: Reader, mempos: nat, data: seq<byte>, wire: nat, k: nat)
    requires ReaderOk(r) && MemOff(r.ns, r.field) <= mempos <= |r.mem|
    requires wire == WireSz(r.ns, r.field, r.mem[..mempos]) && k == Min(wire, |data|)
    requires Absorb(r, mempos, data) != OutOfBounds || TurnInside(r, mempos, data)
    ensures TurnInside(r, mempos, data)
    ensures var p := Store(r, mempos + r.offset, data[..k]);
      Absorb(r, mempos, data) ==
        if k < wire then Stopped(p)
        else if r.field + 1 == |r.ns| then Completed(p.mem, data[k..])
        else Absorb(NextField(p), mempos + r.offset + DeclaredSz(r.ns[r.field]), data[k..])
  {
    hide CalcFieldSz, WellFormed, Capacity;
  }

  /** Writing behind the start of the current field leaves everything in front of it. */
  lemma WriteBehind(r: Reader, pos: nat, data: seq<byte>)
    requires ReaderOk(r) && At(r) <= pos && pos + |data| <= |r.mem|
    ensures var mem := Splice(r.mem, pos, data); |mem| == |r.mem| && mem[..At(r)] == r.mem[..At(r)]
  {
  }

  predicate ShapeKept(r: Reader, a: Absorbed, available: nat)
    requires ReaderOk(r)
  {
    match a
    case OutOfBounds => true
    case Completed(mem, rest) => |mem| == |r.mem| && |rest| <= available && mem[..At(r)] == r.mem[..At(r)]
    case Stopped(p) =>
      && ReaderOk(p) && p.ns == r.ns && r.field <= p.field
      && p.mem[..At(r)] == r.mem[..At(r)]
  }

  lemma OneTurnKeepsShape(r: Reader, pos: nat, data: seq<byte>, rest: seq<byte>)
    requires ReaderOk(r) && At(r) <= pos && pos + |data| <= |r.mem|
    ensures var p := Store(r, pos, data);
      && p.mem[..At(r)] == r.mem[..At(r)]
      && ShapeKept(r, Stopped(p), |rest|) && ShapeKept(r, Completed(p.mem, rest), |rest|)
  {
    hide CalcFieldSz, WellFormed, Capacity;
    WriteBehind(r, pos, data);
  }

  lemma {:induction false} AbsorbKeepsShape(r: Reader, mempos: nat, data: seq<byte>)
    requires ReaderOk(r) && MemOff(r.ns, r.field) <= mempos
    ensures ShapeKept(r, Absorb(r, mempos, data), |data|)
    decreases |r.ns| - r.field
  {
    hide Absorb, CalcFieldSz, WellFormed, Capacity, ShapeKept;
    if TurnInside(r, mempos, data) {
      var wire := WireSz(r.ns, r.field, r.mem[..mempos]);
      var k := Min(wire, |data|);
      var pos := mempos + r.offset;
      AbsorbTurn(r, mempos, data, wire, k);
      OneTurnKeepsShape(r, pos, data[..k], data[k..]);
      if k < wire {
        Wider(r, Stopped(Store(r, pos, data[..k])), |data| - k, |data|);
      } else if r.field + 1 == |r.ns| {
        Wider(r, Completed(Store(r, pos, data[..k]).mem, data[k..]), |data| - k, |data|);
      } else {
        var next := NextField(Store(r, pos, data[..k]));
        AbsorbKeepsShape(next, pos + DeclaredSz(r.ns[r.field]), data[k..]);
        ShapeKeptTrans(r, next, Absorb(next, pos + DeclaredSz(r.ns[r.field]), data[k..]), |data| - k, |data|);
      }
    } else {
      AbsorbOutside(r, mempos, data);
      Wider(r, OutOfBounds, 0, |data|);
    }
  }

  lemma Wider(r: Reader, a: Absorbed, m: nat, n: nat)
    requires ReaderOk(r) && m <= n && (ShapeKept(r, a, m) || a == OutOfBounds)
    ensures ShapeKept(r, a, n)
  {
  }

  lemma ShapeKeptTrans(r: Reader, next: Reader, a: Absorbed, m: nat, n: nat)
    requires ReaderOk(r) && ReaderOk(next) && next.ns == r.ns && r.field <= next.field
    requires next.mem[..At(r)] == r.mem[..At(r)] && |next.mem| == |r.mem|
    requires m <= n && ShapeKept(next, a, m)
    ensures ShapeKept(r, a, n)
  {
    MemOffMonotone(r.ns, r.field, next.field);
    match a
    case OutOfBounds =>
    case Completed(mem, _) =>
      assert mem[..At(r)] == mem[..At(next)][..At(r)] == next.mem[..At(next)][..At(r)];
    case Stopped(p) =>
      assert p.mem[..At(r)] == p.mem[..At(next)][..At(r)] == next.mem[..At(next)][..At(r)];
  }

  /** Whatever was torn before: a completed message has used up the bytes of the read. */
  lemma {:induction false} CompletionTakesAll(r: Reader, mempos: nat, data: seq<byte>)
    requires ReaderOk(r) && MemOff(r.ns, r.field) <= mempos <= |r.mem|
    requires |data| <= WireSz(r.ns, r.field, r.mem[..mempos]) + FixedRun(r.ns, r.field + 1)
    ensures var a := Absorb(r, mempos, data); a.Completed? ==> a.rest == []
    decreases |r.ns| - r.field
  {
    hide Absorb, CalcFieldSz, WellFormed, Capacity, Splice;
    var a := Absorb(r, mempos, data);
    var wire := WireSz(r.ns, r.field, r.mem[..mempos]);
    if a.Completed? {
      AbsorbTurn(r, mempos, data, wire, Min(wire, |data|));
    }
    if a.Completed? && r.field + 1 < |r.ns| {
      var next := NextField(Store(r, mempos + r.offset, data[..wire]));
      var pos := mempos + r.offset + DeclaredSz(r.ns[r.field]);
      LaterFieldBudget(next, pos, |data| - wire);
      CompletedInside(next, pos, data[wire..]);
      CompletionTakesAll(next, pos, data[wire..]);
    }
  }

  lemma CompletedInside(r: Reader, mempos: nat, data: seq<byte>)
    requires ReaderOk(r) && MemOff(r.ns, r.field) <= mempos && Absorb(r, mempos, data).Completed?
    ensures mempos <= |r.mem|
  {
  }

  lemma LaterFieldBudget(r: Reader, mempos: nat, available: nat)
    requires ReaderOk(r) && MemOff(r.ns, r.field) <= mempos && available <= FixedRun(r.ns, r.field)
    ensures mempos <= |r.mem| ==> available <= WireSz(r.ns, r.field, r.mem[..mempos]) + FixedRun(r.ns, r.field + 1)
  {
  }

  // --- When the reader as written is the intended one -----------------------------------------

  /** The intended outcome that corresponds to what one read led to. */
  function Settle(a: Absorbed): Fed
    requires a.Stopped? ==> ReaderOk(a.reader)
  {
    match a
    case Completed(mem, rest) => Done(mem, rest)
    case Stopped(p) => Feed(p, [])
    case OutOfBounds => Overrun
  }

  lemma FeedDone(r: Reader, data: seq<byte>)
    requires ReaderOk(r) && Feed(r, data).Done?
    ensures CurrentWire(r) != SENTINEL && Left(r) <= |data| && Fits(r, Left(r))
  {
  }

  lemma AbsorbOutside(r: Reader, mempos: nat, data: seq<byte>)
    requires ReaderOk(r) && MemOff(r.ns, r.field) <= mempos && !TurnInside(r, mempos, data)
    ensures Absorb(r, mempos, data) == OutOfBounds
  {
    hide CalcFieldSz, WellFormed, Capacity;
  }

  /** The field loop on a field boundary, one field at a time. */
  lemma AbsorbPart(r: Reader, data: seq<byte>)
    requires ReaderOk(r) && r.offset == 0 && |data| < CurrentWire(r)
    ensures Absorb(r, At(r), data) == if Fits(r, |data|) then Stopped(Put(r, data)) else OutOfBounds
  {
    hide Absorb, CalcFieldSz, WellFormed, Capacity;
    assert data[..|data|] == data;
    if Fits(r, |data|) {
      AbsorbTurn(r, At(r), data, CurrentWire(r), |data|);
    } else {
      AbsorbOutside(r, At(r), data);
    }
  }

  lemma AbsorbWhole(r: Reader, data: seq<byte>)
    requires ReaderOk(r) && r.offset == 0 && CurrentWire(r) <= |data|
    ensures var k := CurrentWire(r);
      Absorb(r, At(r), data) ==
        if !Fits(r, k) then OutOfBounds
        else if r.field + 1 == |r.ns| then Completed(Put(r, data[..k]).mem, data[k..])
        else Absorb(NextField(Put(r, data[..k])), At(NextField(Put(r, data[..k]))), data[k..])
  {
    hide Absorb, CalcFieldSz, WellFormed, Capacity, Splice, MemOff;
    var k := CurrentWire(r);
    if Fits(r, k) {
      AbsorbTurn(r, At(r), data, k, k);
      var p := Put(r, data[..k]);
      assert p == Store(r, At(r) + r.offset, data[..k]);
      if r.field + 1 < |r.ns| {
        NextAt(p);
      }
    } else {
      AbsorbOutside(r, At(r), data);
    }
  }

  lemma NextAt(r: Reader)
    requires ReaderOk(r) && r.field + 1 < |r.ns|
    ensures At(NextField(r)) == At(r) + DeclaredSz(r.ns[r.field])
  {
  }

  lemma FeedPart(r: Reader, data: seq<byte>)
    requires ReaderOk(r) && CurrentWire(r) != SENTINEL && |data| < Left(r)
    ensures Feed(r, data) == if Fits(r, |data|) then More(Put(r, data)) else Overrun
    ensures Fits(r, |data|) ==> Feed(Put(r, data), []) == More(Put(r, data))
  {
    assert data[..|data|] == data;
    if Fits(r, |data|) {
      PutKeepsField(r, data);
      FeedNothing(Put(r, data));
    }
  }

  lemma FeedWhole(r: Reader, data: seq<byte>)
    requires ReaderOk(r) && CurrentWire(r) != SENTINEL && Left(r) <= |data|
    ensures var k := Left(r);
      Feed(r, data) ==
        if !Fits(r, k) then Overrun
        else if r.field + 1 == |r.ns| then Done(Put(r, data[..k]).mem, data[k..])
        else Feed(NextField(Put(r, data[..k])), data[k..])
  {
  }

  lemma DeclaredPositive(f: NetField)
    requires f.elementSz > 0 && f.count > 0
    ensures DeclaredSz(f) > 0
  {
  }

  lemma FixedWire(ns: NetStruct, i: nat)
    requires WellFormed(ns) && i < |ns| && !IsVariable(ns[i])
    ensures 0 < DeclaredSz(ns[i]) < SENTINEL
  {
    hide CalcFieldSz;
    MemOffMonotone(ns, i + 1, |ns|);
    assert FieldOk(ns, i);
    assert MemOff(ns, i + 1) == MemOff(ns, i) + DeclaredSz(ns[i]);
    assert MemOff(ns, |ns|) == MemSize(ns) < 0x1_0000_0000;
    assert 0x1_0000_0000 < SENTINEL;
    DeclaredPositive(ns[i]);
  }

  /** What is left of one read when it moves on to the next field belongs to that field and the
      fixed fields behind it; there is nothing left for a variable field. */
  predicate WithinRun(r: Reader, available: nat)
    requires ReaderOk(r)
  {
    && available <= CurrentWire(r) + FixedRun(r.ns, r.field + 1)
    && (CurrentWire(r) == SENTINEL ==> available == 0)
  }

  lemma WithinRunNext(r: Reader, next: Reader, available: nat)
    requires ReaderOk(r) && ReaderOk(next) && next.ns == r.ns && next.field == r.field + 1
    requires WithinRun(r, available) && CurrentWire(r) <= available
    ensures WithinRun(next, available - CurrentWire(r))
    ensures IsVariable(next.ns[next.field]) ==> available == CurrentWire(r)
  {
    if !IsVariable(next.ns[next.field]) {
      FixedWire(next.ns, next.field);
    }
  }

  /** Starting on a field boundary, one read is absorbed as intended. */
  lemma {:induction false} AbsorbIsFeed(r: Reader, data: seq<byte>)
    requires ReaderOk(r) && r.offset == 0 && WithinRun(r, |data|)
    ensures var a := Absorb(r, At(r), data);
      && (a.Stopped? ==> ReaderOk(a.reader) && a.reader.offset < CurrentWire(a.reader) && Fits(a.reader, 0))
      && (a.Stopped? && CurrentWire(a.reader) == SENTINEL ==> a.reader.offset == 0)
      && Feed(r, data) == Settle(a)
      && (a.Completed? ==> a.rest == [])
    decreases |r.ns| - r.field
  {
    hide Absorb;
    AbsorbKeepsShape(r, At(r), data);
    var wire := CurrentWire(r);
    if wire == SENTINEL {
      AbsorbPart(r, data);
      if Fits(r, 0) {
        PutKeepsField(r, data);
      }
    } else if |data| < wire {
      AbsorbPart(r, data);
      FeedPart(r, data);
    } else {
      AbsorbWhole(r, data);
      FeedWhole(r, data);
      if Fits(r, wire) && r.field + 1 < |r.ns| {
        var next := NextField(Put(r, data[..wire]));
        WithinRunNext(r, next, |data|);
        AbsorbIsFeed(next, data[wire..]);
      }
    }
  }

  /** A reader on a field boundary with something of its field to come. */
  predicate OnBoundary(r: Reader) {
    ReaderOk(r) && r.offset == 0 && CurrentWire(r) > 0
  }

  /** What `Feed` says of the bytes a call took, if no read stopped inside a field. */
  predicate AsIntended(r: Reader, taken: seq<byte>, t: Result)
    requires ReaderOk(r)
  {
    match t.outcome
    case Complete => Feed(r, taken) == Done(t.reader.mem, [])
    case Fault => Feed(r, taken) == Overrun
    case Shut =>
      && OnBoundary(t.reader)
      && Feed(r, taken) == (if CurrentWire(t.reader) == SENTINEL then Rejected else More(t.reader))
    case _ => OnBoundary(t.reader) && Feed(r, taken) == More(t.reader)
  }

  lemma Continue(r: Reader, data: seq<byte>, p: Reader, more: seq<byte>)
    requires ReaderOk(r) && OnBoundary(p) && Feed(r, data) == Feed(p, [])
    ensures Feed(r, data + more) == if CurrentWire(p) == SENTINEL then Rejected else Feed(p, more)
  {
    hide CalcFieldSz;
    FeedSplit(r, data, more);
    if CurrentWire(p) != SENTINEL {
      FeedNothing(p);
    }
  }

  /** What follows a stop on a field boundary decides the whole call. */
  lemma ContinueCall(r: Reader, data: seq<byte>, p: Reader, more: seq<byte>, next: Result, t: Result)
    requires ReaderOk(r) && OnBoundary(p) && Feed(r, data) == Feed(p, [])
    requires AsIntended(p, more, next) && t.outcome == next.outcome && t.reader == next.reader
    ensures AsIntended(r, data + more, t)
  {
    hide CalcFieldSz, WellFormed;
    Continue(r, data, p, more);
    if CurrentWire(p) == SENTINEL {
      assert Feed(p, more) == Rejected;
    }
  }

  /** The calls that take nothing. */
  lemma RunTakesNothing(r: Reader, input: seq<byte>, events: seq<Event>)
    requires OnBoundary(r) && Run(r, input, events).used == 0
    ensures AsIntended(r, [], Run(r, input, events))
  {
    hide Absorb, CalcFieldSz, WellFormed;
    var t := Run(r, input, events);
    assert t.reader == r;
    if CurrentWire(r) != SENTINEL {
      FeedNothing(r);
    }
  }

  /** One call, started on a field boundary and never stopped inside a field, is the intended reader. */
  lemma {:induction false} RunAligned(r: Reader, input: seq<byte>, events: seq<Event>)
    requires OnBoundary(r)
    ensures var t := Run(r, input, events);
      !t.torn ==> AsIntended(r, input[..t.used], t)
    decreases |input|
  {
    hide Absorb, Feed, CalcFieldSz, WellFormed, Capacity, FixedRun;
    var t := Run(r, input, events);
    if t.used == 0 {
      RunTakesNothing(r, input, events);
    } else {
      var k := Granted(events[0].n, Request(r), |input|);
      var data := input[..k];
      AbsorbKeepsShape(r, At(r), data);
      AbsorbIsFeed(r, data);
      var a := Absorb(r, At(r), data);
      if a.Stopped? && a.reader.offset == 0 {
        var next := Run(a.reader, input[k..], events[1..]);
        assert t == next.(used := k + next.used, torn := next.torn);
        RunAligned(a.reader, input[k..], events[1..]);
        assert input[..t.used] == data + input[k..][..next.used];
        if !next.torn {
          ContinueCall(r, data, a.reader, input[k..][..next.used], next, t);
        }
      }
    }
  }

  // --- Many calls -----------------------------------------------------------------------------

  /** The calls it takes, one after the other, until a message is there or nothing is left to do. */
  function Drive(r: Reader, input: seq<byte>, events: seq<Event>): (res: Result)
    requires ReaderOk(r)
    ensures res.used <= |input| && ReaderOk(res.reader) && res.reader.ns == r.ns
    decreases |events|
  {
    var t := Run(r, input, events);
    RunConsumesEvents(r, input, events);
    if !t.outcome.Blocked? || events == [] then t
    else
      var next := Drive(t.reader, input[t.used..], t.events);
      next.(used := t.used + next.used, torn := t.torn || next.torn)
  }

  lemma {:induction false} RunConsumesEvents(r: Reader, input: seq<byte>, events: seq<Event>)
    requires ReaderOk(r)
    ensures var t := Run(r, input, events);
      |t.events| <= |events| && (t.outcome.Blocked? && events != [] ==> |t.events| < |events|)
    decreases |input|
  {
    hide CalcFieldSz, WellFormed;
    var t := Run(r, input, events);
    if t.used > 0 {
      var k := Granted(events[0].n, Request(r), |input|);
      var a := Absorb(r, At(r), input[..k]);
      if a.Stopped? {
        AbsorbKeepsShape(r, At(r), input[..k]);
        RunConsumesEvents(a.reader, input[k..], events[1..]);
      }
    }
  }

  /** Any number of calls: without a stop inside a field they are the intended reader. */
  lemma {:induction false} DriveAligned(r: Reader, input: seq<byte>, events: seq<Event>)
    requires OnBoundary(r)
    ensures var t := Drive(r, input, events);
      !t.torn ==> AsIntended(r, input[..t.used], t)
    decreases |events|
  {
    hide Absorb, Feed, CalcFieldSz, WellFormed;
    var first := Run(r, input, events);
    RunAligned(r, input, events);
    RunConsumesEvents(r, input, events);
    if first.outcome.Blocked? && events != [] && !first.torn {
      var next := Drive(first.reader, input[first.used..], first.events);
      DriveAligned(first.reader, input[first.used..], first.events);
      var t := Drive(r, input, events);
      assert input[..t.used] == input[..first.used] + input[first.used..][..next.used];
      if !next.torn {
        BoundaryRests(r, input[..first.used], first.reader);
        ContinueCall(r, input[..first.used], first.reader, input[first.used..][..next.used], next, t);
      }
    }
  }

  lemma BoundaryRests(r: Reader, data: seq<byte>, p: Reader)
    requires ReaderOk(r) && OnBoundary(p) && Feed(r, data) == More(p)
    ensures Feed(r, data) == Feed(p, [])
  {
    FeedWaits(r, data);
    FeedNothing(p);
  }

  /**
   Fragmentation independence of the reader as written: two schedules on which no read stops
   inside a field, and which both end with a message, take the same bytes and deliver the same
   message.
   */
  lemma SchedulesAgree(r: Reader, input: seq<byte>, e1: seq<Event>, e2: seq<Event>)
    requires OnBoundary(r)
    requires var t := Drive(r, input, e1); t.outcome.Complete? && !t.torn
    requires var t := Drive(r, input, e2); t.outcome.Complete? && !t.torn
    ensures var t1, t2 := Drive(r, input, e1), Drive(r, input, e2);
      t1.used == t2.used && t1.reader.mem == t2.reader.mem
  {
    hide Drive, Feed, CalcFieldSz, WellFormed;
    var t1, t2 := Drive(r, input, e1), Drive(r, input, e2);
    DriveAligned(r, input, e1);
    DriveAligned(r, input, e2);
    var a, b := input[..t1.used], input[..t2.used];
    if t1.used <= t2.used {
      assert b == a + input[t1.used..t2.used];
      FeedSplit(r, a, input[t1.used..t2.used]);
    } else {
      assert a == b + input[t2.used..t1.used];
      FeedSplit(r, b, input[t2.used..t1.used]);
    }
  }
}
