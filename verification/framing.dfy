/**
 Message boundaries without a reader.

 For descriptors whose variable field comes last, `Frame` says directly from the bytes where the
 message ends and whether it is accepted; its memory form is the wire bytes followed by zeros.
 The readers are proved against this, and serialising is proved its inverse.
 */
module Framing {
  import opened Bytes
  import opened NetStructs
  import opened Reading
  import opened Options
  import opened Resumption

  datatype Frame = Incomplete | TooMany | TooLong | Message(len: nat)

  function FrameOf(ns: NetStruct, d: seq<byte>): (f: Frame)
    requires WellFormed(ns)
    ensures f.Message? ==> f.len <= |d| && f.len <= Capacity(MemSize(ns))
  {
    var at := TailAt(ns);
    if |d| < at then Incomplete
    else
      var wire := WireSz(ns, |ns| - 1, d[..at]);
      if wire == SENTINEL then TooMany
      else if at + Min(wire, |d| - at) > Capacity(MemSize(ns)) then TooLong
      else if |d| - at < wire then Incomplete
      else Message(at + wire)
  }

  /** What is decided about a message stays decided. */
  lemma FrameStable(ns: NetStruct, a: seq<byte>, b: seq<byte>)
    requires TailVariable(ns) && FrameOf(ns, a) != Incomplete
    ensures FrameOf(ns, a + b) == FrameOf(ns, a)
  {
    assert (a + b)[..TailAt(ns)] == a[..TailAt(ns)];
  }

  /** The memory form of wire bytes in a fresh buffer. */
  function Image(ns: NetStruct, bytes: seq<byte>): (mem: seq<byte>)
    requires |bytes| <= Capacity(MemSize(ns))
    ensures |mem| == Capacity(MemSize(ns))
  {
    bytes + Zeros(Capacity(MemSize(ns)) - |bytes|)
  }

  function Blank(ns: NetStruct): (r: Reader)
    requires WellFormed(ns)
    ensures ReaderOk(r)
  {
    Reader(ns, 0, 0, Zeros(Capacity(MemSize(ns))))
  }

  /** The reader has exactly the bytes `got` in place. */
  predicate Holds(r: Reader, got: seq<byte>) {
    && ReaderOk(r) && |got| == Position(r) <= |r.mem|
    && r.mem == Image(r.ns, got)
  }

  predicate Framed(ns: NetStruct, d: seq<byte>, f: Fed)
    requires WellFormed(ns)
  {
    match FrameOf(ns, d)
    case Incomplete => f.More? && f.reader.ns == ns && Holds(f.reader, d)
    case TooMany => f == Rejected
    case TooLong => f == Overrun
    case Message(len) => f == Done(Image(ns, d[..len]), d[len..])
  }

  lemma PutHolds(r: Reader, got: seq<byte>, data: seq<byte>)
    requires Holds(r, got) && Fits(r, |data|)
    ensures Holds(Put(r, data), got + data)
    ensures got[..At(r)] == r.mem[..At(r)]
  {
    PutKeepsField(r, data);
    assert Put(r, data).mem == Image(r.ns, got + data);
  }

  /** The intended reader finds exactly the boundaries of `FrameOf`, wherever it starts from. */
  lemma {:induction false} FeedFrames(r: Reader, got: seq<byte>, data: seq<byte>)
    requires TailVariable(r.ns) && Holds(r, got) && r.offset <= CurrentWire(r)
    ensures Framed(r.ns, got + data, Feed(r, data))
    decreases |r.ns| - r.field
  {
    hide Feed, CalcFieldSz, WellFormed, Capacity, TailVariable, Framed;
    if r.field + 1 == |r.ns| {
      FeedFramesLast(r, got, data);
    } else {
      InnerWire(r);
      var k := Left(r);
      InnerFits(r);
      if |data| < k {
        FeedPart(r, data);
        PutHolds(r, got, data);
        NotThereYet(r, got + data);
      } else {
        FeedWhole(r, data);
        PutHolds(r, got, data[..k]);
        PutKeepsField(r, data[..k]);
        var next := NextField(Put(r, data[..k]));
        NextHolds(r, got, data[..k]);
        FeedFrames(next, got + data[..k], data[k..]);
        assert got + data[..k] + data[k..] == got + data;
      }
    }
  }

  lemma InnerWire(r: Reader)
    requires TailVariable(r.ns) && ReaderOk(r) && r.field + 1 < |r.ns|
    ensures CurrentWire(r) == DeclaredSz(r.ns[r.field]) != SENTINEL
  {
    assert !IsVariable(r.ns[r.field]);
    FixedWire(r.ns, r.field);
  }

  lemma InnerFits(r: Reader)
    requires TailVariable(r.ns) && ReaderOk(r) && r.field + 1 < |r.ns| && r.offset <= CurrentWire(r)
    ensures Fits(r, Left(r)) && At(r) + CurrentWire(r) <= TailAt(r.ns)
    ensures forall n: nat :: n <= Left(r) ==> Fits(r, n)
  {
    InnerWire(r);
    MemOffMonotone(r.ns, r.field + 1, |r.ns| - 1);
  }

  lemma NotThereYet(r: Reader, got: seq<byte>)
    requires TailVariable(r.ns) && ReaderOk(r) && r.field + 1 < |r.ns|
    requires |got| < At(r) + CurrentWire(r)
    ensures FrameOf(r.ns, got) == Incomplete
    ensures forall p: Reader :: p.ns == r.ns && Holds(p, got) ==> Framed(r.ns, got, More(p))
  {
    InnerWire(r);
    MemOffMonotone(r.ns, r.field + 1, |r.ns| - 1);
  }

  lemma NextHolds(r: Reader, got: seq<byte>, data: seq<byte>)
    requires TailVariable(r.ns) && ReaderOk(r) && r.field + 1 < |r.ns| && r.offset <= CurrentWire(r)
    requires |data| == Left(r) && Fits(r, |data|) && Holds(Put(r, data), got + data)
    ensures Holds(NextField(Put(r, data)), got + data)
  {
    InnerWire(r);
  }

  lemma FeedFramesLast(r: Reader, got: seq<byte>, data: seq<byte>)
    requires WellFormed(r.ns) && Holds(r, got) && r.offset <= CurrentWire(r) && r.field + 1 == |r.ns|
    ensures Framed(r.ns, got + data, Feed(r, data))
  {
    hide Feed, CalcFieldSz, WellFormed, Capacity;
    var wire, k := CurrentWire(r), Left(r);
    var at := At(r);
    assert (got + data)[..at] == got[..at] == r.mem[..at];
    assert at == TailAt(r.ns);
    if wire == SENTINEL {
      SentinelRejects(r, data);
    } else if |data| < k {
      FeedPart(r, data);
      if Fits(r, |data|) {
        PutHolds(r, got, data);
      }
    } else {
      FeedWhole(r, data);
      if Fits(r, k) {
        PutHolds(r, got, data[..k]);
        assert (got + data)[..at + wire] == got + data[..k];
        assert (got + data)[at + wire..] == data[k..];
      }
    }
  }

  lemma SentinelRejects(r: Reader, data: seq<byte>)
    requires ReaderOk(r) && CurrentWire(r) == SENTINEL
    ensures Feed(r, data) == Rejected
  {
  }

  lemma NothingFramed(ns: NetStruct)
    requires TailVariable(ns) && !IsVariable(ns[0])
    ensures FrameOf(ns, []) == Incomplete
  {
    if |ns| == 1 {
      FixedWire(ns, 0);
    } else {
      MemOffMonotone(ns, 1, |ns| - 1);
      FixedWire(ns, 0);
      assert MemOff(ns, 1) == DeclaredSz(ns[0]);
    }
  }

  lemma BlankHolds(ns: NetStruct)
    requires TailVariable(ns) && !IsVariable(ns[0])
    ensures Holds(Blank(ns), []) && OnBoundary(Blank(ns))
  {
    var none: seq<byte> := [];
    assert Blank(ns).mem == Image(ns, none);
    FixedWire(ns, 0);
  }

  /** A whole message from its first byte. */
  lemma BlankFrames(ns: NetStruct, d: seq<byte>)
    requires TailVariable(ns)
    ensures Framed(ns, d, Feed(Blank(ns), d))
  {
    var none: seq<byte> := [];
    assert Blank(ns).mem == Image(ns, none);
    FeedFrames(Blank(ns), none, d);
    assert none + d == d;
  }

  /** A call that ended without a message: at a refused size, or waiting on a field boundary. */
  predicate Paused(ns: NetStruct, heard: seq<byte>, t: Result)
    requires WellFormed(ns)
  {
    && ReaderOk(t.reader) && t.reader.ns == ns
    && (CurrentWire(t.reader) == SENTINEL ==> t.outcome.Shut? && FrameOf(ns, heard) == TooMany)
    && (CurrentWire(t.reader) != SENTINEL ==>
          FrameOf(ns, heard) == Incomplete && Holds(t.reader, heard) && OnBoundary(t.reader))
  }

  /** What a call that never stopped inside a field means for the bytes heard so far. */
  predicate CallFramed(ns: NetStruct, heard: seq<byte>, t: Result)
    requires WellFormed(ns)
  {
    match t.outcome
    case Complete => FrameOf(ns, heard) == Message(|heard|) && t.reader.mem == Image(ns, heard)
    case Fault => FrameOf(ns, heard) == TooLong
    case _ => Paused(ns, heard, t)
  }

  lemma RunFrames(r: Reader, got: seq<byte>, input: seq<byte>, events: seq<Event>)
    requires TailVariable(r.ns) && Holds(r, got) && OnBoundary(r)
    requires !Run(r, input, events).torn
    ensures var t := Run(r, input, events); CallFramed(r.ns, got + input[..t.used], t)
  {
    hide Run, Feed, FrameOf, CalcFieldSz, WellFormed, TailVariable, Capacity;
    var t := Run(r, input, events);
    RunAligned(r, input, events);
    FeedFrames(r, got, input[..t.used]);
    FeedWaits(r, input[..t.used]);
    var heard := got + input[..t.used];
    if t.outcome.Complete? && FrameOf(r.ns, heard).Message? {
      var len := FrameOf(r.ns, heard).len;
      assert heard[len..] == [] ==> len == |heard| && heard[..len] == heard;
    }
  }

  // --- Two-stage parse ------------------------------------------------------------------------

  /** What a bigger buffer holds after the smaller one was copied into it. */
  function Grow(mem: seq<byte>, cap: nat): (r: seq<byte>)
    requires |mem| <= cap
    ensures |r| == cap
  {
    mem + Zeros(cap - |mem|)
  }

  /**
   A type header read on its own, carried over into the buffer of the chosen message and resumed
   at field 1, gives the message that reading the whole struct gives.
   */
  lemma TwoStageParse(ns: NetStruct, d: seq<byte>)
    requires TailVariable(ns) && |ns| > 1 && ns[0] == UINT16 && |d| >= 2
    ensures WellFormed(MSG_STD_HEADER) && MemSize(MSG_STD_HEADER) == 2 && Capacity(2) <= Capacity(MemSize(ns))
    ensures Feed(Blank(MSG_STD_HEADER), d[..2]) == Done(Image(MSG_STD_HEADER, d[..2]), [])
    ensures var r := Reader(ns, 1, 0, Grow(Image(MSG_STD_HEADER, d[..2]), Capacity(MemSize(ns))));
      Holds(r, d[..2]) && Framed(ns, d, Feed(r, d[2..])) && Framed(ns, d, Feed(Blank(ns), d))
  {
    hide Feed, CalcFieldSz;
    HeaderFrame(d[..2]);
    ResumeAfterHeader(ns, d[..2]);
    var r := Reader(ns, 1, 0, Grow(Image(MSG_STD_HEADER, d[..2]), Capacity(MemSize(ns))));
    FeedFrames(r, d[..2], d[2..]);
    assert d[..2] + d[2..] == d;
    BlankFrames(ns, d);
  }

  lemma ResumeAfterHeader(ns: NetStruct, ty: seq<byte>)
    requires TailVariable(ns) && |ns| > 1 && ns[0] == UINT16 && |ty| == 2
    ensures WellFormed(MSG_STD_HEADER) && MemSize(MSG_STD_HEADER) == 2 && Capacity(2) <= Capacity(MemSize(ns))
    ensures var r := Reader(ns, 1, 0, Grow(Image(MSG_STD_HEADER, ty), Capacity(MemSize(ns))));
      Holds(r, ty)
  {
    hide CalcFieldSz;
    HeaderSize();
    SecondField(ns);
    var r := Reader(ns, 1, 0, Grow(Image(MSG_STD_HEADER, ty), Capacity(MemSize(ns))));
    assert r.mem == Image(ns, ty);
  }

  lemma HeaderSize()
    ensures WellFormed(MSG_STD_HEADER) && MemSize(MSG_STD_HEADER) == 2 && Capacity(2) == 32
  {
    RequestTables();
  }

  lemma SecondField(ns: NetStruct)
    requires TailVariable(ns) && |ns| > 1 && ns[0] == UINT16
    ensures MemOff(ns, 1) == 2 <= MemSize(ns)
  {
    assert MemOff(ns, 0) == 0;
    MemOffMonotone(ns, 1, |ns|);
  }

  lemma HeaderFrame(d: seq<byte>)
    requires |d| == 2
    ensures TailVariable(MSG_STD_HEADER) && FrameOf(MSG_STD_HEADER, d) == Message(2)
    ensures Feed(Blank(MSG_STD_HEADER), d) == Done(Image(MSG_STD_HEADER, d), [])
  {
    hide Feed;
    RequestTables();
    assert TailAt(MSG_STD_HEADER) == 0;
    BlankFrames(MSG_STD_HEADER, d);
    assert d[..2] == d && d[2..] == [];
  }

  // --- Serialising ----------------------------------------------------------------------------

  /** Wire size of field `i` of a message in memory. */
  function FieldWire(ns: NetStruct, i: nat, mem: seq<byte>): nat
    requires WellFormed(ns) && i < |ns| && MemSize(ns) <= |mem|
  {
    MemOffMonotone(ns, i, |ns|);
    WireSz(ns, i, mem[..MemOff(ns, i)])
  }

  /** Every field announces an acceptable number of elements, and they are there. */
  predicate Encodable(ns: NetStruct, mem: seq<byte>) {
    && WellFormed(ns) && MemSize(ns) <= |mem|
    && forall i :: 0 <= i < |ns| ==> FieldWire(ns, i, mem) < SENTINEL && MemOff(ns, i) + FieldWire(ns, i, mem) <= |mem|
  }

  /** The wire form, field by field, from field `i` on. */
  function SerializeFrom(ns: NetStruct, i: nat, mem: seq<byte>): seq<byte>
    requires Encodable(ns, mem) && i <= |ns|
    decreases |ns| - i
  {
    if i == |ns| then []
    else mem[MemOff(ns, i)..MemOff(ns, i) + FieldWire(ns, i, mem)] + SerializeFrom(ns, i + 1, mem)
  }

  function Serialize(ns: NetStruct, mem: seq<byte>): seq<byte>
    requires Encodable(ns, mem)
  {
    SerializeFrom(ns, 0, mem)
  }

  lemma TailIsMemOff(ns: NetStruct)
    requires WellFormed(ns)
    ensures TailAt(ns) == MemOff(ns, |ns| - 1)
  {
  }

  lemma SliceJoin(s: seq<byte>, a: nat, b: nat, c: nat)
    requires a <= b <= c <= |s|
    ensures s[a..b] + s[b..c] == s[a..c]
  {
  }

  lemma SerializeOne(ns: NetStruct, i: nat, mem: seq<byte>)
    requires TailVariable(ns) && Encodable(ns, mem) && i + 1 < |ns|
    ensures MemOff(ns, i) + FieldWire(ns, i, mem) == MemOff(ns, i + 1)
  {
    FixedInside(ns, i);
    MemOffMonotone(ns, i, |ns|);
  }

  lemma SerializeStart(ns: NetStruct, mem: seq<byte>)
    requires Encodable(ns, mem)
    ensures Serialize(ns, mem) == SerializeFrom(ns, 0, mem) && Serialize(ns, mem)[0..] == Serialize(ns, mem)
    ensures MemOff(ns, 0) == 0
  {
  }

  /** Field `i` of an encodable message lies in its memory form. */
  lemma FieldInPlace(ns: NetStruct, i: nat, mem: seq<byte>)
    requires Encodable(ns, mem) && i < |ns|
    ensures WellFormed(ns) && MemSize(ns) <= |mem| && MemOff(ns, i) <= |mem|
    ensures MemOff(ns, i + 1) == MemOff(ns, i) + DeclaredSz(ns[i])
    ensures CalcFieldSz(ns, i, Some(mem[..MemOff(ns, i)])) == FieldSz(true, DeclaredSz(ns[i]), FieldWire(ns, i, mem))
    ensures MemOff(ns, i) + FieldWire(ns, i, mem) <= |mem|
    ensures SerializeFrom(ns, i, mem) ==
      mem[MemOff(ns, i)..MemOff(ns, i) + FieldWire(ns, i, mem)] + SerializeFrom(ns, i + 1, mem)
  {
    MemOffMonotone(ns, i, |ns|);
  }

  lemma SerializeEnd(ns: NetStruct, mem: seq<byte>)
    requires Encodable(ns, mem)
    ensures SerializeFrom(ns, |ns|, mem) == []
  {
  }

  /** With only the last field variable, the wire form is the front of the memory form. */
  lemma {:induction false} SerializeIsPrefix(ns: NetStruct, i: nat, mem: seq<byte>)
    requires TailVariable(ns) && Encodable(ns, mem) && i < |ns|
    ensures MemOff(ns, i) <= TailAt(ns)
    ensures SerializeFrom(ns, i, mem) == mem[MemOff(ns, i)..TailAt(ns) + FieldWire(ns, |ns| - 1, mem)]
    decreases |ns| - i
  {
    hide CalcFieldSz, WellFormed, FieldWire, MemOff, SerializeFrom, Encodable, TailVariable;
    FieldInPlace(ns, i, mem);
    var end := TailAt(ns) + FieldWire(ns, |ns| - 1, mem);
    TailIsMemOff(ns);
    if i + 1 == |ns| {
      SerializeEnd(ns, mem);
    } else {
      MemOffMonotone(ns, i + 1, |ns| - 1);
      FieldInPlace(ns, |ns| - 1, mem);
      SerializeIsPrefix(ns, i + 1, mem);
      SerializeOne(ns, i, mem);
      SliceJoin(mem, MemOff(ns, i), MemOff(ns, i + 1), end);
    }
  }

  /** Reading, then serialising: the bytes taken come back. */
  lemma SerializeAfterRead(ns: NetStruct, d: seq<byte>)
    requires TailVariable(ns) && FrameOf(ns, d).Message?
    ensures var mem := Image(ns, d[..FrameOf(ns, d).len]);
      Encodable(ns, mem) && Serialize(ns, mem) == d[..FrameOf(ns, d).len]
  {
    hide CalcFieldSz;
    var len, at := FrameOf(ns, d).len, TailAt(ns);
    var mem := Image(ns, d[..len]);
    assert mem[..at] == d[..at];
    CapacitySlack(MemSize(ns));
    forall i | 0 <= i < |ns|
      ensures FieldWire(ns, i, mem) < SENTINEL && MemOff(ns, i) + FieldWire(ns, i, mem) <= |mem|
    {
      WireInside(ns, i, mem);
    }
    SerializeIsPrefix(ns, 0, mem);
    assert mem[..len] == d[..len];
  }

  lemma WireInside(ns: NetStruct, i: nat, mem: seq<byte>)
    requires TailVariable(ns) && i < |ns| && MemSize(ns) <= |mem|
    requires FieldWire(ns, |ns| - 1, mem) < SENTINEL && TailAt(ns) + FieldWire(ns, |ns| - 1, mem) <= |mem|
    ensures FieldWire(ns, i, mem) < SENTINEL && MemOff(ns, i) + FieldWire(ns, i, mem) <= |mem|
  {
    if i + 1 < |ns| {
      FixedInside(ns, i);
      assert !IsVariable(ns[i]);
      FixedWire(ns, i);
      MemOffMonotone(ns, i + 1, |ns|);
    }
  }

  /** Serialising, then reading: every fixed field and the counted part of the last one come back. */
  lemma ReadAfterSerialize(ns: NetStruct, mem: seq<byte>, more: seq<byte>)
    requires TailVariable(ns) && Encodable(ns, mem)
    requires TailAt(ns) + FieldWire(ns, |ns| - 1, mem) <= Capacity(MemSize(ns))
    ensures var wire := Serialize(ns, mem);
      && |wire| == TailAt(ns) + FieldWire(ns, |ns| - 1, mem) && wire == mem[..|wire|]
      && FrameOf(ns, wire + more) == Message(|wire|)
      && Feed(Blank(ns), wire + more) == Done(Image(ns, wire), more)
  {
    hide CalcFieldSz, Feed;
    var at, wire := TailAt(ns), Serialize(ns, mem);
    SerializeIsPrefix(ns, 0, mem);
    assert (wire + more)[..at] == mem[..at];
    assert (wire + more)[..|wire|] == wire && (wire + more)[|wire|..] == more;
    BlankFrames(ns, wire + more);
  }

  // --- Announced sizes ------------------------------------------------------------------------

  /** Offset and length of the size field of a descriptor that ends in a byte buffer. */
  predicate EndsInBuffer(ns: NetStruct, redundant: bool) {
    && TailVariable(ns) && |ns| > 1 && ns[|ns| - 2] == NetField(BufferSize, 4, 1)
    && ns[|ns| - 1] == NetField(if redundant then BufferRedundant else Buffer, 1, 0)
  }

  /** The announced size, as the 32-bit integer in front of the buffer. */
  function Announced(ns: NetStruct, d: seq<byte>): nat
    requires WellFormed(ns) && |d| >= TailAt(ns) >= 4
  {
    FromLE(d[TailAt(ns) - 4..TailAt(ns)])
  }

  /**
   A plain buffer is accepted by the size check exactly for 0 to 1024 bytes, and then exactly when
   it fits the slack of the allocation; the buffer itself adds nothing to what is allocated.
   */
  lemma PlainBufferSizes(ns: NetStruct, d: seq<byte>)
    requires EndsInBuffer(ns, false) && |d| >= TailAt(ns)
    ensures TailAt(ns) == MemSize(ns) >= 4
    ensures var n := Announced(ns, d); var slack := Capacity(MemSize(ns)) - MemSize(ns);
      && 25 <= slack <= 32
      && (FrameOf(ns, d) == TooMany <==> n > 1024)
      && (|d| >= TailAt(ns) + n ==> (FrameOf(ns, d) == Message(TailAt(ns) + n) <==> n <= slack))
      && (|d| >= TailAt(ns) + n ==> (FrameOf(ns, d) == TooLong <==> slack < n <= 1024))
  {
    TailSize(ns, d, false);
    CapacitySlack(MemSize(ns));
  }

  /** A redundant size counts its own four bytes; smaller ones wrap around and are refused. */
  lemma RedundantBufferSizes(ns: NetStruct, d: seq<byte>)
    requires EndsInBuffer(ns, true) && |d| >= TailAt(ns)
    ensures TailAt(ns) == MemSize(ns) >= 4
    ensures var v := Announced(ns, d); var slack := Capacity(MemSize(ns)) - MemSize(ns);
      && (FrameOf(ns, d) == TooMany <==> v < 4 || v > 1024 + 4)
      && (4 <= v <= |d| - TailAt(ns) + 4 ==> (FrameOf(ns, d) == Message(TailAt(ns) + v - 4) <==> v <= slack + 4))
      && (4 <= v <= |d| - TailAt(ns) + 4 ==> (FrameOf(ns, d) == TooLong <==> slack + 4 < v <= 1024 + 4))
  {
    TailSize(ns, d, true);
    CapacitySlack(MemSize(ns));
  }

  /** A redundant size counts, in elements, the bytes of the size itself and those of the buffer. */
  lemma RedundantElements(ns: NetStruct, i: nat, prefix: seq<byte>, n: nat)
    requires WellFormed(ns) && i < |ns| && ns[i].kind.BufferRedundant? && MemOff(ns, i) <= |prefix| && n <= 1024
    ensures i > 0 && ns[i - 1].elementSz <= |prefix|
    ensures var e, sz := ns[i].elementSz, ns[i - 1].elementSz;
      FromLE(prefix[|prefix| - sz..]) * e == n * e + sz ==> WireSz(ns, i, prefix) == n * e
  {
    hide MemOff, FieldsOk, FromLE;
    RoomForSizeField(ns, i);
    FieldAt(ns, i);
    var e, sz := ns[i].elementSz, ns[i - 1].elementSz;
    var raw := FromLE(prefix[|prefix| - sz..]);
    if raw * e == n * e + sz {
      CountOf(raw, n, sz, e);
    }
  }

  lemma FieldAt(ns: NetStruct, i: nat)
    requires WellFormed(ns) && i < |ns|
    ensures FieldOk(ns, i)
  {
  }

  lemma CountOf(raw: nat, n: nat, sz: nat, e: nat)
    requires 0 < e <= 0xFFFF && sz % e == 0 && n <= 1024 && raw * e == n * e + sz
    ensures raw - sz / e == n && n % TWO64 == n && e * n % TWO64 == n * e
  {
    var q := sz / e;
    assert sz == e * q;
    assert e * (n + q) == e * n + e * q;
    QuotientIs(n * e + sz, e, raw, 0);
    QuotientIs(n * e + sz, e, n + q, 0);
    MulMonotone(e, n, 1024);
  }

  /**
   A string has a 16-bit number of two-byte characters in front. Up to 1024 are taken as they are;
   for more, the mark is multiplied by two and not recognised, so that the message is never refused.
   */
  lemma StringSizes(ns: NetStruct, d: seq<byte>)
    requires TailVariable(ns) && |ns| > 1 && |d| >= TailAt(ns)
    requires ns[|ns| - 2] == NetField(BufferSize, 2, 1) && ns[|ns| - 1].kind.StringUtf16? && ns[|ns| - 1].elementSz == 2
    ensures TailAt(ns) >= 2
    ensures var n := FromLE(d[TailAt(ns) - 2..TailAt(ns)]);
      && WireSz(ns, |ns| - 1, d[..TailAt(ns)]) == (if n <= 1024 then 2 * n else TWO64 - 2)
      && FrameOf(ns, d) != TooMany
      && (n > 1024 ==> !FrameOf(ns, d).Message?)
  {
    var at := TailAt(ns);
    assert MemOff(ns, |ns| - 1) == MemOff(ns, |ns| - 2) + DeclaredSz(ns[|ns| - 2]);
    assert d[..at][at - 2..] == d[at - 2..at];
    LEUnique(d[at - 2..at]);
    Pow256Of4();
    var n := FromLE(d[at - 2..at]);
    if n > 1024 {
      OversizedWire(ns, |ns| - 1, d[..at]);
      CapacitySlack(MemSize(ns));
    }
  }

  lemma TailSize(ns: NetStruct, d: seq<byte>, redundant: bool)
    requires EndsInBuffer(ns, redundant) && |d| >= TailAt(ns)
    ensures TailAt(ns) == MemSize(ns) >= 4
    ensures var v := Announced(ns, d); var n := if redundant then (v - 4) % TWO64 else v;
      WireSz(ns, |ns| - 1, d[..TailAt(ns)]) == (if n > 1024 then SENTINEL else n)
    ensures Announced(ns, d) < 0x1_0000_0000
  {
    var at := TailAt(ns);
    assert MemOff(ns, |ns|) == at + DeclaredSz(ns[|ns| - 1]);
    assert MemOff(ns, |ns| - 1) == MemOff(ns, |ns| - 2) + DeclaredSz(ns[|ns| - 2]);
    assert d[..at][at - 4..] == d[at - 4..at];
    LEUnique(d[at - 4..at]);
    Pow256Of4();
  }

  lemma Pow256Of4()
    ensures Pow256(4) == 0x1_0000_0000 && Pow256(2) == 0x1_0000
  {
    assert Pow256(1) == 256 && Pow256(2) == 65536 && Pow256(3) == 16777216;
  }
}
