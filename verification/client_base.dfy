/**
 One connection's buffered, encrypted input and output.

 The kernel is a value: the bytes that will arrive, the bytes that were accepted, and a script
 of what each read and write call does. The methods are the server's; each is proved against the
 functions of the modules it builds on.
 */
module ClientIo {
  import opened Bytes
  import opened Ciphers
  import opened NetStructs
  import opened Reading
  import opened Options
  import opened Framing
  import opened Resumption

  datatype Net = Net(incoming: seq<byte>, readScript: seq<Event>, sent: seq<byte>, writeScript: seq<Event>, down: bool)

  /** What a socket call reports: a number of bytes, not now, or an error. */
  datatype IoResult = Bytes(n: nat) | NotNow | Error

  function SocketRead(net: Net, want: nat): (r: (Net, IoResult))
    ensures r.1.Bytes? ==> r.1.n <= |net.incoming|
  {
    if net.readScript == [] then (net, NotNow)
    else
      var rest := net.(readScript := net.readScript[1..]);
      match net.readScript[0]
      case WouldBlock => (rest, NotNow)
      case Failed => (rest, Error)
      case Deliver(n) =>
        var k := Granted(n, want, |net.incoming|);
        (rest.(incoming := net.incoming[k..]), Bytes(k))
  }

  /** The socket was called: a step of its script is used up, if there was one. */
  predicate Tried(before: seq<Event>, after: seq<Event>) {
    |after| < |before| || before == after == []
  }

  /** A step of the socket that may not take `limit` bytes. */
  predicate Short(e: Event, limit: nat) {
    !e.Deliver? || e.n < limit
  }

  /** The socket was asked to send, `limit` bytes at most, and its last step did not take them all. */
  predicate TookShort(before: seq<Event>, after: seq<Event>, limit: nat) {
    Rest(before, after) && (after == [] || (|after| < |before| && Short(before[|before| - |after| - 1], limit)))
  }

  lemma TookShortOn(a: seq<Event>, b: seq<Event>, c: seq<Event>, m: nat, n: nat)
    requires m <= n
    requires (Rest(a, b) && TookShort(b, c, m)) || (TookShort(a, b, m) && b == c)
    ensures TookShort(a, c, n)
  {
    if Rest(a, b) && TookShort(b, c, m) {
      RestTrans(a, b, c);
    }
  }

  /** How often the socket may not take `limit` bytes. */
  function ShortSteps(script: seq<Event>, limit: nat): nat {
    if script == [] then 0 else (if Short(script[0], limit) then 1 else 0) + ShortSteps(script[1..], limit)
  }

  /** A stalled attempt to send has used up a short step, or all of the script. */
  lemma {:induction false} ShortUsed(before: seq<Event>, after: seq<Event>, limit: nat)
    requires Rest(before, after)
    ensures ShortSteps(after, limit) <= ShortSteps(before, limit)
    ensures TookShort(before, after, limit) && after != [] ==> ShortSteps(after, limit) < ShortSteps(before, limit)
    decreases |before|
  {
    if |after| < |before| {
      var j := |before| - |after|;
      assert before[1..][j - 1..] == after;
      if j > 1 {
        assert before[1..][j - 2] == before[j - 1];
      }
      ShortUsed(before[1..], after, limit);
    }
  }

  /** How many steps of the socket take at least a byte of what it is given. */
  function Grants(script: seq<Event>): nat {
    if script == [] then 0 else (if script[0].Deliver? && script[0].n > 0 then 1 else 0) + Grants(script[1..])
  }

  lemma RestMembers(before: seq<Event>, after: seq<Event>, e: Event)
    requires Rest(before, after) && e in after
    ensures e in before
  {
    var i :| 0 <= i < |after| && after[i] == e;
    assert before[|before| - |after| + i] == e;
  }

  /** Sending went on: nothing sent is taken back, and every step that takes a byte was used for one. */
  predicate SentOn(before: Net, after: Net) {
    && Rest(before.writeScript, after.writeScript) && before.sent <= after.sent
    && |before.sent| + Grants(before.writeScript) <= |after.sent| + Grants(after.writeScript)
  }

  /** Between `before` and `after` the connection only sent, and was shut down only by a failed write. */
  predicate SentOnly(before: Net, after: Net) {
    && after == before.(sent := after.sent, writeScript := after.writeScript, down := after.down)
    && SentOn(before, after) && (before.down ==> after.down)
    && (after.down ==> before.down || Failed in before.writeScript)
  }

  lemma SentOnlyMeans(before: Net, after: Net)
    requires SentOnly(before, after)
    ensures after == before.(sent := after.sent, writeScript := after.writeScript, down := after.down)
    ensures SentOn(before, after)
    ensures after.down ==> before.down || Failed in before.writeScript
  {
  }

  lemma SentOnlyTrans(a: Net, b: Net, c: Net)
    requires SentOnly(a, b) && SentOnly(b, c)
    ensures SentOnly(a, c)
  {
    RestTrans(a.writeScript, b.writeScript, c.writeScript);
    if Failed in b.writeScript {
      RestMembers(a.writeScript, b.writeScript, Failed);
    }
  }

  function SocketWrite(net: Net, data: seq<byte>): (r: (Net, IoResult))
    ensures r.1.Bytes? ==> r.1.n <= |data| && r.0.sent == net.sent + data[..r.1.n]
    ensures !r.1.Bytes? ==> r.0.sent == net.sent
    ensures r.0.incoming == net.incoming && r.0.readScript == net.readScript && r.0.down == net.down
    ensures Tried(net.writeScript, r.0.writeScript)
  {
    if net.writeScript == [] then (net, NotNow)
    else
      var rest := net.(writeScript := net.writeScript[1..]);
      match net.writeScript[0]
      case WouldBlock => (rest, NotNow)
      case Failed => (rest, Error)
      case Deliver(n) =>
        var k := Min(n, |data|);
        (rest.(sent := net.sent + data[..k]), Bytes(k))
  }

  /** A write only sends; the server shuts the connection down when it failed. */
  lemma WriteSends(net: Net, data: seq<byte>)
    requires data != []
    ensures var (after, result) := SocketWrite(net, data);
      && SentOnly(net, if result.Error? then after.(down := true) else after)
      && (result == Bytes(|data|) || TookShort(net.writeScript, after.writeScript, |data|))
  {
  }

  /** A message on its way out: encrypted bytes, and how many of them the socket has. */
  datatype IoState = IoState(buf: seq<byte>, bufoffs: nat)

  predicate StateOk(s: IoState) {
    s.bufoffs <= |s.buf|
  }

  /** Some of the message is still to be sent. */
  predicate Unfinished(s: IoState) {
    s.bufoffs < |s.buf|
  }

  predicate AllOk(ws: seq<IoState>) {
    forall i :: 0 <= i < |ws| ==> Unfinished(ws[i])
  }

  /** The queued bytes the socket has not taken, in order. */
  function Unsent(ws: seq<IoState>): seq<byte>
    requires AllOk(ws)
  {
    if ws == [] then [] else ws[0].buf[ws[0].bufoffs..] + Unsent(ws[1..])
  }

  lemma UnsentFront(w: IoState, ws: seq<IoState>)
    requires Unfinished(w) && AllOk(ws)
    ensures AllOk([w] + ws) && Unsent([w] + ws) == w.buf[w.bufoffs..] + Unsent(ws)
  {
    assert ([w] + ws)[1..] == ws;
  }

  lemma {:induction false} UnsentAppend(ws: seq<IoState>, w: IoState)
    requires AllOk(ws) && Unfinished(w)
    ensures Unsent(ws + [w]) == Unsent(ws) + w.buf[w.bufoffs..]
  {
    if ws == [] {
      assert Unsent([w]) == w.buf[w.bufoffs..];
    } else {
      UnsentAppend(ws[1..], w);
      assert (ws + [w])[1..] == ws[1..] + [w];
    }
  }

  /**
   What was handed over for sending: the bytes that went out before the current key, the context
   as it was set up, the messages in plain since then, and how often a key was set up.
   */
  datatype Log = Log(past: seq<byte>, epoch: Cipher, issued: seq<byte>, setups: nat)

  lemma LogGrows(log: Log, plain: seq<byte>)
    ensures var out := log.past + Crypt(log.epoch, log.issued); var enc := Advance(log.epoch, |log.issued|);
      && log.past + Crypt(log.epoch, log.issued + plain) == out + Crypt(enc, plain)
      && Advance(log.epoch, |log.issued + plain|) == Advance(enc, |plain|)
  {
    hide Crypt, Advance;
    CryptSplit(log.epoch, log.issued, plain);
    AdvanceTwice(log.epoch, |log.issued|, |plain|);
  }

  lemma SentNothing(net: Net)
    ensures SentOnly(net, net)
  {
  }

  /** No message is empty: its first field is fixed. */
  lemma SerializeNotEmpty(ns: NetStruct, mem: seq<byte>)
    requires TailVariable(ns) && Encodable(ns, mem)
    ensures Serialize(ns, mem) != []
  {
    hide CalcFieldSz;
    assert FieldOk(ns, 0);
    FixedWire(ns, 0);
    FieldInPlace(ns, 0, mem);
    SerializeStart(ns, mem);
    FirstWire(ns, mem);
  }

  lemma FirstWire(ns: NetStruct, mem: seq<byte>)
    requires TailVariable(ns) && Encodable(ns, mem) && !IsVariable(ns[0])
    ensures FieldWire(ns, 0, mem) == DeclaredSz(ns[0])
  {
  }

  lemma LaterSize(ns: NetStruct, i: nat)
    requires WellFormed(ns) && i < |ns|
    ensures var f, fixed := ns[i], !IsVariable(ns[i]);
      CalcFieldSz(ns, i, None) == FieldSz(fixed, DeclaredSz(f), if fixed then DeclaredSz(f) else 0)
    ensures CalcFieldSz(ns, i, None).wire < SENTINEL
    ensures FixedRun(ns, i) == if IsVariable(ns[i]) then 0 else DeclaredSz(ns[i]) + FixedRun(ns, i + 1)
    ensures MemOff(ns, i + 1) == MemOff(ns, i) + DeclaredSz(ns[i])
  {
    if !IsVariable(ns[i]) {
      FixedWire(ns, i);
    }
  }

  lemma FixedRunEnd(ns: NetStruct)
    ensures FixedRun(ns, |ns|) == 0
  {
  }

  lemma KnownSize(ns: NetStruct, i: nat, prefix: seq<byte>)
    requires WellFormed(ns) && i < |ns| && MemOff(ns, i) <= |prefix|
    ensures CalcFieldSz(ns, i, Some(prefix)) == FieldSz(true, DeclaredSz(ns[i]), WireSz(ns, i, prefix))
  {
  }

  lemma AddReduced(x: nat, y: nat)
    ensures Reduce(Reduce(x) + y) == Reduce(x + y)
  {
  }

  method AllocBuf(current: array?<byte>, currentSz: nat, requestSz: nat, exact: bool)
    returns (buf: array<byte>, bufsz: nat)
    requires current != null ==> current.Length == currentSz <= (if exact then requestSz else Capacity(requestSz))
    ensures fresh(buf) && buf.Length == bufsz == (if exact then requestSz else Capacity(requestSz))
    ensures buf[..] == Grow(if current == null then [] else current[..], bufsz)
  {
    if exact {
      bufsz := requestSz;
    } else {
      var blocks := requestSz / 8;
      bufsz := (blocks + 4) * 8;
    }
    buf := new byte[bufsz](_ => 0);
    if current != null {
      forall i | 0 <= i < currentSz {
        buf[i] := current[i];
      }
    }
  }

  /** A call that goes on after `used` bytes were taken. */
  function Later(t: Result, used: nat, stoppedInside: bool): Result {
    t.(used := used + t.used, torn := stoppedInside || t.torn)
  }

  lemma RunRefuses(r: Reader, input: seq<byte>, net: Net)
    requires ReaderOk(r)
    ensures CurrentWire(r) == SENTINEL ==> Run(r, input, net.readScript) == Result(Shut, r, 0, net.readScript, false)
    ensures CurrentWire(r) != SENTINEL && Request(r) == 0 ==>
      Run(r, input, net.readScript) == Result(Spinning, r, 0, net.readScript, false)
  {
  }

  /** What one socket read makes of a call. */
  lemma RunReads(r: Reader, input: seq<byte>, net: Net)
    requires ReaderOk(r) && CurrentWire(r) != SENTINEL && Request(r) > 0 && |input| == |net.incoming|
    ensures var (after, result) := SocketRead(net, Request(r)); var t := Run(r, input, net.readScript);
      && after == net.(incoming := after.incoming, readScript := after.readScript)
      && match result
         case NotNow => t == Result(Blocked, r, 0, after.readScript, false) && after.incoming == net.incoming
         case Error => t == Result(Shut, r, 0, after.readScript, false) && after.incoming == net.incoming
         case Bytes(k) =>
           && after.incoming == net.incoming[k..] && k <= Request(r)
           && (k == 0 ==> t == Result(Spinning, r, 0, after.readScript, false))
           && (k > 0 ==>
                 match Absorb(r, At(r), input[..k])
                 case OutOfBounds => t == Result(Fault, r, k, after.readScript, false)
                 case Completed(mem, _) =>
                   |mem| == |r.mem| && t == Result(Complete, r.(mem := mem), k, after.readScript, false)
                 case Stopped(p) => ReaderOk(p) && t == Later(Run(p, input[k..], after.readScript), k, p.offset > 0))
  {
    hide CalcFieldSz, WellFormed, Capacity, MemOff, Absorb, FixedRun, Reduce;
    var (after, result) := SocketRead(net, Request(r));
    if result.Bytes? {
      AbsorbKeepsShape(r, At(r), input[..result.n]);
    }
  }

  lemma RequestWithin(r: Reader)
    requires ReaderOk(r)
    ensures Request(r) <= CurrentWire(r) + FixedRun(r.ns, r.field + 1)
  {
  }

  /** How a turn of the field loop ends: out of the buffer, out of bytes, with the last field, or
      with another field to go. */
  datatype Turn = Outside | Stop | Last | Next

  /** A turn that left the reader as `p`, in terms of the whole field loop. */
  predicate TurnTaken(r: Reader, mempos: nat, data: seq<byte>, turn: Turn, p: Reader, taken: nat, next: nat)
    requires ReaderOk(r) && MemOff(r.ns, r.field) <= mempos
  {
    var a := Absorb(r, mempos, data);
    && taken <= |data| && p.ns == r.ns && |p.mem| == |r.mem|
    && match turn
       case Outside => a == OutOfBounds
       case Stop => ReaderOk(p) && a == Stopped(p) && taken == |data|
       case Last => p.field == |r.ns| && a == Completed(p.mem, data[taken..])
       case Next =>
         && ReaderOk(p) && p.field == r.field + 1 && MemOff(p.ns, p.field) <= next
         && a == Absorb(p, next, data[taken..])
  }

  lemma TurnOutside(r: Reader, mempos: nat, data: seq<byte>)
    requires ReaderOk(r) && MemOff(r.ns, r.field) <= mempos && !TurnInside(r, mempos, data)
    ensures TurnTaken(r, mempos, data, Outside, r, 0, 0)
  {
  }

  lemma TurnStops(r: Reader, mempos: nat, data: seq<byte>, wire: nat)
    requires ReaderOk(r) && TurnInside(r, mempos, data)
    requires wire == WireSz(r.ns, r.field, r.mem[..mempos]) && |data| < wire
    ensures TurnTaken(r, mempos, data, Stop, Store(r, mempos + r.offset, data), |data|, 0)
  {
    hide CalcFieldSz, WellFormed, Capacity, Absorb;
    AbsorbTurn(r, mempos, data, wire, |data|);
    assert data[..|data|] == data;
  }

  lemma TurnGoesOn(r: Reader, mempos: nat, data: seq<byte>, wire: nat, alloc: nat)
    requires ReaderOk(r) && TurnInside(r, mempos, data)
    requires wire == WireSz(r.ns, r.field, r.mem[..mempos]) && wire <= |data| && alloc == DeclaredSz(r.ns[r.field])
    ensures var pos := mempos + r.offset;
      TurnTaken(r, mempos, data, if r.field + 1 == |r.ns| then Last else Next,
        Reader(r.ns, r.field + 1, 0, Splice(r.mem, pos, data[..wire])), wire, pos + alloc)
  {
    hide CalcFieldSz, WellFormed, Capacity, Absorb;
    AbsorbTurn(r, mempos, data, wire, wire);
    assert MemOff(r.ns, r.field + 1) == MemOff(r.ns, r.field) + alloc;
  }

  class ClientBase {
    var net: Net
    var readStruct: Option<NetStruct>
    var readField: nat
    var readOffset: nat
    var readBuf: array?<byte>
    var readBufSz: nat
    var writes: seq<IoState>
    var encrypt: Cipher
    var decrypt: Cipher
    const rc4: seq<byte> -> nat -> byte

    /** Some read stopped inside a field. */
    ghost var torn: bool
    /** The last write was short, or would have blocked, or failed. */
    ghost var writeStalled: bool
    ghost var log: Log

    ghost predicate ReadOk()
      reads this, readBuf
    {
      && (readBuf != null ==> readBuf.Length == readBufSz)
      && (readBuf == null ==> readField == 0 && readOffset == 0)
      && (readStruct.None? ==> readField == 0 && readOffset == 0 && readBuf == null)
      && (readStruct.Some? ==>
            var ns := readStruct.value;
            && WellFormed(ns) && readField < |ns|
            && (readBuf != null ==> MemOff(ns, readField) <= readBufSz <= Capacity(MemSize(ns))))
    }

    ghost predicate WritesOk()
      reads this
    {
      AllOk(writes)
    }

    /** Queued bytes wait for the socket: the last attempt to send did not go through. */
    ghost predicate NoLostWakeup()
      reads this
    {
      writes != [] ==> writeStalled
    }

    /** Whatever the socket took: what was sent and what is queued is all that was handed over, each
        message encrypted once, at the next position of the keystream. */
    ghost predicate Conserved()
      requires WritesOk()
      reads this
    {
      Outgoing() == log.past + Crypt(log.epoch, log.issued) && encrypt == Advance(log.epoch, |log.issued|)
    }

    ghost predicate Valid()
      reads this, readBuf
    {
      ReadOk() && WritesOk() && Conserved()
    }

    function HasPendingRead(): bool
      reads this
    {
      readStruct.Some?
    }

    /** The reader as a value; its buffer as it will be once it is allocated. */
    ghost function Rd(): (r: Reader)
      requires ReadOk() && HasPendingRead()
      reads this, readBuf
      ensures ReaderOk(r)
    {
      var ns := readStruct.value;
      Reader(ns, readField, readOffset, Grow(if readBuf == null then [] else readBuf[..], Capacity(MemSize(ns))))
    }

    /** The decrypted bytes that will arrive. */
    ghost function Plain(): seq<byte>
      reads this
    {
      Crypt(decrypt, net.incoming)
    }

    /** Everything handed over for sending: what the socket took, then what is queued. */
    ghost function Outgoing(): seq<byte>
      requires WritesOk()
      reads this
    {
      net.sent + Unsent(writes)
    }

    constructor (net: Net, rc4: seq<byte> -> nat -> byte)
      ensures Valid() && !HasPendingRead() && this.net == net && this.rc4 == rc4
      ensures writes == [] && encrypt == Null && decrypt == Null && !torn
      ensures log == Log(net.sent, Null, [], 0)
    {
      this.net, this.rc4 := net, rc4;
      readStruct, readField, readOffset, readBuf, readBufSz := None, 0, 0, null, 0;
      writes, encrypt, decrypt := [], Null, Null;
      torn, writeStalled, log := false, false, Log(net.sent, Null, [], 0);
    }

    method SetCryptKey(key: seq<byte>)
      requires Valid()
      modifies this`encrypt, this`decrypt, this`log
      ensures Valid()
      ensures encrypt == Keyed(rc4(key), 0) && decrypt == Keyed(rc4(key), 0)
      ensures log == Log(old(Outgoing()), Keyed(rc4(key), 0), [], old(log.setups) + 1)
    {
      encrypt := Keyed(rc4(key), 0);
      decrypt := Keyed(rc4(key), 0);
      log := Log(Outgoing(), encrypt, [], log.setups + 1);
    }

    // --- Reading ------------------------------------------------------------------------------

    /** Register the next message. */
    method Read(ns: NetStruct)
      modifies this`readStruct
      ensures readStruct == Some(ns)
      ensures old(Valid() && !HasPendingRead()) && WellFormed(ns) ==> Valid() && Rd() == Blank(ns)
    {
      readStruct := Some(ns);
      if WellFormed(ns) {
        var none: seq<byte> := [];
        assert Grow(none, Capacity(MemSize(ns))) == Zeros(Capacity(MemSize(ns)));
      }
    }

    /** The buffer that was just released holds the fields in front of `field`, and fits the message. */
    predicate CarriesOver(ns: NetStruct, field: Option<nat>, buf: array?<byte>)
      reads this`readBufSz
    {
      && WellFormed(ns) && field.Some? && field.value < |ns|
      && buf != null && MemOff(ns, field.value) <= buf.Length == readBufSz <= Capacity(MemSize(ns))
    }

    /** Register the rest of a message whose first fields are in `buf`. Without a field number, or
        without a buffer, the old one stays. */
    method ReadInto(ns: NetStruct, field: Option<nat>, buf: array?<byte>)
      modifies this`readStruct, this`readField, this`readBuf
      ensures readStruct == Some(ns)
      ensures readField == if field.Some? then field.value else old(readField)
      ensures readBuf == if buf != null then buf else old(readBuf)
      ensures old(Valid() && !HasPendingRead()) && CarriesOver(ns, field, buf) ==>
        Valid() && Rd() == Reader(ns, field.value, 0, Grow(buf[..], Capacity(MemSize(ns))))
    {
      readStruct := Some(ns);
      if field.Some? {
        readField := field.value;
      }
      if buf != null {
        readBuf := buf;
      }
    }

    /** Memory size of the fields that are complete. */
    method MeasureFields() returns (memsz: nat)
      requires Valid() && HasPendingRead()
      ensures memsz == MemOff(readStruct.value, readField) == At(Rd())
    {
      var ns := readStruct.value;
      memsz := 0;
      for i := 0 to readField
        invariant memsz == MemOff(ns, i)
      {
        MemOffMonotone(ns, i, readField);
        var sizes := CalcFieldSz(ns, i, Some(readBuf[..memsz]));
        assert sizes.known;
        memsz := memsz + sizes.alloc;
      }
    }

    lemma CurrentSize(i: nat, window: Option<seq<byte>>)
      requires Valid() && HasPendingRead() && i == readField
      requires window == if readBuf != null then Some(readBuf[..At(Rd())]) else None
      ensures CalcFieldSz(readStruct.value, i, window) ==
        FieldSz(true, DeclaredSz(readStruct.value[i]), CurrentWire(Rd()))
    {
      var r := Rd();
      assert FieldOk(r.ns, i);
      if readBuf != null {
        assert r.mem[..At(r)] == readBuf[..At(r)];
      }
    }

    /** How much to allocate, and how much of it to ask for: only the current field may be looked
        at, and counting stops at the first field of unknown size. */
    method PlanRead(memsz: nat) returns (tooMany: bool, allocsz: nat, readsz: nat)
      requires Valid() && HasPendingRead() && memsz == At(Rd())
      ensures tooMany <==> CurrentWire(Rd()) == SENTINEL
      ensures !tooMany ==> allocsz == MemSize(readStruct.value)
      ensures !tooMany ==> readsz == Reduce(CurrentWire(Rd()) + FixedRun(readStruct.value, readField + 1))
    {
      hide CalcFieldSz, WellFormed, FixedRun, MemOff, Capacity, Grow, Reduce, Unsent, Crypt, Advance, WireSz;
      var ns := readStruct.value;
      var fixedsz := true;
      allocsz, readsz := memsz, 0;
      ghost var r := Rd();
      ghost var later: nat := 0;
      var i := readField;
      while i < |ns|
        invariant readField <= i <= |ns| && allocsz == MemOff(ns, i)
        invariant i == readField ==> fixedsz && readsz == 0 && later == 0
        invariant i > readField ==> CurrentWire(r) != SENTINEL && readsz == Reduce(CurrentWire(r) + later)
        invariant i > readField ==> later + (if fixedsz then FixedRun(ns, i) else 0) == FixedRun(ns, readField + 1)
        decreases |ns| - i
      {
        var window := if i == readField && readBuf != null then Some(readBuf[..memsz]) else None;
        var sizes := CalcFieldSz(ns, i, window);
        LaterSize(ns, i);
        if i == readField {
          CurrentSize(i, window);
        }
        if sizes.wire == SENTINEL {
          return true, allocsz, readsz;
        }
        fixedsz := fixedsz && sizes.known;
        allocsz := allocsz + sizes.alloc;
        if fixedsz {
          if i > readField {
            AddReduced(CurrentWire(r) + later, sizes.wire);
            later := later + sizes.wire;
          }
          readsz := Reduce(readsz + sizes.wire);
        }
        i := i + 1;
      }
      FixedRunEnd(ns);
      return false, allocsz, readsz;
    }

    /** Decrypt `src` into the buffer. */
    method DecryptInto(dst: array<byte>, pos: nat, src: seq<byte>)
      requires pos + |src| <= dst.Length
      modifies this`decrypt, dst
      ensures dst[..] == Splice(old(dst[..]), pos, Crypt(old(decrypt), src))
      ensures decrypt == Advance(old(decrypt), |src|)
    {
      var out := Crypt(decrypt, src);
      forall i | 0 <= i < |src| {
        dst[pos + i] := out[i];
      }
      decrypt := Advance(decrypt, |src|);
    }

    /** The reader with its buffer as it is. */
    ghost function Here(): Reader
      requires readStruct.Some? && readBuf != null
      reads this, readBuf
    {
      Reader(readStruct.value, readField, readOffset, readBuf[..])
    }

    /** One turn of the field loop, on the bytes of the read that are left. */
    method AbsorbField(mempos: nat, raw: seq<byte>) returns (turn: Turn, taken: nat, next: nat)
      requires readStruct.Some? && readBuf != null && ReaderOk(Here())
      requires MemOff(readStruct.value, readField) <= mempos
      modifies this`readField, this`readOffset, this`decrypt, readBuf
      ensures taken <= |raw| && decrypt == Advance(old(decrypt), taken)
      ensures TurnTaken(old(Here()), mempos, old(Crypt(decrypt, raw)), turn, Here(), taken, next)
    {
      hide CalcFieldSz, WellFormed, Capacity, Absorb, TurnTaken, Crypt, Advance, FixedRun, Unsent;
      ghost var r, data := Here(), Crypt(decrypt, raw);
      AdvanceTwice(decrypt, 0, 0);
      if mempos > readBuf.Length {
        TurnOutside(r, mempos, data);
        return Outside, 0, 0;
      }
      var sizes := CalcFieldSz(readStruct.value, readField, Some(readBuf[..mempos]));
      KnownSize(readStruct.value, readField, readBuf[..mempos]);
      var pos := mempos + readOffset;
      var k := Min(sizes.wire, |raw|);
      if pos + k > readBuf.Length {
        TurnOutside(r, mempos, data);
        return Outside, 0, 0;
      }
      CryptTake(decrypt, raw, k);
      DecryptInto(readBuf, pos, raw[..k]);
      if k < sizes.wire {
        readOffset := readOffset + k;
        assert data[..k] == data;
        assert Here() == Store(r, pos, data);
        TurnStops(r, mempos, data, sizes.wire);
        return Stop, k, 0;
      }
      readField := readField + 1;
      readOffset := 0;
      assert Here() == Reader(r.ns, r.field + 1, 0, Splice(r.mem, pos, data[..k]));
      TurnGoesOn(r, mempos, data, sizes.wire, sizes.alloc);
      return if readField == |readStruct.value| then Last else Next, k, pos + sizes.alloc;
    }

    /**
     The field loop: hand the bytes of one read out to the fields, decrypting on the way.
     `inside` is false when a write, or the place of a size field, lies outside the buffer.
     */
    method AbsorbRead(memsz: nat, raw: seq<byte>) returns (complete: bool, inside: bool)
      requires readStruct.Some? && readBuf != null && ReaderOk(Here())
      requires memsz == At(Here()) && |raw| <= CurrentWire(Here()) + FixedRun(readStruct.value, readField + 1)
      modifies this`readField, this`readOffset, this`decrypt, readBuf
      ensures var a := old(Absorb(Here(), memsz, Crypt(decrypt, raw)));
        if !inside then a == OutOfBounds
        else if complete then a == Completed(readBuf[..], []) && readField == |readStruct.value|
        else ReaderOk(Here()) && a == Stopped(Here())
      ensures inside ==> decrypt == Advance(old(decrypt), |raw|)
    {
      hide CalcFieldSz, WellFormed, Capacity, MemOff, Absorb, FixedRun, Advance, Crypt;
      ghost var r0, plain := Here(), Crypt(decrypt, raw);
      CompletionTakesAll(r0, memsz, plain);
      CryptTake(decrypt, raw, 0);
      AdvanceTwice(decrypt, 0, 0);
      var mempos, wirepos := memsz, 0;
      assert plain[0..] == plain && raw[0..] == raw;
      while true
        invariant ReaderOk(Here()) && MemOff(readStruct.value, readField) <= mempos && wirepos <= |raw|
        invariant decrypt == Advance(old(decrypt), wirepos)
        invariant Crypt(decrypt, raw[wirepos..]) == plain[wirepos..]
        invariant Absorb(r0, memsz, plain) == Absorb(Here(), mempos, plain[wirepos..])
        decreases |readStruct.value| - readField
      {
        ghost var before := decrypt;
        var turn, taken, next := AbsorbField(mempos, raw[wirepos..]);
        AdvanceTwice(old(decrypt), wirepos, taken);
        CryptTake(old(decrypt), raw, wirepos + taken);
        assert plain[wirepos..][taken..] == plain[wirepos + taken..];
        mempos, wirepos := next, wirepos + taken;
        match turn
        case Outside => return false, false;
        case Stop => return false, true;
        case Last => return true, true;
        case Next =>
      }
    }

    /** Give the message a buffer of its full size, keeping what is there. */
    method Reallocate(allocsz: nat)
      requires Valid() && HasPendingRead() && allocsz == MemSize(readStruct.value)
      modifies this`readBuf, this`readBufSz
      ensures Valid() && fresh(readBuf) && readBuf != null && Here() == Rd() == old(Rd())
    {
      var buf, bufsz := AllocBuf(readBuf, readBufSz, allocsz, false);
      readBuf, readBufSz := buf, bufsz;
      MemOffMonotone(readStruct.value, readField, |readStruct.value|);
      CapacitySlack(allocsz);
    }

    lemma FullBuffer()
      requires readStruct.Some? && readBuf != null && readBuf.Length == readBufSz && ReaderOk(Here())
      ensures ReadOk() && HasPendingRead() && Rd() == Here()
    {
      MemOffMonotone(readStruct.value, readField, |readStruct.value|);
      CapacitySlack(MemSize(readStruct.value));
    }

    /** What one turn of the outer loop may do, in terms of the call it is part of. */
    twostate predicate Turned(new end: Option<Outcome>, used: nat)
      requires old(Valid()) && old(HasPendingRead())
      reads this, readBuf
    {
      && readStruct == old(readStruct) && writes == old(writes) && encrypt == old(encrypt)
      && writeStalled == old(writeStalled) && log == old(log)
      && (readBuf != null && readBuf != old(readBuf) ==> fresh(readBuf)) && (readBuf == null ==> old(readBuf) == null)
      && used <= |old(net.incoming)| && net == old(net).(incoming := old(net.incoming)[used..],
           readScript := net.readScript, down := old(net.down) || end == Some(Shut))
      && (end != Some(Fault) ==> decrypt == Advance(old(decrypt), used))
      && torn == (old(torn) || (end == None && readOffset > 0))
      && var r, t := old(Rd()), old(Run(Rd(), Plain(), net.readScript));
         match end
         case None =>
           && used > 0 && Valid() && HasPendingRead()
           && t == Later(Run(Rd(), Plain(), net.readScript), used, readOffset > 0)
         case Some(Complete) =>
           && readBuf != null && readBuf.Length == readBufSz
           && t == Result(Complete, r.(mem := readBuf[..]), used, net.readScript, false)
         case Some(Fault) => t == Result(Fault, r, used, net.readScript, false)
         case Some(o) =>
           && used == 0 && Valid() && HasPendingRead() && Rd() == r
           && t == Result(o, r, 0, net.readScript, false)
    }

    /** What one call of the reader may do. */
    twostate predicate Called(new outcome: Outcome, used: nat)
      requires old(Valid()) && old(HasPendingRead())
      reads this, readBuf
    {
      && readStruct == old(readStruct) && writes == old(writes) && encrypt == old(encrypt)
      && writeStalled == old(writeStalled) && log == old(log)
      && (readBuf != null && readBuf != old(readBuf) ==> fresh(readBuf)) && (readBuf == null ==> old(readBuf) == null)
      && used <= |old(net.incoming)| && net == old(net).(incoming := old(net.incoming)[used..],
           readScript := net.readScript, down := old(net.down) || outcome.Shut?)
      && (!outcome.Fault? ==> decrypt == Advance(old(decrypt), used))
      && var t := old(Run(Rd(), Plain(), net.readScript));
         && outcome == t.outcome && used == t.used && net.readScript == t.events && torn == (old(torn) || t.torn)
         && match outcome
            case Complete => readBuf != null && readBuf.Length == readBufSz && readBuf[..] == t.reader.mem
            case Fault => true
            case _ => Valid() && HasPendingRead() && Rd() == t.reader
    }

    /** Ask the socket for `readsz` bytes and take what comes. None means: go round again. */
    method ReadSome(memsz: nat, readsz: nat) returns (end: Option<Outcome>, ghost used: nat)
      requires Valid() && HasPendingRead() && readBuf != null && Here() == Rd()
      requires memsz == At(Rd()) && CurrentWire(Rd()) != SENTINEL && readsz == Request(Rd()) > 0
      modifies this, readBuf
      ensures Turned(end, used)
    {
      hide CalcFieldSz, WellFormed, Capacity, MemOff, Absorb, FixedRun, Run, Advance, Crypt, Reduce, Unsent;
      ghost var r, plain := Rd(), Plain();
      ghost var input := net.incoming;
      AdvanceTwice(decrypt, 0, 0);
      RunReads(r, plain, net);
      var (after, result) := SocketRead(net, readsz);
      match result
      case NotNow =>
        net := after;
        return Some(Blocked), 0;
      case Error =>
        net := after.(down := true);
        return Some(Shut), 0;
      case Bytes(k) =>
        var raw := net.incoming[..k];
        net := after;
        if k == 0 {
          return Some(Spinning), 0;
        }
        CryptTake(decrypt, input, k);
        RequestWithin(r);
        AbsorbKeepsShape(r, memsz, plain[..k]);
        var complete, inside := AbsorbRead(memsz, raw);
        if !inside {
          return Some(Fault), k;
        } else if complete {
          return Some(Complete), k;
        }
        FullBuffer();
        if readOffset > 0 {
          torn := true;
        }
        return None, k;
    }

    /** One turn of the outer loop: measure, allocate, read once. */
    method ReadOnce() returns (end: Option<Outcome>, ghost used: nat)
      requires Valid() && HasPendingRead()
      modifies this
      ensures Turned(end, used)
    {
      hide CalcFieldSz, WellFormed, Capacity, MemOff, Absorb, FixedRun, Run, Advance, Crypt, Reduce, Unsent;
      ghost var r, plain := Rd(), Plain();
      AdvanceTwice(decrypt, 0, 0);
      assert net.incoming[0..] == net.incoming;
      var memsz := MeasureFields();
      var tooMany, allocsz, readsz := PlanRead(memsz);
      RunRefuses(r, plain, net);
      if tooMany {
        net := net.(down := true);
        return Some(Shut), 0;
      }
      Reallocate(allocsz);
      readsz := readsz - Min(readsz, readOffset);
      assert readsz == Request(r);
      if readsz == 0 {
        return Some(Spinning), 0;
      }
      end, used := ReadSome(memsz, readsz);
    }

    /**
     Take from the socket until the message is complete, the socket has nothing, or the
     connection is shut. The result, the reader, the socket and the cipher are those of `Run`.
     */
    method ResumeRead() returns (outcome: Outcome, ghost used: nat)
      requires Valid() && HasPendingRead()
      modifies this
      ensures Called(outcome, used)
    {
      hide CalcFieldSz, WellFormed, Capacity, MemOff, Run, Advance, Crypt, Rd, Plain;
      used := 0;
      AdvanceTwice(decrypt, 0, 0);
      assert net.incoming[0..] == net.incoming;
      ghost var tornHere := false;
      while true
        invariant Valid() && HasPendingRead() && readStruct == old(readStruct)
        invariant writes == old(writes) && encrypt == old(encrypt)
        invariant writeStalled == old(writeStalled) && log == old(log)
        invariant readBuf != null && readBuf != old(readBuf) ==> fresh(readBuf)
        invariant readBuf == null ==> old(readBuf) == null
        invariant used <= |old(net.incoming)|
        invariant net == old(net).(incoming := old(net.incoming)[used..], readScript := net.readScript)
        invariant decrypt == Advance(old(decrypt), used) && torn == (old(torn) || tornHere)
        invariant old(Run(Rd(), Plain(), net.readScript)) == Later(Run(Rd(), Plain(), net.readScript), used, tornHere)
        decreases |net.incoming|
      {
        var end;
        ghost var taken, before := 0, net.incoming;
        end, taken := ReadOnce();
        AdvanceTwice(old(decrypt), used, taken);
        assert old(net.incoming)[used..][taken..] == old(net.incoming)[used + taken..];
        used := used + taken;
        match end
        case Some(o) => return o, used;
        case None => tornHere := tornHere || readOffset > 0;
      }
    }

    /** Read on; a complete message is released to the caller and the reader is reset. */
    method HandleRead() returns (outcome: Outcome, buf: array?<byte>, ghost used: nat)
      requires Valid() && HasPendingRead()
      modifies this
      ensures buf != null <==> outcome.Complete?
      ensures outcome.Complete? ==> Valid() && !HasPendingRead() && buf.Length == readBufSz
      ensures !outcome.Complete? && !outcome.Fault? ==> Valid() && readStruct == old(readStruct)
      ensures writes == old(writes) && encrypt == old(encrypt) && writeStalled == old(writeStalled)
      ensures log == old(log)
      ensures used <= |old(net.incoming)| && net == old(net).(incoming := old(net.incoming)[used..],
        readScript := net.readScript, down := old(net.down) || outcome.Shut?)
      ensures !outcome.Fault? ==> decrypt == Advance(old(decrypt), used)
      ensures var t := old(Run(Rd(), Plain(), net.readScript));
        && outcome == t.outcome && used == t.used && net.readScript == t.events && torn == (old(torn) || t.torn)
        && (outcome.Complete? ==> buf[..] == t.reader.mem)
        && (!outcome.Complete? && !outcome.Fault? ==> Rd() == t.reader)
    {
      hide Run, Crypt, Advance, WellFormed, Capacity, MemOff, Unsent, Rd, Plain;
      outcome, used := ResumeRead();
      buf := null;
      if outcome == Complete {
        buf := readBuf;
        readField, readOffset := 0, 0;
        readStruct, readBuf := None, null;
      }
    }

    /** What is queued was queued before, or the socket was offered it and did not take it all. */
    twostate predicate QueueTried()
      requires WritesOk()
      reads this
    {
      writes != [] ==>
        || (old(writes) != [] && net.writeScript == old(net.writeScript))
        || TookShort(old(net.writeScript), net.writeScript, |Outgoing()|)
    }

    // --- Writing ------------------------------------------------------------------------------

    /** Send what is left of a message; true when all of it is gone. */
    method ResumeWrite(state: IoState) returns (done: bool, after: IoState)
      requires Unfinished(state)
      modifies this`net, this`writeStalled
      ensures SentOnly(old(net), net)
      ensures Tried(old(net.writeScript), net.writeScript)
      ensures !done ==> TookShort(old(net.writeScript), net.writeScript, |state.buf| - state.bufoffs)
      ensures StateOk(after) && after.buf == state.buf && state.bufoffs <= after.bufoffs
      ensures net.sent + after.buf[after.bufoffs..] == old(net.sent) + state.buf[state.bufoffs..]
      ensures done <==> !writeStalled
      ensures done <==> after.bufoffs == |after.buf|
    {
      hide TookShort, SocketWrite, SentOnly, Unsent, Crypt, Advance, Conserved, ReadOk;
      var rest := state.buf[state.bufoffs..];
      var (sentNet, result) := SocketWrite(net, rest);
      WriteSends(net, rest);
      net := sentNet;
      match result {
        case NotNow => done, after := false, state;
        case Error => net := net.(down := true); done, after := false, state;
        case Bytes(n) =>
          after := state.(bufoffs := state.bufoffs + n);
          done := after.bufoffs == |after.buf|;
          assert rest == rest[..n] + after.buf[after.bufoffs..];
          assert old(net.sent) + rest[..n] + after.buf[after.bufoffs..] == old(net.sent) + rest;
      }
      writeStalled := !done;
    }

    /** The wire size of a message, stepping through the fields by their wire size. */
    method MeasureMessage(ns: NetStruct, mem: seq<byte>) returns (wiresz: nat)
      requires TailVariable(ns) && Encodable(ns, mem)
      ensures wiresz == |Serialize(ns, mem)|
    {
      hide CalcFieldSz;
      wiresz := 0;
      SerializeIsPrefix(ns, 0, mem);
      for i := 0 to |ns|
        invariant i < |ns| ==> wiresz == MemOff(ns, i)
        invariant i == |ns| ==> wiresz == TailAt(ns) + FieldWire(ns, |ns| - 1, mem)
      {
        MemOffMonotone(ns, i, |ns|);
        var sizes := CalcFieldSz(ns, i, Some(mem[..wiresz]));
        KnownSize(ns, i, mem[..wiresz]);
        if i + 1 < |ns| {
          SerializeOne(ns, i, mem);
        }
        wiresz := wiresz + sizes.wire;
      }
    }

    /** Encrypt `src` into the buffer. */
    method EncryptInto(dst: array<byte>, pos: nat, src: seq<byte>)
      requires pos + |src| <= dst.Length
      modifies this`encrypt, dst
      ensures dst[..pos + |src|] == old(dst[..pos]) + Crypt(old(encrypt), src)
      ensures encrypt == Advance(old(encrypt), |src|)
    {
      var out := Crypt(encrypt, src);
      forall k | 0 <= k < |src| {
        dst[pos + k] := out[k];
      }
      encrypt := Advance(encrypt, |src|);
    }

    /** One field: encrypt it into its place behind the fields before it. */
    method EncodeField(ns: NetStruct, i: nat, mem: seq<byte>, memPos: nat, buf: array<byte>, wirePos: nat)
      returns (memNext: nat, wireNext: nat)
      requires Encodable(ns, mem) && i < |ns| && memPos == MemOff(ns, i)
      requires wirePos + |SerializeFrom(ns, i, mem)| <= buf.Length
      modifies this`encrypt, buf
      ensures memNext == MemOff(ns, i + 1) && wirePos <= wireNext <= buf.Length
      ensures wireNext - wirePos <= |SerializeFrom(ns, i, mem)|
      ensures SerializeFrom(ns, i + 1, mem) == SerializeFrom(ns, i, mem)[wireNext - wirePos..]
      ensures buf[..wireNext] ==
        old(buf[..wirePos]) + Crypt(old(encrypt), SerializeFrom(ns, i, mem)[..wireNext - wirePos])
      ensures encrypt == Advance(old(encrypt), wireNext - wirePos)
    {
      hide CalcFieldSz, Advance, Crypt, WellFormed, FieldWire, SerializeFrom, MemOff, Encodable;
      FieldInPlace(ns, i, mem);
      var sizes := CalcFieldSz(ns, i, Some(mem[..memPos]));
      var field := mem[memPos..memPos + sizes.wire];
      assert SerializeFrom(ns, i, mem)[..|field|] == field;
      EncryptInto(buf, wirePos, field);
      memNext, wireNext := memPos + sizes.alloc, wirePos + sizes.wire;
    }

    /** Encrypt a message field by field, from its memory form into its wire form. */
    method EncodeMessage(ns: NetStruct, mem: seq<byte>, wiresz: nat) returns (buf: array<byte>)
      requires Encodable(ns, mem) && wiresz == |Serialize(ns, mem)|
      modifies this`encrypt
      ensures fresh(buf) && buf[..] == Crypt(old(encrypt), Serialize(ns, mem))
      ensures encrypt == Advance(old(encrypt), wiresz)
    {
      hide Advance, Crypt, Serialize, WellFormed, TailVariable, SerializeFrom, MemOff, Encodable;
      var wire, bufsz := AllocBuf(null, 0, wiresz, true);
      buf := wire;
      ghost var plain := Serialize(ns, mem);
      SerializeStart(ns, mem);
      AdvanceTwice(encrypt, 0, 0);
      CryptTake(encrypt, plain, 0);
      var memPos: nat, wirePos: nat := 0, 0;
      for i := 0 to |ns|
        invariant memPos == MemOff(ns, i) && wirePos <= wiresz == buf.Length && fresh(buf)
        invariant plain[wirePos..] == SerializeFrom(ns, i, mem)
        invariant encrypt == Advance(old(encrypt), wirePos)
        invariant buf[..wirePos] == Crypt(old(encrypt), plain[..wirePos])
      {
        ghost var from := wirePos;
        memPos, wirePos := EncodeField(ns, i, mem, memPos, buf, wirePos);
        assert plain[from..][..wirePos - from] == plain[from..wirePos];
        assert plain[from..][wirePos - from..] == plain[wirePos..];
        assert plain[..wirePos] == plain[..from] + plain[from..wirePos];
        CryptSplit(old(encrypt), plain[..from], plain[from..wirePos]);
        AdvanceTwice(old(encrypt), from, wirePos - from);
      }
      SerializeEnd(ns, mem);
      assert plain[..wirePos] == plain && buf[..wirePos] == buf[..];
    }

    /** Send a new message at once if nothing is queued, and queue what did not go. */
    method SendOrQueue(state: IoState)
      requires WritesOk() && state.bufoffs == 0 && state.buf != []
      modifies this`net, this`writeStalled, this`writes
      ensures WritesOk() && Outgoing() == old(Outgoing()) + state.buf
      ensures SentOnly(old(net), net) && QueueTried()
      ensures old(NoLostWakeup()) ==> NoLostWakeup()
    {
      hide SentOnly, TookShort;
      var left := state;
      ghost var unsent, script := Unsent(writes), net.writeScript;
      assert state.buf[0..] == state.buf;
      SentNothing(net);
      if writes == [] {
        var done;
        assert net.sent + unsent == net.sent;
        done, left := ResumeWrite(state);
        if done {
          assert left.buf[left.bufoffs..] == [];
          assert Outgoing() == net.sent == net.sent + left.buf[left.bufoffs..];
          return;
        }
        TookShortOn(script, net.writeScript, net.writeScript, |state.buf|, |old(Outgoing()) + state.buf|);
      }
      UnsentAppend(writes, left);
      writes := writes + [left];
      assert net.sent + (unsent + left.buf[left.bufoffs..]) == net.sent + unsent + left.buf[left.bufoffs..];
    }

    /** Encrypt a message now, and hand it over for sending. */
    method EnqueueWrite(ns: NetStruct, mem: seq<byte>)
      requires Valid() && TailVariable(ns) && Encodable(ns, mem)
      modifies this`net, this`writeStalled, this`writes, this`encrypt, this`log
      ensures Valid()
      ensures log == old(log).(issued := old(log.issued) + Serialize(ns, mem))
      ensures SentOnly(old(net), net) && QueueTried()
      ensures Outgoing() == old(Outgoing()) + Crypt(old(encrypt), Serialize(ns, mem))
      ensures old(NoLostWakeup()) ==> NoLostWakeup()
      ensures encrypt == Advance(old(encrypt), |Serialize(ns, mem)|)
      ensures old(encrypt).Null? ==> Outgoing() == old(Outgoing()) + Serialize(ns, mem) && encrypt.Null?
      ensures old(encrypt).Keyed? ==> |Outgoing()| == |old(Outgoing())| + |Serialize(ns, mem)|
      ensures old(encrypt).Keyed? ==> forall i :: 0 <= i < |Serialize(ns, mem)| ==>
        Outgoing()[|old(Outgoing())| + i] ==
          Xor(Serialize(ns, mem)[i], old(encrypt).keystream(old(encrypt).pos + i))
      ensures old(encrypt).Keyed? ==>
        encrypt == Keyed(old(encrypt).keystream, old(encrypt).pos + |Serialize(ns, mem)|)
    {
      hide CalcFieldSz, Crypt, Advance, Serialize, WellFormed, TailVariable, Encodable, Unsent, SentOnly, Rd;
      CryptBytes(encrypt, Serialize(ns, mem));
      var wiresz := MeasureMessage(ns, mem);
      LogGrows(log, Serialize(ns, mem));
      SerializeNotEmpty(ns, mem);
      var buf := EncodeMessage(ns, mem, wiresz);
      SendOrQueue(IoState(buf[..], 0));
      log := log.(issued := log.issued + Serialize(ns, mem));
    }

    /** Over any number of messages under one key: a place of the keystream decides one byte of the
        output, and no other. */
    lemma OnePlaceOneByte(other: nat -> byte, q: nat, i: nat)
      requires Valid() && log.epoch.Keyed? && DifferAt(log.epoch.keystream, other, q) && i < |log.issued|
      ensures |Outgoing()| == |log.past| + |log.issued|
      ensures Outgoing()[|log.past| + i] != Crypt(Keyed(other, log.epoch.pos), log.issued)[i] <==>
        log.epoch.pos + i == q
    {
      OneByteEach(log.epoch.keystream, other, log.epoch.pos, q, log.issued, i);
    }

    /** Send on with the oldest message; true when it is gone. */
    method HandleWrite() returns (popped: bool)
      requires Valid()
      modifies this`net, this`writeStalled, this`writes
      ensures Valid() && Outgoing() == old(Outgoing())
      ensures SentOnly(old(net), net)
      ensures old(writes) != [] ==> Tried(old(net.writeScript), net.writeScript)
      ensures old(writes) != [] && !popped ==> TookShort(old(net.writeScript), net.writeScript, |Outgoing()|)
      ensures old(writes) == [] ==> !popped && net == old(net)
      ensures popped ==> |writes| == |old(writes)| - 1
      ensures !popped ==> |writes| == |old(writes)| && (writes == [] || writeStalled)
    {
      hide SentOnly, TookShort, Unsent, Crypt, Advance, WellFormed, Capacity;
      SentNothing(net);
      if writes == [] {
        return false;
      }
      var first, state, later := writes[0], writes[0], writes[1..];
      ghost var script, out := net.writeScript, |Outgoing()|;
      UnsentFront(first, later);
      assert [first] + later == writes;
      popped, state := ResumeWrite(first);
      ghost var left, rest := state.buf[state.bufoffs..], Unsent(later);
      assert net.sent + (left + rest) == net.sent + left + rest;
      assert old(net.sent) + (first.buf[first.bufoffs..] + rest) == old(net.sent) + first.buf[first.bufoffs..] + rest;
      if popped {
        assert left == [] && net.sent + left == net.sent;
      } else {
        UnsentFront(state, later);
        TookShortOn(script, net.writeScript, net.writeScript, |first.buf| - first.bufoffs, out);
      }
      writes := if popped then later else [state] + later;
    }
  }
}
