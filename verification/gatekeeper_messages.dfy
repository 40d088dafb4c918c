/** Building the gatekeeper's replies in memory, and what their wire form is. */
module GatekeeperMessages {
  import opened Bytes
  import opened NetStructs
  import opened Reading
  import opened Resumption
  import opened Framing
  import opened Conversation

  // Offsets of the file server reply: type, transaction id, size of the address, address.
  const TYPE_AT: nat := 0
  const TRANS_AT: nat := 2
  const ADDRESS_SIZE_AT: nat := 6
  const ADDRESS_AT: nat := 8
  const ADDRESS_REPLY_SIZE: nat := 56

  method SetInteger(buf: array<byte>, pos: nat, value: nat, width: nat)
    requires pos + width <= buf.Length
    modifies buf
    ensures buf[..] == Splice(old(buf[..]), pos, ToLE(value, width))
  {
    var bytes := ToLE(value, width);
    forall i | 0 <= i < width {
      buf[pos + i] := bytes[i];
    }
  }

  lemma {:induction false} Utf16Append(chars: seq<char16>, c: char16)
    ensures Utf16(chars + [c]) == Utf16(chars) + ToLE(c, 2)
  {
    if chars == [] {
      assert [c][1..] == [];
      assert Utf16([c]) == ToLE(c, 2) + Utf16([]);
    } else {
      Utf16Append(chars[1..], c);
      assert (chars + [c])[1..] == chars[1..] + [c];
    }
  }

  /**
   Copy a string into its field: at most 24 characters, a terminator behind them or, when the
   string fills the field, over the last one; the size counts the characters copied.
   */
  method SetAddress(buf: array<byte>, value: seq<char16>)
    requires buf.Length == ADDRESS_REPLY_SIZE
    modifies buf
    ensures buf[..ADDRESS_SIZE_AT] == old(buf[..ADDRESS_SIZE_AT])
    ensures buf[ADDRESS_SIZE_AT..ADDRESS_AT + 2 * |Clip(value)|] == ToLE(|Clip(value)|, 2) + Utf16(Clip(value))
    ensures TerminatedAt(old(buf[..]), buf[..], value)
  {
    CopyString(buf, value);
    var size := Min(ADDRESS_CHARS, |value|);
    ghost var was, written, end := old(buf[..]), buf[..], ADDRESS_AT + 2 * size;
    SetInteger(buf, ADDRESS_SIZE_AT, size, 2);
    ghost var now := buf[..];
    AroundSplice(written, ADDRESS_SIZE_AT, ToLE(size, 2), end);
    assert now[ADDRESS_SIZE_AT..end] == buf[ADDRESS_SIZE_AT..end];
    assert written[ADDRESS_AT..end] == Utf16(Clip(value));
    assert buf[..ADDRESS_SIZE_AT] == now[..ADDRESS_SIZE_AT] == written[..ADDRESS_SIZE_AT];
    assert written[..ADDRESS_SIZE_AT] == written[..ADDRESS_AT][..ADDRESS_SIZE_AT];
    assert was[..ADDRESS_SIZE_AT] == was[..ADDRESS_AT][..ADDRESS_SIZE_AT];
    SameTail(was, written, now, value);
  }

  /** Behind a string shorter than its field comes a terminator, and the rest is as it was; a longer
      one fills the field. */
  predicate TerminatedAt(was: seq<byte>, now: seq<byte>, value: seq<char16>)
    requires |was| == |now| == ADDRESS_REPLY_SIZE
  {
    var end := ADDRESS_AT + 2 * |Clip(value)|;
    if |value| < ADDRESS_CHARS then now[end..end + 2] == [0, 0] && now[end + 2..] == was[end + 2..]
    else end == ADDRESS_REPLY_SIZE
  }

  lemma SameTail(was: seq<byte>, written: seq<byte>, now: seq<byte>, value: seq<char16>)
    requires |was| == |written| == |now| == ADDRESS_REPLY_SIZE && TerminatedAt(was, written, value)
    requires now[ADDRESS_AT..] == written[ADDRESS_AT..]
    ensures TerminatedAt(was, now, value)
  {
    var end := ADDRESS_AT + 2 * |Clip(value)|;
    if |value| < ADDRESS_CHARS {
      assert now[end..end + 2] == now[ADDRESS_AT..][end - ADDRESS_AT..end + 2 - ADDRESS_AT];
      assert now[end + 2..] == now[ADDRESS_AT..][end + 2 - ADDRESS_AT..];
      assert written[end..end + 2] == written[ADDRESS_AT..][end - ADDRESS_AT..end + 2 - ADDRESS_AT];
      assert written[end + 2..] == written[ADDRESS_AT..][end + 2 - ADDRESS_AT..];
    }
  }

  /** The characters, and the terminator. */
  method CopyString(buf: array<byte>, value: seq<char16>)
    requires buf.Length == ADDRESS_REPLY_SIZE
    modifies buf
    ensures buf[..ADDRESS_AT] == old(buf[..ADDRESS_AT])
    ensures buf[ADDRESS_AT..ADDRESS_AT + 2 * |Clip(value)|] == Utf16(Clip(value))
    ensures TerminatedAt(old(buf[..]), buf[..], value)
  {
    var size, last := Min(ADDRESS_CHARS, |value|), Min(ADDRESS_CHARS - 1, |value|);
    ghost var was := buf[..];
    CopyChars(buf, value, size);
    ghost var copied := buf[..];
    assert copied[..ADDRESS_AT] == was[..ADDRESS_AT];
    assert copied[ADDRESS_AT..ADDRESS_AT + 2 * size] == Utf16(value[..size]);
    assert copied[ADDRESS_AT + 2 * size..] == was[ADDRESS_AT + 2 * size..];
    SetChar(buf, last, 0);
    ghost var now := buf[..];
    CopiedString(was, copied, now, value);
    assert buf[..ADDRESS_AT] == now[..ADDRESS_AT];
    assert buf[ADDRESS_AT..ADDRESS_AT + 2 * size] == now[ADDRESS_AT..ADDRESS_AT + 2 * size];
  }

  /** What the characters and then the terminator make of the buffer. */
  lemma CopiedString(was: seq<byte>, copied: seq<byte>, now: seq<byte>, value: seq<char16>)
    requires |was| == |copied| == |now| == ADDRESS_REPLY_SIZE
    requires var size := Min(ADDRESS_CHARS, |value|);
      && copied[..ADDRESS_AT] == was[..ADDRESS_AT]
      && copied[ADDRESS_AT..ADDRESS_AT + 2 * size] == Utf16(value[..size])
      && copied[ADDRESS_AT + 2 * size..] == was[ADDRESS_AT + 2 * size..]
    requires now == Splice(copied, ADDRESS_AT + 2 * Min(ADDRESS_CHARS - 1, |value|), ToLE(0, 2))
    ensures |Clip(value)| == Min(ADDRESS_CHARS, |value|)
    ensures now[..ADDRESS_AT] == was[..ADDRESS_AT]
    ensures now[ADDRESS_AT..ADDRESS_AT + 2 * |Clip(value)|] == Utf16(Clip(value))
    ensures TerminatedAt(was, now, value)
  {
    hide Clip, Utf16, Splice;
    ClipAt(value);
    var size := Min(ADDRESS_CHARS, |value|);
    Terminated(value, size);
    if |value| < ADDRESS_CHARS {
      BehindChars(copied, now, ADDRESS_AT + 2 * size);
      assert copied[ADDRESS_AT + 2 * size + 2..] == copied[ADDRESS_AT + 2 * size..][2..];
      assert was[ADDRESS_AT + 2 * size + 2..] == was[ADDRESS_AT + 2 * size..][2..];
    } else {
      OverLastChar(copied, now);
      assert copied[ADDRESS_AT..54] == copied[ADDRESS_AT..56][..46];
    }
  }

  lemma BehindChars(copied: seq<byte>, now: seq<byte>, end: nat)
    requires |copied| == |now| == ADDRESS_REPLY_SIZE && ADDRESS_AT <= end && end + 2 <= ADDRESS_REPLY_SIZE
    requires now == Splice(copied, end, ToLE(0, 2))
    ensures now[..ADDRESS_AT] == copied[..ADDRESS_AT] && now[ADDRESS_AT..end] == copied[ADDRESS_AT..end]
    ensures now[end..end + 2] == [0, 0] && now[end + 2..] == copied[end + 2..]
  {
    assert ToLE(0, 2) == [0, 0];
  }

  lemma OverLastChar(copied: seq<byte>, now: seq<byte>)
    requires |copied| == |now| == ADDRESS_REPLY_SIZE && now == Splice(copied, 54, ToLE(0, 2))
    ensures now[..ADDRESS_AT] == copied[..ADDRESS_AT]
    ensures now[ADDRESS_AT..56] == copied[ADDRESS_AT..54] + ToLE(0, 2)
  {
  }

  lemma AroundSplice(mem: seq<byte>, pos: nat, data: seq<byte>, end: nat)
    requires pos + |data| <= end <= |mem|
    ensures Splice(mem, pos, data)[..pos] == mem[..pos]
    ensures Splice(mem, pos, data)[pos..end] == data + mem[pos + |data|..end]
    ensures Splice(mem, pos, data)[pos + |data|..] == mem[pos + |data|..]
  {
  }

  /** The characters that count, after the terminator was written. */
  lemma Terminated(value: seq<char16>, size: nat)
    requires size == Min(ADDRESS_CHARS, |value|)
    ensures |value| < ADDRESS_CHARS ==> Utf16(Clip(value)) == Utf16(value[..size])
    ensures |value| >= ADDRESS_CHARS ==> Utf16(Clip(value)) == Utf16(value[..size])[..2 * size - 2] + ToLE(0, 2)
  {
    if |value| < ADDRESS_CHARS {
      assert value[..size] == value;
    } else {
      var last := size - 1;
      assert value[..size] == value[..last] + [value[last]];
      Utf16Append(value[..last], value[last]);
      Utf16Append(value[..last], 0);
    }
  }

  method CopyChars(buf: array<byte>, value: seq<char16>, size: nat)
    requires buf.Length == ADDRESS_REPLY_SIZE && size == Min(ADDRESS_CHARS, |value|)
    modifies buf
    ensures buf[..ADDRESS_AT] == old(buf[..ADDRESS_AT])
    ensures buf[ADDRESS_AT..ADDRESS_AT + 2 * size] == Utf16(value[..size])
    ensures buf[ADDRESS_AT + 2 * size..] == old(buf[ADDRESS_AT + 2 * size..])
  {
    for i := 0 to size
      invariant buf[..ADDRESS_AT] == old(buf[..ADDRESS_AT])
      invariant buf[ADDRESS_AT..ADDRESS_AT + 2 * i] == Utf16(value[..i])
      invariant buf[ADDRESS_AT + 2 * i..] == old(buf[ADDRESS_AT + 2 * i..])
    {
      SetChar(buf, i, value[i]);
      Utf16Append(value[..i], value[i]);
      assert value[..i + 1] == value[..i] + [value[i]];
    }
  }

  method SetChar(buf: array<byte>, i: nat, c: char16)
    requires buf.Length == ADDRESS_REPLY_SIZE && i < ADDRESS_CHARS
    modifies buf
    ensures buf[..ADDRESS_AT + 2 * i] == old(buf[..ADDRESS_AT + 2 * i])
    ensures buf[ADDRESS_AT..ADDRESS_AT + 2 * i + 2] == old(buf[ADDRESS_AT..ADDRESS_AT + 2 * i]) + ToLE(c, 2)
    ensures buf[..ADDRESS_AT] == old(buf[..ADDRESS_AT])
    ensures buf[ADDRESS_AT..ADDRESS_AT + 2 * i] == old(buf[ADDRESS_AT..ADDRESS_AT + 2 * i])
    ensures buf[..] == Splice(old(buf[..]), ADDRESS_AT + 2 * i, ToLE(c, 2))
    ensures buf[ADDRESS_AT + 2 * i + 2..] == old(buf[ADDRESS_AT + 2 * i + 2..])
  {
    SetInteger(buf, ADDRESS_AT + 2 * i, c, 2);
    ghost var was := old(buf[..]);
    assert buf[..ADDRESS_AT + 2 * i] == was[..ADDRESS_AT + 2 * i];
    assert buf[..ADDRESS_AT] == was[..ADDRESS_AT];
  }

  /** An address reply in memory; what is not set is whatever the memory held. */
  method BuildAddressReply(transId: nat, addr: seq<char16>) returns (reply: array<byte>)
    requires transId < 0x1_0000_0000
    ensures fresh(reply) && Encodable(FILE_SRV_REPLY, reply[..])
    ensures Serialize(FILE_SRV_REPLY, reply[..]) == AddressReply(ToLE(transId, 4), addr)
    ensures Announces(Serialize(FILE_SRV_REPLY, reply[..]), transId, addr)
  {
    reply := new byte[ADDRESS_REPLY_SIZE];
    SetInteger(reply, TYPE_AT, FILE_SRV, 2);
    SetInteger(reply, TRANS_AT, transId, 4);
    assert reply[..ADDRESS_SIZE_AT] == ToLE(FILE_SRV, 2) + ToLE(transId, 4);
    SetAddress(reply, addr);
    ghost var n, mem := |Clip(addr)|, reply[..];
    assert mem[..ADDRESS_SIZE_AT] == reply[..ADDRESS_SIZE_AT];
    assert mem[ADDRESS_SIZE_AT..ADDRESS_AT + 2 * n] == reply[ADDRESS_SIZE_AT..ADDRESS_AT + 2 * n];
    JoinParts(mem, ToLE(n, 2), Utf16(Clip(addr)));
    AddressReplyWire(mem, n);
    AddressReplyAnnounces(transId, addr);
  }

  lemma JoinParts(mem: seq<byte>, size: seq<byte>, chars: seq<byte>)
    requires |mem| == ADDRESS_REPLY_SIZE && |size| == 2 && ADDRESS_AT + |chars| <= |mem|
    requires mem[ADDRESS_SIZE_AT..ADDRESS_AT + |chars|] == size + chars
    ensures mem[..ADDRESS_AT][ADDRESS_SIZE_AT..] == size
    ensures mem[..ADDRESS_AT + |chars|] == mem[..ADDRESS_SIZE_AT] + size + chars
  {
    assert mem[..ADDRESS_AT][ADDRESS_SIZE_AT..] == mem[ADDRESS_SIZE_AT..ADDRESS_AT + |chars|][..2];
    assert mem[..ADDRESS_AT + |chars|] == mem[..ADDRESS_SIZE_AT] + mem[ADDRESS_SIZE_AT..ADDRESS_AT + |chars|];
  }

  /** The wire form of an address reply stops behind the characters its size counts. */
  lemma AddressReplyWire(mem: seq<byte>, n: nat)
    requires |mem| == ADDRESS_REPLY_SIZE && n <= ADDRESS_CHARS
    requires mem[..ADDRESS_AT][ADDRESS_SIZE_AT..] == ToLE(n, 2)
    ensures Encodable(FILE_SRV_REPLY, mem)
    ensures Serialize(FILE_SRV_REPLY, mem) == mem[..ADDRESS_AT + 2 * n]
  {
    RequestTables();
    var ns := FILE_SRV_REPLY;
    AddressReplyTail(ns);
    Pow256Of4();
    LERoundTrip(n, 2);
    assert FieldWire(ns, 3, mem) == 2 * n;
    forall i | 0 <= i < |ns|
      ensures FieldWire(ns, i, mem) < SENTINEL && MemOff(ns, i) + FieldWire(ns, i, mem) <= |mem|
    {
      WireInside(ns, i, mem);
    }
    SerializeIsPrefix(ns, 0, mem);
    assert mem[0..ADDRESS_AT + 2 * n] == mem[..ADDRESS_AT + 2 * n];
  }

  lemma AddressReplyTail(ns: NetStruct)
    requires ns == FILE_SRV_REPLY && WellFormed(ns) && MemSize(ns) == 56
    ensures |ns| == 4 && TailAt(ns) == MemOff(ns, 3) == ADDRESS_AT
    ensures ns[2] == NetField(BufferSize, 2, 1) && ns[3] == NetField(StringUtf16, 2, 24)
  {
    assert MemOff(ns, 4) == MemOff(ns, 3) + DeclaredSz(ns[3]);
  }

  /** Messages without a variable field are sent as they are. */
  lemma FixedMessageWire(ns: NetStruct, mem: seq<byte>)
    requires TailVariable(ns) && !IsVariable(ns[|ns| - 1]) && |mem| >= MemSize(ns)
    ensures Encodable(ns, mem) && Serialize(ns, mem) == mem[..MemSize(ns)]
  {
    hide CalcFieldSz, FieldWire;
    FixedTail(ns, mem);
    forall i | 0 <= i < |ns|
      ensures FieldWire(ns, i, mem) < SENTINEL && MemOff(ns, i) + FieldWire(ns, i, mem) <= |mem|
    {
      WireInside(ns, i, mem);
    }
    SerializeIsPrefix(ns, 0, mem);
    assert mem[0..MemSize(ns)] == mem[..MemSize(ns)];
  }

  lemma FixedTail(ns: NetStruct, mem: seq<byte>)
    requires TailVariable(ns) && !IsVariable(ns[|ns| - 1]) && |mem| >= MemSize(ns)
    ensures FieldWire(ns, |ns| - 1, mem) < SENTINEL && TailAt(ns) + FieldWire(ns, |ns| - 1, mem) == MemSize(ns)
  {
    FixedWire(ns, |ns| - 1);
    MemOffMonotone(ns, |ns| - 1, |ns|);
    assert MemOff(ns, |ns|) == TailAt(ns) + DeclaredSz(ns[|ns| - 1]);
  }
}
