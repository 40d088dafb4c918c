/**
 Message descriptors: tables of fields, and the sizes a table implies.

 A field occupies `elementSz * count` bytes in the memory form of a message. On the wire a
 variable field has as many elements as the size field in front of it says.
 */
module NetStructs {
  import opened Bytes

  datatype DataType = Integer | Uuid | Blob | BufferSize | StringUtf16 | Buffer | BufferRedundant

  datatype NetField = NetField(kind: DataType, elementSz: nat, count: nat)

  type NetStruct = seq<NetField>

  predicate IsVariable(f: NetField) {
    f.kind.StringUtf16? || f.kind.Buffer? || f.kind.BufferRedundant?
  }

  function DeclaredSz(f: NetField): nat {
    f.elementSz * f.count
  }

  /** Offset of field `i` in the memory form; `MemOff(ns, |ns|)` is the size of the whole form. */
  function MemOff(ns: NetStruct, i: nat): nat
    requires i <= |ns|
  {
    if i == 0 then 0 else MemOff(ns, i - 1) + DeclaredSz(ns[i - 1])
  }

  function MemSize(ns: NetStruct): nat {
    MemOff(ns, |ns|)
  }

  lemma {:induction false} MemOffMonotone(ns: NetStruct, i: nat, j: nat)
    requires i <= j <= |ns|
    ensures MemOff(ns, i) <= MemOff(ns, j)
  {
    if i < j {
      MemOffMonotone(ns, i, j - 1);
    }
  }

  /** The declared size of the first `idx` fields (of all of them when `idx` is large). */
  method NetStructCalcSz(ns: NetStruct, idx: nat) returns (size: nat)
    ensures size == MemOff(ns, Min(idx, |ns|))
  {
    size := 0;
    var i := 0;
    while i < |ns| && i < idx
      invariant i <= Min(idx, |ns|) && size == MemOff(ns, i)
    {
      size := size + ns[i].elementSz * ns[i].count;
      i := i + 1;
    }
  }

  // --- What the field macros guarantee of every table -----------------------------------------

  predicate SizeFieldOk(f: NetField) {
    f.kind.BufferSize? && f.count == 1 && f.elementSz in {1, 2, 4, 8}
  }

  predicate FieldOk(ns: NetStruct, i: nat)
    requires i < |ns|
  {
    var f := ns[i];
    && 0 < f.elementSz <= 0xFFFF
    && (!IsVariable(f) ==> f.count > 0)
    && (IsVariable(f) ==> i > 0 && SizeFieldOk(ns[i - 1]))
    && (f.kind.Buffer? || f.kind.BufferRedundant? ==> i + 1 == |ns|)
    && (f.kind.BufferRedundant? ==> ns[i - 1].elementSz % f.elementSz == 0)
  }

  predicate FieldsOk(ns: NetStruct) {
    forall i {:trigger ns[i]} :: 0 <= i < |ns| ==> FieldOk(ns, i)
  }

  predicate FixedButLast(ns: NetStruct) {
    forall i {:trigger ns[i]} :: 0 <= i < |ns| - 1 ==> !IsVariable(ns[i])
  }

  /** The shape the reader relies on; strings may stand anywhere behind a size field. */
  predicate WellFormed(ns: NetStruct) {
    && |ns| > 0
    && FieldsOk(ns)
    && MemSize(ns) < 0x1_0000_0000
  }

  /** Only the last field may be variable. Every table of the protocol is of this kind. */
  predicate TailVariable(ns: NetStruct) {
    WellFormed(ns) && FixedButLast(ns)
  }

  /** The bytes before a variable field include its size field. */
  lemma RoomForSizeField(ns: NetStruct, i: nat)
    requires WellFormed(ns) && i < |ns| && IsVariable(ns[i])
    ensures i > 0 && SizeFieldOk(ns[i - 1])
    ensures MemOff(ns, i) == MemOff(ns, i - 1) + ns[i - 1].elementSz
  {
    assert FieldOk(ns, i);
  }

  // --- The tables -----------------------------------------------------------------------------

  const UINT8 := NetField(Integer, 1, 1)
  const UINT16 := NetField(Integer, 2, 1)
  const UINT32 := NetField(Integer, 4, 1)
  const UUID := NetField(Uuid, 16, 1)

  function BlobField(size: nat): NetField {
    NetField(Blob, 1, size)
  }

  // A buffer is announced by a 32-bit size, a string by a 16-bit number of characters.
  const BUFFER := [NetField(BufferSize, 4, 1), NetField(Buffer, 1, 0)]
  const BUFFER_REDUNDANT := [NetField(BufferSize, 4, 1), NetField(BufferRedundant, 1, 0)]

  function StringFields(size: nat): NetStruct {
    [NetField(BufferSize, 2, 1), NetField(StringUtf16, 2, size)]
  }

  const CONNECTION_HEADER: NetStruct := [UINT8, UINT16, UINT32, UINT32, UINT32, UUID] + BUFFER_REDUNDANT
  const MSG_STD_HEADER: NetStruct := [UINT16]
  const ENCRYPT_HEADER: NetStruct := [UINT8, UINT8]
  const ENCRYPT_S2C: NetStruct := [UINT8, UINT8, BlobField(7)]

  const PING_REQUEST: NetStruct := [UINT16, UINT32, UINT32] + BUFFER
  const FILE_SRV_REQUEST: NetStruct := [UINT16, UINT32, UINT8]
  const AUTH_SRV_REQUEST: NetStruct := [UINT16, UINT32]
  const PING_REPLY: NetStruct := [UINT16, UINT32, UINT32] + BUFFER
  const FILE_SRV_REPLY: NetStruct := [UINT16, UINT32] + StringFields(24)

  /** The seed descriptor is built at run time, from the size the client announced. */
  function SeedStruct(size: nat): NetStruct {
    [BlobField(size)]
  }

  predicate TableOk(ns: NetStruct, size: nat) {
    TailVariable(ns) && MemSize(ns) == size
  }

  predicate OffsetsOf(ns: NetStruct, offsets: seq<nat>) {
    && |offsets| == |ns| + 1 && offsets[0] == 0
    && forall i :: 0 <= i < |ns| ==> offsets[i + 1] == offsets[i] + DeclaredSz(ns[i])
  }

  lemma {:induction false} OffsetsAreMemOff(ns: NetStruct, offsets: seq<nat>, i: nat)
    requires OffsetsOf(ns, offsets) && i <= |ns|
    ensures MemOff(ns, i) == offsets[i]
  {
    if i > 0 {
      OffsetsAreMemOff(ns, offsets, i - 1);
    }
  }

  lemma TableBy(ns: NetStruct, offsets: seq<nat>)
    requires OffsetsOf(ns, offsets) && |ns| > 0 && offsets[|ns|] < 0x1_0000_0000
    requires FieldsOk(ns) && FixedButLast(ns)
    ensures TableOk(ns, offsets[|ns|])
  {
    hide FieldsOk, FixedButLast;
    OffsetsAreMemOff(ns, offsets, |ns|);
  }

  lemma ConnectionTable()
    ensures TableOk(CONNECTION_HEADER, 35)
  {
    var c := CONNECTION_HEADER;
    assert FieldOk(c, 0) && FieldOk(c, 1) && FieldOk(c, 2) && FieldOk(c, 3);
    assert FieldOk(c, 4) && FieldOk(c, 5) && FieldOk(c, 6) && FieldOk(c, 7);
    TableBy(c, [0, 1, 3, 7, 11, 15, 31, 35, 35]);
  }

  lemma HandshakeTables(seedSize: nat)
    requires 0 < seedSize <= 64
    ensures TableOk(CONNECTION_HEADER, 35)
    ensures TableOk(ENCRYPT_HEADER, 2)
    ensures TableOk(SeedStruct(seedSize), seedSize)
    ensures TableOk(ENCRYPT_S2C, 9)
  {
    ConnectionTable();
    var e, s, r := ENCRYPT_HEADER, SeedStruct(seedSize), ENCRYPT_S2C;
    assert FieldOk(e, 0) && FieldOk(e, 1);
    TableBy(e, [0, 1, 2]);
    TableBy(s, [0, seedSize]);
    assert FieldOk(r, 0) && FieldOk(r, 1) && FieldOk(r, 2);
    TableBy(r, [0, 1, 2, 9]);
  }

  /** Where the fields of each message begin, and where it ends. */
  lemma FieldOffsets()
    ensures OffsetsOf(CONNECTION_HEADER, [0, 1, 3, 7, 11, 15, 31, 35, 35])
    ensures OffsetsOf(ENCRYPT_HEADER, [0, 1, 2]) && OffsetsOf(ENCRYPT_S2C, [0, 1, 2, 9])
    ensures OffsetsOf(MSG_STD_HEADER, [0, 2]) && OffsetsOf(PING_REQUEST, [0, 2, 6, 10, 14, 14])
    ensures OffsetsOf(FILE_SRV_REQUEST, [0, 2, 6, 7]) && OffsetsOf(AUTH_SRV_REQUEST, [0, 2, 6])
    ensures OffsetsOf(FILE_SRV_REPLY, [0, 2, 6, 8, 56])
  {
  }

  lemma PingTable()
    ensures TableOk(PING_REQUEST, 14)
  {
    var p := PING_REQUEST;
    assert FieldOk(p, 0) && FieldOk(p, 1) && FieldOk(p, 2) && FieldOk(p, 3) && FieldOk(p, 4);
    TableBy(p, [0, 2, 6, 10, 14, 14]);
  }

  lemma FileReplyTable()
    ensures TableOk(FILE_SRV_REPLY, 56)
  {
    var r := FILE_SRV_REPLY;
    assert FieldOk(r, 0) && FieldOk(r, 1) && FieldOk(r, 2) && FieldOk(r, 3);
    TableBy(r, [0, 2, 6, 8, 56]);
  }

  lemma RequestTables()
    ensures TableOk(MSG_STD_HEADER, 2)
    ensures TableOk(PING_REQUEST, 14)
    ensures TableOk(FILE_SRV_REQUEST, 7)
    ensures TableOk(AUTH_SRV_REQUEST, 6)
    ensures TableOk(FILE_SRV_REPLY, 56)
    ensures PING_REPLY == PING_REQUEST
  {
    PingTable();
    FileReplyTable();
    var f, a := FILE_SRV_REQUEST, AUTH_SRV_REQUEST;
    TableBy(MSG_STD_HEADER, [0, 2]);
    assert FieldOk(f, 0) && FieldOk(f, 1) && FieldOk(f, 2);
    TableBy(f, [0, 2, 6, 7]);
    assert FieldOk(a, 0) && FieldOk(a, 1);
    TableBy(a, [0, 2, 6]);
  }
}
