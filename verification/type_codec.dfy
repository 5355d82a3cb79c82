/**
 String fields of an encoded row.

 A row starts with a 2-byte version and the 4-byte total row length at
 offset 2, followed by a null bitmap. String fields are reached through a
 table of offset slots starting at `str_start_offset`; each slot is 1, 2,
 3 or 4 bytes wide (the "address space") and holds the row offset of the
 field's body. A body ends where the next field's body starts, and the last
 body ends at the total row length.
 */
module TypeCodec {
  import opened Wrappers
  import opened Bytes

  const VERSION_LENGTH: nat := 2
  const SIZE_LENGTH: nat := 4
  const HEADER_LENGTH: nat := VERSION_LENGTH + SIZE_LENGTH

  /** Slot width for a row of `size` bytes: the narrowest width able to hold every offset of the row. */
  function GetAddrLength(size: uint32): (r: nat)
    ensures 1 <= r <= 4
    ensures size < SlotRange(r)
    ensures r > 1 ==> size >= SlotRange(r - 1)
  {
    if size <= TWO_8 - 1 then 1
    else if size <= TWO_16 - 1 then 2
    else if size <= TWO_24 - 1 then 3
    else 4
  }

  /** A larger row never gets a narrower slot. */
  lemma GetAddrLengthMonotone(a: uint32, b: uint32)
    requires a <= b
    ensures GetAddrLength(a) <= GetAddrLength(b)
  {
  }

  // ---------------------------------------------------------------- null bitmap

  /** Position of the bitmap byte holding the null bit of column `col`. */
  function NullBytePos(col: nat): nat {
    HEADER_LENGTH + col / 8
  }

  /** Bit `col % 8` of the column's bitmap byte is its null flag. */
  predicate IsNullAt(row: Bytes, col: nat)
    requires NullBytePos(col) < |row|
  {
    BitAt(row[NullBytePos(col)], col % 8)
  }

  /** Set the null bit of column `col`; every other column keeps its null flag. */
  function SetNull(buf: Bytes, col: nat): (r: Bytes)
    requires NullBytePos(col) < |buf|
    ensures |r| == |buf|
    ensures IsNullAt(r, col)
    ensures forall i :: 0 <= i < |buf| && i != NullBytePos(col) ==> r[i] == buf[i]
  {
    var p := NullBytePos(col);
    buf[p := SetBit(buf[p], col % 8)]
  }

  /** Setting one column's null bit leaves every other column's flag as it was. */
  lemma SetNullKeepsOthers(buf: Bytes, col: nat, c: nat)
    requires NullBytePos(col) < |buf| && NullBytePos(c) < |buf|
    requires c != col
    ensures IsNullAt(SetNull(buf, col), c) <==> IsNullAt(buf, c)
  {
    if NullBytePos(c) == NullBytePos(col) {
      assert c % 8 != col % 8;
    }
  }

  // ---------------------------------------------------------------- writing

  /** Copy `val` into `buf` at `pos` (the `memcpy` of a string body). */
  function CopyInto(buf: Bytes, pos: nat, val: Bytes): (r: Bytes)
    requires pos + |val| <= |buf|
    ensures |r| == |buf|
    ensures r[pos..pos + |val|] == val
    ensures forall i :: 0 <= i < |buf| && !(pos <= i < pos + |val|) ==> r[i] == buf[i]
  {
    buf[..pos] + val + buf[pos + |val|..]
  }

  /** A writer's result: the buffer after the write and the `int32_t` it returns. */
  datatype Appended = Appended(buf: Bytes, ret: int)

  /** Address of slot `field` in a table of `space`-byte slots starting at `strStart`. */
  function SlotAddr(strStart: nat, field: nat, space: nat): nat {
    strStart + field * space
  }

  /** Slot position of the non-null path, computed in `uint32` arithmetic. */
  function SlotPos(strStart: uint32, strField: uint32, space: uint32): uint32 {
    SlotAddr(strStart, strField, space) % TWO_32
  }

  /** The non-null path's bounds check, computed in `uint32` arithmetic; it tests the
      slot position plus the body size, not the body offset. */
  predicate GuardPasses(bufSize: nat, strStart: uint32, strField: uint32, space: uint32, size: uint32) {
    (SlotPos(strStart, strField, space) + size) % TWO_32 <= bufSize
  }

  /** Slot position of the null path: its width comes from the buffer size, not from `space`. */
  function NullSlotPos(bufSize: uint32, strStart: uint32, strField: uint32): nat {
    SlotAddr(strStart, strField, GetAddrLength(bufSize))
  }

  /** Memory the caller must provide for a null append: the bitmap byte and the slot. */
  predicate NullWritable(bufSize: uint32, col: uint32, strStart: uint32, strField: uint32) {
    && NullBytePos(col) < bufSize
    && NullSlotPos(bufSize, strStart, strField) + GetAddrLength(bufSize) <= bufSize
  }

  /** Memory the caller must provide for a non-null append that passes the bounds check. */
  predicate ValueWritable(bufSize: nat, strStart: uint32, strField: uint32, space: uint32, bodyOffset: uint32, size: nat) {
    && SlotPos(strStart, strField, space) + SlotWidth(space) <= bufSize
    && bodyOffset + size <= bufSize
  }

  predicate Disjoint(a: nat, alen: nat, b: nat, blen: nat) {
    a + alen <= b || b + blen <= a
  }

  /** Setting a null bit and then writing bytes elsewhere keeps every other column's null flag. */
  lemma NullFlagsAfterWrite(buf: Bytes, flagged: Bytes, written: Bytes, col: uint32, slot: nat, w: nat)
    requires NullBytePos(col) < |buf| && flagged == SetNull(buf, col)
    requires |written| == |flagged|
    requires forall i :: 0 <= i < |flagged| && !(slot <= i < slot + w) ==> written[i] == flagged[i]
    ensures forall c: uint32 :: NullBytePos(c) < |buf| && c != col && Disjoint(NullBytePos(c), 1, slot, w) ==>
      (IsNullAt(written, c) <==> IsNullAt(buf, c))
  {
    forall c: uint32 | NullBytePos(c) < |buf| && c != col && Disjoint(NullBytePos(c), 1, slot, w)
      ensures IsNullAt(written, c) <==> IsNullAt(buf, c)
    {
      SetNullKeepsOthers(buf, col, c);
    }
  }

  /**
   The null path's writes: set the column's null bit and store `slotValue`, truncated, in
   slot `strField` of the width the buffer size selects. The body offset is returned
   unchanged as an `int32_t`.
   */
  function WriteNull(buf: Bytes, col: uint32, strStart: uint32, strField: uint32, bodyOffset: uint32, slotValue: nat): (r: Appended)
    requires |buf| < TWO_32
    requires NullWritable(|buf|, col, strStart, strField)
    ensures |r.buf| == |buf|
    ensures -TWO_31 <= r.ret < TWO_31 && r.ret % TWO_32 == bodyOffset
    ensures
      var w := GetAddrLength(|buf|);
      var slot := NullSlotPos(|buf|, strStart, strField);
      && ReadSlot(r.buf, slot, w) == slotValue % SlotRange(w)
      && (Disjoint(NullBytePos(col), 1, slot, w) ==> IsNullAt(r.buf, col))
      && (forall c: uint32 :: NullBytePos(c) < |buf| && c != col && Disjoint(NullBytePos(c), 1, slot, w) ==>
            (IsNullAt(r.buf, c) <==> IsNullAt(buf, c)))
      && (forall i :: 0 <= i < |buf| && i != NullBytePos(col) && !(slot <= i < slot + w) ==> r.buf[i] == buf[i])
  {
    var flagged := SetNull(buf, col);
    var w := GetAddrLength(|buf|);
    var slot := NullSlotPos(|buf|, strStart, strField);
    var written := WriteSlot(flagged, slot, w, slotValue);
    SlotRoundTrip(flagged, slot, w, slotValue);
    NullFlagsAfterWrite(buf, flagged, written, col, slot, w);
    Int32OfMod(bodyOffset);
    Appended(written, Int32Of(bodyOffset))
  }

  /**
   The null path as written: set the column's null bit and point the slot at the start of
   the body area, `str_start + width * field_cnt`, whatever the current body offset is.
   */
  function AppendNullField(buf: Bytes, col: uint32, strStart: uint32, strField: uint32,
                           bodyOffset: uint32, fieldCnt: uint32): (r: Appended)
    requires |buf| < TWO_32
    requires NullWritable(|buf|, col, strStart, strField)
    ensures |r.buf| == |buf|
    ensures -TWO_31 <= r.ret < TWO_31 && r.ret % TWO_32 == bodyOffset
    ensures bodyOffset < TWO_31 ==> r.ret == bodyOffset
    ensures
      var w := GetAddrLength(|buf|);
      var slot := NullSlotPos(|buf|, strStart, strField);
      && ReadSlot(r.buf, slot, w) == (strStart + w * fieldCnt) % SlotRange(w)
      && (Disjoint(NullBytePos(col), 1, slot, w) ==> IsNullAt(r.buf, col))
      && (forall i :: 0 <= i < |buf| && i != NullBytePos(col) && !(slot <= i < slot + w) ==> r.buf[i] == buf[i])
  {
    WriteNull(buf, col, strStart, strField, bodyOffset, strStart + GetAddrLength(|buf|) * fieldCnt)
  }

  /**
   The null path as evidently intended: the slot holds the current body offset, so a null
   field is an empty body and the field before it still ends where its own body ends.
   */
  function AppendNullFieldCorrected(buf: Bytes, col: uint32, strStart: uint32, strField: uint32,
                                    bodyOffset: uint32): (r: Appended)
    requires |buf| < TWO_32
    requires NullWritable(|buf|, col, strStart, strField)
    ensures |r.buf| == |buf|
    ensures -TWO_31 <= r.ret < TWO_31 && r.ret % TWO_32 == bodyOffset
    ensures
      var w := GetAddrLength(|buf|);
      var slot := NullSlotPos(|buf|, strStart, strField);
      && ReadSlot(r.buf, slot, w) == bodyOffset % SlotRange(w)
      && (Disjoint(NullBytePos(col), 1, slot, w) ==> IsNullAt(r.buf, col))
      && (forall c: uint32 :: NullBytePos(c) < |buf| && c != col && Disjoint(NullBytePos(c), 1, slot, w) ==>
            (IsNullAt(r.buf, c) <==> IsNullAt(buf, c)))
      && (forall i :: 0 <= i < |buf| && i != NullBytePos(col) && !(slot <= i < slot + w) ==> r.buf[i] == buf[i])
  {
    WriteNull(buf, col, strStart, strField, bodyOffset, bodyOffset)
  }

  /**
   The non-null path: check the bounds, write the body offset into the slot, copy the
   body. The next body offset is returned as an `int32_t`, -1 on a refusal.
   */
  function AppendValue(buf: Bytes, val: Bytes, strStart: uint32, strField: uint32, space: uint32,
                       bodyOffset: uint32): (r: Appended)
    requires |buf| < TWO_32 && |val| < TWO_32
    requires GuardPasses(|buf|, strStart, strField, space, |val|) ==>
               ValueWritable(|buf|, strStart, strField, space, bodyOffset, |val|)
    ensures |r.buf| == |buf|
    ensures -TWO_31 <= r.ret < TWO_31
    // rejected: nothing is written
    ensures !GuardPasses(|buf|, strStart, strField, space, |val|) ==> r == Appended(buf, -1)
    // accepted: the body is in place, the slot holds its offset, the next body offset is returned
    ensures GuardPasses(|buf|, strStart, strField, space, |val|) ==>
      var w := SlotWidth(space);
      var slot := SlotPos(strStart, strField, space);
      && r.ret % TWO_32 == bodyOffset + |val|
      && r.buf[bodyOffset..bodyOffset + |val|] == val
      && (Disjoint(slot, w, bodyOffset, |val|) ==> ReadSlot(r.buf, slot, w) == bodyOffset % SlotRange(w))
      && (forall i :: 0 <= i < |buf| && !(slot <= i < slot + w) && !(bodyOffset <= i < bodyOffset + |val|) ==> r.buf[i] == buf[i])
  {
    if !GuardPasses(|buf|, strStart, strField, space, |val|) then
      Appended(buf, -1)
    else
      Int32OfMod(bodyOffset + |val|);
      Appended(WriteValue(buf, SlotPos(strStart, strField, space), SlotWidth(space), bodyOffset, val),
               Int32Of(bodyOffset + |val|))
  }

  /** The non-null path's writes: the body offset into the slot, then the body (skipped when empty). */
  function WriteValue(buf: Bytes, slot: nat, w: nat, bodyOffset: nat, val: Bytes): (r: Bytes)
    requires 1 <= w <= 4 && slot + w <= |buf| && bodyOffset + |val| <= |buf|
    ensures |r| == |buf|
    ensures r[bodyOffset..bodyOffset + |val|] == val
    ensures Disjoint(slot, w, bodyOffset, |val|) ==> ReadSlot(r, slot, w) == bodyOffset % SlotRange(w)
    ensures forall i :: 0 <= i < |buf| && !(slot <= i < slot + w) && !(bodyOffset <= i < bodyOffset + |val|) ==> r[i] == buf[i]
  {
    var withSlot := WriteSlot(buf, slot, w, bodyOffset);
    SlotRoundTrip(buf, slot, w, bodyOffset);
    var withBody := if |val| != 0 then CopyInto(withSlot, bodyOffset, val) else withSlot;
    assert Disjoint(slot, w, bodyOffset, |val|) ==> ReadSlot(withBody, slot, w) == ReadSlot(withSlot, slot, w) by {
      if Disjoint(slot, w, bodyOffset, |val|) {
        ReadSlotFrame(withBody, withSlot, slot, w);
      }
    }
    withBody
  }

  /** What the caller of a string append must provide, on whichever path the value takes. */
  predicate AppendWritable(bufSize: nat, col: uint32, size: nat, isNull: bool, strStart: uint32, strField: uint32,
                           space: uint32, bodyOffset: uint32)
  {
    && bufSize < TWO_32 && size < TWO_32
    && (isNull ==> NullWritable(bufSize, col, strStart, strField))
    && (!isNull && GuardPasses(bufSize, strStart, strField, space, size) ==>
          ValueWritable(bufSize, strStart, strField, space, bodyOffset, size))
  }

  /**
   Write string field number `strField` of a row under construction: a null value takes
   the null path as written, any other value the non-null path. The return value is the
   next body offset, or -1 when the bounds check rejects the value.
   */
  function AppendString(buf: Bytes, col: uint32, val: Bytes, isNull: bool,
                        strStart: uint32, strField: uint32, space: uint32,
                        bodyOffset: uint32, fieldCnt: uint32): (r: Appended)
    requires AppendWritable(|buf|, col, |val|, isNull, strStart, strField, space, bodyOffset)
    ensures |r.buf| == |buf|
    ensures isNull ==> r == AppendNullField(buf, col, strStart, strField, bodyOffset, fieldCnt)
    ensures !isNull ==> r == AppendValue(buf, val, strStart, strField, space, bodyOffset)
  {
    if isNull then AppendNullField(buf, col, strStart, strField, bodyOffset, fieldCnt)
    else AppendValue(buf, val, strStart, strField, space, bodyOffset)
  }

  /** `AppendString` with the null path corrected; the non-null path is the same. */
  function AppendStringCorrected(buf: Bytes, col: uint32, val: Bytes, isNull: bool,
                                 strStart: uint32, strField: uint32, space: uint32,
                                 bodyOffset: uint32): (r: Appended)
    requires AppendWritable(|buf|, col, |val|, isNull, strStart, strField, space, bodyOffset)
    ensures |r.buf| == |buf|
    ensures isNull ==> r == AppendNullFieldCorrected(buf, col, strStart, strField, bodyOffset)
    ensures !isNull ==> r == AppendValue(buf, val, strStart, strField, space, bodyOffset)
  {
    if isNull then AppendNullFieldCorrected(buf, col, strStart, strField, bodyOffset)
    else AppendValue(buf, val, strStart, strField, space, bodyOffset)
  }

  // ---------------------------------------------------------------- reading

  /** Outcome of decoding a string field: an error code, or the body's offset and length. */
  datatype FieldRead = Failed(code: int) | Read(offset: uint32, size: uint32)

  /** Memory the reader touches for a known address space: both slots, or the
      total-length field when there is no next string field. */
  predicate SlotsReadable(row: Bytes, fieldOffset: uint32, nextFieldOffset: uint32, strStart: uint32, space: uint32) {
    1 <= space <= 4 ==>
      && SlotAddr(strStart, fieldOffset, space) + space <= |row|
      && (nextFieldOffset > 0 ==> SlotAddr(strStart, nextFieldOffset, space) + space <= |row|)
      && (nextFieldOffset == 0 ==> VERSION_LENGTH + SIZE_LENGTH <= |row|)
  }

  /** Offset of the field's body and the offset where it ends. */
  function FieldBounds(row: Bytes, fieldOffset: uint32, nextFieldOffset: uint32, strStart: uint32, space: uint32): (r: (nat, nat))
    requires 1 <= space <= 4
    requires SlotsReadable(row, fieldOffset, nextFieldOffset, strStart, space)
  {
    var start := ReadSlot(row, SlotAddr(strStart, fieldOffset, space), space);
    var end := if nextFieldOffset > 0 then ReadSlot(row, SlotAddr(strStart, nextFieldOffset, space), space)
               else ReadU32(row, VERSION_LENGTH);
    (start, end)
  }

  /**
   Locate string field `fieldOffset` without looking at the null bitmap. A missing row or
   output gives -1, an unknown address space -2; otherwise the body starts at the slot's
   offset and its length is the distance to the next field's offset, or to the total row
   length for the last field, subtracted in `uint32` arithmetic.
   */
  function GetStrFieldUnsafe(row: Option<Bytes>, outputs: bool, fieldOffset: uint32, nextFieldOffset: uint32,
                             strStart: uint32, space: uint32): (r: FieldRead)
    requires row.Some? && outputs ==> SlotsReadable(row.value, fieldOffset, nextFieldOffset, strStart, space)
    ensures r.Failed? ==> r.code == -1 || r.code == -2
    ensures r == Failed(-1) <==> row.None? || !outputs
    ensures r == Failed(-2) <==> row.Some? && outputs && !(1 <= space <= 4)
    ensures r.Read? ==>
      var (start, end) := FieldBounds(row.value, fieldOffset, nextFieldOffset, strStart, space);
      && r.offset == start
      && (start <= end ==> r.size == end - start)
      // an end before the start wraps around
      && (start > end ==> r.size == TWO_32 - (start - end))
  {
    if row.None? || !outputs then Failed(-1)
    else if !(1 <= space <= 4) then Failed(-2)
    else
      var b := FieldBounds(row.value, fieldOffset, nextFieldOffset, strStart, space);
      Read(b.0, (b.1 - b.0) % TWO_32)
  }

  /** The bytes a successful read points at, when they lie inside the row. */
  function FieldBytes(row: Bytes, r: FieldRead): Option<Bytes>
    requires r.Read?
  {
    if r.offset + r.size <= |row| then Some(row[r.offset..r.offset + r.size]) else None
  }

  datatype NullableField = NullField | Field(read: FieldRead)

  /** Requirement of the null-aware reader: the bitmap byte, and the slots when the field is not null. */
  predicate FieldReadable(row: Bytes, col: uint32, fieldOffset: uint32, nextFieldOffset: uint32, strStart: uint32, space: uint32) {
    && NullBytePos(col) < |row|
    && (!IsNullAt(row, col) ==> SlotsReadable(row, fieldOffset, nextFieldOffset, strStart, space))
  }

  /**
   Null-aware read: a missing row or a set null bit reports null (return code 0) before the
   output pointers (`outputs`) are looked at; otherwise the bitmap-blind reader decides.
   */
  function GetStrField(row: Option<Bytes>, outputs: bool, col: uint32, fieldOffset: uint32, nextFieldOffset: uint32,
                       strStart: uint32, space: uint32): (r: NullableField)
    requires row.Some? ==> FieldReadable(row.value, col, fieldOffset, nextFieldOffset, strStart, space)
    ensures r.NullField? <==> row.None? || IsNullAt(row.value, col)
    ensures r.Field? ==> r.read == GetStrFieldUnsafe(row, outputs, fieldOffset, nextFieldOffset, strStart, space)
  {
    if row.None? || IsNullAt(row.value, col) then NullField
    else Field(GetStrFieldUnsafe(row, outputs, fieldOffset, nextFieldOffset, strStart, space))
  }

  /** Return code of the null-aware reader. */
  function StatusOf(r: NullableField): int {
    match r
    case NullField => 0
    case Field(Failed(code)) => code
    case Field(Read(_, _)) => 0
  }

  // ---------------------------------------------------------------- reading from an IOBuf

  /** What `IOBuf::append_to(out, n, pos)` appends: at most `n` bytes from `pos`, fewer at the end of the buffer. */
  function IOBufRange(row: Bytes, pos: nat, n: nat): (r: Bytes)
    ensures |r| <= n
    ensures pos + n <= |row| ==> r == row[pos..pos + n]
  {
    if pos >= |row| then [] else if pos + n <= |row| then row[pos..pos + n] else row[pos..]
  }

  /** An offset computed in `uint32` and stored in an `int32_t` position variable. */
  function Pos32(x: int): (r: int)
    ensures -TWO_31 <= r < TWO_31
    ensures 0 <= x < TWO_31 ==> r == x
  {
    Int32Of(x % TWO_32)
  }

  /**
   `IOBuf::copy_to(dst, |dst|, pos)`: the row's bytes from `pos` overwrite a prefix of
   `dst`, as many as the row still has. A negative `int32_t` position becomes a huge
   `size_t` and copies nothing, as does a position at or past the end.
   */
  function CopyTo(row: Bytes, dst: Bytes, pos: int): (r: Bytes)
    ensures |r| == |dst|
    ensures 0 <= pos && pos + |dst| <= |row| ==> r == row[pos..pos + |dst|]
    ensures pos < 0 || pos >= |row| ==> r == dst
  {
    if pos < 0 || pos >= |row| then dst
    else
      var n := if pos + |dst| <= |row| then |dst| else |row| - pos;
      row[pos..pos + n] + dst[n..]
  }

  /** Byte by byte, a copy takes the row's byte where the row has one and keeps the destination's elsewhere. */
  lemma CopyToAt(row: Bytes, dst: Bytes, pos: int, i: nat)
    requires i < |dst|
    ensures CopyTo(row, dst, pos)[i] == if 0 <= pos && pos + i < |row| then row[pos + i] else dst[i]
  {
  }

  /** An offset assembled by the `IOBuf` reader, and the temporary it leaves for the next read. */
  datatype SlotScan = SlotScan(value: nat, tmp: Bytes)

  /** Width of the temporary the `IOBuf` reader copies one slot through. */
  function TmpWidth(space: nat): nat {
    if space == 2 then 2 else if space == 4 then 4 else 1
  }

  /** The zero-initialised temporary for address space `space`. */
  function ZeroTmp(space: nat): (r: Bytes)
    ensures |r| == TmpWidth(space)
  {
    if space == 2 then [0, 0] else if space == 4 then [0, 0, 0, 0] else [0]
  }

  /**
   The `IOBuf` reader's read of slot `field`: widths 1 and 2 copy the whole slot at once,
   width 3 copies its three bytes one at a time (most significant first) through a
   one-byte temporary, width 4 copies straight into the offset. A short copy leaves the
   temporary's remaining bytes as they were.
   */
  function ScanSlot(row: Bytes, strStart: uint32, field: uint32, space: nat, tmp: Bytes): (r: SlotScan)
    requires 1 <= space <= 4 && |tmp| == TmpWidth(space)
    ensures |r.tmp| == |tmp|
  {
    ScanAt(row, Pos32(strStart + field * space), space, tmp)
  }

  /** The read of a slot at the `int32_t` position `pos`. */
  function ScanAt(row: Bytes, pos: int, space: nat, tmp: Bytes): (r: SlotScan)
    requires 1 <= space <= 4 && |tmp| == TmpWidth(space)
    ensures |r.tmp| == |tmp|
  {
    if space == 3 then
      var b0 := CopyTo(row, tmp, pos);
      var b1 := CopyTo(row, b0, Pos32(pos + 1));
      var b2 := CopyTo(row, b1, Pos32(pos + 2));
      SlotScan((b0[0] as int * 256 + b1[0] as int) * 256 + b2[0] as int, b2)
    else
      var t := CopyTo(row, tmp, pos);
      SlotScan(LittleEndian(t), t)
  }

  /**
   The offsets the `IOBuf` reader ends up with. Widths 1 to 3 read the next slot through
   the temporary the first read left behind; width 4 reads each offset into its own
   zero-initialised variable, and the total length into a third.
   */
  function IOBufBounds(row: Bytes, fieldOffset: uint32, nextFieldOffset: uint32, strStart: uint32, space: uint32): (r: (nat, nat))
    requires 1 <= space <= 4
  {
    var first := ScanSlot(row, strStart, fieldOffset, space, ZeroTmp(space));
    var end := if nextFieldOffset > 0 then ScanSlot(row, strStart, nextFieldOffset, space, if space == 4 then ZeroTmp(4) else first.tmp).value
               else LittleEndian(CopyTo(row, [0, 0, 0, 0], VERSION_LENGTH));
    (first.value, end)
  }

  /** The `IOBuf` reader sees what the pointer reader sees whenever the slots lie inside a row shorter than 2^31 bytes. */
  lemma IOBufBoundsAgree(row: Bytes, fieldOffset: uint32, nextFieldOffset: uint32, strStart: uint32, space: uint32)
    requires 1 <= space <= 4 && |row| < TWO_31
    requires SlotsReadable(row, fieldOffset, nextFieldOffset, strStart, space)
    ensures IOBufBounds(row, fieldOffset, nextFieldOffset, strStart, space) == FieldBounds(row, fieldOffset, nextFieldOffset, strStart, space)
  {
    var first := ScanSlot(row, strStart, fieldOffset, space, ZeroTmp(space));
    ScanSlotAgrees(row, strStart, fieldOffset, space, ZeroTmp(space));
    if nextFieldOffset > 0 {
      ScanSlotAgrees(row, strStart, nextFieldOffset, space, if space == 4 then ZeroTmp(4) else first.tmp);
    } else {
      ReadSlotLittleEndian(row, VERSION_LENGTH, 4);
    }
  }

  /** A slot inside a row shorter than 2^31 bytes is read whole, whatever the temporary held. */
  lemma ScanSlotAgrees(row: Bytes, strStart: uint32, field: uint32, space: nat, tmp: Bytes)
    requires 1 <= space <= 4 && |tmp| == TmpWidth(space) && |row| < TWO_31
    requires SlotAddr(strStart, field, space) + space <= |row|
    ensures ScanSlot(row, strStart, field, space, tmp).value == ReadSlot(row, SlotAddr(strStart, field, space), space)
  {
    var pos := SlotAddr(strStart, field, space);
    assert Pos32(strStart + field * space) == pos;
    ScanAtAgrees(row, pos, space, tmp);
  }

  /** A read at a position inside the row gives the slot's value for every width. */
  lemma ScanAtAgrees(row: Bytes, pos: nat, space: nat, tmp: Bytes)
    requires 1 <= space <= 4 && |tmp| == TmpWidth(space) && |row| < TWO_31
    requires pos + space <= |row|
    ensures ScanAt(row, pos, space, tmp).value == ReadSlot(row, pos, space)
  {
    if space == 2 || space == 4 {
      ReadSlotLittleEndian(row, pos, space);
    } else if space == 3 {
      assert Pos32(pos + 1) == pos + 1 && Pos32(pos + 2) == pos + 2;
    } else {
      var t := CopyTo(row, tmp, pos);
      assert t == [row[pos]];
      assert LittleEndian(t[1..]) == 0;
    }
  }

  /**
   With one-byte slots, a next slot past the end of the row leaves the next offset equal
   to the field's own: the temporary still holds the first read, and the body comes out empty.
   */
  lemma IOBufShortNextReusesTmp(row: Bytes, fieldOffset: uint32, nextFieldOffset: uint32, strStart: uint32)
    requires |row| < TWO_31 && strStart + fieldOffset < |row|
    requires nextFieldOffset > 0 && |row| <= strStart + nextFieldOffset < TWO_31
    ensures IOBufBounds(row, fieldOffset, nextFieldOffset, strStart, 1) == (row[strStart + fieldOffset], row[strStart + fieldOffset])
  {
    var first := ScanSlot(row, strStart, fieldOffset, 1, ZeroTmp(1));
    assert first.tmp == [row[strStart + fieldOffset]];
    assert LittleEndian(first.tmp[1..]) == 0;
    var next := ScanSlot(row, strStart, nextFieldOffset, 1, first.tmp);
    assert next.tmp == first.tmp;
  }

  /**
   The `IOBuf` variant: no null check, the slots decoded as above, and the body appended to
   the existing contents of `output` (-1 when there is no output, -2 for an unknown width).
   */
  /** The bytes an `IOBuf` read appends for the offsets `b`: the length is their `uint32` difference. */
  function BoundedRange(row: Bytes, b: (nat, nat)): (r: Bytes)
    ensures |r| < TWO_32
  {
    IOBufRange(row, b.0, (b.1 - b.0) % TWO_32)
  }

  function GetStrFieldIOBuf(row: Bytes, fieldOffset: uint32, nextFieldOffset: uint32, strStart: uint32,
                            space: uint32, output: Option<Bytes>): (r: Result<Bytes, int>)
    ensures r.Failure? <==> output.None? || !(1 <= space <= 4)
    ensures r.Failure? ==> r.error == (if output.None? then -1 else -2)
    ensures r.Success? ==> output.value <= r.value && |r.value| - |output.value| < TWO_32
  {
    if output.None? then Failure(-1)
    else if !(1 <= space <= 4) then Failure(-2)
    else
      Success(output.value + BoundedRange(row, IOBufBounds(row, fieldOffset, nextFieldOffset, strStart, space)))
  }

  /**
   When the slots lie inside a row shorter than 2^31 bytes, the `IOBuf` variant appends
   exactly the body the pointer variant points at.
   */
  lemma GetStrFieldIOBufAgrees(row: Bytes, fieldOffset: uint32, nextFieldOffset: uint32, strStart: uint32,
                               space: uint32, output: Bytes)
    requires 1 <= space <= 4 && |row| < TWO_31
    requires SlotsReadable(row, fieldOffset, nextFieldOffset, strStart, space)
    ensures var rd := GetStrFieldUnsafe(Some(row), true, fieldOffset, nextFieldOffset, strStart, space);
      && rd.Read?
      && (FieldBytes(row, rd).Some? ==>
            GetStrFieldIOBuf(row, fieldOffset, nextFieldOffset, strStart, space, Some(output)) == Success(output + FieldBytes(row, rd).value))
  {
    IOBufBoundsAgree(row, fieldOffset, nextFieldOffset, strStart, space);
    var b := FieldBounds(row, fieldOffset, nextFieldOffset, strStart, space);
    IOBufAppends(row, fieldOffset, nextFieldOffset, strStart, space, output, b);
    UnsafeReadsBounds(row, fieldOffset, nextFieldOffset, strStart, space, b);
    var rd := GetStrFieldUnsafe(Some(row), true, fieldOffset, nextFieldOffset, strStart, space);
    AppendedRange(row, output, b, rd, GetStrFieldIOBuf(row, fieldOffset, nextFieldOffset, strStart, space, Some(output)));
  }

  /** The pointer reader's result in terms of the slot offsets it reads. */
  lemma UnsafeReadsBounds(row: Bytes, fieldOffset: uint32, nextFieldOffset: uint32, strStart: uint32, space: uint32, b: (nat, nat))
    requires 1 <= space <= 4
    requires SlotsReadable(row, fieldOffset, nextFieldOffset, strStart, space)
    requires b == FieldBounds(row, fieldOffset, nextFieldOffset, strStart, space)
    ensures GetStrFieldUnsafe(Some(row), true, fieldOffset, nextFieldOffset, strStart, space) == Read(b.0, (b.1 - b.0) % TWO_32)
  {
  }

  /** Appending the range a read bounds appends the read's bytes whenever they lie inside the row. */
  lemma AppendedRange(row: Bytes, output: Bytes, b: (nat, nat), rd: FieldRead, io: Result<Bytes, int>)
    requires rd.Read? && rd.offset == b.0 && rd.size == (b.1 - b.0) % TWO_32
    requires io == Success(output + BoundedRange(row, b))
    ensures FieldBytes(row, rd).Some? ==> io == Success(output + FieldBytes(row, rd).value)
  {
  }

  /** The `IOBuf` variant appends the range its offsets bound. */
  lemma IOBufAppends(row: Bytes, fieldOffset: uint32, nextFieldOffset: uint32, strStart: uint32,
                     space: uint32, output: Bytes, b: (nat, nat))
    requires 1 <= space <= 4
    requires IOBufBounds(row, fieldOffset, nextFieldOffset, strStart, space) == b
    ensures GetStrFieldIOBuf(row, fieldOffset, nextFieldOffset, strStart, space, Some(output))
      == Success(output + BoundedRange(row, b))
  {
  }

  // ---------------------------------------------------------------- round trip

  /** Where field `k`'s body starts when the bodies of `vals` are laid out back to back from `base`. */
  function BodyStart(vals: seq<Bytes>, base: nat, k: nat): (r: nat)
    requires k <= |vals|
    ensures r >= base
  {
    if k == 0 then base else BodyStart(vals, base, k - 1) + |vals[k - 1]|
  }

  lemma {:induction false} BodyStartMonotone(vals: seq<Bytes>, base: nat, j: nat, k: nat)
    requires j <= k <= |vals|
    ensures BodyStart(vals, base, j) <= BodyStart(vals, base, k)
    decreases k - j
  {
    if j < k {
      BodyStartMonotone(vals, base, j, k - 1);
    }
  }

  /** Position of slot `k`, built up one slot at a time. */
  function SlotOf(strStart: nat, space: nat, k: nat): (r: nat)
    ensures r >= strStart
  {
    if k == 0 then strStart else SlotOf(strStart, space, k - 1) + space
  }

  lemma {:induction false} SlotOfIsAddr(strStart: nat, space: nat, k: nat)
    ensures SlotOf(strStart, space, k) == SlotAddr(strStart, k, space)
  {
    if k > 0 {
      SlotOfIsAddr(strStart, space, k - 1);
      assert k * space == (k - 1) * space + space;
    }
  }

  lemma {:induction false} SlotOfMonotone(strStart: nat, space: nat, j: nat, k: nat)
    requires j <= k
    ensures SlotOf(strStart, space, j) + (k - j) * space == SlotOf(strStart, space, k)
    decreases k - j
  {
    if j < k {
      SlotOfMonotone(strStart, space, j, k - 1);
      assert (k - j) * space == (k - 1 - j) * space + space;
    }
  }

  /** Slot `j` ends where a later slot `k` can start at the earliest. */
  lemma {:induction false} SlotOfOrdered(strStart: nat, space: nat, j: nat, k: nat)
    requires j < k
    ensures SlotOf(strStart, space, j) + space <= SlotOf(strStart, space, k)
    decreases k - j
  {
    if j + 1 < k {
      SlotOfOrdered(strStart, space, j, k - 1);
    }
  }

  /**
   The layout a row builder uses for a buffer of `size` bytes: the slot width fits the
   buffer, the slot table sits after the header and before the bodies, and all bodies fit.
   */
  predicate Layout(size: nat, vals: seq<Bytes>, strStart: uint32, space: uint32, base: nat) {
    && size < TWO_32
    && |vals| < TWO_32
    && space == GetAddrLength(size)
    && HEADER_LENGTH <= strStart
    && SlotOf(strStart, space, |vals|) <= base
    && BodyStart(vals, base, |vals|) <= size
  }

  /** The slot width is one of the four widths, and the slots and bodies lie inside the row. */
  lemma LayoutFits(size: nat, vals: seq<Bytes>, strStart: uint32, space: uint32, base: nat)
    requires Layout(size, vals, strStart, space, base)
    ensures 1 <= space <= 4
    ensures HEADER_LENGTH <= strStart <= base <= size
  {
  }

  /** Slot `k` lies before the bodies, and body `k` inside the buffer. */
  lemma LayoutBounds(size: nat, vals: seq<Bytes>, strStart: uint32, space: uint32, base: nat, k: nat)
    requires Layout(size, vals, strStart, space, base)
    requires k < |vals|
    ensures SlotOf(strStart, space, k) + space <= base
    ensures SlotOf(strStart, space, k + 1) == SlotOf(strStart, space, k) + space
    ensures BodyStart(vals, base, k) + |vals[k]| == BodyStart(vals, base, k + 1) <= BodyStart(vals, base, |vals|)
  {
    SlotOfMonotone(strStart, space, k + 1, |vals|);
    BodyStartMonotone(vals, base, k + 1, |vals|);
  }

  /** Field `j`'s slot holds its body offset and its body holds its bytes. */
  predicate FieldPlaced(r: Bytes, vals: seq<Bytes>, strStart: uint32, space: uint32, base: nat, j: nat)
    requires 1 <= space <= 4
    requires j < |vals|
  {
    && SlotOf(strStart, space, j) + space <= |r|
    && BodyStart(vals, base, j + 1) <= |r|
    && ReadSlot(r, SlotOf(strStart, space, j), space) == BodyStart(vals, base, j)
    && r[BodyStart(vals, base, j)..BodyStart(vals, base, j + 1)] == vals[j]
  }

  /** The two rows differ at most in slot `k`, body `k` and the bitmap byte `flag`. */
  predicate OnlyFieldChanged(before: Bytes, after: Bytes, vals: seq<Bytes>, strStart: uint32, space: uint32, base: nat, k: nat, flag: nat)
    requires k < |vals|
  {
    && |after| == |before|
    && forall i :: (0 <= i < |before| && i != flag && !(SlotOf(strStart, space, k) <= i < SlotOf(strStart, space, k) + space)
                    && !(BodyStart(vals, base, k) <= i < BodyStart(vals, base, k + 1))) ==> after[i] == before[i]
  }

  lemma ModOfSmall(x: nat, m: nat)
    requires x < m
    ensures x % m == x
  {
  }

  /** The facts about field `k` of a layout that make its append pass the bounds check. */
  lemma AppendFieldFacts(size: nat, vals: seq<Bytes>, strStart: uint32, space: uint32, base: nat, k: nat)
    requires Layout(size, vals, strStart, space, base)
    requires k < |vals|
    ensures BodyStart(vals, base, k) < TWO_32 && |vals[k]| < TWO_32
    ensures SlotPos(strStart, k, space) == SlotOf(strStart, space, k)
    ensures GuardPasses(size, strStart, k, space, |vals[k]|)
    ensures ValueWritable(size, strStart, k, space, BodyStart(vals, base, k), |vals[k]|)
    ensures SlotWidth(space) == space
    ensures Disjoint(SlotOf(strStart, space, k), space, BodyStart(vals, base, k), |vals[k]|)
    ensures BodyStart(vals, base, k) % SlotRange(space) == BodyStart(vals, base, k)
  {
    LayoutBounds(size, vals, strStart, space, base, k);
    SlotOfIsAddr(strStart, space, k);
    var slot := SlotOf(strStart, space, k);
    assert slot + |vals[k]| <= size;
    ModOfSmall(slot, TWO_32);
    ModOfSmall(slot + |vals[k]|, TWO_32);
    ModOfSmall(BodyStart(vals, base, k), SlotRange(space));
  }

  /** Column `cols[k]` holds the null flag of string field `k`: the columns differ, and their bitmap bytes lie before the slot table. */
  predicate NullColumns(cols: seq<uint32>, n: nat, strStart: nat) {
    && |cols| == n
    && (forall k :: 0 <= k < n ==> NullBytePos(cols[k]) < strStart)
    && (forall j, k :: 0 <= j < k < n ==> cols[j] != cols[k])
  }

  /** The bodies a row builder lays out: a null value takes no bytes. */
  function Bodies(vals: seq<Option<Bytes>>): (r: seq<Bytes>)
    ensures |r| == |vals|
    ensures forall k :: 0 <= k < |vals| ==> r[k] == if vals[k].Some? then vals[k].value else []
  {
    seq(|vals|, k requires 0 <= k < |vals| => if vals[k].Some? then vals[k].value else [])
  }

  /** The bitmap bytes of the first `k` string columns. */
  function FlagBytes(cols: seq<uint32>, k: nat): set<nat>
    requires k <= |cols|
  {
    set j | 0 <= j < k :: NullBytePos(cols[j])
  }

  /** One more column adds its bitmap byte. */
  lemma FlagBytesGrow(cols: seq<uint32>, k: nat)
    requires k < |cols|
    ensures FlagBytes(cols, k + 1) == FlagBytes(cols, k) + {NullBytePos(cols[k])}
  {
    forall x | x in FlagBytes(cols, k + 1)
      ensures x in FlagBytes(cols, k) + {NullBytePos(cols[k])}
    {
      var j :| 0 <= j < k + 1 && x == NullBytePos(cols[j]);
      if j < k {
        assert x in FlagBytes(cols, k);
      }
    }
    forall x | x in FlagBytes(cols, k)
      ensures x in FlagBytes(cols, k + 1)
    {
      var j :| 0 <= j < k && x == NullBytePos(cols[j]);
      assert NullBytePos(cols[j]) in FlagBytes(cols, k + 1);
    }
    assert NullBytePos(cols[k]) in FlagBytes(cols, k + 1);
  }

  /**
   Appending value `k` of a layout with the corrected null path: a null value sets its
   column's flag and points the slot at the current body offset, any other value passes
   the bounds check and is placed. Either way the field is in place, the next body offset
   is returned, the only flag set is the field's own, and nothing else changes.
   */
  lemma AppendFieldStep(buf: Bytes, vals: seq<Option<Bytes>>, cols: seq<uint32>, strStart: uint32, space: uint32, base: nat, k: nat)
    requires Layout(|buf|, Bodies(vals), strStart, space, base)
    requires NullColumns(cols, |vals|, strStart)
    requires k < |vals|
    ensures BodyStart(Bodies(vals), base, k) < TWO_32
    ensures AppendWritable(|buf|, cols[k], |Bodies(vals)[k]|, vals[k].None?, strStart, k, space, BodyStart(Bodies(vals), base, k))
    ensures var a := AppendStringCorrected(buf, cols[k], Bodies(vals)[k], vals[k].None?, strStart, k, space, BodyStart(Bodies(vals), base, k));
      && a.ret % TWO_32 == BodyStart(Bodies(vals), base, k + 1)
      && FieldPlaced(a.buf, Bodies(vals), strStart, space, base, k)
      && OnlyFieldChanged(buf, a.buf, Bodies(vals), strStart, space, base, k, NullBytePos(cols[k]))
      && (forall c: uint32 :: NullBytePos(c) < strStart ==> (IsNullAt(a.buf, c) <==> IsNullAt(buf, c) || (vals[k].None? && c == cols[k])))
  {
    var bodies := Bodies(vals);
    AppendFieldFacts(|buf|, bodies, strStart, space, base, k);
    LayoutBounds(|buf|, bodies, strStart, space, base, k);
    if vals[k].None? {
      NullFieldStep(buf, bodies, cols[k], strStart, space, base, k);
    } else {
      ValueFieldStep(buf, bodies, strStart, space, base, k);
    }
  }

  /** A null field of a layout, written by the corrected null path. */
  lemma NullFieldStep(buf: Bytes, bodies: seq<Bytes>, col: uint32, strStart: uint32, space: uint32, base: nat, k: nat)
    requires Layout(|buf|, bodies, strStart, space, base)
    requires k < |bodies| && bodies[k] == [] && NullBytePos(col) < strStart
    ensures BodyStart(bodies, base, k) < TWO_32
    ensures NullWritable(|buf|, col, strStart, k)
    ensures var a := AppendNullFieldCorrected(buf, col, strStart, k, BodyStart(bodies, base, k));
      && a.ret % TWO_32 == BodyStart(bodies, base, k + 1)
      && FieldPlaced(a.buf, bodies, strStart, space, base, k)
      && OnlyFieldChanged(buf, a.buf, bodies, strStart, space, base, k, NullBytePos(col))
      && (forall c: uint32 :: NullBytePos(c) < strStart ==> (IsNullAt(a.buf, c) <==> IsNullAt(buf, c) || c == col))
  {
    AppendFieldFacts(|buf|, bodies, strStart, space, base, k);
    LayoutBounds(|buf|, bodies, strStart, space, base, k);
    SlotOfIsAddr(strStart, space, k);
    var slot := SlotOf(strStart, space, k);
    assert NullSlotPos(|buf|, strStart, k) == slot;
    var b := BodyStart(bodies, base, k);
    var a := AppendNullFieldCorrected(buf, col, strStart, k, b);
    assert ReadSlot(a.buf, slot, space) == b;
    assert a.buf[b..b] == bodies[k];
    forall c: uint32 | NullBytePos(c) < strStart
      ensures IsNullAt(a.buf, c) <==> IsNullAt(buf, c) || c == col
    {
      assert Disjoint(NullBytePos(c), 1, slot, space);
    }
  }

  /** A non-null field of a layout: it passes the bounds check and leaves the bitmap alone. */
  lemma ValueFieldStep(buf: Bytes, bodies: seq<Bytes>, strStart: uint32, space: uint32, base: nat, k: nat)
    requires Layout(|buf|, bodies, strStart, space, base)
    requires k < |bodies|
    ensures BodyStart(bodies, base, k) < TWO_32 && |bodies[k]| < TWO_32
    ensures ValueWritable(|buf|, strStart, k, space, BodyStart(bodies, base, k), |bodies[k]|)
    ensures var a := AppendValue(buf, bodies[k], strStart, k, space, BodyStart(bodies, base, k));
      && a.ret % TWO_32 == BodyStart(bodies, base, k + 1)
      && FieldPlaced(a.buf, bodies, strStart, space, base, k)
      && (forall i :: 0 <= i < strStart ==> a.buf[i] == buf[i])
      && OnlyFieldChanged(buf, a.buf, bodies, strStart, space, base, k, 0)
  {
    AppendFieldFacts(|buf|, bodies, strStart, space, base, k);
    LayoutBounds(|buf|, bodies, strStart, space, base, k);
  }

  /** A field already in place stays in place when a later field is appended. */
  lemma PlacedKept(before: Bytes, after: Bytes, vals: seq<Bytes>, strStart: uint32, space: uint32, base: nat, j: nat, k: nat, flag: nat)
    requires Layout(|before|, vals, strStart, space, base)
    requires j < k < |vals| && flag < strStart
    requires FieldPlaced(before, vals, strStart, space, base, j)
    requires OnlyFieldChanged(before, after, vals, strStart, space, base, k, flag)
    ensures FieldPlaced(after, vals, strStart, space, base, j)
  {
    var s := SlotOf(strStart, space, j);
    var b0 := BodyStart(vals, base, j);
    var b1 := BodyStart(vals, base, j + 1);
    SlotOfOrdered(strStart, space, j, k);
    LayoutBounds(|before|, vals, strStart, space, base, k);
    BodyStartMonotone(vals, base, j + 1, k);
    forall i | s <= i < s + space
      ensures after[i] == before[i]
    {
    }
    ReadSlotFrame(after, before, s, space);
    forall i | b0 <= i < b1
      ensures after[i] == before[i]
    {
    }
    assert after[b0..b1] == before[b0..b1];
  }

  /**
   Read-back of field `k` through the bitmap-blind reader: the slots are readable, the
   read succeeds, and the bytes it points at are exactly `vals[k]`.
   */
  predicate ReadsBack(row: Bytes, vals: seq<Bytes>, strStart: uint32, space: uint32, k: nat)
    requires |vals| < TWO_32 && k < |vals|
  {
    var next := if k + 1 < |vals| then k + 1 else 0;
    && SlotsReadable(row, k, next, strStart, space)
    && var rd := GetStrFieldUnsafe(Some(row), true, k, next, strStart, space);
    && rd.Read?
    && FieldBytes(row, rd) == Some(vals[k])
  }

  /** A reader whose slots bound a body inside the row gets exactly that body. */
  lemma ReadInside(row: Bytes, fieldOffset: uint32, nextFieldOffset: uint32, strStart: uint32, space: uint32)
    requires 1 <= space <= 4
    requires SlotsReadable(row, fieldOffset, nextFieldOffset, strStart, space)
    requires FieldBounds(row, fieldOffset, nextFieldOffset, strStart, space).0 <= FieldBounds(row, fieldOffset, nextFieldOffset, strStart, space).1 <= |row|
    ensures var (start, end) := FieldBounds(row, fieldOffset, nextFieldOffset, strStart, space);
      var rd := GetStrFieldUnsafe(Some(row), true, fieldOffset, nextFieldOffset, strStart, space);
      && rd == Read(start, end - start)
      && FieldBytes(row, rd) == Some(row[start..end])
  {
    var (start, end) := FieldBounds(row, fieldOffset, nextFieldOffset, strStart, space);
    ModOfSmall(end - start, TWO_32);
  }

  /**
   In a row where field `k` and the field after it are in place (or, for the last field, the
   header holds the end of the bodies), field `k` reads back as `vals[k]`.
   */
  lemma PlacedReadsBack(row: Bytes, vals: seq<Bytes>, strStart: uint32, space: uint32, base: nat, k: nat)
    requires 1 <= space <= 4
    requires |vals| < TWO_32 && k < |vals|
    requires FieldPlaced(row, vals, strStart, space, base, k)
    requires k + 1 < |vals| ==> FieldPlaced(row, vals, strStart, space, base, k + 1)
    requires k + 1 == |vals| ==> VERSION_LENGTH + SIZE_LENGTH <= |row| && ReadU32(row, VERSION_LENGTH) == BodyStart(vals, base, |vals|)
    ensures ReadsBack(row, vals, strStart, space, k)
  {
    var next := if k + 1 < |vals| then k + 1 else 0;
    SlotOfIsAddr(strStart, space, k);
    SlotOfIsAddr(strStart, space, k + 1);
    assert SlotsReadable(row, k, next, strStart, space);
    assert FieldBounds(row, k, next, strStart, space) == (BodyStart(vals, base, k), BodyStart(vals, base, k + 1));
    ReadInside(row, k, next, strStart, space);
  }

  /**
   Read-back of string field `k` through the null-aware reader: null exactly for a null
   value, and otherwise a successful read of exactly the value's bytes.
   */
  predicate ReadsBackNullable(row: Bytes, vals: seq<Option<Bytes>>, cols: seq<uint32>, strStart: uint32, space: uint32, k: nat)
    requires |vals| < TWO_32 && k < |vals| && |cols| == |vals|
  {
    var next := if k + 1 < |vals| then k + 1 else 0;
    && FieldReadable(row, cols[k], k, next, strStart, space)
    && var f := GetStrField(Some(row), true, cols[k], k, next, strStart, space);
    && (f.NullField? <==> vals[k].None?)
    && (vals[k].Some? ==> f.read.Read? && FieldBytes(row, f.read) == Some(vals[k].value))
  }

  /** Fields `0..k` are in place. */
  predicate PlacedUpTo(row: Bytes, bodies: seq<Bytes>, strStart: uint32, space: uint32, base: nat, k: nat)
    requires 1 <= space <= 4 && k <= |bodies|
  {
    forall j :: 0 <= j < k ==> FieldPlaced(row, bodies, strStart, space, base, j)
  }

  /** Nothing changed outside the first `k` columns' bitmap bytes, the first `k` slots and the bodies up to `end`. */
  predicate UnchangedElsewhere(row: Bytes, buf: Bytes, cols: seq<uint32>, strStart: uint32, space: uint32, base: nat, k: nat, end: nat)
    requires k <= |cols| && |row| == |buf|
  {
    forall i :: (0 <= i < |buf| && i !in FlagBytes(cols, k) && !(strStart <= i < SlotOf(strStart, space, k)) && !(base <= i < end)) ==> row[i] == buf[i]
  }

  /** The null flags set are those of the null values among the first `k`, and those set before. */
  predicate FlagsUpTo(row: Bytes, buf: Bytes, vals: seq<Option<Bytes>>, cols: seq<uint32>, strStart: uint32, k: nat)
    requires NullColumns(cols, |vals|, strStart) && strStart <= |buf| && |row| == |buf|
  {
    forall j :: 0 <= j < |vals| ==> (IsNullAt(row, cols[j]) <==> (j < k && vals[j].None?) || IsNullAt(buf, cols[j]))
  }

  /**
   State of the row builder after appending fields `0..k`: the fields so far are in place,
   `end` is where the next body goes, the null flags set are those of the null values so
   far, and nothing outside their bitmap bytes, the slots and the bodies written changed.
   */
  predicate Built(row: Bytes, buf: Bytes, vals: seq<Option<Bytes>>, cols: seq<uint32>, strStart: uint32, space: uint32, base: nat, k: nat, end: nat)
    requires 1 <= space <= 4
    requires k <= |vals| && NullColumns(cols, |vals|, strStart) && strStart <= |buf|
  {
    && |row| == |buf|
    && end == BodyStart(Bodies(vals), base, k)
    && PlacedUpTo(row, Bodies(vals), strStart, space, base, k)
    && UnchangedElsewhere(row, buf, cols, strStart, space, base, k, end)
    && FlagsUpTo(row, buf, vals, cols, strStart, k)
  }

  lemma PlacedStep(row: Bytes, after: Bytes, bodies: seq<Bytes>, strStart: uint32, space: uint32, base: nat, k: nat, flag: nat)
    requires Layout(|row|, bodies, strStart, space, base)
    requires k < |bodies| && flag < strStart
    requires PlacedUpTo(row, bodies, strStart, space, base, k)
    requires FieldPlaced(after, bodies, strStart, space, base, k)
    requires OnlyFieldChanged(row, after, bodies, strStart, space, base, k, flag)
    ensures PlacedUpTo(after, bodies, strStart, space, base, k + 1)
  {
    forall j | 0 <= j < k
      ensures FieldPlaced(after, bodies, strStart, space, base, j)
    {
      PlacedKept(row, after, bodies, strStart, space, base, j, k, flag);
    }
  }

  lemma UnchangedStep(row: Bytes, after: Bytes, buf: Bytes, bodies: seq<Bytes>, cols: seq<uint32>, strStart: uint32, space: uint32, base: nat, k: nat)
    requires Layout(|buf|, bodies, strStart, space, base)
    requires k < |bodies| && k < |cols| && |row| == |buf|
    requires UnchangedElsewhere(row, buf, cols, strStart, space, base, k, BodyStart(bodies, base, k))
    requires OnlyFieldChanged(row, after, bodies, strStart, space, base, k, NullBytePos(cols[k]))
    ensures UnchangedElsewhere(after, buf, cols, strStart, space, base, k + 1, BodyStart(bodies, base, k + 1))
  {
    LayoutBounds(|buf|, bodies, strStart, space, base, k);
    FlagBytesGrow(cols, k);
  }

  lemma FlagsStep(row: Bytes, after: Bytes, buf: Bytes, vals: seq<Option<Bytes>>, cols: seq<uint32>, strStart: uint32, k: nat)
    requires NullColumns(cols, |vals|, strStart) && strStart <= |buf| && |row| == |buf| && |after| == |buf|
    requires k < |vals|
    requires FlagsUpTo(row, buf, vals, cols, strStart, k)
    requires forall c: uint32 :: NullBytePos(c) < strStart ==> (IsNullAt(after, c) <==> IsNullAt(row, c) || (vals[k].None? && c == cols[k]))
    ensures FlagsUpTo(after, buf, vals, cols, strStart, k + 1)
  {
    forall j | 0 <= j < |vals|
      ensures IsNullAt(after, cols[j]) <==> (j < k + 1 && vals[j].None?) || IsNullAt(buf, cols[j])
    {
      assert cols[j] == cols[k] <==> j == k;
    }
  }

  /** Appending field `k` to a row built up to `k` gives a row built up to `k + 1`. */
  lemma BuiltStep(row: Bytes, after: Bytes, buf: Bytes, vals: seq<Option<Bytes>>, cols: seq<uint32>, strStart: uint32, space: uint32, base: nat, k: nat)
    requires Layout(|buf|, Bodies(vals), strStart, space, base)
    requires NullColumns(cols, |vals|, strStart)
    requires k < |vals|
    requires Built(row, buf, vals, cols, strStart, space, base, k, BodyStart(Bodies(vals), base, k))
    requires FieldPlaced(after, Bodies(vals), strStart, space, base, k)
    requires OnlyFieldChanged(row, after, Bodies(vals), strStart, space, base, k, NullBytePos(cols[k]))
    requires forall c: uint32 :: NullBytePos(c) < strStart ==> (IsNullAt(after, c) <==> IsNullAt(row, c) || (vals[k].None? && c == cols[k]))
    ensures Built(after, buf, vals, cols, strStart, space, base, k + 1, BodyStart(Bodies(vals), base, k + 1))
  {
    var bodies := Bodies(vals);
    PlacedStep(row, after, bodies, strStart, space, base, k, NullBytePos(cols[k]));
    UnchangedStep(row, after, buf, bodies, cols, strStart, space, base, k);
    FlagsStep(row, after, buf, vals, cols, strStart, k);
  }

  /** One turn of the builder's loop: the corrected append of field `k` keeps the builder's state. */
  lemma BuiltNext(row: Bytes, buf: Bytes, vals: seq<Option<Bytes>>, cols: seq<uint32>, strStart: uint32, space: uint32, base: nat, k: nat, end: nat)
    requires Layout(|buf|, Bodies(vals), strStart, space, base)
    requires NullColumns(cols, |vals|, strStart)
    requires k < |vals|
    requires Built(row, buf, vals, cols, strStart, space, base, k, end)
    ensures end == BodyStart(Bodies(vals), base, k) && end < TWO_32
    ensures AppendWritable(|row|, cols[k], |Bodies(vals)[k]|, vals[k].None?, strStart, k, space, end)
    ensures var a := AppendStringCorrected(row, cols[k], Bodies(vals)[k], vals[k].None?, strStart, k, space, end);
      Built(a.buf, buf, vals, cols, strStart, space, base, k + 1, a.ret % TWO_32)
  {
    AppendFieldStep(row, vals, cols, strStart, space, base, k);
    var a := AppendStringCorrected(row, cols[k], Bodies(vals)[k], vals[k].None?, strStart, k, space, end);
    BuiltStep(row, a.buf, buf, vals, cols, strStart, space, base, k);
  }

  /** Before the first append nothing is built and nothing has changed. */
  lemma BuiltStart(buf: Bytes, vals: seq<Option<Bytes>>, cols: seq<uint32>, strStart: uint32, space: uint32, base: nat)
    requires 1 <= space <= 4
    requires NullColumns(cols, |vals|, strStart) && strStart <= |buf|
    ensures Built(buf, buf, vals, cols, strStart, space, base, 0, base)
  {
  }

  /** The header's total-length field lies before every bitmap byte, so the builder leaves it alone. */
  lemma TotalLengthKept(row: Bytes, buf: Bytes, cols: seq<uint32>, strStart: uint32, space: uint32, base: nat, k: nat, end: nat)
    requires k <= |cols| && |row| == |buf| && HEADER_LENGTH <= strStart && HEADER_LENGTH <= base
    requires VERSION_LENGTH + SIZE_LENGTH <= |buf|
    requires UnchangedElsewhere(row, buf, cols, strStart, space, base, k, end)
    ensures ReadU32(row, VERSION_LENGTH) == ReadU32(buf, VERSION_LENGTH)
  {
    forall i | VERSION_LENGTH <= i < VERSION_LENGTH + SIZE_LENGTH
      ensures row[i] == buf[i]
    {
      assert i !in FlagBytes(cols, k);
    }
    ReadSlotFrame(row, buf, VERSION_LENGTH, 4);
  }

  /** A field whose body reads back and whose null flag matches its value reads back through the null-aware reader. */
  lemma ReadsBackAsNullable(row: Bytes, vals: seq<Option<Bytes>>, cols: seq<uint32>, strStart: uint32, space: uint32, k: nat)
    requires |vals| < TWO_32 && k < |vals| && |cols| == |vals|
    requires NullBytePos(cols[k]) < |row|
    requires ReadsBack(row, Bodies(vals), strStart, space, k)
    requires IsNullAt(row, cols[k]) <==> vals[k].None?
    ensures ReadsBackNullable(row, vals, cols, strStart, space, k)
  {
  }

  /** Every field of a fully built row reads back through the null-aware reader as the value written. */
  lemma BuiltReadsBack(row: Bytes, buf: Bytes, vals: seq<Option<Bytes>>, cols: seq<uint32>, strStart: uint32, space: uint32, base: nat, end: nat)
    requires Layout(|buf|, Bodies(vals), strStart, space, base)
    requires NullColumns(cols, |vals|, strStart)
    requires forall k :: 0 <= k < |vals| ==> !IsNullAt(buf, cols[k])
    requires VERSION_LENGTH + SIZE_LENGTH <= |buf| && ReadU32(buf, VERSION_LENGTH) == BodyStart(Bodies(vals), base, |vals|)
    requires Built(row, buf, vals, cols, strStart, space, base, |vals|, end)
    ensures |row| == |buf|
    ensures end == BodyStart(Bodies(vals), base, |vals|)
    ensures forall k :: 0 <= k < |vals| ==> ReadsBackNullable(row, vals, cols, strStart, space, k)
    ensures forall i :: (0 <= i < |buf| && i !in FlagBytes(cols, |vals|) && !(strStart <= i < SlotOf(strStart, space, |vals|)) && !(base <= i < end)) ==> row[i] == buf[i]
  {
    var bodies := Bodies(vals);
    TotalLengthKept(row, buf, cols, strStart, space, base, |vals|, end);
    forall k | 0 <= k < |vals|
      ensures ReadsBackNullable(row, vals, cols, strStart, space, k)
    {
      assert FieldPlaced(row, bodies, strStart, space, base, k);
      PlacedReadsBack(row, bodies, strStart, space, base, k);
      ReadsBackAsNullable(row, vals, cols, strStart, space, k);
    }
  }

  /**
   The row builder's string loop with the corrected null path: every value is appended in
   order, a null one through the null path, each call's return value becoming the next
   body offset. Afterwards every field reads back through the null-aware reader as the
   value written, and nothing outside the string columns' bitmap bytes, the slot table and
   the bodies changed.
   */
  method AppendStrings(buf: Bytes, vals: seq<Option<Bytes>>, cols: seq<uint32>, strStart: uint32, space: uint32, base: nat)
    returns (row: Bytes, end: nat)
    requires Layout(|buf|, Bodies(vals), strStart, space, base)
    requires NullColumns(cols, |vals|, strStart)
    requires forall k :: 0 <= k < |vals| ==> !IsNullAt(buf, cols[k])
    requires VERSION_LENGTH + SIZE_LENGTH <= |buf| && ReadU32(buf, VERSION_LENGTH) == BodyStart(Bodies(vals), base, |vals|)
    ensures |row| == |buf|
    ensures end == BodyStart(Bodies(vals), base, |vals|)
    ensures forall k :: 0 <= k < |vals| ==> ReadsBackNullable(row, vals, cols, strStart, space, k)
    ensures forall i :: (0 <= i < |buf| && i !in FlagBytes(cols, |vals|) && !(strStart <= i < SlotOf(strStart, space, |vals|)) && !(base <= i < end)) ==> row[i] == buf[i]
  {
    LayoutFits(|buf|, Bodies(vals), strStart, space, base);
    row := buf;
    end := base;
    BuiltStart(buf, vals, cols, strStart, space, base);
    var k := 0;
    while k < |vals|
      invariant k <= |vals|
      invariant Built(row, buf, vals, cols, strStart, space, base, k, end)
    {
      row, end := AppendField(row, buf, vals, cols, strStart, space, base, k, end);
      k := k + 1;
    }
    BuiltReadsBack(row, buf, vals, cols, strStart, space, base, end);
  }

  /** One turn of the builder's loop: field `k` goes through the corrected append. */
  method AppendField(row: Bytes, buf: Bytes, vals: seq<Option<Bytes>>, cols: seq<uint32>, strStart: uint32, space: uint32, base: nat, k: nat, end: nat)
    returns (row': Bytes, end': nat)
    requires Layout(|buf|, Bodies(vals), strStart, space, base)
    requires NullColumns(cols, |vals|, strStart)
    requires k < |vals|
    requires Built(row, buf, vals, cols, strStart, space, base, k, end)
    ensures Built(row', buf, vals, cols, strStart, space, base, k + 1, end')
  {
    BuiltNext(row, buf, vals, cols, strStart, space, base, k, end);
    var a := AppendStringCorrected(row, cols[k], Bodies(vals)[k], vals[k].None?, strStart, k, space, end);
    row' := a.buf;
    // the builder keeps the returned offset in a uint32
    end' := a.ret % TWO_32;
  }

  /** A null field written by the null path as written reads back as null. */
  lemma NullFieldReadsNull(buf: Bytes, col: uint32, strStart: uint32, strField: uint32, space: uint32,
                           bodyOffset: uint32, fieldCnt: uint32, next: uint32)
    requires |buf| < TWO_32
    requires NullWritable(|buf|, col, strStart, strField)
    requires Disjoint(NullBytePos(col), 1, NullSlotPos(|buf|, strStart, strField), GetAddrLength(|buf|))
    ensures var r := AppendString(buf, col, [], true, strStart, strField, space, bodyOffset, fieldCnt);
      && FieldReadable(r.buf, col, strField, next, strStart, space)
      && GetStrField(Some(r.buf), true, col, strField, next, strStart, space) == NullField
      && StatusOf(GetStrField(Some(r.buf), true, col, strField, next, strStart, space)) == 0
  {
  }

  /**
   As written, a null field after a non-null one cuts the earlier body short. In a 16-byte
   row of total length 11 with one-byte slots at 7 and 8, field 0 holds [65, 66] at 9 and
   field 1 is null: the null path points slot 8 at 9, the start of the body area, so field
   0 reads back empty. The corrected null path points it at 11, and field 0 reads back whole.
   */
  /** The first append of the counterexample: field 0 takes [65, 66] at 9 and returns 11. */
  lemma CutsBodyFirst(buf: Bytes)
    requires buf == [1, 1, 11, 0, 0, 0, 0, 0, 0, 0, 0, 0, 0, 0, 0, 0]
    ensures var first := AppendString(buf, 0, [65, 66], false, 7, 0, 1, 9, 2);
      && first.ret == 11
      && |first.buf| == 16 && first.buf[6] == 0 && first.buf[7] == 9 && first.buf[9..11] == [65, 66]
  {
    assert GuardPasses(16, 7, 0, 1, 2);
  }

  /** The second append of the counterexample: a null field 1 with the slot value `slotValue`. */
  lemma CutsBodyNull(fb: Bytes, row: Bytes, slotValue: nat)
    requires |fb| == 16 && fb[6] == 0 && fb[7] == 9 && fb[9..11] == [65, 66]
    requires row == WriteNull(fb, 1, 7, 1, 11, slotValue).buf
    ensures row[7] == 9 && row[8] == slotValue % 256 && row[9..11] == [65, 66] && !IsNullAt(row, 0)
  {
    assert NullSlotPos(16, 7, 1) == 8;
    assert !BitAt(0, 0);
    SetNullKeepsOthers(fb, 1, 0);
    assert ReadSlot(row, 8, 1) == row[8] as int;
  }

  /** Reading field 0 of the counterexample row: its body runs from slot 7 to slot 8. */
  lemma CutsBodyRead(row: Bytes, next: uint32)
    requires |row| == 16 && row[7] == 9 && row[8] == next && 9 <= next <= 11 && !IsNullAt(row, 0)
    ensures GetStrField(Some(row), true, 0, 0, 1, 7, 1) == Field(Read(9, next - 9))
  {
    assert ReadSlot(row, 7, 1) == 9 && ReadSlot(row, 8, 1) == next;
  }

  lemma NullAfterValueCutsBody()
    ensures var buf: Bytes := [1, 1, 11, 0, 0, 0, 0, 0, 0, 0, 0, 0, 0, 0, 0, 0];
      var first := AppendString(buf, 0, [65, 66], false, 7, 0, 1, 9, 2);
      && first.ret == 11
      && var asWritten := AppendString(first.buf, 1, [], true, 7, 1, 1, 11, 2).buf;
      && var corrected := AppendStringCorrected(first.buf, 1, [], true, 7, 1, 1, 11).buf;
      && GetStrField(Some(asWritten), true, 0, 0, 1, 7, 1) == Field(Read(9, 0))
      && FieldBytes(asWritten, Read(9, 0)) == Some([])
      && GetStrField(Some(corrected), true, 0, 0, 1, 7, 1) == Field(Read(9, 2))
      && FieldBytes(corrected, Read(9, 2)) == Some([65, 66])
  {
    var buf: Bytes := [1, 1, 11, 0, 0, 0, 0, 0, 0, 0, 0, 0, 0, 0, 0, 0];
    CutsBodyFirst(buf);
    var first := AppendString(buf, 0, [65, 66], false, 7, 0, 1, 9, 2);
    var fb := first.buf;
    var asWritten := AppendString(fb, 1, [], true, 7, 1, 1, 11, 2).buf;
    var corrected := AppendStringCorrected(fb, 1, [], true, 7, 1, 1, 11).buf;
    assert GetAddrLength(16) == 1;
    assert asWritten == WriteNull(fb, 1, 7, 1, 11, 9).buf;
    assert corrected == WriteNull(fb, 1, 7, 1, 11, 11).buf;
    CutsBodyNull(fb, asWritten, 9);
    CutsBodyNull(fb, corrected, 11);
    CutsBodyRead(asWritten, 9);
    CutsBodyRead(corrected, 11);
    assert |asWritten| == 16 && asWritten[9..9] == [];
    assert corrected[9..11] == [65, 66];
  }
}
