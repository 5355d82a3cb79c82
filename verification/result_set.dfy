/**
 The SQL result set a tablet sends back: a response header (status code, byte size, row
 count) and an attachment holding the rows one after another. Each row carries its own
 length as a 32-bit little-endian value two bytes into the row. The cursor walks the
 attachment by that length.
 */
module ResultSetSql {
  import opened Wrappers
  import opened Bytes

  /** The status code of a successful query. */
  const OK_CODE: int := 0

  /** The response header; its byte size and row count are unsigned 32-bit fields. */
  datatype Response = Response(code: int, byteSize: uint32, count: uint32)

  /**
   The cursor state: the index of the current row (starting before the first), the
   attachment offset of the next row, and what the response announced.
   */
  datatype Cursor = Cursor(index: int, position: uint32, byteSize: uint32, count: uint32, hasView: bool)

  /** The state before any row is read. */
  function Start(response: Response, hasView: bool): Cursor {
    Cursor(-1, 0, response.byteSize, response.count, hasView)
  }

  /**
   Accept a response when it is present and its code is OK. An empty body needs no
   schema; otherwise the schema must decode, `schemaDecodes` standing for that decoder.
   The byte size is unsigned, so the source's `byte_size_ <= 0` holds only for 0.
   */
  function Init(response: Option<Response>, schemaDecodes: bool): (r: Option<Cursor>)
    ensures r.None? <==> response.None? || response.value.code != OK_CODE
                         || (response.value.byteSize > 0 && !schemaDecodes)
    ensures r.Some? ==> r.value.index == -1 && r.value.position == 0
                        && r.value.byteSize == response.value.byteSize && r.value.count == response.value.count
    ensures r.Some? ==> (r.value.hasView <==> response.value.byteSize > 0)
  {
    if response.None? || response.value.code != OK_CODE then None
    else if response.value.byteSize == 0 then Some(Start(response.value, false))
    else if !schemaDecodes then None
    else Some(Start(response.value, true))
  }

  /** What initialisation does as written: the failure path logs the code of the response even when there is none. */
  datatype InitOutcome = NullDereference | Refused | Ready(cursor: Cursor)

  /**
   Initialisation as written: the refusal branch is taken for a missing response or a bad
   code, and its log statement reads the code of the response in both cases.
   */
  function InitAsWritten(response: Option<Response>, schemaDecodes: bool): (r: InitOutcome)
    ensures r == NullDereference <==> response.None?
  {
    if response.None? || response.value.code != OK_CODE then
      if response.None? then NullDereference else Refused
    else
      var byteSize := response.value.byteSize;
      if byteSize <= 0 then Ready(Cursor(-1, 0, byteSize, response.value.count, false))
      else if !schemaDecodes then Refused
      else Ready(Cursor(-1, 0, byteSize, response.value.count, true))
  }

  /** A missing response makes the logging statement dereference a null response; the corrected `Init` refuses it. */
  lemma MissingResponseDereferences(schemaDecodes: bool)
    ensures InitAsWritten(None, schemaDecodes) == NullDereference
    ensures Init(None, schemaDecodes) == None
  {
  }

  /** Apart from the missing response, the corrected `Init` decides as written. */
  lemma InitAgreesOtherwise(response: Response, schemaDecodes: bool)
    ensures InitAsWritten(Some(response), schemaDecodes) ==
      if Init(Some(response), schemaDecodes).Some? then Ready(Init(Some(response), schemaDecodes).value) else Refused
  {
  }

  // ---------------------------------------------------------------- reading rows

  /** The byte at `i`, or 0 past the end: a short copy leaves the zero-initialised target untouched. */
  function ByteOrZero(att: seq<uint8>, i: nat): uint8 {
    if i < |att| then att[i] else 0
  }

  /**
   The row length stored two bytes into the row starting at `pos`. The copy offset is
   computed on the `uint32_t` position, so `pos + 2` wraps modulo 2^32.
   */
  function RowSizeAt(att: seq<uint8>, pos: nat): (r: uint32)
    ensures (pos + 2) % TWO_32 + 4 <= |att| ==> r == ReadU32(att, (pos + 2) % TWO_32)
  {
    var at := (pos + 2) % TWO_32;
    ByteOrZero(att, at) + 256 * ByteOrZero(att, at + 1)
      + TWO_16 * ByteOrZero(att, at + 2) + TWO_24 * ByteOrZero(att, at + 3)
  }

  /**
   A position two bytes short of 2^32 reads the row length from the start of the
   attachment, and a position inside an attachment shorter than 2^32 bytes reads it two
   bytes into the row.
   */
  lemma RowSizeAtWraps(att: seq<uint8>, pos: nat)
    ensures pos == TWO_32 - 2 && 4 <= |att| ==> RowSizeAt(att, pos) == ReadU32(att, 0)
    ensures pos + 6 <= |att| < TWO_32 ==> RowSizeAt(att, pos) == ReadU32(att, pos + 2)
  {
  }

  /** The `size` bytes from `pos`, or as many of them as the attachment holds. */
  function RowBytes(att: seq<uint8>, pos: nat, size: nat): (r: seq<uint8>)
    ensures pos + size <= |att| ==> r == att[pos..pos + size]
    ensures |r| <= size
  {
    if pos >= |att| then []
    else if pos + size <= |att| then att[pos..pos + size]
    else att[pos..]
  }

  /** Another row is read when the index, after the step, is below the count and bytes remain. */
  predicate HasRow(c: Cursor) {
    c.index + 1 < Int32Of(c.count) && c.position < c.byteSize
  }

  /** The outcome of one step: the new cursor, whether it reports a row, and the bytes handed to the row view. */
  datatype Step = Step(cursor: Cursor, ok: bool, row: Option<seq<uint8>>)

  /**
   Advance the cursor. The index always moves; when a row remains, its bytes are handed to
   the row view (`accepts`) and the position moves past it even if the view refuses them.
   */
  function Next(c: Cursor, att: seq<uint8>, accepts: seq<uint8> -> bool): (s: Step)
    ensures s.cursor.index == c.index + 1
    ensures s.cursor.byteSize == c.byteSize && s.cursor.count == c.count && s.cursor.hasView == c.hasView
    ensures s.ok ==> c.index + 1 < Int32Of(c.count) && c.position < c.byteSize
    ensures !HasRow(c) ==> !s.ok && s.row.None? && s.cursor.position == c.position
    ensures HasRow(c) ==> s.row == Some(RowBytes(att, c.position, RowSizeAt(att, c.position)))
                          && s.ok == accepts(s.row.value)
                          && s.cursor.position == (c.position + RowSizeAt(att, c.position)) % TWO_32
  {
    var index := c.index + 1;
    if index < Int32Of(c.count) && c.position < c.byteSize then
      var size := RowSizeAt(att, c.position);
      var row := RowBytes(att, c.position, size);
      Step(c.(index := index, position := (c.position + size) % TWO_32), accepts(row), Some(row))
    else
      Step(c.(index := index), false, None)
  }

  /** Rewind to before the first row. */
  function Reset(c: Cursor): (r: Cursor)
    ensures r.index == -1 && r.position == 0
    ensures r.byteSize == c.byteSize && r.count == c.count && r.hasView == c.hasView
  {
    c.(index := -1, position := 0)
  }

  /** The steps of `n` calls of `Next` in a row. */
  function Calls(c: Cursor, att: seq<uint8>, accepts: seq<uint8> -> bool, n: nat): (r: seq<Step>)
    ensures |r| == n
    decreases n
  {
    if n == 0 then [] else var s := Next(c, att, accepts); [s] + Calls(s.cursor, att, accepts, n - 1)
  }

  /** The cursor after `n` calls. */
  function After(c: Cursor, att: seq<uint8>, accepts: seq<uint8> -> bool, n: nat): Cursor
    decreases n
  {
    if n == 0 then c else After(Next(c, att, accepts).cursor, att, accepts, n - 1)
  }

  /** Once no row remains, every later call reports none. */
  lemma {:induction false} ExhaustedStaysExhausted(c: Cursor, att: seq<uint8>, accepts: seq<uint8> -> bool, n: nat)
    requires !HasRow(c)
    ensures forall i :: 0 <= i < n ==> !Calls(c, att, accepts, n)[i].ok
    decreases n
  {
    if n > 0 {
      var s := Next(c, att, accepts);
      ExhaustedStaysExhausted(s.cursor, att, accepts, n - 1);
      var steps := Calls(c, att, accepts, n);
      assert steps == [s] + Calls(s.cursor, att, accepts, n - 1);
      forall i | 0 <= i < n
        ensures !steps[i].ok
      {
        if i > 0 {
          assert steps[i] == Calls(s.cursor, att, accepts, n - 1)[i - 1];
        }
      }
    }
  }

  /** The number of steps that report a row. */
  function Successes(steps: seq<Step>): nat
    decreases |steps|
  {
    if |steps| == 0 then 0 else (if steps[0].ok then 1 else 0) + Successes(steps[1..])
  }

  /** From index `c.index`, at most `count - 1 - index` further calls report a row. */
  lemma {:induction false} SuccessesBounded(c: Cursor, att: seq<uint8>, accepts: seq<uint8> -> bool, n: nat)
    ensures Successes(Calls(c, att, accepts, n)) <= if Int32Of(c.count) - 1 - c.index > 0 then Int32Of(c.count) - 1 - c.index else 0
    decreases n
  {
    if n > 0 {
      var s := Next(c, att, accepts);
      SuccessesBounded(s.cursor, att, accepts, n - 1);
      assert Calls(c, att, accepts, n)[1..] == Calls(s.cursor, att, accepts, n - 1);
    }
  }

  /** After a reset, however often `Next` is called, at most `count` calls report a row. */
  lemma AtMostCountRows(c: Cursor, att: seq<uint8>, accepts: seq<uint8> -> bool, n: nat)
    ensures Successes(Calls(Reset(c), att, accepts, n)) <= if Int32Of(c.count) > 0 then Int32Of(c.count) else 0
  {
    SuccessesBounded(Reset(c), att, accepts, n);
  }

  /** The rows handed to the row view, in order. */
  function RowsRead(steps: seq<Step>): seq<uint8>
    decreases |steps|
  {
    if |steps| == 0 then []
    else (if steps[0].row.Some? then steps[0].row.value else []) + RowsRead(steps[1..])
  }

  /** Every row the next `n` calls read lies inside the attachment. */
  predicate RowsFit(c: Cursor, att: seq<uint8>, accepts: seq<uint8> -> bool, n: nat)
    decreases n
  {
    n == 0 || (
      (HasRow(c) ==> c.position + RowSizeAt(att, c.position) <= |att|)
      && RowsFit(Next(c, att, accepts).cursor, att, accepts, n - 1))
  }

  /** One step that fits moves the position by the length of the bytes it hands out, which are the attachment's bytes there. */
  lemma StepTiles(c: Cursor, att: seq<uint8>, accepts: seq<uint8> -> bool)
    requires |att| < TWO_32 && c.position <= |att|
    requires HasRow(c) ==> c.position + RowSizeAt(att, c.position) <= |att|
    ensures var s := Next(c, att, accepts);
      && c.position <= s.cursor.position <= |att|
      && (if s.row.Some? then s.row.value else []) == att[c.position..s.cursor.position]
  {
  }

  /**
   The rows read tile the attachment: while every row fits, the bytes handed out are exactly
   the attachment between the starting and the final position, so each position visited is
   the start plus the lengths of the rows before it.
   */
  lemma {:induction false} RowsTileAttachment(c: Cursor, att: seq<uint8>, accepts: seq<uint8> -> bool, n: nat)
    requires |att| < TWO_32 && c.position <= |att|
    requires RowsFit(c, att, accepts, n)
    ensures c.position <= After(c, att, accepts, n).position <= |att|
    ensures RowsRead(Calls(c, att, accepts, n)) == att[c.position..After(c, att, accepts, n).position]
    decreases n
  {
    if n > 0 {
      var s := Next(c, att, accepts);
      StepTiles(c, att, accepts);
      RowsTileAttachment(s.cursor, att, accepts, n - 1);
      var steps := Calls(c, att, accepts, n);
      assert steps[1..] == Calls(s.cursor, att, accepts, n - 1);
      var end := After(c, att, accepts, n).position;
      assert att[c.position..end] == att[c.position..s.cursor.position] + att[s.cursor.position..end];
    }
  }

  /** Reading keeps what the response announced. */
  lemma {:induction false} AfterKeepsResponse(c: Cursor, att: seq<uint8>, accepts: seq<uint8> -> bool, n: nat)
    ensures After(c, att, accepts, n).byteSize == c.byteSize
    ensures After(c, att, accepts, n).count == c.count
    ensures After(c, att, accepts, n).hasView == c.hasView
    decreases n
  {
    if n > 0 {
      AfterKeepsResponse(Next(c, att, accepts).cursor, att, accepts, n - 1);
    }
  }

  /**
   A cursor that `Init` accepted has a row view whenever `Next` would read a row, however
   many calls came before: a row is read only below a positive byte size, and a positive
   byte size is exactly when the view was created.
   */
  lemma ReadsOnlyWithView(response: Response, schemaDecodes: bool, att: seq<uint8>, accepts: seq<uint8> -> bool, n: nat)
    requires Init(Some(response), schemaDecodes).Some?
    ensures var c := After(Init(Some(response), schemaDecodes).value, att, accepts, n);
      && (HasRow(c) ==> c.hasView)
      && (Next(c, att, accepts).row.Some? ==> c.hasView)
  {
    AfterKeepsResponse(Init(Some(response), schemaDecodes).value, att, accepts, n);
  }

  /** Whatever was read before, a reset followed by `n` calls gives the same steps as `n` calls after a reset of the cursor as it was. */
  lemma ResetReplays(c: Cursor, att: seq<uint8>, accepts: seq<uint8> -> bool, k: nat, n: nat)
    ensures Calls(Reset(After(c, att, accepts, k)), att, accepts, n) == Calls(Reset(c), att, accepts, n)
  {
    AfterKeepsResponse(c, att, accepts, k);
  }
}
