# OpenMLDB SDK, row codec and segment: a Dafny model

This project models four pieces of sequential logic from the OpenMLDB (FeSQL / RTIDB)
code base and proves properties of them.

- **Insert preparation in the SQL cluster router** (modules `InsertDefaults`, `DateCodec`,
  `NodeEnum`, `TableSchema`). This covers three steps:
  - coercing a literal constant to a column type, including packing a `YYYY-MM-DD` string into a 32-bit date;
  - building the per-column default-value map of an `INSERT` row, with its arity, NOT NULL and placeholder rules and the running string length;
  - mapping an explicit column list to table positions.
- **Other router checks** (modules `RouterPlan`, `RouterCache`). This covers:
  - comparing a procedure's parameters with the compiled input schema;
  - the two plan-tree recursions `IsConstQuery` and `GetTables`;
  - the per-database SQL cache.
- **The string-field row codec** (modules `TypeCodec`, `Bytes`). A row holds a table of offset
  slots 1, 2, 3 or 4 bytes wide. The slot width is chosen by the row size, and the 3-byte form is big-endian.
  - `AppendString` writes a slot and copies the body.
  - `GetStrFieldUnsafe`, `GetStrField` and the `IOBuf` variant read a field back.
  - The main theorem, `AppendStrings`, builds a row field by field with chained body offsets, null and non-null values mixed, using the corrected null path. Every field then reads back through the null-aware reader as null for a null value and as exactly the bytes written otherwise.
- **The SQL result-set cursor** (module `ResultSetSql`). It is a state machine over an
  attachment of rows. Each row carries its own length as a little-endian `u32` two bytes in.
- **One in-memory table segment** (module `Segment`). It is a sequence of keys, each owning a list of
  (time, block) nodes newest first, with a data counter and per-block dimension counts. It supports put,
  get, the list split, freeing, TTL and head garbage collection, release and readers.

The row header layout is taken as:
- version at offset 0 (2 bytes);
- total row length at offset 2 (4 bytes, little-endian);
- null bitmap from offset 6, bit `col % 8` of byte `6 + col / 8`.

The 2- and 4-byte slots are little-endian, as on the x86 hosts the code targets.
Unsigned 32- and 64-bit arithmetic of the source (slot positions, body lengths, the string length,
`position_`, `data_cnt_`) is written out as `% 2^32` or `% 2^64`.

## Model

| member | source | states |
|---|---|---|
| NodeEnum.FromCode | src/node/node_enum.h:98-119 | a number names a node data type exactly when it is 0..17, 100 (`kVoid`) or 101 (`kNull`), and the type named has that number |
| NodeEnum.CodeRoundTrip | src/node/node_enum.h:98-119 | distinct node data types have distinct enumerator values |
| InsertDefaults.GetDefaultMapValue | src/sdk/sql_cluster_router.cc:377-470 | a conversion that succeeds yields a constant whose node type is the one the row encoder stores for the column type, e.g. a smallint column always gets an `Int16` constant |
| InsertDefaults.AcceptanceTable | src/sdk/sql_cluster_router.cc:380-469 | apart from a string for a DATE column, a constant converts exactly when its type is accepted: bool takes only Int32; smallint and int take Int16/Int32 (not Int64); bigint takes Int16/Int32/Int64; timestamp takes those and Timestamp; float and double take Int16/Int32/Float/Double; date takes Date; varchar and string take only Varchar; any other column type takes nothing |
| InsertDefaults.CoercionValues | src/sdk/sql_cluster_router.cc:385-428 | integer widenings keep the value; an Int32 stored in a smallint column is truncated to 16 bits; a conversion to the constant's own type returns the constant unchanged |
| InsertDefaults.DateFromString | src/sdk/sql_cluster_router.cc:431-449 | a string for a DATE column is accepted exactly when it parses as a date with year in [1900,9999], month in [1,12] and day in [1,31], and then becomes the packed Int32 date |
| InsertDefaults.DateStringRoundTrip | src/sdk/sql_cluster_router.cc:431-449 | a valid date written as a string converts to a non-negative Int32 that unpacks to the same year, month and day |
| DateCodec.PackDateValue | src/sdk/sql_cluster_router.cc:440-443 | the bitwise packing `((y-1900)<<16) \| ((m-1)<<8) \| d` equals `(y-1900)*65536 + (m-1)*256 + d` and is positive and below 2^31, so the `int32_t` neither overflows nor goes negative |
| DateCodec.PackDateRoundTrip | src/sdk/sql_cluster_router.cc:440-443 | the three fields occupy disjoint bit ranges: unpacking a packed date gives back year, month and day |
| DateCodec.PackDateInjective | src/sdk/sql_cluster_router.cc:440-443 | two valid dates with the same packed value are the same date |
| InsertDefaults.FindColumn | src/sdk/sql_cluster_router.cc:345-355 | the search over the table's columns finds the first column with the name, or reports that no column has it |
| InsertDefaults.MapColumns | src/sdk/sql_cluster_router.cc:342-364 | the column list maps exactly when every name is a table column and no name repeats; otherwise the error names the first offending entry, as unknown or duplicate; on success the map has one entry per listed name, from that name's table position to its position in the list, and every entry points back at a column of that name |
| InsertDefaults.ColumnDefaultRules | src/sdk/sql_cluster_router.cc:489-525 | per column: an omitted column is NULL unless it is NOT NULL; a value index past the value list is refused; a placeholder gets no entry; an explicit NULL is kept unless the column is NOT NULL; any other constant is coerced by `GetDefaultMapValue` or refused as a type mismatch |
| InsertDefaults.StrLen | src/sdk/sql_cluster_router.cc:526-529 | `strlen` of a constant's text is the number of bytes in the UTF-8 encoding of its characters before the first NUL |
| InsertDefaults.StrLenCounts | src/sdk/sql_cluster_router.cc:526-529 | the only zero bytes in a text's UTF-8 encoding are its NULs, so the first zero byte comes right after the encoding of the characters before the first NUL |
| InsertDefaults.GetDefaultMap | src/sdk/sql_cluster_router.cc:472-533 | a missing row is refused; a value list shorter than the explicit column list, or than the table when there is no list, is refused; otherwise the map is the column-by-column collection in table order |
| InsertDefaults.VisitColumns | src/sdk/sql_cluster_router.cc:488-531 | the loop over the columns computes the collection that stops at the first refused column and grows the string length modulo 2^32 |
| InsertDefaults.DefaultMapDecision | src/sdk/sql_cluster_router.cc:488-531 | the map of a row with enough values is built exactly when every column has a default; otherwise its error is that of the first refused column in table order |
| InsertDefaults.DefaultMapContents | src/sdk/sql_cluster_router.cc:500-530 | a built map has an entry for exactly the columns whose value is not a placeholder, holding that column's default; the string length has grown by the `strlen` of every non-null constant of a varchar or string column, modulo 2^32 |
| RouterPlan.CheckParameter | src/sdk/sql_cluster_router.cc:1301-1320 | the check passes exactly when the schemas have equal length and agree column by column on name and data type |
| RouterPlan.SignatureIgnoresConstancy | src/sdk/sql_cluster_router.cc:1301-1320 | whether a parameter is declared constant never changes the outcome of the check |
| RouterPlan.SignatureEquivalence | src/sdk/sql_cluster_router.cc:1301-1320 | the relation the check decides is reflexive, symmetric and transitive |
| RouterPlan.ConstQueryMeaning | src/sdk/sql_cluster_router.cc:740-754 | a plan is constant exactly when every leaf reached without passing below a constant projection is itself a constant projection, so a plan with a data provider above all its constant projections is never constant |
| RouterPlan.GetTables | src/sdk/sql_cluster_router.cc:756-771 | collecting only adds names: the tables already in the set stay there |
| RouterPlan.GetTablesExact | src/sdk/sql_cluster_router.cc:756-771 | a name is in the result exactly when it was already in the set or some node of the plan is a table or partition data provider over that table; request providers add nothing |
| RouterCache.GetCache | src/sdk/sql_cluster_router.cc:536-547 | a lookup finds a value exactly when the database has a cache and it holds the SQL text |
| RouterCache.SetCache | src/sdk/sql_cluster_router.cc:549-559 | a store gives the database a cache if it had none and touches no other database |
| RouterCache.GetAfterSet | src/sdk/sql_cluster_router.cc:536-559 | after a store the statement is cached: with the stored value when it was missing, with the value already held otherwise |
| RouterCache.SetKeepsOthers | src/sdk/sql_cluster_router.cc:536-559 | with the cache unbounded, a store changes no other (database, SQL) lookup; the program promises this only while the database's cache is below capacity |
| RouterCache.SetCachedIsIdle | src/sdk/sql_cluster_router.cc:549-559 | storing a statement that is already cached changes nothing |
| TypeCodec.GetAddrLength | src/codec/type_codec.cc:206-217 | the slot width is the narrowest of 1..4 bytes whose range holds the row size: 1 up to 255, 2 up to 65535, 3 up to 2^24-1, 4 beyond |
| TypeCodec.GetAddrLengthMonotone | src/codec/type_codec.cc:206-217 | a larger row never gets a narrower slot |
| Bytes.SlotRoundTrip | src/codec/type_codec.cc:251-276 | an offset written into a slot of any width, the 3-byte form big-endian, reads back as the offset modulo the slot's range |
| TypeCodec.SetNull | src/codec/type_codec.cc:225 | marking a column null sets its null flag and changes only its bitmap byte |
| TypeCodec.SetNullKeepsOthers | src/codec/type_codec.cc:225 | marking one column null keeps every other column's null flag |
| TypeCodec.AppendNullField | src/codec/type_codec.cc:224-242 | a null append returns the body offset as an `int32_t`, unchanged below 2^31. It sets the column's null flag and writes `str_start + GetAddrLength(buf_size) * field_cnt` (truncated to the slot) into a slot of that width. It keeps every other column's null flag and changes nothing else |
| TypeCodec.AppendNullFieldCorrected | src/codec/type_codec.cc:224-242 | the corrected null path stores the current body offset in the slot, and otherwise returns and writes what the code does |
| TypeCodec.AppendValue | src/codec/type_codec.cc:244-282 | a non-null append is refused with -1 and writes nothing when slot position plus body size exceeds the buffer; otherwise it returns body offset plus size as an `int32_t` (equal to it modulo 2^32), puts the body at the body offset, stores the body offset in the slot, and changes nothing else |
| TypeCodec.AppendString | src/codec/type_codec.cc:219-283 | a null value takes the null path and any other value the bounds-checked path, each with its own contract |
| TypeCodec.AppendStringCorrected | src/codec/type_codec.cc:219-283 | the same dispatch, with the corrected null path for a null value |
| TypeCodec.GetStrFieldUnsafe | src/codec/type_codec.cc:136-203 | -1 exactly for a missing row or output; -2 exactly for an unknown slot width; otherwise the body starts at the slot's offset and its length is the next field's offset, or the row's total length for the last field, minus that offset in `uint32_t`: an end below the start gives 2^32 minus the difference |
| TypeCodec.GetStrField | src/codec/type_codec.cc:120-134 | a missing row or a set null flag reports null with code 0; otherwise the result is that of the bitmap-blind reader with the same output pointers, so missing pointers give -1 only for a non-null field |
| TypeCodec.IOBufRange | src/codec/type_codec.cc:111-115 | `IOBuf::append_to` yields at most the requested bytes, and exactly the row's bytes there when they lie inside the row |
| TypeCodec.GetStrFieldIOBuf | src/codec/type_codec.cc:33-118 | -1 exactly without an output buffer, -2 exactly for an unknown width; otherwise the output's existing bytes are kept and fewer than 2^32 bytes are appended after them |
| TypeCodec.IOBufBoundsAgree | src/codec/type_codec.cc:39-109 | in a row shorter than 2^31 bytes whose slots lie inside it, the offsets the `IOBuf` reader assembles through `copy_to` are those the pointer reader reads, for every slot width, including the total length for the last field |
| TypeCodec.IOBufShortNextReusesTmp | src/codec/type_codec.cc:40-51 | with 1-byte slots, when the next slot lies past the row's end the short `copy_to` leaves the temporary holding the first offset, so the body's end is read as its start |
| TypeCodec.GetStrFieldIOBufAgrees | src/codec/type_codec.cc:33-118 | in a row shorter than 2^31 bytes whose slots lie inside it, the `IOBuf` reader appends exactly the bytes the pointer reader points at whenever they lie inside the row |
| TypeCodec.AppendStrings | src/codec/type_codec.cc:120-283 | appending a row's string values in field order, null or not, with the corrected null path and each return value becoming the next body offset, gives a row in which every field reads back through the null-aware reader: null exactly for a null value, otherwise exactly the bytes written. Nothing outside those columns' bitmap bytes, the slot table and the bodies changes |
| TypeCodec.NullFieldReadsNull | src/codec/type_codec.cc:120-134 | a field written by the null path reads back as null with code 0 |
| TypeCodec.NullAfterValueCutsBody | src/codec/type_codec.cc:224-242 | in a 16-byte row with one-byte slots at 7 and 8, after [65, 66] is appended at 9 and then a null, field 0 reads back empty as written and as [65, 66] with the corrected null path |
| ResultSetSql.Init | src/sdk/result_set_sql.cc:46-65 | initialisation fails exactly for a missing response, a non-OK code, or a non-empty body whose schema does not decode; the unsigned byte size passes `byte_size_ <= 0` only when it is 0; on success the cursor is before the first row at offset 0, and a row view exists exactly when the body is non-empty |
| ResultSetSql.Next | src/sdk/result_set_sql.cc:69-90 | every call moves the index; a row is read only while the index is below the signed row count and the position below the byte size, both sides unsigned 32-bit; the row's length is read at the wrapped offset of `RowSizeAt`, its bytes are handed to the row view, the position moves past them modulo 2^32, and the call reports the view's verdict |
| ResultSetSql.RowSizeAt | src/sdk/result_set_sql.cc:74-76 | the row length is the little-endian `u32` copied from offset `position + 2` computed modulo 2^32, as the `uint32_t` sum is; bytes past the end of the attachment read as the zeros the length started with |
| ResultSetSql.RowSizeAtWraps | src/sdk/result_set_sql.cc:74-76 | at position 2^32-2 the length is read from the first four bytes of the attachment; inside an attachment shorter than 2^32 bytes it is read two bytes into the row |
| ResultSetSql.Reset | src/sdk/result_set_sql.cc:92-96 | rewinding puts the cursor before the first row at offset 0 and keeps the response's size and count |
| ResultSetSql.ExhaustedStaysExhausted | src/sdk/result_set_sql.cc:69-90 | once no row remains, every later call reports no row |
| ResultSetSql.AtMostCountRows | src/sdk/result_set_sql.cc:69-96 | after a rewind, however often the cursor is advanced, at most `count` calls report a row |
| ResultSetSql.RowsTileAttachment | src/sdk/result_set_sql.cc:74-81 | while the rows fit in the attachment, the bytes handed out are exactly the attachment between the start and the final position, so the positions visited are the prefix sums of the row lengths |
| ResultSetSql.ReadsOnlyWithView | src/sdk/result_set_sql.cc:53-82 | on a cursor `Init` accepted, after any number of calls, a call that reads a row finds a row view: rows are read only below a positive byte size, which is exactly when the view was created |
| ResultSetSql.ResetReplays | src/sdk/result_set_sql.cc:69-96 | from any cursor, after any number of reads, a rewind followed by `n` reads gives the same steps as a rewind of the original cursor followed by `n` reads |
| Segment.InsertKeepsOrder | src/storage/segment.cc:69 | inserting a node into a list ordered newest first keeps it ordered newest first |
| Segment.InsertAddsNode | src/storage/segment.cc:69 | an insertion adds exactly the new node to the list |
| Segment.Put | src/storage/segment.cc:55-70 | the counter moves by one modulo 2^64; the key is present afterwards; its list is the old list, or an empty one for a new key, with the node inserted |
| Segment.PutData | src/storage/segment.cc:47-53 | putting raw data allocates a new block held by one dimension, puts it like a block put (counter plus one modulo 2^64, the key's list with the node inserted) and changes no other block's count |
| Segment.PutDataFreedOnce | src/storage/segment.cc:47-53 | the data put's node is on the key's list and its block is held once, so freeing a detached list on which it is the block's only node deletes the block |
| Segment.PutKeepsOtherKeys | src/storage/segment.cc:55-70 | every other key keeps its list and stays present or absent as before |
| Segment.PutAddsOneNode | src/storage/segment.cc:55-70 | a put adds exactly one node to the segment, so the counter's step of one matches the lists |
| Segment.PutKeepsValid | src/storage/segment.cc:55-70 | a put keeps keys distinct, lists newest first and the counter equal to the number of nodes |
| Segment.Get | src/storage/segment.cc:72-86 | the lookup succeeds exactly when there is an output and the key is present, and then yields the key's lookup at that time, which may be nothing |
| Segment.TimeGetFindsFirst | src/storage/segment.cc:84 | in a list newest first, a time is found exactly when some node has it, and the block found is that of the first such node |
| Segment.FreeList | src/storage/segment.cc:88-104 | the count is the number of detached nodes; no block appears and a block not on the list keeps its dimension count |
| Segment.FreeListBlock | src/storage/segment.cc:88-104 | a block on one detached node is deleted when its dimension count is at most one and otherwise loses exactly one |
| Segment.SplitList | src/storage/segment.cc:146-151 | the kept part followed by the detached part is the original list; nothing is detached while a reader holds the key; otherwise every node kept is newer than the cut time |
| Segment.SplitDetachesOld | src/storage/segment.cc:146-151 | in a list newest first, what is detached is exactly the nodes not newer than the cut time |
| Segment.Gc4TTL | src/storage/segment.cc:154-174 | every key is cut at the expiry time, and the counter drops by the returned count modulo 2^64 |
| Segment.Gc4TTLKeepsCounter | src/storage/segment.cc:154-174 | the count returned is the number of nodes that left the lists, and a valid segment stays valid |
| Segment.Gc4HeadAsWritten | src/storage/segment.cc:106-144 | head collection as written, when its loop ends within the passes allowed, keeps the number of keys and drops the counter by the returned count modulo 2^64 |
| Segment.HeadLoopHangs | src/storage/segment.cc:110-115 | once a key at or after the iterator holds at most one node, the loop as written never ends: `continue` leaves the iterator where it is |
| Segment.Gc4HeadAsWrittenHangs | src/storage/segment.cc:106-144 | as written, a segment with a key of at most one node makes head collection run forever, whatever number of passes is allowed |
| Segment.HeadLoopRuns | src/storage/segment.cc:110-139 | when skipped keys advance the iterator, or no remaining key has at most one node, the loop ends within one pass per remaining key |
| Segment.HeadRunCollects | src/storage/segment.cc:110-139 | the loop's passes over the remaining keys collect what the recursive definition `HeadKeys` gives for them: the same kept keys, count and blocks |
| Segment.Gc4HeadAsWrittenAgrees | src/storage/segment.cc:106-144 | as written, a segment whose every key holds two nodes or more is collected in one pass per key, with the corrected collection's result |
| Segment.Gc4HeadLoopCorrected | src/storage/segment.cc:106-144 | with the iterator advanced past a skipped key, the loop ends after one pass per key with the corrected collection's result |
| Segment.Gc4HeadHangsOnSingleNode | src/storage/segment.cc:113-115 | on a segment whose one key holds one node, the loop as written never ends while the corrected loop frees nothing |
| Segment.Gc4HeadSkipping | src/storage/segment.cc:106-144 | corrected head collection keeps the number of keys and drops the counter by the returned count modulo 2^64 |
| Segment.Gc4HeadKeepsNewest | src/storage/segment.cc:116-136 | a key not held by a reader whose two newest nodes have different times keeps exactly its newest node |
| Segment.Gc4HeadCount | src/storage/segment.cc:106-144 | the count returned is the number of nodes removed, and the counter still equals the number of nodes |
| Segment.Release | src/storage/segment.cc:31-45 | no key is left, the count is the number of nodes held, which for a valid segment is the data counter, and the counter itself is not reset |
| Segment.NewIterator | src/storage/segment.cc:177-184 | no iterator exactly for an absent key, leaving the segment and the ticket alone; otherwise an iterator over the key's list, the key pushed onto the ticket and its entry's reference count up by one; no list and no other key changes |
| Segment.NewIteratorProtectsKey | src/storage/segment.cc:177-184 | taking an iterator keeps a valid segment valid, and while it holds the key, time-to-live and head collection leave the key's nodes alone |
| ResultSetSql.InitAsWritten | src/sdk/result_set_sql.cc:46-65 | initialisation as written dereferences a null response exactly when the response is missing |
| ResultSetSql.MissingResponseDereferences | src/sdk/result_set_sql.cc:46-49 | for a missing response the code as written dereferences null while the corrected `Init` refuses |
| ResultSetSql.InitAgreesOtherwise | src/sdk/result_set_sql.cc:46-65 | for any present response the corrected `Init` decides as the code does |

## Left out

- Parsing, planning and RPC: the SQL text is assumed already parsed. The insert statement's column names, its first value list, the table's column descriptions and the physical plan are inputs. The same goes for the name server lookups, brpc controllers and tablet clients.
- Logging, timers (`get_micros`), mutexes, atomics and their memory orders, and the double-checked key insertion in `Segment::Put`, which are all concurrency. The model is sequential.
- `ConstNode::GetAsDate`, `GetAsInt16`, `GetAsFloat` and `GetAsDouble` are not part of this model's sources. `GetAsDate` is modelled as splitting on `-` into three decimal fields, and `GetAsInt16` as two's-complement truncation.
- InsertDefaults.CoercionValues: the float and double conversions are modelled as exact reals; single-precision rounding is not modelled.
- `rtidb::type::DataType` (the column type enum) is not part of this model's sources. It is modelled by the enumerators the coercion switch names plus `Other` for the rest.
- A null `str_length` pointer is not modelled: it is a pointer check that returns an empty map, the same as a missing row.
- The `dynamic_cast` of each value to a constant node is not modelled. A value that is not a constant would be dereferenced as null; the model's values are always constants or placeholders.
- `children_.at(i)` throwing for an index past the value list is modelled as the refusal `ValueOutOfRange`, since the source has no handler for it.
- RouterCache.SetKeepsOthers: holds only while the database's cache is below `max_sql_cache_size`. Once it is full, boost's `insert` first evicts the least recently used statement, and that statement's lookup turns from a hit into a miss.
- RouterCache.SetCache: the boost `lru_cache` capacity, least-recently-used eviction and recency updates are not modelled. Storing under a key the cache already holds keeps the held value, which is what boost's `insert` does. This is not "the last value set".
- RouterPlan.GetTables: null node and null set pointers, which return at once, are not modelled. Nor are null producers in a plan.
- TypeCodec: the null bitmap helpers `AppendNULL` and `IsNullAt`, and the header constants `VERSION_LENGTH` and `SIZE_LENGTH`, are not part of this model's sources. Their layout is assumed as stated above.
- TypeCodec.AppendValue: a slot wider than 4 (the `default` case) is written as 4 bytes. The bounds check is modelled as written. It tests the slot position plus the body size, not the body offset, so the caller must ensure the slot and body lie inside the buffer whenever the check passes.
- TypeCodec.AppendNullField: the null path writes a slot of `GetAddrLength(buf_size)` bytes rather than `str_addr_space` bytes. The caller must provide that memory.
- TypeCodec.GetStrFieldIOBufAgrees: the agreement is proved only for rows shorter than 2^31 bytes. Above that the `int32_t` positions go negative; the model computes that case (`Pos32`, `CopyTo`) but no lemma describes it.
- TypeCodec.ScanSlot: `i8_str_pos + 1` and `+ 2` overflow an `int32_t` at its maximum, which is undefined behaviour in C++. The model wraps them.
- TypeCodec.AppendValue: a return value at or above 2^31 is the two's-complement `int32_t`. The row builder keeps the returned offset as a `uint32_t`, as the model's `AppendStrings` does.
- `GetStrCol` and `GetCol` are placement-new construction of column views with no logic, and are not modelled.
- ResultSetSql: `SchemaCodec::Decode` and the row view `RowIOBufView::Reset` are foreign. They are the parameters `schemaDecodes` and `accepts`. The typed getters are left out.
- ResultSetSql.Next: `byte_size_`, `position_` and the response's byte size are taken as unsigned 32-bit values, as the response's `byte_size` field is; the header declaring them (result_set_sql.h) is not part of this model. A signed byte size, with a negative value passing the `<= 0` test, is not modelled.
- ResultSetSql.Next: the `int32_t` increment of `index_` is not wrapped. It would only overflow after 2^31 calls.
- Segment: the key skiplist is modelled as a sequence of key entries in insertion order. The real order is by key, and no property here depends on the order.
- Segment: the time list's `Insert`, `Get` and `Split` are assumed to behave as follows:
  - `Insert` places the node before the first node not newer than it.
  - `Get` finds the first node at that exact time.
  - `Split(ts)` detaches the nodes from the first node not newer than `ts` onward.
- Segment.NewIterator: `Ticket::Push` is not part of this model's sources. It is modelled as taking one reference on the entry. Dropping that reference when the ticket is destroyed is not modelled.
- InsertDefaults.StrLen: `ConstNode::GetStr` is not part of this model's sources. A constant's text is taken to be held as UTF-8.
- `KeyEntry::Release`, called by `Segment::Release`, is not part of this model's sources. It is modelled as freeing the entry's whole list.
- Segment.FreeList: a node whose block was already deleted through another list is use-after-free in the source. The model leaves such a block alone.
- Segment.Gc4HeadKeepsNewest: when the two newest nodes share a time, the cut detaches both. The lemma says nothing about that case.

## Findings

| source | as written | input that shows it | evidently intended | confidence | as-written member | corrected member |
|---|---|---|---|---|---|---|
| src/storage/segment.cc:113-115 | a key with at most one node is skipped by `continue` without advancing the key iterator, so the loop revisits that key forever | a segment with one key `"k"` holding one node (time 1, block 7) | skip to the next key | not executed | Segment.Gc4HeadAsWritten, Segment.Gc4HeadAsWrittenHangs, Segment.Gc4HeadHangsOnSingleNode | Segment.Gc4HeadSkipping, Segment.Gc4HeadLoopCorrected, Segment.Gc4HeadCount |
| src/codec/type_codec.cc:224-242 | the null path stores `str_start + width * field_cnt`, the start of the body area, in the null field's slot. The field before it ends where the null field's slot points, so its body is cut | a 16-byte row of total length 11 with one-byte slots at 7 and 8: field 0 gets [65, 66] at 9, then field 1 is null; field 0 then reads back as 0 bytes | store the current body offset, so a null field is an empty body | not executed | TypeCodec.AppendNullField, TypeCodec.NullAfterValueCutsBody | TypeCodec.AppendNullFieldCorrected, TypeCodec.AppendStrings |
| src/sdk/result_set_sql.cc:47-48 | when the response is missing, the warning logs `response_->code()` and so dereferences a null pointer | `Init` on a result set built with no response | refuse without reading the code | not executed | ResultSetSql.InitAsWritten, ResultSetSql.MissingResponseDereferences | ResultSetSql.Init, ResultSetSql.InitAgreesOtherwise |
