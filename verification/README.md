# Verified model of the native core of Apache DataFusion Comet

Comet runs Spark queries on a native engine. This project models the parts of that engine where
bits, buffers, plans and schemas are transformed, and proves that each transformation keeps what
it is trusted to keep. The modules follow the program:

| module | models |
|---|---|
| `Wrappers` | optional values and results |
| `Words`, `BitStream` | 64-bit words, byte buffers and the bit stream they stand for |
| `BitWriting`, `BitReading`, `Vlq`, `BitPacking`, `RoundTrip` | the bit-packed writer and reader, variable-length integers, the unrolled 32-value unpackers, and the round trip over mixed streams |
| `BitMasks` | single-bit and bulk updates of validity bitmaps |
| `RadixSort` | the in-place radix sort of packed row pointers by partition id |
| `JoinFilter` | binding a join condition to the columns it uses |
| `ListLiteral` | encoding nested list literals as offset arrays |
| `ScanWiring` | lowering an operator tree while handing input streams to its scans |
| `DecimalGuard` | deciding when decimal arithmetic is widened to 256 bits |
| `Columnar`, `SchemaAdapter` | converting nested Parquet columns to the required types, and matching file columns to required fields |
| `SetIndices` | splitting row-index ranges into batches |
| `HdfsCache` | the cache of HDFS connections under concurrent gets and removals |

A buffer is described by its bit stream: byte 0 first, least significant bit first. `Contents()`
of a writer is everything put so far, staged bits included. `Stream()` and `Pos()` of a reader are
its input and the next bit. The proofs show that staging words, reloads, wrapped shifts and fast
paths are invisible at that level, except where the section on conditional promises says when they
are not. Shifts follow release builds, where a shift by 64 or more wraps.

## Main results

- `RoundTrip.WriteThenRead`: for every mixed sequence of packed, aligned, base-128 and zigzag
  writes and every buffer size, the writer accepts the longest prefix that fits, and the matching
  reads of the consumed bytes return the accepted values, also after a refusal, exactly when no
  64-bit read picks up bits of the following word, which never happens without 64-bit values.
- `RoundTrip.WriteBackPatched`: bytes jumped over with `skip` and filled in with
  `put_aligned_offset` after any further writes give the stream of writing them in place.
- `BitReading.BitReader.GetBatch` with `BatchIsRun`: the three-phase batch read, through the
  unrolled unpackers, is the sequence of single reads, cut where the first would fail, for every
  width and element size; blocks wider than 32 bits panic.
- `RadixSort.RdxSort`: the sort in place equals the stable insertion sort by unsigned partition id.
- `JoinFilter.FilterKeepsMeaning` with `JoinFilter.BindFilter`: a bound join filter evaluates on the
  used columns to what the condition evaluates to on all columns, for every expression, row pair and
  interpretation, and its columns are the references in order under the names of their own fields.
- `SchemaAdapter.AdaptBatch` with `Columnar.SparkParquetConvert`: a batch comes out exactly when every
  required field has a convertible source and no null where the required types forbid one, and then
  every row of every field is its source row converted by itself, through any nesting of structs,
  lists and maps, with names compared as they are or lower-cased; a field without a source is its
  default or null.
- `ScanWiring.CreatePlan`: the k-th scan from the left gets the k-th input.
- `ListLiteral.ToArray`: nested literals are encoded exactly when they are uniform, the declared
  nullability of elements included, and read back; at every depth the array stores the flags, list
  sizes and values of the live children in order.
- `HdfsCache.RunsAreLinearizable` and `HdfsCache.CacheIsCoherent`: every interleaving is a sequence
  of atomic calls in the order of their deciding steps, connects are conserved, and gets with no
  removal between them return the same handle. No connection is removed twice
  (`HdfsCache.RemovedOnce`), and no thread is blocked while the lock is free
  (`HdfsCache.StepsExactlyWhen`).
- `DecimalGuard.WidensExactlyWhen` and `DecimalGuard.GuardIsSound`: the guard widens exactly when the
  exact result has more than 38 digits, and what it does not widen fits.

## Promises that hold only under a condition

What the code or its documentation suggests fails on some inputs. Each case has a lemma with the exact
condition under which it holds.

- A 64-bit read from the start of a cached word merges in the following word, because a shift by 64
  wraps to a shift by 0 (`BitReading.ExtractIsRightExactlyWhen`, `RoundTrip.WideReadsBackExactlyWhen`).
- A value with bits above its width corrupts later writes (`BitWriting.StagingIsRightExactlyWhen`,
  `BitWriting.BitWriter.PutValue`); only debug builds reject it.
- `get_u32_batch` admits widths up to 64, but panics on a block of 32 values wider than 32 bits
  (`BitReading.BitReader.GetU32Batch`). So does `get_batch`, where only debug builds reject the width
  (`BitReading.BitReader.GetBatch`).
- `flush_buffer` is documented as the borrowing equivalent of `consume`, but counts `byte_offset`
  bytes from `start` and can run past the end (`BitWriting.FlushBufferIsConsume`).
- `get_batch` into eight-byte elements leaves the high half of elements stored in bulk as it was
  (`BitReading.BatchOfWideExactlyWhen`).
- `get_bits` ors into the target except for the bytes it copies whole
  (`BitReading.CopiedExactlyWhen`).
- Base-128 groups of more than ten bytes wrap around (`Vlq.VlqFoldIsBase128ExactlyWhen`).
- `expr_to_columns` lets the index one past the last column through (`JoinFilter.ExprToColumns`).
  Its caller never passes that index, because `create_expr` has rejected it before
  (`JoinFilter.NothingFails`).
- A nested list literal with an all-empty level is built one list level too deep. Next to a full one
  the encoding fails, and so it does next to one that is empty at another depth, when a list type
  between the two depths is declared without null elements: lists that are built say their elements
  are nullable, empty ones keep the declaration (`ListLiteral.EncodesExactlyWhen`, with the witnesses
  `ListLiteral.EmptyBesideFull` and `ListLiteral.EmptyAtTwoLevels`). For the same reason a literal has
  its declared type only if every level is declared nullable (`ListLiteral.TypedAsDeclaredExactlyWhen`).
- `Window` and scan operators accept further children and drop them
  (`ScanWiring.PlanMirrorsExactlyWhen`).
- `map_schema` reads the last file column of a repeated name, `map_column_index` reports the first
  (`SchemaAdapter.AgreesExactlyWhen`).
- Converting a nested column panics on repeated struct field names, on a struct target without fields,
  on a leaf below the top that Arrow cannot cast, and on a null in a struct field, list element, map
  key or map value that is not nullable, unless its struct row is null. Else the result has the target
  type (`Columnar.ConvertsExactlyWhen`, `Columnar.SparkParquetConvert`).
- A batch is refused when a required column that is not nullable holds a null, which a failed cast and
  a column missing from the file both give (`SchemaAdapter.AdaptBatch`).

## Model

| member | source | states |
|---|---|---|
| `Words.TrailingBits` | native/core/src/common/bit.rs:178-186 | the result has the low n bits of the argument and no others |
| `Words.TrailingBitsIsMod` | native/core/src/common/bit.rs:178-186 | the result is the remainder modulo 2^n |
| `Words.ShlIsScale` | native/core/src/common/bit.rs:419-447 | a left shift multiplies by 2^k and drops whole multiples of 2^64 |
| `Words.OrIsAdd` | native/core/src/common/bit.rs:419-447 | or-ing a word below 2^n with a word shifted past bit n adds them |
| `BitStream.Memcpy` | native/core/src/common/bit.rs:145-150 | the target bytes become the source bytes, all others stay |
| `BitStream.OverwriteReplaces` | native/core/src/common/bit.rs:145-164 | copying bytes replaces exactly the stream bits of those bytes |
| `BitStream.BitsOfLeBytes` | native/core/src/common/bit.rs:153-164 | the n little-endian bytes of a word hold its 8n low bits in stream order |
| `BitStream.OrByteBlends` | native/core/src/common/bit.rs:693-723 | or-ing a word into a byte ors its low eight bits into the stream at that byte |
| `BitStream.PackedRunLength` | native/core/src/common/bit.rs:808-817 | repeated single reads succeed as often as complete values are left |
| `Vlq.LowGroup` | native/core/src/common/bit.rs:495-503 | the masks and the shift of the loop split off seven bits and set the continuation bit |
| `Vlq.MoreGroups` | native/core/src/common/bit.rs:497 | the loop guard asks whether the rest is at least 128 |
| `Vlq.LastGroup` | native/core/src/common/bit.rs:941-943 | the end-of-group test asks whether the byte is below 128 |
| `Vlq.VlqBytesAtMostTen` | native/core/src/common/bit.rs:520 | a 64-bit value takes one to ten bytes |
| `Vlq.VlqSelfDelimiting` | native/core/src/common/bit.rs:495-503 | whatever follows an encoding, the group ends where the encoding does |
| `Vlq.Base128OfVlqBytes` | native/core/src/common/bit.rs:495-503 | the bytes written are the base-128 digits of the value |
| `Vlq.VlqFoldIsBase128` | native/core/src/common/bit.rs:932-947 | the decoding loop computes the base-128 number modulo 2^64 for every group of at most ten bytes |
| `Vlq.VlqFoldIsBase128ExactlyWhen` | native/core/src/common/bit.rs:932-947 | groups of length m all decode to their base-128 number exactly when m is at most ten |
| `Vlq.VlqRoundTrip` | native/core/src/common/bit.rs:495-503 | decoding an encoding followed by anything gives the value back and finds its length |
| `Vlq.ZigzagEncodeIs` | native/core/src/common/bit.rs:512-515 | shifts and xor send v to 2v, or to -2v-1 when negative, for every i64 |
| `Vlq.ZigzagDecodeIs` | native/core/src/common/bit.rs:959-964 | shifts and xor send even words to their half and odd words to the negative numbers |
| `Vlq.ZigzagRoundTrip` | native/core/src/common/bit.rs:959-964 | encoding and decoding are inverse on all of i64 and u64 |
| `BitPacking.UnpackAtIsPacked` | native/core/src/parquet/util/bit_packing.rs:78-3658 | a value taken from one 32-bit word, or joined from two, is the value packed at its bit position |
| `BitPacking.Unpack32` | native/core/src/parquet/util/bit_packing.rs:29-67 | the 32 outputs are the first 32 packed values, for every width from 0 to 32 |
| `BitWriting.StageFits` | native/core/src/common/bit.rs:419-447 | staging behind k staged bits appends the low bits of any value |
| `BitWriting.StageSpills` | native/core/src/common/bit.rs:419-447 | when the word fills, the full word followed by the carried bits is the appended stream |
| `BitWriting.StageFitsWord` | native/core/src/common/bit.rs:419-447 | the staging word stays clean exactly when the value has no bit above its width that the word keeps |
| `BitWriting.StageSpillsWord` | native/core/src/common/bit.rs:419-447 | the same for the word started by the carried bits |
| `BitWriting.StagingIsRightExactlyWhen` | native/core/src/common/bit.rs:419-447 | every further value is staged right exactly when the staging word is clean |
| `BitWriting.StageFlushes` | native/core/src/common/bit.rs:339-350 | writing out whole staged bytes pads the stream with zeros to a byte |
| `BitWriting.BitWriter.constructor` | native/core/src/common/bit.rs:273-282 | a new writer has an empty stream |
| `BitWriting.BitWriter.FromBuf` | native/core/src/common/bit.rs:286-297 | the stream starts as the bytes before start, also when start is the end of the buffer |
| `BitWriting.BitWriter.Extend` | native/core/src/common/bit.rs:301-305 | the stream is kept and the limit grows |
| `BitWriting.BitWriter.Flush` | native/core/src/common/bit.rs:339-350 | pads the stream to a byte; bytes beyond it are untouched |
| `BitWriting.BitWriter.Skip` | native/core/src/common/bit.rs:360-373 | pads, then appends the bytes the buffer held and returns their offset; refuses after the padding exactly when they do not fit |
| `BitWriting.BitWriter.PutValue` | native/core/src/common/bit.rs:419-447 | appends the low bits of any value; refuses, changing nothing, exactly when they do not fit; leaves the writer valid exactly when no bit above the width stays staged |
| `BitWriting.BitWriter.PutAligned` | native/core/src/common/bit.rs:454-463 | pads, then appends the low bytes; on refusal only the padding remains |
| `BitWriting.BitWriter.PutAlignedOffset` | native/core/src/common/bit.rs:474-489 | overwrites the bytes at the offset; below the flushed end this replaces exactly those stream bits and keeps the staged ones |
| `BitWriting.BitWriter.PutVlqInt` | native/core/src/common/bit.rs:495-503 | appends the base-128 groups at a byte boundary; on refusal the groups that fit stay written |
| `BitWriting.BitWriter.PutZigzagVlqInt` | native/core/src/common/bit.rs:512-515 | the same for the zigzag number, stated arithmetically |
| `BitWriting.BitWriter.BytesWritten` | native/core/src/common/bit.rs:386-388 | the padded stream length in bytes, less start |
| `BitWriting.BitWriter.Clear` | native/core/src/common/bit.rs:331-335 | the stream is cut back to what it was at construction |
| `BitWriting.BitWriter.Consume` | native/core/src/common/bit.rs:315-319 | the bytes returned hold the padded stream |
| `BitWriting.BitWriter.FlushBuffer` | native/core/src/common/bit.rs:324-327 | pads the stream and returns the byte_offset bytes that stand from start on, or panics exactly when they run past the end |
| `BitWriting.FlushBufferIsConsume` | native/core/src/common/bit.rs:322-327 | the borrowed bytes are the consumed bytes for every buffer exactly when start is 0 |
| `BitReading.ReadU64Bits` | native/core/src/common/bit.rs:133-136 | the little-endian word holds the 64 stream bits of the first eight bytes |
| `BitReading.ReadNumBytesBits` | native/core/src/common/bit.rs:109-117 | the copying and the masking form both hold exactly the stream bits of the first size bytes |
| `BitReading.LoadIsWordAt` | native/core/src/common/bit.rs:966-973 | the full load and the short load both give the next 64 stream bits, zeros past the end |
| `BitReading.ExtractIsPacked` | native/core/src/common/bit.rs:618-634 | shift, merge with the next word and mask give the packed value at any bit and width short of 64 on a boundary |
| `BitReading.WideExtract` | native/core/src/common/bit.rs:618-634 | a 64-bit read on a boundary gives the or of two words |
| `BitReading.ExtractIsRightExactlyWhen` | native/core/src/common/bit.rs:618-634 | a read is right for every two words exactly when it is not 64 bits wide at bit 0 |
| `BitReading.BitReader.constructor` | native/core/src/common/bit.rs:549-562 | the reader stands at bit 0 of the first len bytes |
| `BitReading.BitReader.Reset` | native/core/src/common/bit.rs:569-579 | the reader stands at bit 0 of all of the new buffer |
| `BitReading.BitReader.ReloadBufferValues` | native/core/src/common/bit.rs:966-973 | the cached word is the stream word at the byte offset |
| `BitReading.BitReader.GetByteOffset` | native/core/src/common/bit.rs:583-585 | the position rounded up to bytes |
| `BitReading.BitReader.GetU64Value` | native/core/src/common/bit.rs:618-634 | returns the packed value, or the two words merged for 64 bits from bit 0, and advances by the width |
| `BitReading.BitReader.GetValue` | native/core/src/common/bit.rs:590-600 | None, with nothing changed, exactly when too few bits are left; else what the single read returns |
| `BitReading.BitReader.GetAligned` | native/core/src/common/bit.rs:889-926 | None, with nothing changed, exactly when the bytes are not there; else the little-endian value at the next byte boundary, with the cached bit it leaves |
| `BitReading.BitReader.Advance` | native/core/src/common/bit.rs:717-722 | moves behind bits of the cached word, to the next word when it is drained |
| `BitReading.BitReader.SkipBits` | native/core/src/common/bit.rs:728-763 | moves by the bits asked for, or by those left, and returns how many, with the cached bit it leaves |
| `BitReading.BitReader.GetVlqInt` | native/core/src/common/bit.rs:932-947 | decodes the group at the next byte boundary; None exactly when no final byte is left, with all bytes consumed |
| `BitReading.BitReader.GetZigzagVlqInt` | native/core/src/common/bit.rs:959-964 | the same, with the zigzag number decoded |
| `BitReading.BitReader.GetBitsBuffered` | native/core/src/common/bit.rs:693-723 | ors the bits of the cached word into the target and drains the word or meets the request |
| `BitReading.Scatter` | native/core/src/common/bit.rs:699-714 | the byte-by-byte loop ors exactly the n bits of the value into the target at any bit offset |
| `BitReading.BitReader.CopyWholeBytes` | native/core/src/common/bit.rs:659-672 | on a byte boundary the whole bytes replace the target, else nothing moves |
| `BitReading.BitReader.CopyThroughWord` | native/core/src/common/bit.rs:674-679 | the remaining bits are or-ed in word by word |
| `BitReading.BitReader.GetBits` | native/core/src/common/bit.rs:645-682 | copies as many bits as stream, request and target allow, in three phases; every target bit is stated: or-ed, replaced in whole bytes moved from a byte boundary on, or untouched |
| `BitReading.CopiedExactlyWhen` | native/core/src/common/bit.rs:636-682 | the copy is exact for every stream exactly when the target bits outside the bytes copied whole start as zero |
| `BitReading.BitReader.GetRun` | native/core/src/common/bit.rs:821-829 | single reads until the word is drained store the head of what the reads return |
| `BitReading.BitReader.GetBulk` | native/core/src/common/bit.rs:831-868 | blocks of 32 store the next part of the packed run |
| `BitReading.BitReader.GetBlocks` | native/core/src/common/bit.rs:831-868 | seen from the start of the run, blocks store what single reads would, apart from the high half of eight-byte elements |
| `BitReading.BitReader.FillBatch` | native/core/src/common/bit.rs:819-878 | the three loops together store what single reads would; a width above 32 panics exactly when 32 values are left behind the drained word |
| `BitReading.BitReader.GetBatch` | native/core/src/common/bit.rs:808-881 | widths up to 64 into elements of any size: the number of values and the final position are those of repeated single reads, each element is its read cut to its size, except for the high half an eight-byte element stored in bulk keeps; the panic is exact |
| `BitReading.BitReader.GetU32Batch` | native/core/src/common/bit.rs:779-806 | widths up to 64: panics exactly when the width exceeds 32 and 32 values are left behind the drained word; else every element is the low 32 bits of its single read |
| `BitReading.AlignStepsIs` | native/core/src/common/bit.rs:821-829 | the first loop ends at the first read that drains the cached word, or with the values |
| `BitReading.BulkEndIs` | native/core/src/common/bit.rs:835-868 | the blocks are whole and fewer than 32 values are left behind them |
| `BitReading.StoredIsTrailing` | native/core/src/common/bit.rs:590-615 | elements of any size get the low bytes of the packed values, except for 64-bit reads from bit 0 |
| `BitReading.U32RunIs` | native/core/src/common/bit.rs:604-615 | in four-byte elements these are the packed values modulo 2^32 |
| `BitReading.StoredIsPacked` | native/core/src/common/bit.rs:808-829 | values whose width fits their elements are stored unchanged, except for 64-bit reads from bit 0 |
| `BitReading.ValuesToReadIsRun` | native/core/src/common/bit.rs:812-817 | the computed cut is where repeated single reads would first fail |
| `BitReading.BatchIsRun` | native/core/src/common/bit.rs:808-881 | for elements of up to four bytes the batch holds the low bytes of the packed values, for a width that fits the packed values themselves, followed by its old tail |
| `BitReading.BatchElement` | native/core/src/common/bit.rs:852-868 | every element has the low half of its read; the high half is that of its read too, or the old one for eight-byte elements stored in bulk |
| `BitReading.BatchOfWideExactlyWhen` | native/core/src/common/bit.rs:852-857 | eight-byte elements hold the packed values exactly when those stored in bulk had a zero high half |
| `RoundTrip.DecodeEmitted` | native/core/src/common/bit.rs:419-515 | reading where an item was written returns its value and ends where it ends |
| `RoundTrip.DecodeAllEmitted` | native/core/src/common/bit.rs:419-515 | the stream of every emitted sequence means the values emitted, in order, whatever follows it |
| `RoundTrip.ReadingIsDecoding` | native/core/src/common/bit.rs:590-964 | without 64-bit reads the reader returns what the stream means |
| `RoundTrip.ReadAllEmitted` | native/core/src/common/bit.rs:590-964 | reading an emitted sequence, whatever follows it, returns its values, with 64-bit reads from the start of a cached word merged with what follows |
| `RoundTrip.ReadsBackExactlyWhen` | native/core/src/common/bit.rs:618-634 | the values come back exactly when no such merge adds a bit |
| `RoundTrip.WideReadsBackExactlyWhen` | native/core/src/common/bit.rs:618-634 | a 64-bit write comes back for every value exactly when it does not start a cached word or the 64 bits behind it are zero |
| `RoundTrip.SkipIsDiscard` | native/core/src/common/bit.rs:728-763 | skipping n bits leaves what later reads mean as n one-bit reads would, also past the end, and what they return when none is 64 bits wide or the cached bits agree |
| `RoundTrip.WriteOne` | native/core/src/common/bit.rs:419-515 | one write emits its item, accepted exactly when the longer stream fits; a refused one leaves nothing, padding, or the bytes of a varint that fit |
| `RoundTrip.WriteAll` | native/core/src/common/bit.rs:419-515 | the items accepted before the first refusal are the longest prefix that fits; the stream is theirs followed by what the refused write leaves |
| `RoundTrip.WriteBackPatched` | native/core/src/common/bit.rs:360-489 | skipping bytes, writing any items and filling the bytes in afterwards gives the stream of writing them in place, accepted exactly when that fits |
| `RoundTrip.ReadOne` | native/core/src/common/bit.rs:590-964 | value, position and cached bit of one read on every byte string, for widths up to 64 |
| `RoundTrip.ReadAll` | native/core/src/common/bit.rs:590-964 | a sequence of reads is their composition |
| `RoundTrip.WriteThenRead` | native/core/src/common/bit.rs:1272-1312 | mixed streams of all widths: all are accepted exactly when they fit; those accepted are read back, after a refusal too, exactly when uncorrupted, and always without 64-bit values |
| `BitMasks.SetBit` | native/core/src/common/bit.rs:189-191 | sets that bit and no other |
| `BitMasks.GetBit` | native/core/src/common/bit.rs:248-250 | true exactly when that bit of the stream is set |
| `BitMasks.GetBitIs` | native/core/src/common/bit.rs:248-250 | the mask test reads that bit of the stream |
| `BitMasks.SetBits` | native/core/src/common/bit.rs:208-236 | partial first byte, bulk bytes and partial last byte together set the range and nothing else |
| `BitMasks.SetBitsIsSetEach` | native/core/src/common/bit.rs:208-236 | setting a range is setting each of its bits |
| `RadixSort.GetBucketIsDigit` | native/core/src/execution/sort.rs:65-70 | the bucket is hexadecimal digit round of the partition id |
| `RadixSort.PartitionIdIs` | native/core/src/execution/sort.rs:65-70 | the partition id is the unsigned pointer divided by 2^40, below 2^24 |
| `RadixSort.KeyOrder` | native/core/src/execution/sort.rs:106-177 | keys of one more digit compare by that digit, then by the rest |
| `RadixSort.FullKey` | native/core/src/execution/sort.rs:59-62 | six digits are the whole partition id |
| `RadixSort.BucketsFromSorted` | native/core/src/execution/sort.rs:127-144 | a pass turns sorted by r digits into sorted by r + 1 |
| `RadixSort.PassStable` | native/core/src/execution/sort.rs:85-100 | a pass keeps the order of elements with equal keys |
| `RadixSort.RoundsSorted` | native/core/src/execution/sort.rs:106-177 | after n rounds the sequence is stably sorted by its n low digits |
| `RadixSort.StableIsPermutation` | native/core/src/execution/sort.rs:106-177 | a stable rearrangement is a permutation |
| `RadixSort.StableSortUnique` | native/core/src/execution/sort.rs:106-177 | sorted and stable leaves only one result |
| `RadixSort.InsertionSortCorrect` | native/core/src/execution/sort.rs:78-82 | the reference sort is sorted and stable by partition id |
| `RadixSort.RoundsIsStableSort` | native/core/src/execution/sort.rs:106-177 | six passes are the reference sort |
| `RadixSort.HelperBucket` | native/core/src/execution/sort.rs:85-100 | appends to each bucket the items of its digit in order |
| `RadixSort.Round` | native/core/src/execution/sort.rs:127-144 | one round distributes the flattened buckets by the next digit |
| `RadixSort.CopyBack` | native/core/src/execution/sort.rs:146-176 | the array ends as the concatenation of the buckets |
| `RadixSort.RdxSort` | native/core/src/execution/sort.rs:106-177 | sorts in place: equal to the stable reference sort, a permutation, ascending by partition id |
| `JoinFilter.Collect` | native/core/src/execution/planner.rs:2557-2573 | visits columns in preorder, splits them by side, stops at the first one beyond the checked range |
| `JoinFilter.ExprToColumns` | native/core/src/execution/planner.rs:2549-2579 | succeeds exactly when no index exceeds the total width, else names the first that does; each side is ascending and holds every index as often as it is used |
| `JoinFilter.SortKeeps` | native/core/src/execution/planner.rs:2575-2576 | sorted, with the same indices, duplicates included |
| `JoinFilter.RewriteKeepsMeaning` | native/core/src/execution/planner.rs:2606-2653 | rewriting against index lists that cover the columns keeps the value on every pair of rows |
| `JoinFilter.RewriteKeepsNames` | native/core/src/execution/planner.rs:2606-2653 | every column keeps its name and points at its own index in the index vectors |
| `JoinFilter.CreatedExpr` | native/core/src/execution/planner.rs:366-375 | creating the expression fails exactly at the first reference beyond the schema, and otherwise has the columns referred to, each under the name of its field |
| `JoinFilter.CreatedMeans` | native/core/src/execution/planner.rs:366-375 | the expression created has the value of the condition on every row |
| `JoinFilter.BindFilter` | native/core/src/execution/planner.rs:1726-1797 | a filter is built exactly when every reference is a column, else the first bad reference is the error; nothing panics. The columns of the filter are the references in order, each pointing at its field of the filter schema and named as that field; every side holds its columns as often as they are used |
| `JoinFilter.NothingFails` | native/core/src/execution/planner.rs:1751-1791 | behind the check of create_expr the range check, the field lookups and the rewriting cannot fail |
| `JoinFilter.FilterKeepsMeaning` | native/core/src/execution/planner.rs:1748-1797 | the filter built has the value of the condition on every pair of rows, for every meaning of the operators |
| `ListLiteral.AppendRows` | native/core/src/execution/planner.rs:2916-2919 | concatenating two arrays with shifted offsets concatenates their rows |
| `ListLiteral.JoinedRows` | native/core/src/execution/planner.rs:2916-2919 | concatenating the children concatenates their rows |
| `ListLiteral.JoinedLayers` | native/core/src/execution/planner.rs:2916-2919 | concatenating the children concatenates flags, list sizes and values at every depth |
| `ListLiteral.SlotRows` | native/core/src/execution/planner.rs:2902-2914 | reading slot i through the offsets finds exactly the values of child i |
| `ListLiteral.OffsetsGood` | native/core/src/execution/planner.rs:2897-2914 | the offsets start at 0, never fall and end at the number of values |
| `ListLiteral.ToArray` | native/core/src/execution/planner.rs:2889-2936 | succeeds exactly on uniform literals; the array is well formed, its rows are the literal's values with its nulls, its type is the one built; its mask, list lengths and primitive values are the literal's own, at every depth those of the live children in order; an unsupported leaf type is the only source of that error |
| `ListLiteral.HollowTypesAgreeExactlyWhen` | native/core/src/execution/planner.rs:2919-2931 | the types of two hollow children agree exactly when every level between their empty ones is declared nullable |
| `ListLiteral.EncodesExactlyWhen` | native/core/src/execution/planner.rs:2893-2931 | encoding succeeds exactly when at every level the live children are all inhabited, or all not and declared nullable at every level between their empty ones, and then its type is known |
| `ListLiteral.TypedAsDeclaredExactlyWhen` | native/core/src/execution/planner.rs:2920-2931 | the array has the declared element type exactly when every level holds a live entry and is declared nullable |
| `ListLiteral.EmptyBesideFull` | native/core/src/execution/planner.rs:2916-2923 | a level of empty lists beside a full one makes the concatenation fail |
| `ListLiteral.EmptyAtTwoLevels` | native/core/src/execution/planner.rs:2916-2931 | lists empty at two depths are concatenated exactly when the level between is declared nullable |
| `ScanWiring.Inputs.RemoveFirst` | native/core/src/execution/planner.rs:1376-1383 | takes the first remaining input |
| `ScanWiring.CreatePlan` | native/core/src/execution/planner.rs:1060-1673 | succeeds exactly when the tree is lowerable and has enough inputs; the k-th scan holds the k-th input, the suffix is left over, and the plan mirrors the tree exactly when it is tidy; else the first obstacle in the order of translation decides between an error and a failed assertion |
| `ScanWiring.ScansWiredInOrder` | native/core/src/execution/planner.rs:1367-1397 | lowering succeeds exactly when the tree is lowerable and has enough inputs, scans come from left to right, the k-th with the k-th input |
| `ScanWiring.StopsAtFirstHit` | native/core/src/execution/planner.rs:1060-1673 | an unmet check, a failed assertion or a scan without input, whichever comes first from left to right and from below, is the outcome |
| `ScanWiring.WiredIsOneToOne` | native/core/src/execution/planner.rs:1376-1383 | with enough inputs each scan has its own |
| `ScanWiring.PlanMirrorsExactlyWhen` | native/core/src/execution/planner.rs:1060-1673 | the SparkPlan tree has a node for every operator exactly when no unchecked children are dropped |
| `ScanWiring.TidyReachesAllScans` | native/core/src/execution/planner.rs:1676-1690 | on such trees the scans lowered are all the scans |
| `DecimalGuard.ResultBound` | native/core/src/execution/planner.rs:951-955 | aligned sums and differences stay below twice, products below once the power of ten the guard computes |
| `DecimalGuard.ResultIsExact` | native/core/src/execution/planner.rs:951-975 | what is computed on unscaled values is the exact sum, difference or product of the numbers |
| `DecimalGuard.ResultInPrecision` | native/core/src/execution/planner.rs:951-955 | every result has at most the digits of the exact result type |
| `DecimalGuard.GuardIsSound` | native/core/src/execution/planner.rs:942-975 | for all operands, unwidened operations stay below 10^38 and within 128 bits, widened ones within 256 bits |
| `DecimalGuard.WidensExactlyWhen` | native/core/src/execution/planner.rs:951-955 | the guard widens exactly when the exact result type has more than 38 digits, that is, holds a value beyond 38 digits |
| `DecimalGuard.WidensByBoundsExactlyWhen` | native/core/src/execution/planner.rs:951-955 | the guard widens exactly when an aligned operand bound, or the product of the bounds, reaches 10^38 |
| `DecimalGuard.GuardIsNeededExactlyWhen` | native/core/src/execution/planner.rs:951-955 | some operands leave 128 bits exactly when both aligned precisions reach 38 or one exceeds it, or product precisions add up to more; all those types are widened |
| `SetIndices.SetIndicesLoop` | native/core/src/parquet/mod.rs:469-488 | the reader is given exactly the window of positions from offset on, batch_size of them, in order |
| `SetIndices.PositionsAre` | native/core/src/parquet/mod.rs:467-483 | position j of pair k comes after those of the earlier pairs and is the start of the pair plus j |
| `SetIndices.SelectedExactlyWhen` | native/core/src/parquet/mod.rs:467-483 | the positions are exactly the rows inside some pair |
| `SetIndices.SetAllIndices` | native/core/src/parquet/mod.rs:469-488 | one reader called at offsets 0, b, 2b and so on is given every position once, in order, and their number is the sum of the counts |
| `HdfsCache.HdfsManager.GetHdfs` | native/fs-hdfs/src/hdfs.rs:80-121 | alone, two lookups and a connect come to one atomic get: the cached handle, or a new one cached under its own url, or nothing changed; no other entry changes |
| `HdfsCache.HdfsManager.RemoveHdfsInner` | native/fs-hdfs/src/hdfs.rs:139-142 | alone, it is one atomic removal: putting back the entry it returns restores the cache |
| `HdfsCache.Replay` | native/fs-hdfs/src/hdfs.rs:80-142 | calls on one manager in sequence give the cache and results of the atomic calls |
| `HdfsCache.StepKeeps` | native/fs-hdfs/src/hdfs.rs:80-142 | every step of every thread keeps lock, cache, count and log invariants |
| `HdfsCache.RunKeeps` | native/fs-hdfs/src/hdfs.rs:80-142 | the invariant holds in every state of every interleaved run |
| `HdfsCache.CacheIsCoherent` | native/fs-hdfs/src/hdfs.rs:80-142 | connects of a key equal its removals plus one if cached, and gets with no removal between them agree |
| `HdfsCache.StepsExactlyWhen` | native/fs-hdfs/src/hdfs.rs:80-142 | in every state of every run an unfinished thread can step exactly when the write lock is free or its own |
| `HdfsCache.RemovedOnce` | native/fs-hdfs/src/hdfs.rs:80-142 | in every state of every run no handle is cached twice, held by two removals or both; each removal holds an entry of its key, as many as the log counts |
| `HdfsCache.ReturnsAreLogged` | native/fs-hdfs/src/hdfs.rs:80-121 | every handle a thread holds is one the log says was returned |
| `HdfsCache.RunsAreLinearizable` | native/fs-hdfs/src/hdfs.rs:80-142 | at every state of every run, cache and results are those of the decided calls executed in sequence, one for each finished thread |
| `HdfsCache.OrderRespectsRealTime` | native/fs-hdfs/src/hdfs.rs:80-142 | a thread that finished before another started has the earlier call |
| `Columnar.NullArrIsNull` | native/core/src/parquet/parquet_support.rs:252-254 | every row of a null array is null |
| `Columnar.LeafConverted` | native/core/src/parquet/parquet_support.rs:203-207 | casting a leaf array casts each row |
| `Columnar.DictConverted` | native/core/src/parquet/parquet_support.rs:144-163 | casting the dictionary and taking by key casts each row |
| `Columnar.ListConverted` | native/core/src/parquet/parquet_support.rs:177-191 | converting the values under the same offsets converts each list |
| `Columnar.MapConverted` | native/core/src/parquet/parquet_support.rs:277-319 | converting keys and values under the same offsets converts each map |
| `Columnar.StructConverted` | native/core/src/parquet/parquet_support.rs:225-273 | columns converted by name and the chosen null mask convert each struct |
| `Columnar.BuildNameMap` | native/core/src/parquet/parquet_support.rs:224-232 | the map holds the field positions by normalized name, with as many entries as fields exactly when the names are distinct |
| `Columnar.OverlapIs` | native/core/src/parquet/parquet_support.rs:226-242 | two structs have a field in common exactly when two names agree as they are, or lower-cased |
| `Columnar.DistinctIs` | native/core/src/parquet/parquet_support.rs:226-233 | the length check passes exactly when no two names agree |
| `Columnar.ConvertColumn` | native/core/src/parquet/parquet_support.rs:234-255 | a target column is the same-named source column converted, or nulls; the verdict on the array decides the outcome |
| `Columnar.ConvertStruct` | native/core/src/parquet/parquet_support.rs:213-273 | stops at the first field that is no array; panics on repeated names, no target field, a column of another type or an unmasked null in a non-nullable field, exactly; else a target field is laid out from the source field of its name, compared as it is or lower-cased, and is null without one; no common field a null row |
| `Columnar.ConvertList` | native/core/src/parquet/parquet_support.rs:177-191 | panics exactly when the converted values have another type or hold a null the element type forbids; else each list is converted, under its own offsets and mask |
| `Columnar.ConvertMap` | native/core/src/parquet/parquet_support.rs:277-319 | panics exactly on a null key or entry, a null value where forbidden or a side of another type; else each map is converted, under its own offsets and masks |
| `Columnar.ConvertArray` | native/core/src/parquet/parquet_support.rs:135-209 | the verdict on types and nulls decides between an array, Arrow's own cast and a panic; an array is laid out part by part as the target asks: cells cast one by one or left alone, offsets and masks kept, struct columns by name; pairs of different kinds are left to Arrow; for a convertible pair it has the target type and converts each row by itself |
| `Columnar.SparkParquetConvert` | native/core/src/parquet/parquet_support.rs:110-133 | an array of the target type comes back exactly when the types are convertible and the nulls fit; it converts each row, and is laid out part by part as the target asks; convertible with a misplaced null panics |
| `Columnar.ConvertsExactlyWhen` | native/core/src/parquet/parquet_support.rs:135-319 | the verdict is an array of the target type exactly when the types are convertible and no null meets a non-nullable place; a convertible pair gives that or a panic |
| `Columnar.VerdictNulls` | native/core/src/parquet/parquet_support.rs:135-319 | the rows the verdict calls null are those whose conversion is null |
| `SchemaAdapter.MapSchema` | native/core/src/parquet/schema_adapter.rs:115-151 | the projection is the file columns that have a required field's name, in order; a field is read from a column exactly when that is the last of its name and the field the first, names compared as they are or lower-cased |
| `SchemaAdapter.ReadFromIs` | native/core/src/parquet/schema_adapter.rs:115-151 | what a field is read from has no later column of its name; a field read from nothing has none |
| `SchemaAdapter.ReadFromIsSource` | native/core/src/parquet/schema_adapter.rs:115-151 | projection and mapping together read each field from the column the schemas determine |
| `SchemaAdapter.AgreesExactlyWhen` | native/core/src/parquet/schema_adapter.rs:88-151 | this is the column reported by map_column_index exactly when the file has none of the name, or the field is the first and the column the only one of the name |
| `SchemaAdapter.DistinctAgrees` | native/core/src/parquet/schema_adapter.rs:88-151 | with distinct names the two always agree |
| `SchemaAdapter.MappingIsBijectionExactlyWhen` | native/core/src/parquet/schema_adapter.rs:115-151 | no column is mapped twice; all projected columns are mapped exactly when none is repeated |
| `SchemaAdapter.MappedColumn` | native/core/src/parquet/schema_adapter.rs:239-248 | a column comes out exactly when the types are convertible and the nulls fit; it has the field's type and the batch's length and each row converted |
| `SchemaAdapter.FilledColumn` | native/core/src/parquet/schema_adapter.rs:208-238 | no column comes out exactly when the default has another type and does not convert; else every row is the default as it is, the default converted, or null without one |
| `SchemaAdapter.ReadyExactlyWhen` | native/core/src/parquet/schema_adapter.rs:252-258 | the null check on a finished column is the condition on the rows expected in it |
| `SchemaAdapter.MapBatch` | native/core/src/parquet/schema_adapter.rs:193-259 | a batch comes out exactly when every column can be made and a non-nullable field expects no null; every column has the required type, the batch's row count and the expected rows |
| `SchemaAdapter.ReadyIsReadable` | native/core/src/parquet/schema_adapter.rs:115-259 | through projection and mapping, that condition and the expected rows are those the schemas and file columns determine |
| `SchemaAdapter.AdaptBatch` | native/core/src/parquet/schema_adapter.rs:115-259 | from file columns to the required batch: one comes out exactly when every field is readable; each field then holds the file column of its name converted row by row, else its default as it is or converted, else nulls |

## Left out

- JNI entry points, memory pools, shuffle, metrics, the JVM side and object-store URLs: glue and I/O.
- Spark expressions, casts and aggregates in native/spark-expr: many independent small functions.
- The other numeric helpers of bit.rs (log2, mix_hash, unset_bit, raw-pointer variants): easy members.
- Debug builds: `debug_assert!` failures and overflow panics are not modelled; shifts wrap as in release builds.
- Unchecked i32 offsets, usize sizes and i64 positions: sums are unbounded here, so overflow of a list's total length or of index plus skip is not modelled.
- BitWriting.BitWriter.FromBuf: a start beyond the buffer, on which later calls index out of bounds, is not modelled.
- BitReading.BitReader.GetBatch: the bool element type and its conversion are not modelled.
- RadixSort.RdxSort: the branch for reversed buckets is not modelled, because no bucket of i64 is reversed; nor is the presizing of buckets.
- ScanWiring.CreatePlan: what an operator needs besides its children is one verdict (fine, an error, a failed assertion); native plan nodes and the swapped build side of hash joins are not modelled.
- ListLiteral.ToArray: the leaf type Null, whose array is all nulls whatever the mask says, is not modelled, nor are the names of list items.
- JoinFilter.CreatedExpr: errors of operators themselves (unsupported functions and types) and unbound columns are not modelled.
- DecimalGuard.GuardIsSound: negative scales, division and the cast back to the result type are not modelled.
- Columnar.ConvertArray: Arrow's leaf casts are a parameter, and a struct array without columns is taken to panic, as in Arrow 56. Map keys and entries are non-nullable, as serde.rs builds every map type. Pairs that are handed to Arrow as a whole, dictionary targets and timestamp relabelling are not modelled; names are lower-cased by a parameter.
- Columnar.SparkParquetConvert: the scalar argument, a one-row array, is not modelled apart.
- SchemaAdapter.MapBatch: statistics mapping and row filters are not modelled.
- HdfsCache.HdfsManager.GetHdfs: namenode URI parsing and lock poisoning are not modelled; a connect is one step with a fresh handle or a failure.
