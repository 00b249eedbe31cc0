# woff2otf, modelled in Dafny

`woff2otf` (`src/lib.rs`) turns a WOFF 1.0 font container into the SFNT
(TrueType/OpenType) font it wraps. It does this in the following steps:

1. It reads the 44-byte WOFF header.
2. It writes the 12-byte SFNT header: the flavour, the table count, and the
   binary-search parameters `searchRange`, `entrySelector` and `rangeShift`.
3. It reads the `numTables` 20-byte WOFF directory entries.
4. It gives each table an output offset, in input order. The offsets start
   right after the SFNT directory, and each table is padded to a multiple
   of 4. It writes one 16-byte SFNT record per table: tag, checksum, offset
   and length.
5. It copies each table's bytes, followed by zero padding. A stored table is
   copied as it is. A compressed table goes through zlib.

The model works on values:

- The input is a `seq<Byte>` read at absolute positions. The output is the
  `seq<Byte>` written so far.
- The zlib decoder is a parameter, `inflate`. It maps the bytes from a
  table's offset onwards to what the decoder yields (`Inflated`): the bytes
  it produced, and whether it stopped on an error.
- The build is modelled with Rust's debug arithmetic. Every `u16`/`u32`
  addition or multiplication that overflows panics; the model returns
  `Failure(ArithmeticOverflow)` instead. `unwrap()` on the empty search
  chain becomes `Failure(NoSearchCandidate)`. A failed `read_exact` becomes
  `Failure(UnexpectedEof)`. A zlib error becomes
  `Failure(DecompressionFailure)`.

The modules and what they hold:

- `Io`: the error kinds, `Option` and `Result`.
- `ByteCodec`: the big-endian `u16`/`u32` readers and writers. It also holds
  the overflow-checked `u32` addition and `u16` multiplication.
- `Woff`: the WOFF header and directory parsers, and the writers used to
  state their round trips.
- `SfntParams`: the iterator chain that computes `entrySelector` and
  `searchRange`, and the `rangeShift` subtraction.
- `Layout`:
  - `TableStart`, the reference layout over unbounded integers;
  - `Place`, the `u32` offset bookkeeping of the second loop;
  - `Records`, the 16-byte records.
- `Transcoder`:
  - the whole conversion as a function, `Convert`;
  - the source's procedure as methods with its three loops (`Woff2Otf`,
    `WriteBody`, `ReadDirectory`, `AssignOffsets`, `CopyTables`), each
    proved equal to the function.
- `Placement`: where the copy loop puts each table.
- `Properties` and `OutputLayout`: what a conversion rejects, and what a
  successful conversion's output holds.

When every table yields its full `origLength` bytes, the output works out as
follows:

- The output is 12 header bytes, then one record per WOFF entry in input
  order, then the tables.
- Table `i` starts at `TableStart(entries, 12 + 16 * numTables, i)`. That
  is the offset its record announces, and it is a multiple of 4.
- Table `i` is followed by zeros up to where table `i + 1` starts.
- The output length is a multiple of 4.

## Model

| member | source | states |
|---|---|---|
| ByteCodec.DecodeEncodeU16 | src/lib.rs:37-52 | decoding the two bytes `write_u16_be` emits gives the value back |
| ByteCodec.EncodeDecodeU16 | src/lib.rs:37-52 | any two bytes, decoded and re-encoded, are the same two bytes |
| ByteCodec.DecodeEncodeU32 | src/lib.rs:30-47 | decoding the four bytes `write_u32_be` emits gives the value back |
| ByteCodec.EncodeDecodeU32 | src/lib.rs:30-47 | any four bytes, decoded and re-encoded, are the same four bytes |
| ByteCodec.EncodeU16 | src/lib.rs:49-52 | a `u16` is written as exactly 2 bytes |
| ByteCodec.EncodeU32 | src/lib.rs:44-47 | a `u32` is written as exactly 4 bytes |
| ByteCodec.EncodeU16IsBigEndian | src/lib.rs:49-52 | the 2 bytes are the value's big-endian digits in base 256 |
| ByteCodec.EncodeU32IsBigEndian | src/lib.rs:44-47 | the 4 bytes are the value's big-endian digits in base 256 |
| ByteCodec.DecodeU16IsFromBigEndian | src/lib.rs:37-42 | `from_be_bytes` on 2 bytes is big-endian base-256 decoding |
| ByteCodec.DecodeU32IsFromBigEndian | src/lib.rs:30-35 | `from_be_bytes` on 4 bytes is big-endian base-256 decoding |
| ByteCodec.FromBigEndianInverse | src/lib.rs:30-47 | big-endian decoding inverts encoding for every value that fits the width |
| ByteCodec.BigEndianInverse | src/lib.rs:30-47 | big-endian encoding inverts decoding for every byte string |
| ByteCodec.DecodeU16 | src/lib.rs:37-42 | `u16::from_be_bytes`; what it computes is stated by `DecodeU16IsFromBigEndian`, `DecodeEncodeU16` and `EncodeDecodeU16` |
| ByteCodec.DecodeU32 | src/lib.rs:30-35 | `u32::from_be_bytes`; what it computes is stated by `DecodeU32IsFromBigEndian`, `DecodeEncodeU32` and `EncodeDecodeU32` |
| ByteCodec.ReadU16 | src/lib.rs:37-42 | a 2-byte read succeeds exactly when 2 bytes remain, and otherwise fails as end of input |
| ByteCodec.ReadU32 | src/lib.rs:30-35 | a 4-byte read succeeds exactly when 4 bytes remain, and otherwise fails as end of input |
| ByteCodec.ReadU16Encoded | src/lib.rs:37-42 | the value read is the one whose encoding is the 2 bytes at the cursor |
| ByteCodec.ReadU32Encoded | src/lib.rs:30-35 | the value read is the one whose encoding is the 4 bytes at the cursor |
| ByteCodec.EncodeU16Injective | src/lib.rs:49-52 | distinct `u16` values are written as distinct bytes |
| ByteCodec.EncodeU32Injective | src/lib.rs:44-47 | distinct `u32` values are written as distinct bytes |
| ByteCodec.CheckedAddU32 | src/lib.rs:115 | a `u32` sum succeeds exactly when it stays below 2^32, and otherwise panics with an overflow |
| ByteCodec.CheckedMulU16 | src/lib.rs:85 | a `u16` product succeeds exactly when it stays below 2^16, and otherwise panics with an overflow |
| Woff.ParseHeader | src/lib.rs:56-70 | the header parses exactly when 44 bytes are present, and otherwise fails as end of input |
| Woff.ParseEncodedHeader | src/lib.rs:56-70 | an input starting with the 44-byte encoding of a header, fields in declaration order, parses to that header whatever follows |
| Woff.ParsedHeaderEncoded | src/lib.rs:56-70 | for every input of at least 44 bytes, the parsed header re-encodes to exactly the first 44 bytes, so each header byte is read once, in field order |
| Woff.ReadEntry | src/lib.rs:100-107 | an entry parses exactly when 20 bytes remain; its `otf_offset` starts as 0 |
| Woff.ReadEncodedEntry | src/lib.rs:100-107 | reading an encoded entry recovers all five fields, in order |
| Woff.ReadEntryEncoded | src/lib.rs:100-107 | an entry read at any position re-encodes to exactly the 20 bytes there |
| Woff.ParseDirectory | src/lib.rs:97-111 | `numTables` entries parse exactly when `44 + 20 * numTables` bytes are present; there are then exactly `numTables` of them, and otherwise the read fails as end of input |
| Woff.ParseDirectoryAt | src/lib.rs:97-111 | entry `i` is the entry read `20 * i` bytes past the header |
| Woff.ParseEncodedDirectory | src/lib.rs:97-111 | a directory written entry after entry parses back to the same entries, in order |
| SfntParams.Scan | src/lib.rs:75-87 | the lazy `map`/`filter`/`map`/`last` chain over `0..16`, stopping at the first overflow; stated by `ScanFinds`, `ScanPast` and `ScanOverflows` |
| SfntParams.SearchParams | src/lib.rs:75-88 | the chain with its `unwrap()`; stated by `SearchParamsCorrect`, `SearchParamsSucceeds`, `SearchParamsNoTables` and `SearchParamsTooManyTables` |
| SfntParams.RangeShift | src/lib.rs:92 | `num_tables * 16 - search_range`, which `SearchParamsCorrect` shows cannot overflow or underflow; its value for 11 tables is in `ElevenTables` |
| SfntParams.SearchParamsCorrect | src/lib.rs:75-88 | for 1 to 4095 tables, `entrySelector` is the binary logarithm: the largest `n < 16` with `2^n <= numTables`. `searchRange` is `2^n * 16`, and `numTables * 16 - searchRange` stays within `u16` |
| SfntParams.SearchParamsNoTables | src/lib.rs:75-88 | with no tables the filtered chain is empty and `unwrap()` panics |
| SfntParams.SearchParamsTooManyTables | src/lib.rs:84-86 | from 4096 tables on, `x.1 * 16` overflows `u16` |
| SfntParams.SearchParamsSucceeds | src/lib.rs:75-88 | the search succeeds exactly for 1 to 4095 tables |
| SfntParams.ScanFinds | src/lib.rs:75-88 | the chain ends on the binary logarithm and its `searchRange` |
| SfntParams.ScanOverflows | src/lib.rs:84-86 | the chain overflows before it ends when `numTables >= 4096` |
| SfntParams.ScanPast | src/lib.rs:81-83 | once the powers exceed `numTables`, the filter passes nothing and the last candidate stays |
| SfntParams.ElevenTables | src/lib.rs:75-93 | for 11 tables, `entrySelector` is 3, `searchRange` is 128 and `rangeShift` is 48 |
| SfntParams.Log2FloorBounds | src/lib.rs:75-88 | the reference logarithm `e` satisfies `2^e <= n < 2^(e+1)` |
| Layout.Place | src/lib.rs:113-125 | the second loop's `u32` offset bookkeeping; stated by `PlaceMatchesLayout`, `PlaceAssignsLayout`, `PlaceOverflowsAt` and `PlaceFromLayout` |
| Layout.Record | src/lib.rs:117-120 | the four writes for one entry; stated by `RecordFields` |
| Layout.Records | src/lib.rs:113-120 | the records written by the second loop, 16 bytes per entry; stated by `RecordsAt` and `RecordsStep` |
| Layout.RoundUp4 | src/lib.rs:122-124 | the rounded offset is the least multiple of 4 at or above the offset |
| Layout.AlignU32 | src/lib.rs:122-124 | the `u32` rounding step succeeds exactly when the rounded offset fits, and then yields it |
| Layout.LayoutNoOverlap | src/lib.rs:113-125 | a table ends at or before the offset of every later table, so no two tables overlap in the output |
| Layout.LayoutMonotone | src/lib.rs:113-125 | offsets are non-decreasing in input order |
| Layout.LayoutAligned | src/lib.rs:113-125 | from the 4-aligned start, every offset is a multiple of 4, and the next is `roundUp4(offset + origLength)`, at most 3 bytes later than the table's end |
| Layout.DirectoryEndAligned | src/lib.rs:95-111 | the tables start, at `12 + 16 * numTables`, on a multiple of 4 |
| Layout.LayoutEndAligned | src/lib.rs:122-124 | the padding of the last table ends on a multiple of 4 |
| Layout.TableStartIsSum | src/lib.rs:113-125 | table `i` starts after the header, the directory and the padded sizes of the tables before it |
| Layout.PlaceMatchesLayout | src/lib.rs:113-125 | the `u32` bookkeeping agrees with the reference layout, and it overflows exactly when that layout reaches past 2^32 |
| Layout.PlaceAssignsLayout | src/lib.rs:113-115 | on success each entry, in input order, takes its reference offset and is otherwise unchanged |
| Layout.PlaceOverflowsAt | src/lib.rs:115-124 | once the rounded end of any one table reaches 2^32, the offset bookkeeping panics with an overflow |
| Layout.OffsetStep | src/lib.rs:114-124 | from entry `i`'s reference offset, the loop's add-then-round step lands on entry `i + 1`'s reference offset, and when that does not fit in `u32` the bookkeeping fails with an overflow |
| Layout.PlaceFromLayout | src/lib.rs:113-125 | entries placed as the reference layout, within `u32`, are exactly what the bookkeeping yields |
| Layout.PlacedAsLayoutUnique | src/lib.rs:113-115 | the reference layout determines the placed entries |
| Layout.PlacedUpToStep | src/lib.rs:113-115 | assigning entry `i` its offset in place extends the placed prefix by one and leaves later entries alone |
| Layout.RecordFields | src/lib.rs:117-120 | a record decodes to tag, the WOFF checksum unchanged, the assigned offset and the original length |
| Layout.RecordsAt | src/lib.rs:113-120 | record `i` of the directory is the record of entry `i` |
| Layout.RecordsStep | src/lib.rs:117-120 | each loop iteration appends exactly one 16-byte record |
| Transcoder.SfntHeader | src/lib.rs:72-93 | the five header writes, 12 bytes; stated by `Properties.SfntHeaderFields` |
| Transcoder.Emit | src/lib.rs:127-152 | the copy loop as a function; stated by `Placement.EmitPrefix`, `Placement.EmitLength`, `Placement.EmitAllTableAt`, `EmitPrefixFails` and `SeekOverflows` |
| Transcoder.Convert | src/lib.rs:54-155 | the whole transcoding as a function; stated by `Properties.ConvertHeader`, the `Properties.Convert*` failure lemmas, `OutputLayout.ConvertDirectory`, `OutputLayout.ConvertTable` and `OutputLayout.ConvertLength` |
| Transcoder.ConvertFrom | src/lib.rs:72-155 | what follows the WOFF header; stated through `Convert`'s lemmas and `Properties.SearchHeaderFields` |
| Transcoder.ConvertWith | src/lib.rs:95-155 | what follows the SFNT header; stated by `Properties.ConvertWithStartsWith` and `OutputLayout.ConvertParts` |
| Transcoder.SeekPosition | src/lib.rs:128 | reading resumes at the table's offset, or at the end of the input when the seek goes past it |
| Transcoder.TableData | src/lib.rs:130-138 | a table never yields more than `origLength` bytes; only a compressed table can fail, and then as a decompression failure |
| Transcoder.StoredTable | src/lib.rs:134-137 | a stored table is the input's bytes `[offset, offset + origLength)`; a short input gives the remaining bytes, not an error |
| Transcoder.CompressedTable | src/lib.rs:130-133 | a compressed table is what the decoder yields, cut at `origLength`; it fails exactly when the decoder failed before yielding `origLength` bytes, and a decoder that stops early without an error gives all it produced as a shorter table |
| Transcoder.Padding | src/lib.rs:146-151 | after a table ending at `end`, the padding is fewer than 4 zero bytes and brings `end` to the next multiple of 4 |
| Transcoder.EmitTable | src/lib.rs:127-151 | one iteration writes the table's bytes, then zeros up to `roundUp4(otf_offset + origLength)` |
| Transcoder.EmitPrefixFails | src/lib.rs:127-152 | a failure while copying an early table is the failure of the whole copy |
| Transcoder.SeekOverflows | src/lib.rs:140-144 | the seek after a table fails the whole copy with an overflow when `otf_offset + comp_length` reaches 2^32, even though its position is never read from |
| Transcoder.ReadDirectory | src/lib.rs:95-111 | the first loop reads exactly the parsed directory, and leaves `offset` at `12 + 16 * numTables` |
| Transcoder.AssignOffsets | src/lib.rs:113-125 | the second loop's in-place offsets and failure are those of the offset bookkeeping, and it writes the records of the placed entries |
| Transcoder.CopyTables | src/lib.rs:127-152 | the third loop writes exactly the copy of every table with its padding, or fails as the copy does |
| Transcoder.WriteBody | src/lib.rs:95-152 | the three loops produce exactly the directory, records and tables after the SFNT header |
| Transcoder.Woff2Otf | src/lib.rs:54-155 | the routine, step by step, returns exactly what the whole transcoding gives, error included |
| Properties.ConvertShortHeader | src/lib.rs:56-70 | an input shorter than 44 bytes is rejected as end of input |
| Properties.ConvertNoTables | src/lib.rs:75-88 | a font with no tables is rejected at `unwrap()` |
| Properties.ConvertTooManyTables | src/lib.rs:84-86 | a font with 4096 tables or more is rejected with an overflow |
| Properties.ConvertNeedsTables | src/lib.rs:75-88 | a successful conversion has 1 to 4095 tables |
| Properties.ConvertShortDirectory | src/lib.rs:97-111 | a directory cut short by the end of the input is rejected as end of input |
| Properties.ConvertLayoutOverflows | src/lib.rs:113-125 | when the padded tables reach past `u32` offsets, the conversion fails with an overflow |
| Properties.SfntHeaderFields | src/lib.rs:72-93 | the 12 header bytes decode to flavour, table count, `searchRange`, `entrySelector` and `rangeShift` |
| Properties.SearchHeaderFields | src/lib.rs:72-93 | the header built from a table count holds the binary logarithm as `entrySelector`, `16 * 2^entrySelector` as `searchRange` and `16 * numTables - searchRange` as `rangeShift` |
| Properties.ConvertHeader | src/lib.rs:72-93 | a successful output starts with the flavour and table count from the WOFF header and the three search parameters derived from the table count |
| Properties.ConvertWithStartsWith | src/lib.rs:72-93 | the output begins with the SFNT header written first |
| OutputLayout.ConvertDirectory | src/lib.rs:113-120 | record `i` of the output describes WOFF entry `i` in input order: its tag, its checksum unchanged, its layout offset (a multiple of 4) and its original length |
| OutputLayout.ConvertLength | src/lib.rs:127-152 | with every table full, the output ends where the layout ends, on a multiple of 4 |
| OutputLayout.ConvertTable | src/lib.rs:127-152 | with every table full, table `i` lies at the offset its record announces, followed by zeros up to the next table; a stored table within the input holds its input bytes there |
| OutputLayout.ConvertParts | src/lib.rs:54-155 | a successful output is the SFNT header, the records of the entries placed as the layout says, then the copied tables |
| OutputLayout.RecordInOutput | src/lib.rs:113-120 | the 16 bytes at `12 + 16 * i` are the record of placed entry `i` |
| OutputLayout.TableInOutput | src/lib.rs:127-152 | with every table full, table `i` lies, padded, at its layout offset in the output |
| OutputLayout.LengthOfOutput | src/lib.rs:127-152 | with every table full, the output length is the end of the layout |
| Placement.EmitPrefix | src/lib.rs:127-152 | the copy loop only appends: the bytes for fewer tables begin the bytes for more |
| Placement.EmitLength | src/lib.rs:127-152 | after `k` full tables the copied bytes reach exactly where table `k` starts in the layout |
| Placement.EmitAllTableAt | src/lib.rs:127-152 | with every table full, table `j` lies at its layout offset in the copied bytes, padded up to the next |
| Placement.PaddedAtBytes | src/lib.rs:146-151 | a padded table holds its bytes at its offset and zeros up to the next table's offset |

## Left out

- The zlib decoder is a parameter, `inflate`. Nothing is proved about
  deflate itself. Only the `take(orig_length)` cut and the error path are
  modelled.
- The `Read`/`Seek`/`Write` plumbing, `io::copy` and the `assert_eq!` on
  write counts are not modelled as I/O. The input is a byte sequence read at
  absolute positions. The output is a byte sequence that only grows. A write
  never fails and never writes short.
- The bytes already written before an error are not modelled. A failed
  conversion yields only its error, not the partial output.
- Release builds, where `u16`/`u32` arithmetic wraps instead of panicking,
  are not modelled. Every checked operation follows the debug build.
- The seek after each table (`src/lib.rs:140-144`) has no effect on the
  output, because the next iteration seeks again. Only its overflow-checked
  `u32` addition `otf_offset + comp_length` is modelled. It can make the
  conversion fail, as `Transcoder.SeekOverflows` states.
- The WOFF signature is never checked against the WOFF magic. `length`,
  `reserved`, `totalSfntSize`, the versions and the metadata and private
  blocks are parsed but have no effect. The model does the same.
- The routine does not check that a table's stored bytes lie within the
  input, although the WOFF 1.0 format requires it. A truncated stored table
  is not an error: it yields the bytes that remain. A decompressor that stops
  early without an error yields a shorter table. The model follows the code,
  so `OutputLayout.ConvertTable` and `OutputLayout.ConvertLength` assume that
  every table yields its full `origLength` bytes.
- OutputLayout.ConvertTable: states the input bytes of a stored table only
  when `offset + origLength` lies within the input. It states nothing about
  the decompressed bytes beyond what `Transcoder.CompressedTable` says.
- The golden-file test (`src/lib.rs:158-169`) depends on binary font files
  that are not part of this model.
