/** `woff2otf`: the WOFF 1.0 input as a byte sequence read through an absolute
    cursor, the SFNT output as the byte sequence written so far, and the zlib
    decoder as a parameter. `Convert` is the whole transcoding as a function;
    `Woff2Otf` is the source's step-by-step procedure, proved equal to it. */
module Transcoder {
  import opened Io
  import opened ByteCodec
  import opened Woff
  import opened SfntParams
  import opened Layout

  /** What the zlib decoder yields when it reads from some position on: the
      bytes it produced before it stopped, and whether it stopped on an error
      rather than at the end of the compressed stream or of the input. */
  datatype Inflated = Inflated(data: seq<Byte>, failed: bool)

  /** Where reading resumes after seeking to the table's WOFF offset: a seek
      past the end of the input leaves nothing to read. */
  function SeekPosition(input: seq<Byte>, e: TableDirectoryEntry): (r: nat)
    ensures r <= |input|
    ensures r == e.offset || (r == |input| && |input| <= e.offset)
  {
    if e.offset < |input| then e.offset else |input|
  }

  /** The bytes copied for one table: at most `origLength` bytes, either
      decompressed (when the compressed and original lengths differ) or
      taken as they are from the input. Running out of input is not an
      error: the copy is then just shorter. */
  function TableData(input: seq<Byte>, e: TableDirectoryEntry, inflate: seq<Byte> -> Inflated): (r: Result<seq<Byte>>)
    ensures r.Success? ==> |r.value| <= e.origLength
    ensures r.Failure? ==> e.compLength != e.origLength
    ensures r.Failure? ==> r.error == DecompressionFailure
  {
    var from := SeekPosition(input, e);
    if e.compLength != e.origLength then
      var z := inflate(input[from..]);
      if |z.data| >= e.origLength then Success(z.data[..e.origLength])
      else if z.failed then Failure(DecompressionFailure)
      else Success(z.data)
    else
      var stop := if from + e.origLength <= |input| then from + e.origLength else |input|;
      Success(input[from..stop])
  }

  /** A stored table is the input's bytes from its offset on: all
      `origLength` of them when the input is long enough, and otherwise
      everything up to the end of the input, with no error. */
  lemma StoredTable(input: seq<Byte>, e: TableDirectoryEntry, inflate: seq<Byte> -> Inflated)
    requires e.compLength == e.origLength
    ensures TableData(input, e, inflate).Success?
    ensures var data := TableData(input, e, inflate).value;
      && data <= input[SeekPosition(input, e)..]
      && (e.offset + e.origLength <= |input| ==> data == input[e.offset..e.offset + e.origLength])
      && (|input| < e.offset + e.origLength ==> data == input[SeekPosition(input, e)..])
  {
  }

  /** A compressed table is what the decoder yields from the table's offset,
      cut at `origLength`; it fails only when the decoder failed before
      yielding `origLength` bytes, and a decoder that stops early without an
      error gives a shorter table. */
  lemma CompressedTable(input: seq<Byte>, e: TableDirectoryEntry, inflate: seq<Byte> -> Inflated)
    requires e.compLength != e.origLength
    ensures var z := inflate(input[SeekPosition(input, e)..]);
      && (TableData(input, e, inflate).Failure? <==> |z.data| < e.origLength && z.failed)
      && (TableData(input, e, inflate).Success? ==> TableData(input, e, inflate).value <= z.data)
      && (|z.data| >= e.origLength ==> TableData(input, e, inflate) == Success(z.data[..e.origLength]))
      && (|z.data| < e.origLength && !z.failed ==> TableData(input, e, inflate) == Success(z.data))
  {
  }

  /** The zero bytes written after a table that ends at `end`, up to the next
      multiple of 4. */
  function Padding(end: nat): (r: seq<Byte>)
    ensures |r| < 4 && (end + |r|) % 4 == 0
    ensures end + |r| == RoundUp4(end)
    ensures forall k :: 0 <= k < |r| ==> r[k] == 0
  {
    if end % 4 != 0 then seq(4 - end % 4, _ => 0) else []
  }

  /** One iteration of the copy loop: the table's bytes, the seek to
      `otfOffset + compLength` (whose position is never read from again but
      whose `u32` addition is overflow-checked), then the padding after
      `otfOffset + origLength`. */
  function EmitTable(input: seq<Byte>, e: TableDirectoryEntry, inflate: seq<Byte> -> Inflated): (r: Result<seq<Byte>>)
    ensures r.Success? ==> TableData(input, e, inflate).Success?
    ensures r.Success? ==>
      var data := TableData(input, e, inflate).value;
      && |data| <= |r.value| < |data| + 4
      && r.value[..|data|] == data
      && (forall k :: |data| <= k < |r.value| ==> r.value[k] == 0)
      && e.otfOffset + e.origLength + (|r.value| - |data|) == RoundUp4(e.otfOffset + e.origLength)
  {
    var data :- TableData(input, e, inflate);
    var resume :- CheckedAddU32(e.otfOffset, e.compLength);
    var end :- CheckedAddU32(e.otfOffset, e.origLength);
    Success(data + Padding(end))
  }

  /** The copy loop over the placed entries, in input order. */
  function Emit(input: seq<Byte>, placed: seq<TableDirectoryEntry>, inflate: seq<Byte> -> Inflated): Result<seq<Byte>>
    decreases |placed|
  {
    if placed == [] then
      Success([])
    else
      var before :- Emit(input, placed[..|placed| - 1], inflate);
      var table :- EmitTable(input, placed[|placed| - 1], inflate);
      Success(before + table)
  }

  /** The 12-byte SFNT header. */
  function SfntHeader(flavour: U32, numTables: U16, searchRange: U16, entrySelector: U16, rangeShift: U16): (r: seq<Byte>)
    ensures |r| == SFNT_HEADER_SIZE
  {
    EncodeU32(flavour) + EncodeU16(numTables) + EncodeU16(searchRange) + EncodeU16(entrySelector) + EncodeU16(rangeShift)
  }

  /** The whole transcoding: the WOFF header, then the rest. The first
      failing step decides the error. */
  function Convert(input: seq<Byte>, inflate: seq<Byte> -> Inflated): Result<seq<Byte>>
  {
    var header :- ParseHeader(input);
    ConvertFrom(input, inflate, header)
  }

  /** What follows the WOFF header: the search parameters and the SFNT header
      they make, then the rest. */
  function ConvertFrom(input: seq<Byte>, inflate: seq<Byte> -> Inflated, header: Header): Result<seq<Byte>>
    requires HEADER_SIZE <= |input|
  {
    var search :- SearchParams(header.numTables);
    SearchParamsSucceeds(header.numTables);
    SearchParamsCorrect(header.numTables);
    var sfntHeader := SfntHeader(header.flavour, header.numTables, search.1, search.0, RangeShift(header.numTables, search.1));
    ConvertWith(input, inflate, header.numTables, sfntHeader)
  }

  /** What follows the SFNT header: directory, layout, records and tables. */
  function ConvertWith(input: seq<Byte>, inflate: seq<Byte> -> Inflated, numTables: U16, sfntHeader: seq<Byte>): Result<seq<Byte>>
    requires HEADER_SIZE <= |input|
  {
    var entries :- ParseDirectory(input, numTables);
    var laid :- Place(entries, SFNT_HEADER_SIZE + 16 * numTables);
    var tables :- Emit(input, laid.0, inflate);
    Success(sfntHeader + Records(laid.0) + tables)
  }

  /** Once the header is read, the rest of the transcoding is `ConvertFrom`. */
  lemma ConvertStaged(input: seq<Byte>, inflate: seq<Byte> -> Inflated, header: Header)
    requires ParseHeader(input) == Success(header)
    ensures HEADER_SIZE <= |input|
    ensures Convert(input, inflate) == ConvertFrom(input, inflate, header)
  {
  }

  /** Once the search parameters are found, the rest is `ConvertWith`. */
  lemma ConvertFromSearch(input: seq<Byte>, inflate: seq<Byte> -> Inflated, header: Header, search: (nat, U16))
    requires HEADER_SIZE <= |input|
    requires SearchParams(header.numTables) == Success(search)
    ensures search.0 < 16 && search.1 <= header.numTables * 16 < 0x1_0000
    ensures ConvertFrom(input, inflate, header)
      == ConvertWith(input, inflate, header.numTables,
           SfntHeader(header.flavour, header.numTables, search.1, search.0, RangeShift(header.numTables, search.1)))
  {
    SearchParamsSucceeds(header.numTables);
    SearchParamsCorrect(header.numTables);
  }

  /** `ConvertWith` fails with the layout's error when the layout overflows. */
  lemma ConvertWithPlaceFails(input: seq<Byte>, inflate: seq<Byte> -> Inflated, numTables: U16, sfntHeader: seq<Byte>,
                              entries: seq<TableDirectoryEntry>, err: Error)
    requires HEADER_SIZE <= |input|
    requires ParseDirectory(input, numTables) == Success(entries)
    requires Place(entries, SFNT_HEADER_SIZE + 16 * numTables) == Failure(err)
    ensures ConvertWith(input, inflate, numTables, sfntHeader) == Failure(err)
  {
  }

  /** `ConvertWith` fails with the copy's error when a table cannot be copied. */
  lemma ConvertWithEmitFails(input: seq<Byte>, inflate: seq<Byte> -> Inflated, numTables: U16, sfntHeader: seq<Byte>,
                             entries: seq<TableDirectoryEntry>, laid: (seq<TableDirectoryEntry>, U32), err: Error)
    requires HEADER_SIZE <= |input|
    requires ParseDirectory(input, numTables) == Success(entries)
    requires Place(entries, SFNT_HEADER_SIZE + 16 * numTables) == Success(laid)
    requires Emit(input, laid.0, inflate) == Failure(err)
    ensures ConvertWith(input, inflate, numTables, sfntHeader) == Failure(err)
  {
  }

  /** When every stage succeeds, the output is the SFNT header, the records,
      then the copied tables. */
  lemma ConvertWithSucceeds(input: seq<Byte>, inflate: seq<Byte> -> Inflated, numTables: U16, sfntHeader: seq<Byte>,
                            entries: seq<TableDirectoryEntry>, laid: (seq<TableDirectoryEntry>, U32), tables: seq<Byte>)
    requires HEADER_SIZE <= |input|
    requires ParseDirectory(input, numTables) == Success(entries)
    requires Place(entries, SFNT_HEADER_SIZE + 16 * numTables) == Success(laid)
    requires Emit(input, laid.0, inflate) == Success(tables)
    ensures ConvertWith(input, inflate, numTables, sfntHeader) == Success(sfntHeader + Records(laid.0) + tables)
  {
  }

  /** `Emit` over one more entry. */
  lemma EmitStep(input: seq<Byte>, es: seq<TableDirectoryEntry>, inflate: seq<Byte> -> Inflated, n: nat)
    requires n < |es|
    ensures Emit(input, es[..n + 1], inflate)
      == (var before :- Emit(input, es[..n], inflate);
          var table :- EmitTable(input, es[n], inflate);
          Success(before + table))
  {
    assert es[..n + 1][..n] == es[..n];
  }

  /** A failure while copying the first `k` tables is the failure of the copy. */
  lemma {:induction false} EmitPrefixFails(input: seq<Byte>, es: seq<TableDirectoryEntry>, inflate: seq<Byte> -> Inflated, k: nat)
    requires k <= |es|
    ensures Emit(input, es[..k], inflate).Failure? ==>
      Emit(input, es, inflate) == Failure(Emit(input, es[..k], inflate).error)
    decreases |es|
  {
    if k == |es| {
      assert es[..k] == es;
    } else {
      var n := |es| - 1;
      EmitPrefixFails(input, es[..n], inflate, k);
      assert es[..n][..k] == es[..k];
    }
  }

  /** The seek after a table adds `otfOffset + compLength` in `u32`, although
      the position it computes is never read from: once the tables before `k`
      are copied and table `k`'s bytes are, that addition alone makes the
      whole copy fail when it reaches 2^32. */
  lemma SeekOverflows(input: seq<Byte>, placed: seq<TableDirectoryEntry>, inflate: seq<Byte> -> Inflated, k: nat)
    requires k < |placed| && Emit(input, placed[..k], inflate).Success?
    requires TableData(input, placed[k], inflate).Success?
    requires placed[k].otfOffset + placed[k].compLength >= 0x1_0000_0000
    ensures Emit(input, placed, inflate) == Failure(ArithmeticOverflow)
  {
    assert placed[..k + 1][..k] == placed[..k];
    assert EmitTable(input, placed[k], inflate) == Failure(ArithmeticOverflow);
    EmitPrefixFails(input, placed, inflate, k + 1);
  }

  /** The first loop: reads `count` directory entries through the cursor,
      counting 16 output bytes per entry into `offset`. */
  method ReadDirectory(input: seq<Byte>, count: U16) returns (res: Result<seq<TableDirectoryEntry>>, offset: nat)
    requires HEADER_SIZE <= |input|
    ensures res == ParseDirectory(input, count)
    ensures res.Success? ==> offset == SFNT_HEADER_SIZE + 16 * count
  {
    offset := SFNT_HEADER_SIZE;
    var entries: seq<TableDirectoryEntry> := [];
    var cursor := HEADER_SIZE;
    while |entries| < count
      invariant |entries| <= count
      invariant cursor == HEADER_SIZE + 20 * |entries|
      invariant offset == SFNT_HEADER_SIZE + 16 * |entries|
      invariant ParseDirectory(input, |entries|) == Success(entries)
      decreases count - |entries|
    {
      var entry := ReadEntry(input, cursor);
      if entry.Failure? {
        return Failure(entry.error), offset;
      }
      ParseDirectoryStep(input, |entries|, entries, entry.value);
      entries := entries + [entry.value];
      cursor := cursor + ENTRY_SIZE;
      offset := offset + 16;
    }
    return Success(entries), offset;
  }

  /** The second loop: gives each entry, in place, the running offset as its
      `otfOffset`, advances the offset past the table and its padding, and
      writes the entry's record. */
  method AssignOffsets(entries: seq<TableDirectoryEntry>, start: U32) returns (res: Result<(seq<TableDirectoryEntry>, U32)>, records: seq<Byte>)
    ensures res == Place(entries, start)
    ensures res.Success? ==> records == Records(res.value.0)
  {
    var placed := entries;
    var offset := start;
    records := [];
    for i := 0 to |placed|
      invariant PlacedUpTo(placed, entries, start, i)
      invariant offset == TableStart(entries, start, i)
      invariant records == Records(placed[..i])
    {
      var entry := placed[i];
      assert entry == entries[i];
      OffsetStep(entries, start, i, offset);
      PlacedUpToStep(placed, entries, start, i, offset);
      ghost var before := placed;
      entry := entry.(otfOffset := offset);
      placed := placed[i := entry];
      assert placed[..i + 1] == before[..i] + [entry];
      RecordsStep(before[..i], entry);
      var next := CheckedAddU32(offset, entry.origLength);
      if next.Failure? {
        return Failure(next.error), records;
      }
      offset := next.value;
      records := records + Record(entry);
      var aligned := AlignU32(offset);
      if aligned.Failure? {
        return Failure(aligned.error), records;
      }
      offset := aligned.value;
    }
    assert placed[..|placed|] == placed;
    PlacedUpToAll(placed, entries, start);
    PlaceFromLayout(entries, start, placed);
    return Success((placed, offset)), records;
  }

  /** The third loop: copies each table and pads it. */
  method CopyTables(input: seq<Byte>, placed: seq<TableDirectoryEntry>, inflate: seq<Byte> -> Inflated) returns (res: Result<seq<Byte>>)
    ensures res == Emit(input, placed, inflate)
  {
    var out: seq<Byte> := [];
    for j := 0 to |placed|
      invariant Emit(input, placed[..j], inflate) == Success(out)
    {
      var entry := placed[j];
      EmitStep(input, placed, inflate, j);
      EmitPrefixFails(input, placed, inflate, j + 1);
      ghost var before := out;
      var data :- TableData(input, entry, inflate);
      out := out + data;
      var resume :- CheckedAddU32(entry.otfOffset, entry.compLength);
      var endOffset :- CheckedAddU32(entry.otfOffset, entry.origLength);
      out := out + Padding(endOffset);
      assert out == before + (data + Padding(endOffset));
    }
    assert placed[..|placed|] == placed;
    return Success(out);
  }

  /** The transcoder as the source runs it: the WOFF header, the search
      parameters and the SFNT header, then the three loops. */
  method Woff2Otf(input: seq<Byte>, inflate: seq<Byte> -> Inflated) returns (res: Result<seq<Byte>>)
    ensures res == Convert(input, inflate)
  {
    var header :- ParseHeader(input);
    ConvertStaged(input, inflate, header);
    var out := EncodeU32(header.flavour) + EncodeU16(header.numTables);

    var search :- SearchParams(header.numTables);
    ConvertFromSearch(input, inflate, header, search);
    var (entrySelector, searchRange) := search;
    out := out + EncodeU16(searchRange) + EncodeU16(entrySelector);
    var rangeShift := header.numTables * 16 - searchRange;
    out := out + EncodeU16(rangeShift);
    assert out == SfntHeader(header.flavour, header.numTables, searchRange, entrySelector, rangeShift);

    res := WriteBody(input, inflate, header.numTables, out);
  }

  /** The three loops after the SFNT header `out`: directory, records, tables. */
  method WriteBody(input: seq<Byte>, inflate: seq<Byte> -> Inflated, numTables: U16, out: seq<Byte>) returns (res: Result<seq<Byte>>)
    requires HEADER_SIZE <= |input|
    ensures res == ConvertWith(input, inflate, numTables, out)
  {
    var entries, offset :- ReadDirectory(input, numTables);
    var placed, records := AssignOffsets(entries, offset);
    if placed.Failure? {
      ConvertWithPlaceFails(input, inflate, numTables, out, entries, placed.error);
      return Failure(placed.error);
    }
    var laid := placed.value;
    var written := out + records;
    var tables := CopyTables(input, laid.0, inflate);
    if tables.Failure? {
      ConvertWithEmitFails(input, inflate, numTables, out, entries, laid, tables.error);
      return Failure(tables.error);
    }
    ConvertWithSucceeds(input, inflate, numTables, out, entries, laid, tables.value);
    written := written + tables.value;
    return Success(written);
  }
}
