/** What `woff2otf` promises about its output as a whole: which inputs it
    rejects and with which error, the SFNT header it writes, the table
    records, and where each table's bytes land. */
module Properties {
  import opened Io
  import opened ByteCodec
  import opened Woff
  import opened SfntParams
  import opened Layout
  import opened Transcoder

  /** `ConvertWith` fails with the directory's error when the directory is cut short. */
  lemma ConvertWithDirectoryFails(input: seq<Byte>, inflate: seq<Byte> -> Inflated, numTables: U16, sfntHeader: seq<Byte>, err: Error)
    requires HEADER_SIZE <= |input|
    requires ParseDirectory(input, numTables) == Failure(err)
    ensures ConvertWith(input, inflate, numTables, sfntHeader) == Failure(err)
  {
  }

  /** A successful `ConvertWith` went through every stage. */
  lemma ConvertWithParts(input: seq<Byte>, inflate: seq<Byte> -> Inflated, numTables: U16, sfntHeader: seq<Byte>, out: seq<Byte>)
    returns (entries: seq<TableDirectoryEntry>, laid: (seq<TableDirectoryEntry>, U32), tables: seq<Byte>)
    requires HEADER_SIZE <= |input|
    requires ConvertWith(input, inflate, numTables, sfntHeader) == Success(out)
    ensures ParseDirectory(input, numTables) == Success(entries)
    ensures Place(entries, SFNT_HEADER_SIZE + 16 * numTables) == Success(laid)
    ensures Emit(input, laid.0, inflate) == Success(tables)
    ensures out == sfntHeader + Records(laid.0) + tables
  {
    entries := ParseDirectory(input, numTables).value;
    laid := Place(entries, SFNT_HEADER_SIZE + 16 * numTables).value;
    tables := Emit(input, laid.0, inflate).value;
    ConvertWithSucceeds(input, inflate, numTables, sfntHeader, entries, laid, tables);
  }

  /** The search parameters the source derives from `numTables`, and the
      12-byte SFNT header they make. */
  function SearchHeader(header: Header): (r: seq<Byte>)
    requires 1 <= header.numTables < 0x1000
    ensures |r| == SFNT_HEADER_SIZE
  {
    SearchParamsCorrect(header.numTables);
    var search := SearchParams(header.numTables).value;
    SfntHeader(header.flavour, header.numTables, search.1, search.0, RangeShift(header.numTables, search.1))
  }

  /** With the header read and a usable table count, `Convert` is
      `ConvertWith` after the SFNT header. */
  lemma ConvertAfterHeader(input: seq<Byte>, inflate: seq<Byte> -> Inflated, header: Header)
    requires ParseHeader(input) == Success(header) && 1 <= header.numTables < 0x1000
    ensures HEADER_SIZE <= |input|
    ensures Convert(input, inflate) == ConvertWith(input, inflate, header.numTables, SearchHeader(header))
  {
    ConvertStaged(input, inflate, header);
    SearchParamsCorrect(header.numTables);
    ConvertFromSearch(input, inflate, header, SearchParams(header.numTables).value);
  }

  /** The same, with the SFNT header left unnamed: the stages after it do not
      depend on its bytes. */
  lemma ConvertAfterSomeHeader(input: seq<Byte>, inflate: seq<Byte> -> Inflated, header: Header) returns (sfntHeader: seq<Byte>)
    requires ParseHeader(input) == Success(header) && 1 <= header.numTables < 0x1000
    ensures HEADER_SIZE <= |input| && |sfntHeader| == SFNT_HEADER_SIZE
    ensures Convert(input, inflate) == ConvertWith(input, inflate, header.numTables, sfntHeader)
  {
    sfntHeader := SearchHeader(header);
    ConvertAfterHeader(input, inflate, header);
  }

  /** An input shorter than the 44-byte WOFF header is rejected as truncated. */
  lemma ConvertShortHeader(input: seq<Byte>, inflate: seq<Byte> -> Inflated)
    requires |input| < HEADER_SIZE
    ensures Convert(input, inflate) == Failure(UnexpectedEof)
  {
  }

  /** A font without tables has no search candidate: `unwrap()` panics. */
  lemma ConvertNoTables(input: seq<Byte>, inflate: seq<Byte> -> Inflated, header: Header)
    requires ParseHeader(input) == Success(header) && header.numTables == 0
    ensures Convert(input, inflate) == Failure(NoSearchCandidate)
  {
    ConvertStaged(input, inflate, header);
    SearchParamsNoTables();
  }

  /** From 4096 tables on, `2^e * 16` leaves `u16` during the search. */
  lemma ConvertTooManyTables(input: seq<Byte>, inflate: seq<Byte> -> Inflated, header: Header)
    requires ParseHeader(input) == Success(header) && header.numTables >= 0x1000
    ensures Convert(input, inflate) == Failure(ArithmeticOverflow)
  {
    ConvertStaged(input, inflate, header);
    SearchParamsTooManyTables(header.numTables);
  }

  /** A table directory cut short by the end of the input is truncated input. */
  lemma ConvertShortDirectory(input: seq<Byte>, inflate: seq<Byte> -> Inflated, header: Header)
    requires ParseHeader(input) == Success(header) && 1 <= header.numTables < 0x1000
    requires |input| < HEADER_SIZE + 20 * header.numTables
    ensures Convert(input, inflate) == Failure(UnexpectedEof)
  {
    var sfntHeader := ConvertAfterSomeHeader(input, inflate, header);
    ConvertWithDirectoryFails(input, inflate, header.numTables, sfntHeader, UnexpectedEof);
  }

  /** When the tables, each padded to 4 bytes, reach past `u32` offsets, the
      offset bookkeeping overflows. */
  lemma ConvertLayoutOverflows(input: seq<Byte>, inflate: seq<Byte> -> Inflated, header: Header,
                               entries: seq<TableDirectoryEntry>, start: nat)
    requires ParseHeader(input) == Success(header) && 1 <= header.numTables < 0x1000
    requires ParseDirectory(input, header.numTables) == Success(entries)
    requires start == SFNT_HEADER_SIZE + 16 * header.numTables
    requires LayoutEnd(entries, start) >= 0x1_0000_0000
    ensures Convert(input, inflate) == Failure(ArithmeticOverflow)
  {
    var sfntHeader := ConvertAfterSomeHeader(input, inflate, header);
    ConvertWithLayoutOverflows(input, inflate, header.numTables, sfntHeader, entries);
  }

  lemma ConvertWithLayoutOverflows(input: seq<Byte>, inflate: seq<Byte> -> Inflated, numTables: U16, sfntHeader: seq<Byte>,
                                   entries: seq<TableDirectoryEntry>)
    requires HEADER_SIZE <= |input|
    requires ParseDirectory(input, numTables) == Success(entries)
    requires LayoutEnd(entries, SFNT_HEADER_SIZE + 16 * numTables) >= 0x1_0000_0000
    ensures ConvertWith(input, inflate, numTables, sfntHeader) == Failure(ArithmeticOverflow)
  {
    PlacePastU32(entries, SFNT_HEADER_SIZE + 16 * numTables);
    ConvertWithPlaceFails(input, inflate, numTables, sfntHeader, entries, ArithmeticOverflow);
  }

  /** The five header fields decode back from the 12 header bytes. */
  lemma SfntHeaderFields(flavour: U32, numTables: U16, searchRange: U16, entrySelector: U16, rangeShift: U16)
    ensures var r := SfntHeader(flavour, numTables, searchRange, entrySelector, rangeShift);
      && DecodeU32(r[0..4]) == flavour
      && DecodeU16(r[4..6]) == numTables
      && DecodeU16(r[6..8]) == searchRange
      && DecodeU16(r[8..10]) == entrySelector
      && DecodeU16(r[10..12]) == rangeShift
  {
    var r := SfntHeader(flavour, numTables, searchRange, entrySelector, rangeShift);
    assert r[0..4] == EncodeU32(flavour);
    assert r[4..6] == EncodeU16(numTables);
    assert r[6..8] == EncodeU16(searchRange);
    assert r[8..10] == EncodeU16(entrySelector);
    assert r[10..12] == EncodeU16(rangeShift);
    DecodeEncodeU32(flavour);
    DecodeEncodeU16(numTables);
    DecodeEncodeU16(searchRange);
    DecodeEncodeU16(entrySelector);
    DecodeEncodeU16(rangeShift);
  }

  /** A successful conversion needs 1 to 4095 tables. */
  lemma ConvertNeedsTables(input: seq<Byte>, inflate: seq<Byte> -> Inflated, header: Header)
    requires ParseHeader(input) == Success(header) && Convert(input, inflate).Success?
    ensures 1 <= header.numTables < 0x1000
  {
    if header.numTables == 0 {
      ConvertNoTables(input, inflate, header);
    } else if header.numTables >= 0x1000 {
      ConvertTooManyTables(input, inflate, header);
    }
  }

  /** The bytes of `SearchHeader`: the flavour and table count, then
      `searchRange` = 16 * 2^entrySelector, `entrySelector` = floor(log2
      numTables) and `rangeShift` = 16 * numTables - searchRange. */
  lemma SearchHeaderFields(header: Header, hdr: seq<Byte>)
    requires 1 <= header.numTables < 0x1000 && hdr == SearchHeader(header)
    ensures var e := Log2Floor(header.numTables);
      && Pow2(e) <= header.numTables < 2 * Pow2(e)
      && DecodeU32(hdr[0..4]) == header.flavour
      && DecodeU16(hdr[4..6]) == header.numTables
      && DecodeU16(hdr[6..8]) == 16 * Pow2(e)
      && DecodeU16(hdr[8..10]) == e
      && DecodeU16(hdr[10..12]) == 16 * header.numTables - 16 * Pow2(e)
  {
    SearchParamsCorrect(header.numTables);
    Log2FloorBounds(header.numTables);
    var (e, range) := SearchParams(header.numTables).value;
    SfntHeaderFields(header.flavour, header.numTables, range, e, RangeShift(header.numTables, range));
  }

  /** The output of `ConvertWith` begins with the header it is given. */
  lemma ConvertWithStartsWith(input: seq<Byte>, inflate: seq<Byte> -> Inflated, numTables: U16, sfntHeader: seq<Byte>, out: seq<Byte>)
    requires HEADER_SIZE <= |input|
    requires ConvertWith(input, inflate, numTables, sfntHeader) == Success(out)
    ensures |sfntHeader| <= |out| && out[..|sfntHeader|] == sfntHeader
  {
    var entries, laid, tables := ConvertWithParts(input, inflate, numTables, sfntHeader, out);
  }

  /** Bytes that begin with `hdr` hold its fields. */
  lemma HeaderPrefix(out: seq<Byte>, hdr: seq<Byte>)
    requires |hdr| == SFNT_HEADER_SIZE <= |out| && out[..SFNT_HEADER_SIZE] == hdr
    ensures out[0..4] == hdr[0..4] && out[4..6] == hdr[4..6] && out[6..8] == hdr[6..8]
    ensures out[8..10] == hdr[8..10] && out[10..12] == hdr[10..12]
  {
  }

  /** A successful conversion starts with the SFNT header: the flavour and
      table count of the WOFF header, `entrySelector` = floor(log2 numTables),
      `searchRange` = 16 * 2^entrySelector and `rangeShift` = 16 * numTables
      - searchRange. A successful conversion needs 1 to 4095 tables. */
  lemma ConvertHeader(input: seq<Byte>, inflate: seq<Byte> -> Inflated, header: Header, out: seq<Byte>)
    requires ParseHeader(input) == Success(header)
    requires Convert(input, inflate) == Success(out)
    ensures 1 <= header.numTables < 0x1000 && SFNT_HEADER_SIZE <= |out|
    ensures var e := Log2Floor(header.numTables);
      && Pow2(e) <= header.numTables < 2 * Pow2(e)
      && DecodeU32(out[0..4]) == header.flavour
      && DecodeU16(out[4..6]) == header.numTables
      && DecodeU16(out[6..8]) == 16 * Pow2(e)
      && DecodeU16(out[8..10]) == e
      && DecodeU16(out[10..12]) == 16 * header.numTables - 16 * Pow2(e)
  {
    ConvertNeedsTables(input, inflate, header);
    ConvertAfterHeader(input, inflate, header);
    var hdr := SearchHeader(header);
    ConvertWithStartsWith(input, inflate, header.numTables, hdr, out);
    HeaderPrefix(out, hdr);
    SearchHeaderFields(header, hdr);
  }
}

/** What the output of a successful conversion holds past its SFNT header:
    one table record per WOFF directory entry, in input order, and the
    tables' bytes at the offsets those records announce. */
module OutputLayout {
  import opened Io
  import opened ByteCodec
  import opened Woff
  import opened Layout
  import opened Transcoder
  import opened Placement
  import opened Properties

  /** `PaddedAt` survives putting `prefix` in front, shifted by its length. */
  lemma PaddedAtShift(prefix: seq<Byte>, tables: seq<Byte>, at: nat, data: seq<Byte>, next: nat, at': nat, next': nat)
    requires PaddedAt(tables, at, data, next)
    requires at' == |prefix| + at && next' == |prefix| + next
    ensures PaddedAt(prefix + tables, at', data, next')
  {
    assert (prefix + tables)[at'..next'] == tables[at..next];
  }

  lemma SliceOfFront<T>(a: seq<T>, b: seq<T>, lo: nat, hi: nat)
    requires lo <= hi <= |a|
    ensures (a + b)[lo..hi] == a[lo..hi]
  {
  }

  lemma SliceOfBack<T>(a: seq<T>, b: seq<T>, lo: nat, hi: nat)
    requires |a| <= lo <= hi <= |a| + |b|
    ensures (a + b)[lo..hi] == b[lo - |a|..hi - |a|]
  {
  }

  /** Record `i` of an output made of a 12-byte header, the records of the
      placed entries and the tables is the record of placed entry `i`. */
  lemma {:induction false} RecordInOutput(sfntHeader: seq<Byte>, placed: seq<TableDirectoryEntry>, tables: seq<Byte>, out: seq<Byte>, i: nat)
    requires |sfntHeader| == SFNT_HEADER_SIZE && out == sfntHeader + Records(placed) + tables && i < |placed|
    ensures SFNT_HEADER_SIZE + 16 * (i + 1) <= |out|
    ensures out[SFNT_HEADER_SIZE + 16 * i..SFNT_HEADER_SIZE + 16 * (i + 1)] == Record(placed[i])
  {
    RecordsAt(placed, i);
    var records := Records(placed);
    SliceOfFront(sfntHeader + records, tables, SFNT_HEADER_SIZE + 16 * i, SFNT_HEADER_SIZE + 16 * (i + 1));
    SliceOfBack(sfntHeader, records, SFNT_HEADER_SIZE + 16 * i, SFNT_HEADER_SIZE + 16 * (i + 1));
  }

  /** With every payload full, the output ends where the layout ends. */
  lemma {:induction false} LengthOfOutput(input: seq<Byte>, inflate: seq<Byte> -> Inflated, sfntHeader: seq<Byte>,
                                          entries: seq<TableDirectoryEntry>, placed: seq<TableDirectoryEntry>,
                                          tables: seq<Byte>, out: seq<Byte>, start: nat)
    requires |sfntHeader| == SFNT_HEADER_SIZE && start == SFNT_HEADER_SIZE + 16 * |placed|
    requires out == sfntHeader + Records(placed) + tables
    requires PlacedAsLayout(placed, entries, start) && FullPayloads(input, entries, inflate)
    requires Emit(input, placed, inflate) == Success(tables)
    ensures |out| == LayoutEnd(entries, start)
  {
    FullPayloadsPlaced(input, entries, placed, start, inflate);
    EmitAllLength(input, entries, placed, start, inflate, tables);
  }

  /** `out` holds the `len` bytes of `src` found at `from`, starting at `at`. */
  ghost predicate CopiedAt(out: seq<Byte>, at: nat, src: seq<Byte>, from: nat, len: nat)
  {
    at + len <= |out| && from + len <= |src| && out[at..at + len] == src[from..from + len]
  }

  /** A stored table copied in full holds the input's bytes at its WOFF offset. */
  lemma StoredInOutput(input: seq<Byte>, inflate: seq<Byte> -> Inflated, e: TableDirectoryEntry, out: seq<Byte>, at: nat, next: nat)
    requires TableData(input, e, inflate).Success? && PaddedAt(out, at, TableData(input, e, inflate).value, next)
    requires e.compLength == e.origLength && e.offset + e.origLength <= |input|
    ensures CopiedAt(out, at, input, e.offset, e.origLength)
  {
    StoredTable(input, e, inflate);
    PaddedAtBytes(out, at, TableData(input, e, inflate).value, next);
  }

  /** With every payload full, table `i` lies in the output at its layout
      offset, padded with zeros up to the next table. */
  lemma {:induction false} TableInOutput(input: seq<Byte>, inflate: seq<Byte> -> Inflated, sfntHeader: seq<Byte>,
                                         entries: seq<TableDirectoryEntry>, placed: seq<TableDirectoryEntry>,
                                         tables: seq<Byte>, out: seq<Byte>, start: nat, i: nat)
    requires |sfntHeader| == SFNT_HEADER_SIZE && start == SFNT_HEADER_SIZE + 16 * |placed|
    requires out == sfntHeader + Records(placed) + tables
    requires PlacedAsLayout(placed, entries, start) && FullPayloads(input, entries, inflate)
    requires Emit(input, placed, inflate) == Success(tables) && i < |entries|
    ensures TableData(input, entries[i], inflate).Success?
    ensures PaddedAt(out, TableStart(entries, start, i), TableData(input, entries[i], inflate).value,
                     TableStart(entries, start, i + 1))
  {
    FullPayloadsPlaced(input, entries, placed, start, inflate);
    TableDataIgnoresOffset(input, entries[i], inflate, placed[i].otfOffset);
    assert placed[i] == entries[i].(otfOffset := placed[i].otfOffset);
    var data := TableData(input, entries[i], inflate).value;
    var at, next := TableOffsets(entries, start, i);
    EmitAllTableAt(input, entries, placed, start, inflate, tables, i, data, at, next);
    PaddedAtShift(sfntHeader + Records(placed), tables, at, data, next,
                  TableStart(entries, start, i), TableStart(entries, start, i + 1));
  }

  /** A successful `ConvertWith` is its header, the records of the directory
      entries placed as the layout says, then the copied tables. */
  lemma {:induction false} ConvertWithPlaced(input: seq<Byte>, inflate: seq<Byte> -> Inflated, numTables: U16,
                                             sfntHeader: seq<Byte>, out: seq<Byte>, start: nat)
    returns (entries: seq<TableDirectoryEntry>, placed: seq<TableDirectoryEntry>, tables: seq<Byte>)
    requires HEADER_SIZE <= |input| && ConvertWith(input, inflate, numTables, sfntHeader) == Success(out)
    requires start == SFNT_HEADER_SIZE + 16 * numTables
    ensures ParseDirectory(input, numTables) == Success(entries) && |entries| == numTables
    ensures PlacedAsLayout(placed, entries, start) && LayoutEnd(entries, start) < 0x1_0000_0000
    ensures Emit(input, placed, inflate) == Success(tables)
    ensures out == sfntHeader + Records(placed) + tables
  {
    var laid;
    entries, laid, tables := ConvertWithParts(input, inflate, numTables, sfntHeader, out);
    placed := laid.0;
    PlaceAssignsLayout(entries, start);
    PlaceMatchesLayout(entries, start);
  }

  /** A successful conversion is the SFNT header, the records of the
      directory entries placed as the layout says, then the copied tables. */
  lemma {:induction false} ConvertParts(input: seq<Byte>, inflate: seq<Byte> -> Inflated, header: Header, out: seq<Byte>, start: nat)
    returns (sfntHeader: seq<Byte>, entries: seq<TableDirectoryEntry>, placed: seq<TableDirectoryEntry>, tables: seq<Byte>)
    requires ParseHeader(input) == Success(header) && Convert(input, inflate) == Success(out)
    requires start == SFNT_HEADER_SIZE + 16 * header.numTables
    ensures 1 <= header.numTables < 0x1000 && |sfntHeader| == SFNT_HEADER_SIZE
    ensures ParseDirectory(input, header.numTables) == Success(entries) && |entries| == header.numTables
    ensures PlacedAsLayout(placed, entries, start) && LayoutEnd(entries, start) < 0x1_0000_0000
    ensures Emit(input, placed, inflate) == Success(tables)
    ensures out == sfntHeader + Records(placed) + tables
  {
    ConvertNeedsTables(input, inflate, header);
    sfntHeader := ConvertAfterSomeHeader(input, inflate, header);
    entries, placed, tables := ConvertWithPlaced(input, inflate, header.numTables, sfntHeader, out, start);
  }

  /** Record `i` of an output built from placed entries describes entry `i`. */
  lemma {:induction false} DirectoryInOutput(sfntHeader: seq<Byte>, entries: seq<TableDirectoryEntry>,
                                             placed: seq<TableDirectoryEntry>, tables: seq<Byte>, out: seq<Byte>,
                                             start: nat, i: nat)
    requires |sfntHeader| == SFNT_HEADER_SIZE && start % 4 == 0
    requires out == sfntHeader + Records(placed) + tables
    requires PlacedAsLayout(placed, entries, start) && i < |entries|
    ensures SFNT_HEADER_SIZE + 16 * (i + 1) <= |out|
    ensures TableStart(entries, start, i) % 4 == 0
    ensures var r := out[SFNT_HEADER_SIZE + 16 * i..SFNT_HEADER_SIZE + 16 * (i + 1)];
      && DecodeU32(r[0..4]) == entries[i].tag
      && DecodeU32(r[4..8]) == entries[i].origChecksum
      && DecodeU32(r[8..12]) == TableStart(entries, start, i)
      && DecodeU32(r[12..16]) == entries[i].origLength
  {
    RecordInOutput(sfntHeader, placed, tables, out, i);
    RecordFields(placed[i]);
    LayoutAligned(entries, start, i);
  }

  /** Record `i` of the SFNT directory describes WOFF entry `i`, in input
      order: its tag, its WOFF checksum unchanged, the offset the layout gives
      it (a multiple of 4) and its original length. */
  lemma {:induction false} ConvertDirectory(input: seq<Byte>, inflate: seq<Byte> -> Inflated, header: Header, out: seq<Byte>,
                                            entries: seq<TableDirectoryEntry>, start: nat, i: nat)
    requires ParseHeader(input) == Success(header) && Convert(input, inflate) == Success(out)
    requires ParseDirectory(input, header.numTables) == Success(entries)
    requires start == SFNT_HEADER_SIZE + 16 * header.numTables && i < |entries|
    ensures SFNT_HEADER_SIZE + 16 * (i + 1) <= |out|
    ensures TableStart(entries, start, i) % 4 == 0
    ensures var r := out[SFNT_HEADER_SIZE + 16 * i..SFNT_HEADER_SIZE + 16 * (i + 1)];
      && DecodeU32(r[0..4]) == entries[i].tag
      && DecodeU32(r[4..8]) == entries[i].origChecksum
      && DecodeU32(r[8..12]) == TableStart(entries, start, i)
      && DecodeU32(r[12..16]) == entries[i].origLength
  {
    var sfntHeader, entries', placed, tables := ConvertParts(input, inflate, header, out, start);
    assert entries' == entries;
    DirectoryEndAligned(start, header.numTables);
    DirectoryInOutput(sfntHeader, entries, placed, tables, out, start, i);
  }

  /** With every payload full, the output ends where the layout ends, on a
      multiple of 4. */
  lemma {:induction false} ConvertLength(input: seq<Byte>, inflate: seq<Byte> -> Inflated, header: Header, out: seq<Byte>,
                                         entries: seq<TableDirectoryEntry>, start: nat)
    requires ParseHeader(input) == Success(header) && Convert(input, inflate) == Success(out)
    requires ParseDirectory(input, header.numTables) == Success(entries) && FullPayloads(input, entries, inflate)
    requires start == SFNT_HEADER_SIZE + 16 * header.numTables
    ensures |out| == LayoutEnd(entries, start) && |out| % 4 == 0
  {
    var sfntHeader, entries', placed, tables := ConvertParts(input, inflate, header, out, start);
    assert entries' == entries;
    LengthOfOutput(input, inflate, sfntHeader, entries, placed, tables, out, start);
    DirectoryEndAligned(start, header.numTables);
    LayoutEndAligned(entries, start);
  }

  /** With every payload full, table `i` starts in the output at the offset
      its record gives, holds the bytes copied for it (for a stored table,
      the input's bytes at its WOFF offset) and is followed by zeros up to
      the next table. */
  lemma {:induction false} ConvertTable(input: seq<Byte>, inflate: seq<Byte> -> Inflated, header: Header, out: seq<Byte>,
                                        entries: seq<TableDirectoryEntry>, start: nat, i: nat)
    requires ParseHeader(input) == Success(header) && Convert(input, inflate) == Success(out)
    requires ParseDirectory(input, header.numTables) == Success(entries) && FullPayloads(input, entries, inflate)
    requires start == SFNT_HEADER_SIZE + 16 * header.numTables && i < |entries|
    ensures TableData(input, entries[i], inflate).Success?
    ensures PaddedAt(out, TableStart(entries, start, i), TableData(input, entries[i], inflate).value,
                     TableStart(entries, start, i + 1))
    ensures var e := entries[i];
      e.compLength == e.origLength && e.offset + e.origLength <= |input|
      ==> CopiedAt(out, TableStart(entries, start, i), input, e.offset, e.origLength)
  {
    var sfntHeader, entries', placed, tables := ConvertParts(input, inflate, header, out, start);
    assert entries' == entries;
    TableInOutput(input, inflate, sfntHeader, entries, placed, tables, out, start, i);
    var e := entries[i];
    if e.compLength == e.origLength && e.offset + e.origLength <= |input| {
      StoredInOutput(input, inflate, e, out, TableStart(entries, start, i), TableStart(entries, start, i + 1));
    }
  }
}
