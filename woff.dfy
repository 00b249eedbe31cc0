/** The WOFF 1.0 input side: the 44-byte header and the table directory of
    20-byte entries that follows it, both read field by field in big-endian. */
module Woff {
  import opened Io
  import opened ByteCodec

  /** Size in bytes of the WOFF header (13 fields). */
  const HEADER_SIZE: nat := 44
  /** Size in bytes of one WOFF table-directory entry (5 fields). */
  const ENTRY_SIZE: nat := 20

  /** The WOFF header. Only `flavour` and `numTables` have any effect on the
      output; the other fields are read and then ignored. */
  datatype Header = Header(
    signature: U32,
    flavour: U32,
    length: U32,
    numTables: U16,
    reserved: U16,
    totalSfntSize: U32,
    majorVersion: U16,
    minorVersion: U16,
    metaOffset: U32,
    metaLength: U32,
    metaOrigLength: U32,
    privOffset: U32,
    privLength: U32)

  /** One table: where its stored bytes are in the WOFF input (`offset`,
      `compLength`), its decoded size and checksum, and the position
      `otfOffset` the transcoder assigns it in the SFNT output (0 when read). */
  datatype TableDirectoryEntry = TableDirectoryEntry(
    tag: U32,
    offset: U32,
    compLength: U32,
    origLength: U32,
    origChecksum: U32,
    otfOffset: U32)

  /** Reads the header from the start of the input, fields in declaration order. */
  function ParseHeader(input: seq<Byte>): (r: Result<Header>)
    ensures r.Success? <==> HEADER_SIZE <= |input|
    ensures r.Failure? ==> r.error == UnexpectedEof
  {
    var signature :- ReadU32(input, 0);
    var flavour :- ReadU32(input, 4);
    var length :- ReadU32(input, 8);
    var numTables :- ReadU16(input, 12);
    var reserved :- ReadU16(input, 14);
    var totalSfntSize :- ReadU32(input, 16);
    var majorVersion :- ReadU16(input, 20);
    var minorVersion :- ReadU16(input, 22);
    var metaOffset :- ReadU32(input, 24);
    var metaLength :- ReadU32(input, 28);
    var metaOrigLength :- ReadU32(input, 32);
    var privOffset :- ReadU32(input, 36);
    var privLength :- ReadU32(input, 40);
    Success(Header(signature, flavour, length, numTables, reserved, totalSfntSize,
                   majorVersion, minorVersion, metaOffset, metaLength, metaOrigLength,
                   privOffset, privLength))
  }

  /** Reads one directory entry whose first byte is at `pos`. */
  function ReadEntry(input: seq<Byte>, pos: nat): (r: Result<TableDirectoryEntry>)
    ensures r.Success? <==> pos + ENTRY_SIZE <= |input|
    ensures r.Failure? ==> r.error == UnexpectedEof
    ensures r.Success? ==> r.value.otfOffset == 0
  {
    var tag :- ReadU32(input, pos);
    var offset :- ReadU32(input, pos + 4);
    var compLength :- ReadU32(input, pos + 8);
    var origLength :- ReadU32(input, pos + 12);
    var origChecksum :- ReadU32(input, pos + 16);
    Success(TableDirectoryEntry(tag, offset, compLength, origLength, origChecksum, 0))
  }

  /** Reads `count` consecutive entries starting right after the header, in
      the order the source's loop pushes them. */
  function ParseDirectory(input: seq<Byte>, count: nat): (r: Result<seq<TableDirectoryEntry>>)
    requires HEADER_SIZE <= |input|
    ensures r.Success? <==> HEADER_SIZE + 20 * count <= |input|
    ensures r.Failure? ==> r.error == UnexpectedEof
    ensures r.Success? ==> |r.value| == count
    decreases count
  {
    if count == 0 then
      Success([])
    else
      var init :- ParseDirectory(input, count - 1);
      var e :- ReadEntry(input, HEADER_SIZE + 20 * (count - 1));
      Success(init + [e])
  }

  /** Entry `i` of the directory is the one read `20 * i` bytes past the header. */
  lemma {:induction false} ParseDirectoryAt(input: seq<Byte>, count: nat, i: nat)
    requires HEADER_SIZE <= |input| && ParseDirectory(input, count).Success? && i < count
    ensures ReadEntry(input, HEADER_SIZE + 20 * i) == Success(ParseDirectory(input, count).value[i])
  {
    var init := ParseDirectory(input, count - 1);
    if i < count - 1 {
      ParseDirectoryAt(input, count - 1, i);
    }
  }

  // Writers of the same layouts: the partners against which the parsers'
  // round trips are stated.

  function EncodeHeader(h: Header): (r: seq<Byte>)
    ensures |r| == HEADER_SIZE
  {
    EncodeU32(h.signature) + EncodeU32(h.flavour) + EncodeU32(h.length)
    + EncodeU16(h.numTables) + EncodeU16(h.reserved) + EncodeU32(h.totalSfntSize)
    + EncodeU16(h.majorVersion) + EncodeU16(h.minorVersion)
    + EncodeU32(h.metaOffset) + EncodeU32(h.metaLength) + EncodeU32(h.metaOrigLength)
    + EncodeU32(h.privOffset) + EncodeU32(h.privLength)
  }

  function EncodeEntry(e: TableDirectoryEntry): (r: seq<Byte>)
    ensures |r| == ENTRY_SIZE
  {
    EncodeU32(e.tag) + EncodeU32(e.offset) + EncodeU32(e.compLength)
    + EncodeU32(e.origLength) + EncodeU32(e.origChecksum)
  }

  /** Parsing consumes exactly the 44 header bytes: any input that starts
      with the encoding of `h` parses to `h`, whatever follows. */
  lemma ParseEncodedHeader(h: Header, input: seq<Byte>)
    requires HEADER_SIZE <= |input| && input[..HEADER_SIZE] == EncodeHeader(h)
    ensures ParseHeader(input) == Success(h)
  {
    var c1 := EncodeU32(h.signature);
    var c2 := c1 + EncodeU32(h.flavour);
    var c3 := c2 + EncodeU32(h.length);
    var c4 := c3 + EncodeU16(h.numTables);
    var c5 := c4 + EncodeU16(h.reserved);
    var c6 := c5 + EncodeU32(h.totalSfntSize);
    var c7 := c6 + EncodeU16(h.majorVersion);
    var c8 := c7 + EncodeU16(h.minorVersion);
    var c9 := c8 + EncodeU32(h.metaOffset);
    var c10 := c9 + EncodeU32(h.metaLength);
    var c11 := c10 + EncodeU32(h.metaOrigLength);
    var c12 := c11 + EncodeU32(h.privOffset);
    assert input[0..44] == c12 + EncodeU32(h.privLength);
    SplitAt(input, 0, c12 + EncodeU32(h.privLength), c12, EncodeU32(h.privLength));
    SplitAt(input, 0, c11 + EncodeU32(h.privOffset), c11, EncodeU32(h.privOffset));
    SplitAt(input, 0, c10 + EncodeU32(h.metaOrigLength), c10, EncodeU32(h.metaOrigLength));
    SplitAt(input, 0, c9 + EncodeU32(h.metaLength), c9, EncodeU32(h.metaLength));
    SplitAt(input, 0, c8 + EncodeU32(h.metaOffset), c8, EncodeU32(h.metaOffset));
    SplitAt(input, 0, c7 + EncodeU16(h.minorVersion), c7, EncodeU16(h.minorVersion));
    SplitAt(input, 0, c6 + EncodeU16(h.majorVersion), c6, EncodeU16(h.majorVersion));
    SplitAt(input, 0, c5 + EncodeU32(h.totalSfntSize), c5, EncodeU32(h.totalSfntSize));
    SplitAt(input, 0, c4 + EncodeU16(h.reserved), c4, EncodeU16(h.reserved));
    SplitAt(input, 0, c3 + EncodeU16(h.numTables), c3, EncodeU16(h.numTables));
    SplitAt(input, 0, c2 + EncodeU32(h.length), c2, EncodeU32(h.length));
    SplitAt(input, 0, c1 + EncodeU32(h.flavour), c1, EncodeU32(h.flavour));
    var r := ParseHeader(input).value;
    DecodeEncodeU32(h.signature);
    DecodeEncodeU32(h.flavour);
    DecodeEncodeU32(h.length);
    DecodeEncodeU16(h.numTables);
    DecodeEncodeU16(h.reserved);
    DecodeEncodeU32(h.totalSfntSize);
    DecodeEncodeU16(h.majorVersion);
    DecodeEncodeU16(h.minorVersion);
    DecodeEncodeU32(h.metaOffset);
    DecodeEncodeU32(h.metaLength);
    DecodeEncodeU32(h.metaOrigLength);
    DecodeEncodeU32(h.privOffset);
    DecodeEncodeU32(h.privLength);
  }

  /** Conversely, the header parsed from any input is the one whose encoding
      is the input's first 44 bytes: every header byte is read, once, in field
      order. */
  lemma ParsedHeaderEncoded(input: seq<Byte>)
    requires HEADER_SIZE <= |input|
    ensures EncodeHeader(ParseHeader(input).value) == input[..HEADER_SIZE]
  {
    ReadU32Encoded(input, 0);
    ReadU32Encoded(input, 4);
    ReadU32Encoded(input, 8);
    ReadU16Encoded(input, 12);
    ReadU16Encoded(input, 14);
    ReadU32Encoded(input, 16);
    ReadU16Encoded(input, 20);
    ReadU16Encoded(input, 22);
    ReadU32Encoded(input, 24);
    ReadU32Encoded(input, 28);
    ReadU32Encoded(input, 32);
    ReadU32Encoded(input, 36);
    ReadU32Encoded(input, 40);
    assert input[..44] == input[0..4] + input[4..8] + input[8..12] + input[12..14] + input[14..16]
      + input[16..20] + input[20..22] + input[22..24] + input[24..28] + input[28..32]
      + input[32..36] + input[36..40] + input[40..44];
  }

  /** Reading an entry consumes exactly its 20 bytes and recovers every field. */
  lemma ReadEncodedEntry(e: TableDirectoryEntry, input: seq<Byte>, pos: nat)
    requires e.otfOffset == 0
    requires pos + ENTRY_SIZE <= |input| && input[pos..pos + ENTRY_SIZE] == EncodeEntry(e)
    ensures ReadEntry(input, pos) == Success(e)
  {
    var c1 := EncodeU32(e.tag);
    var c2 := c1 + EncodeU32(e.offset);
    var c3 := c2 + EncodeU32(e.compLength);
    var c4 := c3 + EncodeU32(e.origLength);
    assert input[pos..pos + 20] == c4 + EncodeU32(e.origChecksum);
    SplitAt(input, pos, c4 + EncodeU32(e.origChecksum), c4, EncodeU32(e.origChecksum));
    SplitAt(input, pos, c3 + EncodeU32(e.origLength), c3, EncodeU32(e.origLength));
    SplitAt(input, pos, c2 + EncodeU32(e.compLength), c2, EncodeU32(e.compLength));
    SplitAt(input, pos, c1 + EncodeU32(e.offset), c1, EncodeU32(e.offset));
    var r := ReadEntry(input, pos).value;
    DecodeEncodeU32(e.tag);
    DecodeEncodeU32(e.offset);
    DecodeEncodeU32(e.compLength);
    DecodeEncodeU32(e.origLength);
    DecodeEncodeU32(e.origChecksum);
  }

  /** Conversely, an entry read from any position is the one whose encoding
      is the 20 bytes there. */
  lemma ReadEntryEncoded(input: seq<Byte>, pos: nat)
    requires pos + ENTRY_SIZE <= |input|
    ensures EncodeEntry(ReadEntry(input, pos).value) == input[pos..pos + ENTRY_SIZE]
  {
    ReadU32Encoded(input, pos);
    ReadU32Encoded(input, pos + 4);
    ReadU32Encoded(input, pos + 8);
    ReadU32Encoded(input, pos + 12);
    ReadU32Encoded(input, pos + 16);
    assert input[pos..pos + 20] == input[pos..pos + 4] + input[pos + 4..pos + 8]
      + input[pos + 8..pos + 12] + input[pos + 12..pos + 16] + input[pos + 16..pos + 20];
  }

  /** Entries written one after another. */
  function EncodeEntries(es: seq<TableDirectoryEntry>): (r: seq<Byte>)
    ensures |r| == 20 * |es|
  {
    if es == [] then [] else EncodeEntries(es[..|es| - 1]) + EncodeEntry(es[|es| - 1])
  }

  /** Entries as the directory reader produces them, before layout assigns offsets. */
  predicate Unplaced(es: seq<TableDirectoryEntry>)
  {
    forall i :: 0 <= i < |es| ==> es[i].otfOffset == 0
  }

  /** The directory parser recovers, in order, the unplaced entries encoded
      one after another behind the header. */
  lemma {:induction false} ParseEncodedDirectory(es: seq<TableDirectoryEntry>, input: seq<Byte>)
    requires HEADER_SIZE + 20 * |es| <= |input|
    requires input[HEADER_SIZE..HEADER_SIZE + 20 * |es|] == EncodeEntries(es)
    requires Unplaced(es)
    ensures ParseDirectory(input, |es|) == Success(es)
  {
    if es != [] {
      var n := |es| - 1;
      EncodedPrefix(es, input, n);
      ParseEncodedDirectory(es[..n], input);
      ReadEncodedLast(es, input, n);
      ParseEncodedLast(es, input, n);
    }
  }

  /** The encoded directory of all but the last entry is a prefix of the encoded directory. */
  lemma EncodedPrefix(es: seq<TableDirectoryEntry>, input: seq<Byte>, n: nat)
    requires n + 1 == |es| && HEADER_SIZE + 20 * |es| <= |input|
    requires input[HEADER_SIZE..HEADER_SIZE + 20 * |es|] == EncodeEntries(es)
    requires Unplaced(es)
    ensures HEADER_SIZE + 20 * |es[..n]| <= |input|
    ensures input[HEADER_SIZE..HEADER_SIZE + 20 * |es[..n]|] == EncodeEntries(es[..n])
    ensures Unplaced(es[..n])
  {
    EncodedEntriesSplit(es, input, n);
    forall i | 0 <= i < n
      ensures es[..n][i].otfOffset == 0
    {
      assert es[..n][i] == es[i];
    }
  }

  /** Once the prefix parses, the last encoded entry completes the directory. */
  lemma ParseEncodedLast(es: seq<TableDirectoryEntry>, input: seq<Byte>, n: nat)
    requires n + 1 == |es| && HEADER_SIZE <= |input|
    requires ReadEntry(input, HEADER_SIZE + 20 * n) == Success(es[n])
    requires ParseDirectory(input, n) == Success(es[..n])
    ensures ParseDirectory(input, n + 1) == Success(es)
  {
    ParseDirectoryStep(input, n, es[..n], es[n]);
    assert es[..n] + [es[n]] == es;
  }

  lemma ReadEncodedLast(es: seq<TableDirectoryEntry>, input: seq<Byte>, n: nat)
    requires n + 1 == |es| && HEADER_SIZE + 20 * |es| <= |input|
    requires input[HEADER_SIZE..HEADER_SIZE + 20 * |es|] == EncodeEntries(es)
    requires Unplaced(es)
    ensures ReadEntry(input, HEADER_SIZE + 20 * n) == Success(es[n])
  {
    EncodedEntriesSplit(es, input, n);
    ReadEncodedEntry(es[n], input, HEADER_SIZE + 20 * n);
  }

  lemma EncodedEntriesSplit(es: seq<TableDirectoryEntry>, input: seq<Byte>, n: nat)
    requires n + 1 == |es| && HEADER_SIZE + 20 * |es| <= |input|
    requires input[HEADER_SIZE..HEADER_SIZE + 20 * |es|] == EncodeEntries(es)
    ensures input[HEADER_SIZE..HEADER_SIZE + 20 * n] == EncodeEntries(es[..n])
    ensures input[HEADER_SIZE + 20 * n..HEADER_SIZE + 20 * n + ENTRY_SIZE] == EncodeEntry(es[n])
  {
    var front, last := EncodeEntries(es[..n]), EncodeEntry(es[n]);
    assert EncodeEntries(es) == front + last;
    SplitAt(input, HEADER_SIZE, EncodeEntries(es), front, last);
  }

  lemma ParseDirectoryStep(input: seq<Byte>, n: nat, init: seq<TableDirectoryEntry>, e: TableDirectoryEntry)
    requires HEADER_SIZE <= |input|
    requires ParseDirectory(input, n) == Success(init)
    requires ReadEntry(input, HEADER_SIZE + 20 * n) == Success(e)
    ensures ParseDirectory(input, n + 1) == Success(init + [e])
  {
  }
}
