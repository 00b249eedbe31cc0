/** The SFNT output layout: where each table lands (the running `offset` of
    the source's second loop) and the 16-byte table records written there. */
module Layout {
  import opened Io
  import opened ByteCodec
  import opened Woff
  import opened SfntParams

  /** Size of the SFNT header: flavour, numTables, searchRange,
      entrySelector and rangeShift. */
  const SFNT_HEADER_SIZE: nat := 12

  /** The padding rule of the source: up to the next multiple of 4. */
  function RoundUp4(x: nat): (r: nat)
    ensures r % 4 == 0 && x <= r < x + 4
  {
    if x % 4 != 0 then x + (4 - x % 4) else x
  }

  /** The reference layout over unbounded integers: table `i` starts where
      table `i - 1` ends, rounded up to a multiple of 4. */
  function TableStart(es: seq<TableDirectoryEntry>, start: nat, i: nat): nat
    requires i <= |es|
  {
    if i == 0 then start else RoundUp4(TableStart(es, start, i - 1) + es[i - 1].origLength)
  }

  /** Where the padding of the last table ends. */
  function LayoutEnd(es: seq<TableDirectoryEntry>, start: nat): nat
  {
    TableStart(es, start, |es|)
  }

  /** The source's rounding step on a `u32`, whose addition may overflow. */
  function AlignU32(x: U32): (r: Result<U32>)
    ensures r.Success? <==> RoundUp4(x) < 0x1_0000_0000
    ensures r.Success? ==> r.value == RoundUp4(x)
    ensures r.Failure? ==> r.error == ArithmeticOverflow
  {
    if x % 4 != 0 then CheckedAddU32(x, 4 - x % 4) else Success(x)
  }

  /** The offset bookkeeping of the second loop: entry by entry, in input
      order, `otfOffset` takes the running offset, which then grows by the
      table's `origLength` and is rounded up to a multiple of 4. Yields the
      updated entries and the final offset. */
  function Place(es: seq<TableDirectoryEntry>, start: U32): Result<(seq<TableDirectoryEntry>, U32)>
    decreases |es|
  {
    if es == [] then
      Success(([], start))
    else
      var before :- Place(es[..|es| - 1], start);
      var e := es[|es| - 1];
      var next :- CheckedAddU32(before.1, e.origLength);
      var aligned :- AlignU32(next);
      Success((before.0 + [e.(otfOffset := before.1)], aligned))
  }

  lemma {:induction false} TableStartPrefix(es: seq<TableDirectoryEntry>, start: nat, m: nat, i: nat)
    requires i <= m <= |es|
    ensures TableStart(es[..m], start, i) == TableStart(es, start, i)
  {
    if i > 0 {
      TableStartPrefix(es, start, m, i - 1);
    }
  }

  /** Table `i` ends, and is padded, before table `j` starts: in input order
      the offsets never decrease, and grow strictly past a non-empty table. */
  lemma {:induction false} LayoutNoOverlap(es: seq<TableDirectoryEntry>, start: nat, i: nat, j: nat)
    requires i < j <= |es|
    ensures TableStart(es, start, i) + es[i].origLength <= TableStart(es, start, j)
    decreases j
  {
    if j > i + 1 {
      LayoutNoOverlap(es, start, i, j - 1);
    }
  }

  lemma {:induction false} LayoutMonotone(es: seq<TableDirectoryEntry>, start: nat, i: nat, j: nat)
    requires i <= j <= |es|
    ensures TableStart(es, start, i) <= TableStart(es, start, j)
  {
    if i < j {
      LayoutNoOverlap(es, start, i, j);
    }
  }

  /** Each table starts on a 4-byte boundary, and the next one starts at its
      end rounded up: `origLength` plus at most 3 bytes of padding later. */
  lemma {:induction false} LayoutAligned(es: seq<TableDirectoryEntry>, start: nat, i: nat)
    requires start % 4 == 0 && i < |es|
    ensures TableStart(es, start, i) % 4 == 0
    ensures TableStart(es, start, i + 1) == RoundUp4(TableStart(es, start, i) + es[i].origLength)
    ensures TableStart(es, start, i) + es[i].origLength <= TableStart(es, start, i + 1)
         < TableStart(es, start, i) + es[i].origLength + 4
  {
  }

  /** Table `i` and the one after it start at or after `start`. */
  lemma TableOffsets(es: seq<TableDirectoryEntry>, start: nat, i: nat) returns (at: nat, next: nat)
    requires i < |es|
    ensures start + at == TableStart(es, start, i) && start + next == TableStart(es, start, i + 1)
  {
    LayoutMonotone(es, start, 0, i);
    LayoutMonotone(es, start, i, i + 1);
    at := TableStart(es, start, i) - start;
    next := TableStart(es, start, i + 1) - start;
  }

  /** The tables start after the 12-byte header and 16 bytes per record, on
      a multiple of 4. */
  lemma DirectoryEndAligned(start: nat, numTables: nat)
    requires start == SFNT_HEADER_SIZE + 16 * numTables
    ensures start % 4 == 0
  {
    assert start == 4 * (3 + 4 * numTables);
  }

  /** From an aligned start, the padding of the last table ends aligned. */
  lemma LayoutEndAligned(es: seq<TableDirectoryEntry>, start: nat)
    requires start % 4 == 0
    ensures LayoutEnd(es, start) % 4 == 0
  {
  }

  /** The sum of the tables' lengths, each rounded up to a multiple of 4. */
  function PaddedSize(es: seq<TableDirectoryEntry>): nat
  {
    if es == [] then 0 else PaddedSize(es[..|es| - 1]) + RoundUp4(es[|es| - 1].origLength)
  }

  lemma {:induction false} RoundUp4Shift(a: nat, b: nat)
    requires a % 4 == 0
    ensures RoundUp4(a + b) == a + RoundUp4(b)
  {
  }

  /** From an aligned start, table `i` starts after the padded sizes of the
      tables before it. */
  lemma {:induction false} TableStartIsSum(es: seq<TableDirectoryEntry>, start: nat, i: nat)
    requires start % 4 == 0 && i <= |es|
    ensures TableStart(es, start, i) == start + PaddedSize(es[..i])
  {
    if i > 0 {
      TableStartIsSum(es, start, i - 1);
      assert es[..i][..i - 1] == es[..i - 1];
      RoundUp4Shift(start + PaddedSize(es[..i - 1]), es[i - 1].origLength);
    }
  }

  /** `placed` is `es` with the offsets of the reference layout filled in. */
  ghost predicate PlacedAsLayout(placed: seq<TableDirectoryEntry>, es: seq<TableDirectoryEntry>, start: nat)
  {
    && |placed| == |es|
    && forall i {:trigger placed[i]} :: 0 <= i < |es| ==>
         && placed[i].otfOffset == TableStart(es, start, i)
         && placed[i] == es[i].(otfOffset := placed[i].otfOffset)
  }

  lemma {:induction false} PlacedAsLayoutExtend(placed: seq<TableDirectoryEntry>, es: seq<TableDirectoryEntry>, start: nat, end: U32)
    requires es != [] && |placed| == |es| - 1
    requires PlacedAsLayout(placed, es[..|es| - 1], start)
    requires end == LayoutEnd(es[..|es| - 1], start)
    ensures PlacedAsLayout(placed + [es[|es| - 1].(otfOffset := end)], es, start)
  {
    var n := |es| - 1;
    var result := placed + [es[n].(otfOffset := end)];
    forall i | 0 <= i <= n
      ensures result[i].otfOffset == TableStart(es, start, i)
      ensures result[i] == es[i].(otfOffset := result[i].otfOffset)
    {
      TableStartPrefix(es, start, n, i);
      if i < n {
        assert result[i] == placed[i];
        assert es[..n][i] == es[i];
      }
    }
  }

  /** The layout grows table by table. */
  lemma {:induction false} LayoutEndStep(es: seq<TableDirectoryEntry>, start: nat)
    requires es != []
    ensures LayoutEnd(es, start) == RoundUp4(LayoutEnd(es[..|es| - 1], start) + es[|es| - 1].origLength)
  {
    TableStartPrefix(es, start, |es| - 1, |es| - 1);
  }

  /** One step of `Place` that stays within `u32`. */
  lemma {:induction false} PlaceStep(es: seq<TableDirectoryEntry>, start: U32)
    requires es != [] && Place(es[..|es| - 1], start).Success?
    requires Place(es[..|es| - 1], start).value.1 + es[|es| - 1].origLength < 0x1_0000_0000
    requires RoundUp4(Place(es[..|es| - 1], start).value.1 + es[|es| - 1].origLength) < 0x1_0000_0000
    ensures var (placed, end) := Place(es[..|es| - 1], start).value;
      Place(es, start) == Success((placed + [es[|es| - 1].(otfOffset := end)], RoundUp4(end + es[|es| - 1].origLength)))
  {
  }

  /** A failure on a prefix is the failure of the whole. */
  lemma {:induction false} PlacePropagates(es: seq<TableDirectoryEntry>, start: U32)
    requires es != [] && Place(es[..|es| - 1], start).Failure?
    ensures Place(es, start) == Failure(Place(es[..|es| - 1], start).error)
  {
  }

  /** The last step of `Place` overflows when its end, rounded, leaves `u32`. */
  lemma {:induction false} PlaceOverflows(es: seq<TableDirectoryEntry>, start: U32)
    requires es != [] && Place(es[..|es| - 1], start).Success?
    requires RoundUp4(Place(es[..|es| - 1], start).value.1 + es[|es| - 1].origLength) >= 0x1_0000_0000
    ensures Place(es, start) == Failure(ArithmeticOverflow)
  {
  }

  /** The `u32` bookkeeping agrees with the reference layout, and overflows
      exactly when the layout reaches past `u32`. */
  lemma {:induction false} PlaceMatchesLayout(es: seq<TableDirectoryEntry>, start: U32)
    ensures Place(es, start).Success? <==> LayoutEnd(es, start) < 0x1_0000_0000
    ensures Place(es, start).Failure? ==> Place(es, start).error == ArithmeticOverflow
    ensures Place(es, start).Success? ==> Place(es, start).value.1 == LayoutEnd(es, start)
    decreases |es|
  {
    if es != [] {
      var n := |es| - 1;
      var init := es[..n];
      PlaceMatchesLayout(init, start);
      LayoutEndStep(es, start);
      var r := Place(init, start);
      if r.Failure? {
        PlacePropagates(es, start);
      } else if RoundUp4(r.value.1 + es[n].origLength) >= 0x1_0000_0000 {
        PlaceOverflows(es, start);
      } else {
        PlaceStep(es, start);
      }
    }
  }

  /** On success, each entry has taken its offset in the reference layout
      and is otherwise unchanged, in input order. */
  lemma {:induction false} PlaceAssignsLayout(es: seq<TableDirectoryEntry>, start: U32)
    requires Place(es, start).Success?
    ensures PlacedAsLayout(Place(es, start).value.0, es, start)
    decreases |es|
  {
    if es != [] {
      var n := |es| - 1;
      var init := es[..n];
      if Place(init, start).Failure? {
        PlacePropagates(es, start);
      }
      PlaceAssignsLayout(init, start);
      PlaceMatchesLayout(init, start);
      var r := Place(init, start).value;
      if RoundUp4(r.1 + es[n].origLength) >= 0x1_0000_0000 {
        PlaceOverflows(es, start);
      }
      PlaceStep(es, start);
      PlacedAsLayoutExtend(r.0, es, start, r.1);
    }
  }

  /** The first `i` entries of `placed` hold their reference offsets, the rest
      are still as read. */
  ghost predicate PlacedUpTo(placed: seq<TableDirectoryEntry>, es: seq<TableDirectoryEntry>, start: nat, i: nat)
  {
    && i <= |placed| == |es|
    && (forall k {:trigger placed[k]} :: 0 <= k < i ==>
         && placed[k].otfOffset == TableStart(es, start, k)
         && placed[k] == es[k].(otfOffset := placed[k].otfOffset))
    && (forall k :: i <= k < |es| ==> placed[k] == es[k])
  }

  /** Giving entry `i` its reference offset extends the placed prefix by one. */
  lemma PlacedUpToStep(placed: seq<TableDirectoryEntry>, es: seq<TableDirectoryEntry>, start: nat, i: nat, offset: U32)
    requires PlacedUpTo(placed, es, start, i) && i < |es|
    requires offset == TableStart(es, start, i)
    ensures PlacedUpTo(placed[i := placed[i].(otfOffset := offset)], es, start, i + 1)
  {
  }

  /** One step of the second loop from the reference offset of entry `i`:
      the rounded end of the table is where entry `i + 1` starts, and if it
      does not fit in a `u32` the whole bookkeeping fails. */
  lemma OffsetStep(es: seq<TableDirectoryEntry>, start: U32, i: nat, offset: U32)
    requires i < |es| && offset == TableStart(es, start, i)
    ensures RoundUp4(offset + es[i].origLength) == TableStart(es, start, i + 1)
    ensures RoundUp4(offset + es[i].origLength) >= 0x1_0000_0000 ==> Place(es, start) == Failure(ArithmeticOverflow)
  {
    TableStartNext(es, start, i);
    if RoundUp4(offset + es[i].origLength) >= 0x1_0000_0000 {
      PlaceOverflowsAt(es, start, i);
    }
  }

  /** Once every entry is placed, `placed` is the reference layout of `es`. */
  lemma PlacedUpToAll(placed: seq<TableDirectoryEntry>, es: seq<TableDirectoryEntry>, start: nat)
    requires PlacedUpTo(placed, es, start, |es|)
    ensures PlacedAsLayout(placed, es, start)
  {
  }

  /** `Place` overflows as soon as one table's end, or its rounded end, leaves `u32`. */
  lemma PlaceOverflowsAt(es: seq<TableDirectoryEntry>, start: U32, i: nat)
    requires i < |es|
    requires RoundUp4(TableStart(es, start, i) + es[i].origLength) >= 0x1_0000_0000
    ensures Place(es, start) == Failure(ArithmeticOverflow)
  {
    TableStartNext(es, start, i);
    PlacePastU32At(es, start, i + 1);
  }

  /** Table `i + 1` starts at the rounded end of table `i`. */
  lemma TableStartNext(es: seq<TableDirectoryEntry>, start: nat, i: nat)
    requires i < |es|
    ensures TableStart(es, start, i + 1) == RoundUp4(TableStart(es, start, i) + es[i].origLength)
  {
  }

  /** A layout reaching past `u32` makes `Place` overflow. */
  lemma PlacePastU32(es: seq<TableDirectoryEntry>, start: U32)
    requires LayoutEnd(es, start) >= 0x1_0000_0000
    ensures Place(es, start) == Failure(ArithmeticOverflow)
  {
    PlaceMatchesLayout(es, start);
  }

  /** Any table start reaching past `u32` makes `Place` overflow. */
  lemma PlacePastU32At(es: seq<TableDirectoryEntry>, start: U32, j: nat)
    requires j <= |es| && TableStart(es, start, j) >= 0x1_0000_0000
    ensures Place(es, start) == Failure(ArithmeticOverflow)
  {
    LayoutMonotone(es, start, j, |es|);
    PlacePastU32(es, start);
  }

  /** Entries placed as the reference layout, within `u32`, are what `Place` yields. */
  lemma PlaceFromLayout(es: seq<TableDirectoryEntry>, start: U32, placed: seq<TableDirectoryEntry>)
    requires PlacedAsLayout(placed, es, start) && LayoutEnd(es, start) < 0x1_0000_0000
    ensures Place(es, start) == Success((placed, LayoutEnd(es, start)))
  {
    PlaceMatchesLayout(es, start);
    PlaceAssignsLayout(es, start);
    PlacedAsLayoutUnique(Place(es, start).value.0, placed, es, start);
  }

  /** The reference layout determines the placed entries. */
  lemma PlacedAsLayoutUnique(a: seq<TableDirectoryEntry>, b: seq<TableDirectoryEntry>, es: seq<TableDirectoryEntry>, start: nat)
    requires PlacedAsLayout(a, es, start) && PlacedAsLayout(b, es, start)
    ensures a == b
  {
    forall i | 0 <= i < |a|
      ensures a[i] == b[i]
    {
    }
  }

  /** The 16-byte SFNT table record: tag, checksum, offset, length. */
  function Record(e: TableDirectoryEntry): (r: seq<Byte>)
    ensures |r| == RECORD_SIZE
  {
    EncodeU32(e.tag) + EncodeU32(e.origChecksum) + EncodeU32(e.otfOffset) + EncodeU32(e.origLength)
  }

  /** The record carries the WOFF checksum unchanged and the assigned offset. */
  lemma {:induction false} RecordFields(e: TableDirectoryEntry)
    ensures DecodeU32(Record(e)[0..4]) == e.tag
    ensures DecodeU32(Record(e)[4..8]) == e.origChecksum
    ensures DecodeU32(Record(e)[8..12]) == e.otfOffset
    ensures DecodeU32(Record(e)[12..16]) == e.origLength
  {
    var r := Record(e);
    assert r[0..4] == EncodeU32(e.tag);
    assert r[4..8] == EncodeU32(e.origChecksum);
    assert r[8..12] == EncodeU32(e.otfOffset);
    assert r[12..16] == EncodeU32(e.origLength);
    DecodeEncodeU32(e.tag);
    DecodeEncodeU32(e.origChecksum);
    DecodeEncodeU32(e.otfOffset);
    DecodeEncodeU32(e.origLength);
  }

  /** The table directory: the records of the entries, in input order. */
  function Records(es: seq<TableDirectoryEntry>): (r: seq<Byte>)
    ensures |r| == 16 * |es|
  {
    if es == [] then [] else Records(es[..|es| - 1]) + Record(es[|es| - 1])
  }

  /** The directory grows by one record per entry. */
  lemma RecordsStep(es: seq<TableDirectoryEntry>, e: TableDirectoryEntry)
    ensures Records(es + [e]) == Records(es) + Record(e)
  {
    assert (es + [e])[..|es|] == es;
  }

  /** Record `i` of the directory is the record of entry `i`. */
  lemma {:induction false} RecordsAt(es: seq<TableDirectoryEntry>, i: nat)
    requires i < |es|
    ensures Records(es)[16 * i..16 * (i + 1)] == Record(es[i])
  {
    var n := |es| - 1;
    var front := Records(es[..n]);
    assert Records(es) == front + Record(es[n]);
    if i < n {
      RecordsAt(es[..n], i);
      assert es[..n][i] == es[i];
      assert 16 * (i + 1) <= |front|;
      assert (front + Record(es[n]))[16 * i..16 * (i + 1)]
          == front[16 * i..16 * (i + 1)];
    } else {
      assert |front| == 16 * i;
    }
  }
}
