/** Where the copy loop puts each table's bytes: when every table yields its
    full `origLength` bytes, table `i` lands exactly at the offset its record
    announces, followed by zero padding up to the next table. */
module Placement {
  import opened Io
  import opened ByteCodec
  import opened Woff
  import opened Layout
  import opened Transcoder

  /** Every table of `es` is copied in full: `origLength` bytes, no error. */
  ghost predicate FullPayloads(input: seq<Byte>, es: seq<TableDirectoryEntry>, inflate: seq<Byte> -> Inflated)
  {
    forall i :: 0 <= i < |es| ==>
      && TableData(input, es[i], inflate).Success?
      && |TableData(input, es[i], inflate).value| == es[i].origLength
  }

  /** The bytes copied for a table do not depend on where it goes in the output. */
  lemma TableDataIgnoresOffset(input: seq<Byte>, e: TableDirectoryEntry, inflate: seq<Byte> -> Inflated, otfOffset: U32)
    ensures TableData(input, e.(otfOffset := otfOffset), inflate) == TableData(input, e, inflate)
  {
  }

  /** Placing the entries keeps every payload full. */
  lemma FullPayloadsPlaced(input: seq<Byte>, es: seq<TableDirectoryEntry>, placed: seq<TableDirectoryEntry>,
                           start: nat, inflate: seq<Byte> -> Inflated)
    requires PlacedAsLayout(placed, es, start) && FullPayloads(input, es, inflate)
    ensures FullPayloads(input, placed, inflate)
  {
    forall i | 0 <= i < |placed|
      ensures TableData(input, placed[i], inflate) == TableData(input, es[i], inflate)
    {
      TableDataIgnoresOffset(input, es[i], inflate, placed[i].otfOffset);
    }
  }

  /** With a full payload, one copy-loop iteration writes the table's bytes
      and its padding, up to its end rounded to a multiple of 4. */
  lemma EmitTableFull(input: seq<Byte>, e: TableDirectoryEntry, inflate: seq<Byte> -> Inflated, table: seq<Byte>)
    requires EmitTable(input, e, inflate) == Success(table)
    requires |TableData(input, e, inflate).value| == e.origLength
    ensures e.otfOffset + |table| == RoundUp4(e.otfOffset + e.origLength)
    ensures table[..e.origLength] == TableData(input, e, inflate).value
    ensures forall k :: e.origLength <= k < |table| ==> table[k] == 0
  {
  }

  /** A table placed at its layout offset, whose bytes and padding take
      `size` bytes, ends where the next table starts. */
  lemma LayoutStep(es: seq<TableDirectoryEntry>, start: nat, n: nat, e: TableDirectoryEntry, size: nat)
    requires n < |es| && e.otfOffset == TableStart(es, start, n) && e.origLength == es[n].origLength
    requires e.otfOffset + size == RoundUp4(e.otfOffset + e.origLength)
    ensures TableStart(es, start, n) + size == TableStart(es, start, n + 1)
  {
  }

  /** The bytes copied for the first `n + 1` tables are those of the first
      `n` followed by those of table `n`. */
  lemma EmitSplit(input: seq<Byte>, placed: seq<TableDirectoryEntry>, inflate: seq<Byte> -> Inflated, n: nat, out: seq<Byte>)
    returns (before: seq<Byte>, table: seq<Byte>)
    requires n < |placed| && Emit(input, placed[..n + 1], inflate) == Success(out)
    ensures Emit(input, placed[..n], inflate) == Success(before)
    ensures EmitTable(input, placed[n], inflate) == Success(table)
    ensures out == before + table
  {
    EmitStep(input, placed, inflate, n);
    before := Emit(input, placed[..n], inflate).value;
    table := EmitTable(input, placed[n], inflate).value;
  }

  /** One more full table, placed at its layout offset, takes the copied
      bytes from the start of table `n` in the layout to the start of table
      `n + 1`. */
  lemma EmitLengthStep(input: seq<Byte>, es: seq<TableDirectoryEntry>, placed: seq<TableDirectoryEntry>, start: nat,
                       inflate: seq<Byte> -> Inflated, n: nat, before: seq<Byte>, table: seq<Byte>)
    requires n < |placed| == |es|
    requires placed[n].otfOffset == TableStart(es, start, n) && placed[n].origLength == es[n].origLength
    requires TableData(input, placed[n], inflate).Success?
    requires |TableData(input, placed[n], inflate).value| == placed[n].origLength
    requires EmitTable(input, placed[n], inflate) == Success(table)
    requires start + |before| == TableStart(es, start, n)
    ensures start + |before + table| == TableStart(es, start, n + 1)
  {
    EmitTableFull(input, placed[n], inflate, table);
    LayoutStep(es, start, n, placed[n], |table|);
  }

  /** After `k` full tables the copied bytes reach exactly to where table
      `k` starts in the layout. */
  lemma {:induction false} EmitLength(input: seq<Byte>, es: seq<TableDirectoryEntry>, placed: seq<TableDirectoryEntry>,
                                      start: nat, inflate: seq<Byte> -> Inflated, k: nat, out: seq<Byte>)
    requires PlacedAsLayout(placed, es, start) && FullPayloads(input, placed, inflate)
    requires k <= |placed| && Emit(input, placed[..k], inflate) == Success(out)
    ensures start + |out| == TableStart(es, start, k)
  {
    if k == 0 {
      assert placed[..k] == [];
    } else {
      var before, table := EmitSplit(input, placed, inflate, k - 1, out);
      EmitLength(input, es, placed, start, inflate, k - 1, before);
      EmitLengthStep(input, es, placed, start, inflate, k - 1, before, table);
    }
  }

  /** `n` zero bytes. */
  function Zeros(n: nat): (r: seq<Byte>)
    ensures |r| == n && forall k :: 0 <= k < n ==> r[k] == 0
  {
    if n == 0 then [] else Zeros(n - 1) + [0]
  }

  /** `out` holds `data` at `at`, followed by zeros up to `next`. */
  ghost predicate PaddedAt(out: seq<Byte>, at: nat, data: seq<Byte>, next: nat)
  {
    && at + |data| <= next <= |out|
    && out[at..next] == data + Zeros(next - (at + |data|))
  }

  /** What `PaddedAt` says byte by byte. */
  lemma PaddedAtBytes(out: seq<Byte>, at: nat, data: seq<Byte>, next: nat)
    requires PaddedAt(out, at, data, next)
    ensures out[at..at + |data|] == data
    ensures forall x :: at + |data| <= x < next ==> out[x] == 0
  {
    var z := Zeros(next - (at + |data|));
    assert out[at..at + |data|] == (data + z)[..|data|];
    forall x | at + |data| <= x < next
      ensures out[x] == 0
    {
      assert out[x] == (data + z)[x - at];
    }
  }

  /** Appending bytes keeps what is already in place. */
  lemma PaddedAtAppend(before: seq<Byte>, table: seq<Byte>, at: nat, data: seq<Byte>, next: nat)
    requires PaddedAt(before, at, data, next)
    ensures PaddedAt(before + table, at, data, next)
  {
    assert (before + table)[at..next] == before[at..next];
  }

  /** A full table copied right after `before` lies, padded, at `|before|`. */
  lemma PaddedAtLast(input: seq<Byte>, e: TableDirectoryEntry, inflate: seq<Byte> -> Inflated, before: seq<Byte>,
                     table: seq<Byte>, data: seq<Byte>, at: nat, next: nat)
    requires EmitTable(input, e, inflate) == Success(table)
    requires TableData(input, e, inflate) == Success(data) && |data| == e.origLength
    requires at == |before| && next == at + |table|
    ensures PaddedAt(before + table, at, data, next)
  {
    EmitTableFull(input, e, inflate, table);
    assert table == data + Zeros(|table| - |data|);
    assert (before + table)[at..next] == table;
  }

  /** A full table `n` copied where table `n` starts in the layout lies
      there, padded up to where table `n + 1` starts; `at` and `next` are
      those two offsets less `start`, where the copied bytes begin. */
  lemma PaddedAtNext(input: seq<Byte>, es: seq<TableDirectoryEntry>, placed: seq<TableDirectoryEntry>, start: nat,
                     inflate: seq<Byte> -> Inflated, n: nat, before: seq<Byte>, table: seq<Byte>,
                     data: seq<Byte>, at: nat, next: nat)
    requires n < |placed| == |es|
    requires placed[n].otfOffset == TableStart(es, start, n) && placed[n].origLength == es[n].origLength
    requires TableData(input, placed[n], inflate) == Success(data) && |data| == placed[n].origLength
    requires EmitTable(input, placed[n], inflate) == Success(table)
    requires start + |before| == TableStart(es, start, n)
    requires start + at == TableStart(es, start, n) && start + next == TableStart(es, start, n + 1)
    ensures PaddedAt(before + table, at, data, next)
  {
    EmitLengthStep(input, es, placed, start, inflate, n, before, table);
    PaddedAtLast(input, placed[n], inflate, before, table, data, at, next);
  }

  /** The bytes copied for a shorter prefix of the entries are a prefix of
      those copied for a longer one: the loop only ever appends. */
  lemma {:induction false} EmitPrefix(input: seq<Byte>, placed: seq<TableDirectoryEntry>, inflate: seq<Byte> -> Inflated,
                                      j: nat, k: nat, out: seq<Byte>)
    requires j <= k <= |placed| && Emit(input, placed[..k], inflate) == Success(out)
    ensures Emit(input, placed[..j], inflate).Success?
    ensures Emit(input, placed[..j], inflate).value <= out
  {
    if j < k {
      var before, table := EmitSplit(input, placed, inflate, k - 1, out);
      EmitPrefix(input, placed, inflate, j, k - 1, before);
    }
  }

  /** The bytes copied for the first `j` entries begin the whole copy. */
  lemma EmitAllPrefix(input: seq<Byte>, placed: seq<TableDirectoryEntry>, inflate: seq<Byte> -> Inflated,
                      j: nat, out: seq<Byte>) returns (prefix: seq<Byte>)
    requires j <= |placed| && Emit(input, placed, inflate) == Success(out)
    ensures Emit(input, placed[..j], inflate) == Success(prefix) && prefix <= out
  {
    assert placed[..|placed|] == placed;
    EmitPrefix(input, placed, inflate, j, |placed|, out);
    prefix := Emit(input, placed[..j], inflate).value;
  }

  /** Appending bytes keeps what is already in place. */
  lemma PaddedAtExtend(out: seq<Byte>, longer: seq<Byte>, at: nat, data: seq<Byte>, next: nat)
    requires PaddedAt(out, at, data, next) && out <= longer
    ensures PaddedAt(longer, at, data, next)
  {
    PaddedAtAppend(out, longer[|out|..], at, data, next);
    assert out + longer[|out|..] == longer;
  }

  /** Once table `j` is copied, it lies at its layout offset, padded up to
      the next; `at` and `next` are taken relative to `start`. */
  lemma EmitTableAtLast(input: seq<Byte>, es: seq<TableDirectoryEntry>, placed: seq<TableDirectoryEntry>,
                        start: nat, inflate: seq<Byte> -> Inflated, j: nat, out: seq<Byte>,
                        data: seq<Byte>, at: nat, next: nat)
    requires PlacedAsLayout(placed, es, start) && FullPayloads(input, placed, inflate)
    requires j < |placed| && Emit(input, placed[..j + 1], inflate) == Success(out)
    requires TableData(input, placed[j], inflate) == Success(data)
    requires start + at == TableStart(es, start, j) && start + next == TableStart(es, start, j + 1)
    ensures PaddedAt(out, at, data, next)
  {
    var before, table := EmitSplit(input, placed, inflate, j, out);
    EmitLength(input, es, placed, start, inflate, j, before);
    PaddedAtNext(input, es, placed, start, inflate, j, before, table, data, at, next);
  }

  /** All tables copied in full: the copied bytes end where the layout ends. */
  lemma EmitAllLength(input: seq<Byte>, es: seq<TableDirectoryEntry>, placed: seq<TableDirectoryEntry>,
                      start: nat, inflate: seq<Byte> -> Inflated, out: seq<Byte>)
    requires PlacedAsLayout(placed, es, start) && FullPayloads(input, placed, inflate)
    requires Emit(input, placed, inflate) == Success(out)
    ensures start + |out| == LayoutEnd(es, start)
  {
    assert placed[..|placed|] == placed;
    EmitLength(input, es, placed, start, inflate, |placed|, out);
  }

  /** All tables copied in full: table `j` lies at its layout offset,
      taken relative to `start`, padded up to the next. */
  lemma EmitAllTableAt(input: seq<Byte>, es: seq<TableDirectoryEntry>, placed: seq<TableDirectoryEntry>,
                       start: nat, inflate: seq<Byte> -> Inflated, out: seq<Byte>, j: nat,
                       data: seq<Byte>, at: nat, next: nat)
    requires PlacedAsLayout(placed, es, start) && FullPayloads(input, placed, inflate)
    requires Emit(input, placed, inflate) == Success(out) && j < |placed|
    requires TableData(input, placed[j], inflate) == Success(data)
    requires start + at == TableStart(es, start, j) && start + next == TableStart(es, start, j + 1)
    ensures PaddedAt(out, at, data, next)
  {
    var mid := EmitAllPrefix(input, placed, inflate, j + 1, out);
    EmitTableAtLast(input, es, placed, start, inflate, j, mid, data, at, next);
    PaddedAtExtend(mid, out, at, data, next);
  }
}
