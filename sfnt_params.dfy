/** The SFNT header's binary-search parameters, computed from the table count
    by the iterator chain `(0..16).map(..).filter(..).map(..).last().unwrap()`
    and the subtraction that follows it. */
module SfntParams {
  import opened Io
  import opened ByteCodec

  /** Size in bytes of one SFNT table record, the stride of the search. */
  const RECORD_SIZE: nat := 16

  function Pow2(k: nat): (r: nat)
    ensures r >= 1
  {
    if k == 0 then 1 else 2 * Pow2(k - 1)
  }

  lemma {:induction false} Pow2Monotone(j: nat, k: nat)
    requires j <= k
    ensures Pow2(j) <= Pow2(k)
    decreases k
  {
    if j < k {
      Pow2Monotone(j, k - 1);
    }
  }

  lemma Pow2Values()
    ensures Pow2(12) == 0x1000 && Pow2(15) == 0x8000
  {
    assert Pow2(4) == 16;
    assert Pow2(8) == 256;
    assert Pow2(12) == 0x1000;
  }

  /** Every candidate power `u16::pow(2, n)` with `n < 16` fits in a `u16`. */
  lemma Pow2FitsU16(n: nat)
    requires n < 16
    ensures Pow2(n) <= 0x8000
  {
    Pow2Monotone(n, 15);
    Pow2Values();
  }

  /** The chain as a left-to-right scan over the candidates `n .. 16`:
      `last` is the most recent candidate that passed the filter, already
      mapped to `(n, 2^n * 16)`. The multiplication is overflow-checked and
      runs for every candidate that passes the filter. */
  function Scan(numTables: U16, n: nat, last: Option<(nat, U16)>): Result<Option<(nat, U16)>>
    requires n <= 16
    decreases 16 - n
  {
    if n == 16 then
      Success(last)
    else
      Pow2FitsU16(n);
      var power: U16 := Pow2(n);
      if power <= numTables then
        var range :- CheckedMulU16(power, 16);
        Scan(numTables, n + 1, Some((n, range)))
      else
        Scan(numTables, n + 1, last)
  }

  /** `(entry_selector, search_range)`; `unwrap()` on an empty chain panics. */
  function SearchParams(numTables: U16): Result<(nat, U16)>
  {
    var found :- Scan(numTables, 0, None);
    if found.None? then Failure(NoSearchCandidate) else Success(found.value)
  }

  /** `num_tables * 16 - search_range` on `u16`. */
  function RangeShift(numTables: U16, searchRange: U16): U16
    requires searchRange <= numTables * 16 < 0x1_0000
  {
    numTables * 16 - searchRange
  }

  /** The largest `e` in `[0, 16)` with `2^e <= numTables`. */
  ghost predicate IsEntrySelector(numTables: nat, e: nat)
  {
    && e < 16
    && Pow2(e) <= numTables
    && forall k :: e < k < 16 ==> numTables < Pow2(k)
  }

  /** An independent definition: the integer binary logarithm. */
  function Log2Floor(n: nat): nat
    requires n >= 1
  {
    if n == 1 then 0 else 1 + Log2Floor(n / 2)
  }

  lemma {:induction false} Log2FloorBounds(n: nat)
    requires n >= 1
    ensures Pow2(Log2Floor(n)) <= n < Pow2(Log2Floor(n) + 1)
  {
    if n > 1 {
      Log2FloorBounds(n / 2);
    }
  }

  /** Below 4096 the binary logarithm is below 12. */
  lemma Log2FloorBelow12(n: nat)
    requires 1 <= n < 0x1000
    ensures Log2Floor(n) < 12 && Pow2(Log2Floor(n)) <= n < Pow2(Log2Floor(n) + 1)
  {
    Log2FloorBounds(n);
    if Log2Floor(n) >= 12 {
      Pow2Values();
      Pow2Monotone(12, Log2Floor(n));
      assert false;
    }
  }

  /** Once the candidates exceed the count, nothing more passes the filter. */
  lemma {:induction false} ScanPast(numTables: U16, n: nat, last: Option<(nat, U16)>)
    requires n <= 16 && numTables < Pow2(n)
    ensures Scan(numTables, n, last) == Success(last)
    decreases 16 - n
  {
    if n < 16 {
      Pow2Monotone(n, n + 1);
      ScanPast(numTables, n + 1, last);
    }
  }

  /** A candidate that passes the filter and whose range fits is kept. */
  lemma ScanKeeps(numTables: U16, n: nat, last: Option<(nat, U16)>)
    requires n < 16 && Pow2(n) <= numTables && Pow2(n) * 16 < 0x1_0000
    ensures Scan(numTables, n, last) == Scan(numTables, n + 1, Some((n, Pow2(n) * 16)))
  {
  }

  /** For `1 <= numTables < 4096` the scan ends on the binary logarithm. */
  lemma {:induction false} ScanFinds(numTables: U16, n: nat, last: Option<(nat, U16)>)
    requires 1 <= numTables < 0x1000
    requires n <= Log2Floor(numTables)
    ensures Log2Floor(numTables) < 16
    ensures Scan(numTables, n, last)
         == Success(Some((Log2Floor(numTables), Pow2(Log2Floor(numTables)) * 16)))
    decreases 16 - n
  {
    var l := Log2Floor(numTables);
    Log2FloorBelow12(numTables);
    Pow2Monotone(n, l);
    ScanKeeps(numTables, n, last);
    if n == l {
      ScanPast(numTables, n + 1, Some((n, Pow2(n) * 16)));
    } else {
      ScanFinds(numTables, n + 1, Some((n, Pow2(n) * 16)));
    }
  }

  /** For `numTables >= 4096` the candidate `2^12 * 16` overflows `u16`. */
  lemma {:induction false} ScanOverflows(numTables: U16, n: nat, last: Option<(nat, U16)>)
    requires numTables >= 0x1000 && n <= 12
    ensures Scan(numTables, n, last) == Failure(ArithmeticOverflow)
    decreases 12 - n
  {
    Pow2Values();
    Pow2Monotone(n, 12);
    if n < 12 {
      Pow2Monotone(n, 11);
      assert Pow2(11) == 0x800;
      ScanOverflows(numTables, n + 1, Some((n, Pow2(n) * 16)));
    }
  }

  /** With no tables no candidate passes and `unwrap()` panics. */
  lemma SearchParamsNoTables()
    ensures SearchParams(0) == Failure(NoSearchCandidate)
  {
    ScanPast(0, 0, None);
  }

  /** With 4096 tables or more the chain's `x.1 * 16` overflows. */
  lemma SearchParamsTooManyTables(numTables: U16)
    requires numTables >= 0x1000
    ensures SearchParams(numTables) == Failure(ArithmeticOverflow)
  {
    ScanOverflows(numTables, 0, None);
  }

  /** For `1 <= numTables < 4096`: `entrySelector` is the largest `n` in
      `[0, 16)` with `2^n <= numTables` (the binary logarithm),
      `searchRange = 2^entrySelector * 16`, and `rangeShift` stays within
      `u16` without underflow. */
  lemma SearchParamsCorrect(numTables: U16)
    requires 1 <= numTables < 0x1000
    ensures SearchParams(numTables).Success?
    ensures var (e, range) := SearchParams(numTables).value;
      && e == Log2Floor(numTables)
      && IsEntrySelector(numTables, e)
      && range == Pow2(e) * 16
      && range <= numTables * 16 < 0x1_0000
  {
    var l := Log2Floor(numTables);
    ScanFinds(numTables, 0, None);
    Log2FloorBounds(numTables);
    forall k | l < k < 16
      ensures numTables < Pow2(k)
    {
      Pow2Monotone(l + 1, k);
    }
  }

  /** `SearchParams` succeeds exactly for `1 <= numTables < 4096`. */
  lemma SearchParamsSucceeds(numTables: U16)
    ensures SearchParams(numTables).Success? <==> 1 <= numTables < 0x1000
  {
    if numTables == 0 {
      SearchParamsNoTables();
    } else if numTables >= 0x1000 {
      SearchParamsTooManyTables(numTables);
    } else {
      SearchParamsCorrect(numTables);
    }
  }

  /** The three values for a font with eleven tables. */
  lemma ElevenTables()
    ensures SearchParams(11) == Success((3, 128))
    ensures RangeShift(11, 128) == 48
  {
    SearchParamsCorrect(11);
    assert Log2Floor(11) == 3;
    assert Pow2(3) == 8;
    var p := SearchParams(11).value;
    assert p.0 == 3 && p.1 == 128;
  }
}
