/**
 Splitting a block range into consecutive batches of at most `batchSize` blocks
 (`get_batch_intervals`).

 The batch starts are Python's `range(block_start, block_end, batch_size)`; each batch
 ends at `min(start + batch_size - 1, block_end)`.  Both ends of a batch are inclusive,
 as the callers hand them to `get_logs` as `fromBlock` / `toBlock`.  Python integers
 are unbounded, as Dafny's are.
 */
module Batching {
  import opened Results

  /** A batch of blocks `first..last`, both inclusive. */
  datatype Interval = Interval(first: int, last: int)

  /** Python's `range` rejects a zero step with a `ValueError`. */
  datatype RangeError = ZeroStep

  function Min(a: int, b: int): int
  {
    if a <= b then a else b
  }

  /** `range(start, stop, step)` for a non-zero step: `start`, then the range one step on, while `stop` is not passed. */
  function Range(start: int, stop: int, step: int): seq<int>
    requires step != 0
    decreases if step > 0 then stop - start else start - stop
  {
    if (step > 0 && start < stop) || (step < 0 && start > stop) then [start] + Range(start + step, stop, step)
    else []
  }

  /** One batch per start, ending a batch early only at `cap`. */
  function IntervalsFrom(starts: seq<int>, cap: int, batchSize: int): seq<Interval>
  {
    seq(|starts|, i requires 0 <= i < |starts| => Interval(starts[i], Min(starts[i] + batchSize - 1, cap)))
  }

  /** The batches of `get_batch_intervals`: the starts run up to `blockEnd` (excluded) and are capped at `blockEnd`. */
  function GetBatchIntervals(blockStart: int, blockEnd: int, batchSize: int): (r: Result<seq<Interval>, RangeError>)
    ensures r.Err? <==> batchSize == 0
  {
    if batchSize == 0 then Err(ZeroStep)
    else Ok(IntervalsFrom(Range(blockStart, blockEnd, batchSize), blockEnd, batchSize))
  }

  /** The batch `iv` contains block `b`. */
  predicate Covers(iv: Interval, b: int)
  {
    iv.first <= b <= iv.last
  }

  /** Some batch of `ivs` contains block `b`. */
  predicate Covered(ivs: seq<Interval>, b: int)
  {
    exists i :: 0 <= i < |ivs| && Covers(ivs[i], b)
  }

  /** Every batch lies within `lo..hi`, starts no later than it ends, and is at most `width` blocks wide. */
  predicate WithinBounds(ivs: seq<Interval>, lo: int, hi: int, width: int)
  {
    forall i :: 0 <= i < |ivs| ==> lo <= ivs[i].first <= ivs[i].last <= hi && ivs[i].last - ivs[i].first < width
  }

  /** Every batch after the first starts right after its predecessor ends. */
  predicate Adjacent(ivs: seq<Interval>)
  {
    forall i :: 0 <= i < |ivs| - 1 ==> ivs[i + 1].first == ivs[i].last + 1
  }

  /** No block lies in two batches. */
  ghost predicate NoOverlap(ivs: seq<Interval>)
  {
    forall b, i, j :: 0 <= i < |ivs| && 0 <= j < |ivs| && Covers(ivs[i], b) && Covers(ivs[j], b) ==> i == j
  }

  /** Items climbing from `start` by exactly `n` each time, staying below `stop`, the last within `n` of it. */
  predicate Ascending(r: seq<int>, start: int, stop: int, n: int)
  {
    && (|r| == 0 <==> start >= stop)
    && (|r| > 0 ==> r[0] == start && stop <= r[|r| - 1] + n)
    && (forall i :: 0 <= i < |r| ==> start <= r[i] < stop)
    && (forall i :: 0 <= i < |r| - 1 ==> r[i + 1] == r[i] + n)
    && (forall i, j :: 0 <= i < j < |r| ==> r[i] + n <= r[j])
  }

  // Arithmetic on multiples, kept apart so that each fact is proved on its own

  lemma MulMonotone(a: int, b: int, n: int)
    requires a <= b && n >= 0
    ensures a * n <= b * n
  {
    assert b * n - a * n == (b - a) * n;
  }

  lemma MulSucc(i: int, n: int)
    ensures (i + 1) * n == i * n + n
  {
  }

  /** `x / n` is the largest `q` with `q * n <= x`. */
  lemma DivFloor(x: int, n: int, q: int)
    requires n > 0
    ensures q * n <= x <==> q <= x / n
  {
    var d := x / n;
    assert d * n + x % n == x;
    if q <= d {
      MulMonotone(q, d, n);
    } else {
      MulMonotone(d + 1, q, n);
      MulSucc(d, n);
    }
  }

  /** `x / n` is the only `q` with `q * n <= x < q * n + n`. */
  lemma DivUnique(x: int, n: int, q: int)
    requires n > 0
    ensures q * n <= x < q * n + n <==> q == x / n
  {
    DivFloor(x, n, q);
    DivFloor(x, n, q + 1);
    MulSucc(q, n);
  }

  /** Adding `n` adds one to the quotient and keeps the remainder. */
  lemma DivModShift(x: int, n: int)
    requires n > 0
    ensures (x + n) / n == x / n + 1 && (x + n) % n == x % n
  {
    var q := x / n;
    DivUnique(x, n, q);
    MulSucc(q, n);
    DivUnique(x + n, n, q + 1);
  }

  /** Between `0` and `n`, only `n` itself is a multiple of `n`. */
  lemma ModSmall(x: int, n: int)
    requires 0 < x <= n
    ensures x % n == 0 <==> x == n
  {
    if x < n {
      DivUnique(x, n, 0);
    } else {
      DivUnique(x, n, 1);
    }
  }

  // Python's range for a positive step

  /** For a positive step, `range(start, stop, n)` climbs from `start` by `n` while below `stop`. */
  lemma {:induction false} RangeSteps(start: int, stop: int, n: int)
    requires n > 0
    ensures Ascending(Range(start, stop, n), start, stop, n)
    decreases stop - start
  {
    if start < stop {
      var r := Range(start, stop, n);
      var rest := Range(start + n, stop, n);
      RangeSteps(start + n, stop, n);
      assert r == [start] + rest;
      assert forall i :: 1 <= i < |r| ==> r[i] == rest[i - 1];
    }
  }

  /** The `i`-th item of `range(start, stop, n)` is `start + i * n`, for either sign of `n`. */
  lemma {:induction false} RangeItems(start: int, stop: int, n: int)
    requires n != 0
    ensures forall i :: 0 <= i < |Range(start, stop, n)| ==> Range(start, stop, n)[i] == start + i * n
    decreases if n > 0 then stop - start else start - stop
  {
    if (n > 0 && start < stop) || (n < 0 && start > stop) {
      var r := Range(start, stop, n);
      var rest := Range(start + n, stop, n);
      RangeItems(start + n, stop, n);
      assert r == [start] + rest;
      forall i | 1 <= i < |r|
        ensures r[i] == start + i * n
      {
        assert r[i] == rest[i - 1];
        MulSucc(i - 1, n);
      }
    }
  }

  /** `range(start, stop, n)` has `ceil((stop - start) / n)` items, none for an empty range. */
  lemma {:induction false} RangeCount(start: int, stop: int, n: int)
    requires n > 0
    ensures |Range(start, stop, n)| == if start >= stop then 0 else (stop - start + n - 1) / n
    decreases stop - start
  {
    if start < stop {
      RangeCount(start + n, stop, n);
      if start + n >= stop {
        DivUnique(stop - start + n - 1, n, 1);
      } else {
        DivModShift(stop - start - 1, n);
      }
    }
  }

  /**
   For a positive step, the items of `range(start, stop, n)` are exactly the numbers
   from `start` below `stop` that are a whole number of steps away from `start`.
   */
  lemma {:induction false} RangeMembers(start: int, stop: int, n: int)
    requires n > 0
    ensures forall x :: x in Range(start, stop, n) <==> start <= x < stop && (x - start) % n == 0
    decreases stop - start
  {
    if start < stop {
      var rest := Range(start + n, stop, n);
      RangeMembers(start + n, stop, n);
      assert Range(start, stop, n) == [start] + rest;
      forall x
        ensures x in rest <==> start < x < stop && (x - start) % n == 0
      {
        DivModShift(x - start - n, n);
        if start < x < start + n {
          ModSmall(x - start, n);
        }
      }
    }
  }

  /** The last item is `stop - n` exactly when `n` divides `stop - start`. */
  lemma {:induction false} RangeLast(start: int, stop: int, n: int)
    requires n > 0 && start < stop
    ensures |Range(start, stop, n)| > 0
    ensures Range(start, stop, n)[|Range(start, stop, n)| - 1] + n == stop <==> (stop - start) % n == 0
    decreases stop - start
  {
    var r := Range(start, stop, n);
    var rest := Range(start + n, stop, n);
    assert r == [start] + rest;
    if start + n < stop {
      RangeLast(start + n, stop, n);
      DivModShift(stop - start - n, n);
    } else {
      ModSmall(stop - start, n);
    }
  }

  // Batches whose starts are range(s, stop, n), capped at cap >= stop - 1

  /** Batches each ending before the next one starts never share a block. */
  lemma Separated(ivs: seq<Interval>)
    requires forall i, j :: 0 <= i < j < |ivs| ==> ivs[i].last < ivs[j].first
    ensures NoOverlap(ivs)
  {
  }

  /** The batches lie within `s..cap`, follow each other without gaps and never overlap. */
  lemma BatchesWellFormed(s: int, stop: int, cap: int, n: int)
    requires n > 0 && stop - 1 <= cap
    ensures WithinBounds(IntervalsFrom(Range(s, stop, n), cap, n), s, cap, n)
    ensures Adjacent(IntervalsFrom(Range(s, stop, n), cap, n))
    ensures NoOverlap(IntervalsFrom(Range(s, stop, n), cap, n))
  {
    var r := Range(s, stop, n);
    var iv := IntervalsFrom(r, cap, n);
    RangeSteps(s, stop, n);
    assert forall i :: 0 <= i < |iv| ==> iv[i].first == r[i] && iv[i].last == Min(r[i] + n - 1, cap);
    assert WithinBounds(iv, s, cap, n);
    assert Adjacent(iv);
    assert forall i, j :: 0 <= i < j < |iv| ==> iv[i].last < iv[j].first;
    Separated(iv);
  }

  /** Every block of `s..stop - 1` is in some batch. */
  lemma {:induction false} BatchesCoverRange(s: int, stop: int, cap: int, n: int)
    requires n > 0 && stop - 1 <= cap
    ensures forall b :: s <= b < stop ==> Covered(IntervalsFrom(Range(s, stop, n), cap, n), b)
    decreases stop - s
  {
    if s < stop {
      var iv := IntervalsFrom(Range(s, stop, n), cap, n);
      var rest := IntervalsFrom(Range(s + n, stop, n), cap, n);
      BatchesCoverRange(s + n, stop, cap, n);
      assert Range(s, stop, n) == [s] + Range(s + n, stop, n);
      assert forall i :: 0 <= i < |rest| ==> iv[i + 1] == rest[i];
      forall b | s <= b < stop
        ensures Covered(iv, b)
      {
        if b < s + n {
          assert Covers(iv[0], b);
        } else {
          assert Covered(rest, b);
          var i :| 0 <= i < |rest| && Covers(rest[i], b);
          assert Covers(iv[i + 1], b);
        }
      }
    }
  }

  // What get_batch_intervals promises for a positive batch size

  /** There are `ceil((blockEnd - blockStart) / batchSize)` batches, and none exactly when the range is empty. */
  lemma BatchCount(blockStart: int, blockEnd: int, batchSize: int)
    requires batchSize > 0
    ensures GetBatchIntervals(blockStart, blockEnd, batchSize).Ok?
    ensures |GetBatchIntervals(blockStart, blockEnd, batchSize).value| == 0 <==> blockStart >= blockEnd
    ensures |GetBatchIntervals(blockStart, blockEnd, batchSize).value|
         == if blockStart >= blockEnd then 0 else (blockEnd - blockStart + batchSize - 1) / batchSize
  {
    RangeSteps(blockStart, blockEnd, batchSize);
    RangeCount(blockStart, blockEnd, batchSize);
  }

  /** The `i`-th batch starts at `blockStart + i * batchSize` and ends `batchSize - 1` blocks later, but not after `blockEnd`. */
  lemma BatchShape(blockStart: int, blockEnd: int, batchSize: int)
    requires batchSize > 0
    ensures forall i :: 0 <= i < |GetBatchIntervals(blockStart, blockEnd, batchSize).value| ==>
      GetBatchIntervals(blockStart, blockEnd, batchSize).value[i]
        == Interval(blockStart + i * batchSize, Min(blockStart + i * batchSize + batchSize - 1, blockEnd))
  {
    RangeItems(blockStart, blockEnd, batchSize);
  }

  /**
   The batches lie within `blockStart..blockEnd`, are at most `batchSize` blocks wide,
   and each one after the first starts right after its predecessor ends.
   */
  lemma BatchBounds(blockStart: int, blockEnd: int, batchSize: int)
    requires batchSize > 0
    ensures WithinBounds(GetBatchIntervals(blockStart, blockEnd, batchSize).value, blockStart, blockEnd, batchSize)
    ensures Adjacent(GetBatchIntervals(blockStart, blockEnd, batchSize).value)
  {
    BatchesWellFormed(blockStart, blockEnd, blockEnd, batchSize);
  }

  /** Every block of `blockStart..blockEnd - 1` is in exactly one batch. */
  lemma BatchCoverage(blockStart: int, blockEnd: int, batchSize: int)
    requires batchSize > 0
    ensures forall b :: blockStart <= b < blockEnd ==> Covered(GetBatchIntervals(blockStart, blockEnd, batchSize).value, b)
    ensures NoOverlap(GetBatchIntervals(blockStart, blockEnd, batchSize).value)
  {
    BatchesCoverRange(blockStart, blockEnd, blockEnd, batchSize);
    BatchesWellFormed(blockStart, blockEnd, blockEnd, batchSize);
  }

  /**
   The last batch ends at `blockEnd` unless `batchSize` divides `blockEnd - blockStart`;
   then it ends at `blockEnd - 1` and block `blockEnd` is in no batch.
   */
  lemma BatchLastEnd(blockStart: int, blockEnd: int, batchSize: int)
    requires batchSize > 0 && blockStart < blockEnd
    ensures |GetBatchIntervals(blockStart, blockEnd, batchSize).value| > 0
    ensures GetBatchIntervals(blockStart, blockEnd, batchSize).value[|GetBatchIntervals(blockStart, blockEnd, batchSize).value| - 1].last
         == if (blockEnd - blockStart) % batchSize == 0 then blockEnd - 1 else blockEnd
    ensures Covered(GetBatchIntervals(blockStart, blockEnd, batchSize).value, blockEnd) <==> (blockEnd - blockStart) % batchSize != 0
  {
    var iv := GetBatchIntervals(blockStart, blockEnd, batchSize).value;
    RangeSteps(blockStart, blockEnd, batchSize);
    RangeLast(blockStart, blockEnd, batchSize);
    BatchesWellFormed(blockStart, blockEnd, blockEnd, batchSize);
    if Covered(iv, blockEnd) {
      var i :| 0 <= i < |iv| && Covers(iv[i], blockEnd);
      assert Covers(iv[|iv| - 1], blockEnd);
    }
  }

  /** A negative batch size counts down from `blockStart`, and every batch then ends before it starts. */
  lemma NegativeBatchSize(blockStart: int, blockEnd: int, batchSize: int)
    requires batchSize < 0
    ensures |GetBatchIntervals(blockStart, blockEnd, batchSize).value| == 0 <==> blockStart <= blockEnd
    ensures forall i :: 0 <= i < |GetBatchIntervals(blockStart, blockEnd, batchSize).value| ==>
      GetBatchIntervals(blockStart, blockEnd, batchSize).value[i].first == blockStart + i * batchSize
    ensures forall i :: 0 <= i < |GetBatchIntervals(blockStart, blockEnd, batchSize).value| ==>
      GetBatchIntervals(blockStart, blockEnd, batchSize).value[i].last < GetBatchIntervals(blockStart, blockEnd, batchSize).value[i].first
  {
    RangeItems(blockStart, blockEnd, batchSize);
  }

  // block_end itself

  /**
   With the starts stopping before `blockEnd`, block `blockEnd` is in a batch only when
   the last batch happens to be cut short by the cap: `0..10` in batches of 5 leaves
   block 10 out, while `0..11` covers block 11.
   */
  lemma BlockEndSkipped()
    ensures GetBatchIntervals(0, 10, 5) == Ok([Interval(0, 4), Interval(5, 9)])
    ensures !Covered(GetBatchIntervals(0, 10, 5).value, 10)
    ensures GetBatchIntervals(0, 11, 5) == Ok([Interval(0, 4), Interval(5, 9), Interval(10, 11)])
    ensures Covered(GetBatchIntervals(0, 11, 5).value, 11)
  {
    assert Range(0, 10, 5) == [0, 5] by {
      assert Range(10, 10, 5) == [];
      assert Range(5, 10, 5) == [5];
    }
    assert Range(0, 11, 5) == [0, 5, 10] by {
      assert Range(15, 11, 5) == [];
      assert Range(10, 11, 5) == [10];
      assert Range(5, 11, 5) == [5, 10];
    }
    assert IntervalsFrom([0, 5], 10, 5) == [Interval(0, 4), Interval(5, 9)];
    assert IntervalsFrom([0, 5, 10], 11, 5) == [Interval(0, 4), Interval(5, 9), Interval(10, 11)];
    var b := GetBatchIntervals(0, 11, 5).value;
    assert Covers(b[2], 11);
  }

  /**
   The batching with `blockEnd` included, as the cap at `blockEnd` and the inclusive
   `toBlock` of the callers intend: the starts run up to `blockEnd + 1`, excluded.
   */
  function GetBatchIntervalsInclusive(blockStart: int, blockEnd: int, batchSize: int): (r: Result<seq<Interval>, RangeError>)
    ensures r.Err? <==> batchSize == 0
  {
    if batchSize == 0 then Err(ZeroStep)
    else Ok(IntervalsFrom(Range(blockStart, blockEnd + 1, batchSize), blockEnd, batchSize))
  }

  /**
   The inclusive batching covers exactly the blocks `blockStart..blockEnd`, each in
   exactly one batch of at most `batchSize` blocks, whatever `batchSize` divides.
   */
  lemma InclusiveBatchPartition(blockStart: int, blockEnd: int, batchSize: int)
    requires batchSize > 0
    ensures WithinBounds(GetBatchIntervalsInclusive(blockStart, blockEnd, batchSize).value, blockStart, blockEnd, batchSize)
    ensures Adjacent(GetBatchIntervalsInclusive(blockStart, blockEnd, batchSize).value)
    ensures NoOverlap(GetBatchIntervalsInclusive(blockStart, blockEnd, batchSize).value)
    ensures forall b :: Covered(GetBatchIntervalsInclusive(blockStart, blockEnd, batchSize).value, b) <==> blockStart <= b <= blockEnd
  {
    var iv := GetBatchIntervalsInclusive(blockStart, blockEnd, batchSize).value;
    BatchesWellFormed(blockStart, blockEnd + 1, blockEnd, batchSize);
    BatchesCoverRange(blockStart, blockEnd + 1, blockEnd, batchSize);
    forall b | Covered(iv, b)
      ensures blockStart <= b <= blockEnd
    {
      var i :| 0 <= i < |iv| && Covers(iv[i], b);
    }
  }
}
