/**
 * scraper/italo_scrape.py, `build_slice`: the run for one hour scrapes one slice
 * of the train-number range [range_start, range_end], cut into consecutive
 * slices of slice_size numbers; the slice index wraps around.
 *
 * Python's `//` and `%` floor; here both operands of each are positive (the
 * divisor of `//` and of `%` is at least 1, the dividend of `//` is positive), and
 * where the dividend of `%` is negative Python's floor remainder and Dafny's
 * Euclidean one agree because the divisor is positive.
 */
module Slicing {
  import opened Wrappers

  /** `list(range(lo, hi + 1))`: the integers lo..hi in ascending order. */
  function Range(lo: int, hi: int): (r: seq<int>)
    ensures |r| == if hi < lo then 0 else hi - lo + 1
    ensures forall k :: 0 <= k < |r| ==> r[k] == lo + k
    decreases hi - lo
  {
    if hi < lo then [] else [lo] + Range(lo + 1, hi)
  }

  /** `num_slices`: the number of slices needed to cover the range, rounding up. */
  function NumSlices(rangeStart: int, rangeEnd: int, sliceSize: int): (n: int)
    requires rangeStart <= rangeEnd && sliceSize > 0
    ensures n >= 1
    ensures (n - 1) * sliceSize < rangeEnd - rangeStart + 1 <= n * sliceSize
  {
    var total := rangeEnd - rangeStart + 1;
    var n := (total + sliceSize - 1) / sliceSize;
    DivBounds(total + sliceSize - 1, sliceSize);
    n
  }

  /** Floor division brackets its dividend. */
  lemma DivBounds(a: int, b: int)
    requires a >= 0 && b > 0
    ensures (a / b) * b <= a < (a / b) * b + b
  {
  }

  /** `build_slice`: the two argument errors, then the slice at the wrapped index. */
  function BuildSlice(rangeStart: int, rangeEnd: int, sliceSize: int, sliceIndex: int): (r: Result<seq<int>, string>)
    ensures rangeEnd < rangeStart ==> r == Failure("range_end must be >= range_start")
    ensures rangeStart <= rangeEnd && sliceSize <= 0 ==> r == Failure("slice_size must be > 0")
    ensures r.Success? <==> rangeStart <= rangeEnd && sliceSize > 0
  {
    if rangeEnd < rangeStart then Failure("range_end must be >= range_start")
    else if sliceSize <= 0 then Failure("slice_size must be > 0")
    else
      var numSlices := NumSlices(rangeStart, rangeEnd, sliceSize);
      var idx := sliceIndex % numSlices;
      var start := rangeStart + idx * sliceSize;
      var end := if rangeEnd < start + sliceSize - 1 then rangeEnd else start + sliceSize - 1;
      Success(Range(start, end))
  }

  /** A slice's first number and its length, when the arguments are valid. */
  lemma SliceShape(rangeStart: int, rangeEnd: int, sliceSize: int, sliceIndex: int)
    requires rangeStart <= rangeEnd && sliceSize > 0
    ensures var n := NumSlices(rangeStart, rangeEnd, sliceSize);
      var idx := sliceIndex % n;
      var s := BuildSlice(rangeStart, rangeEnd, sliceSize, sliceIndex).value;
      && 0 <= idx < n
      && s == Range(rangeStart + idx * sliceSize, Min(rangeEnd, rangeStart + idx * sliceSize + sliceSize - 1))
      && rangeStart + idx * sliceSize <= rangeEnd
  {
    var n := NumSlices(rangeStart, rangeEnd, sliceSize);
    var idx := sliceIndex % n;
    MulMono(idx, n - 1, sliceSize);
  }

  function Min(a: int, b: int): int {
    if a < b then a else b
  }

  /** Multiplying by a positive number keeps the order. */
  lemma MulMono(a: int, b: int, c: int)
    requires a <= b && c > 0
    ensures a * c <= b * c
  {
    assert b * c - a * c == (b - a) * c;
  }

  /**
   * A valid call returns a non-empty ascending run of consecutive numbers inside
   * [range_start, range_end], at most slice_size long.
   */
  lemma SliceRun(rangeStart: int, rangeEnd: int, sliceSize: int, sliceIndex: int)
    requires rangeStart <= rangeEnd && sliceSize > 0
    ensures var s := BuildSlice(rangeStart, rangeEnd, sliceSize, sliceIndex).value;
      && s != []
      && |s| <= sliceSize
      && (forall k :: 0 <= k < |s| ==> rangeStart <= s[k] <= rangeEnd)
      && (forall k :: 0 < k < |s| ==> s[k] == s[k - 1] + 1)
  {
    SliceShape(rangeStart, rangeEnd, sliceSize, sliceIndex);
    var n := NumSlices(rangeStart, rangeEnd, sliceSize);
    var idx := sliceIndex % n;
    assert 0 <= idx * sliceSize by {
      MulMono(0, idx, sliceSize);
    }
  }

  /** Every slice but the last holds exactly slice_size numbers. */
  lemma SliceFull(rangeStart: int, rangeEnd: int, sliceSize: int, sliceIndex: int)
    requires rangeStart <= rangeEnd && sliceSize > 0
    requires sliceIndex % NumSlices(rangeStart, rangeEnd, sliceSize) < NumSlices(rangeStart, rangeEnd, sliceSize) - 1
    ensures |BuildSlice(rangeStart, rangeEnd, sliceSize, sliceIndex).value| == sliceSize
  {
    SliceShape(rangeStart, rangeEnd, sliceSize, sliceIndex);
    var n := NumSlices(rangeStart, rangeEnd, sliceSize);
    var idx := sliceIndex % n;
    MulMono(idx + 1, n - 1, sliceSize);
  }

  /** Indices that differ by num_slices, negative ones included, select the same slice. */
  lemma SliceWraps(rangeStart: int, rangeEnd: int, sliceSize: int, sliceIndex: int)
    requires rangeStart <= rangeEnd && sliceSize > 0
    ensures var n := NumSlices(rangeStart, rangeEnd, sliceSize);
      BuildSlice(rangeStart, rangeEnd, sliceSize, sliceIndex + n) == BuildSlice(rangeStart, rangeEnd, sliceSize, sliceIndex)
  {
    var n := NumSlices(rangeStart, rangeEnd, sliceSize);
    ModShift(sliceIndex, n);
  }

  /** Adding the divisor leaves the Euclidean remainder unchanged. */
  lemma ModShift(i: int, n: int)
    requires n > 0
    ensures (i + n) % n == i % n
  {
    var q := i / n;
    var r := i % n;
    assert i + n == (q + 1) * n + r;
    ModUnique(i + n, n, q + 1, r);
  }

  /** The remainder is the only r in [0, n) with a == q * n + r. */
  lemma ModUnique(a: int, n: int, q: int, r: int)
    requires n > 0 && 0 <= r < n && a == q * n + r
    ensures a % n == r
  {
    var q' := a / n;
    var r' := a % n;
    assert (q - q') * n == r' - r;
    if q > q' {
      MulMono(1, q - q', n);
    } else if q < q' {
      MulMono(1, q' - q, n);
    }
  }

  /** The slices 0 .. count-1 laid end to end. */
  function SlicesUpTo(rangeStart: int, rangeEnd: int, sliceSize: int, count: nat): (s: seq<int>)
    requires rangeStart <= rangeEnd && sliceSize > 0
    decreases count
  {
    if count == 0 then []
    else SlicesUpTo(rangeStart, rangeEnd, sliceSize, count - 1) + BuildSlice(rangeStart, rangeEnd, sliceSize, count - 1).value
  }

  /** The first `count` slices cover the range from range_start on, with nothing skipped. */
  lemma {:induction false} SlicesUpToRange(rangeStart: int, rangeEnd: int, sliceSize: int, count: nat)
    requires rangeStart <= rangeEnd && sliceSize > 0
    requires count <= NumSlices(rangeStart, rangeEnd, sliceSize)
    ensures SlicesUpTo(rangeStart, rangeEnd, sliceSize, count) == Range(rangeStart, Min(rangeEnd, rangeStart + count * sliceSize - 1))
    decreases count
  {
    if count > 0 {
      var j := count - 1;
      SlicesUpToRange(rangeStart, rangeEnd, sliceSize, j);
      SliceAt(rangeStart, rangeEnd, sliceSize, j);
      MulPred(count, sliceSize);
      var first := rangeStart + j * sliceSize;
      var last := Min(rangeEnd, first + sliceSize - 1);
      assert Min(rangeEnd, rangeStart + j * sliceSize - 1) == first - 1;
      assert Min(rangeEnd, rangeStart + count * sliceSize - 1) == last;
      var front := SlicesUpTo(rangeStart, rangeEnd, sliceSize, j);
      var slice := BuildSlice(rangeStart, rangeEnd, sliceSize, j).value;
      assert front == Range(rangeStart, first - 1);
      assert slice == Range(first, last);
      assert SlicesUpTo(rangeStart, rangeEnd, sliceSize, count) == front + slice;
      RangeAppend(rangeStart, first, last);
    } else {
      assert count * sliceSize == 0;
    }
  }

  /** The slice at an index below num_slices, which starts inside the range. */
  lemma SliceAt(rangeStart: int, rangeEnd: int, sliceSize: int, j: nat)
    requires rangeStart <= rangeEnd && sliceSize > 0
    requires j < NumSlices(rangeStart, rangeEnd, sliceSize)
    ensures var first := rangeStart + j * sliceSize;
      && rangeStart <= first <= rangeEnd
      && BuildSlice(rangeStart, rangeEnd, sliceSize, j).value == Range(first, Min(rangeEnd, first + sliceSize - 1))
  {
    var n := NumSlices(rangeStart, rangeEnd, sliceSize);
    ModUnique(j, n, 0, j);
    SliceShape(rangeStart, rangeEnd, sliceSize, j);
    MulMono(0, j, sliceSize);
  }

  lemma MulPred(k: int, c: int)
    ensures k * c == (k - 1) * c + c
  {
  }

  /** Two adjacent ranges make one. */
  lemma RangeAppend(lo: int, mid: int, hi: int)
    requires lo <= mid <= hi + 1
    ensures Range(lo, mid - 1) + Range(mid, hi) == Range(lo, hi)
  {
    var a := Range(lo, mid - 1);
    var b := Range(mid, hi);
    assert |a + b| == |Range(lo, hi)|;
  }

  /** All num_slices slices, in order, are exactly range_start..range_end. */
  lemma SlicesCoverRange(rangeStart: int, rangeEnd: int, sliceSize: int)
    requires rangeStart <= rangeEnd && sliceSize > 0
    ensures SlicesUpTo(rangeStart, rangeEnd, sliceSize, NumSlices(rangeStart, rangeEnd, sliceSize)) == Range(rangeStart, rangeEnd)
  {
    SlicesUpToRange(rangeStart, rangeEnd, sliceSize, NumSlices(rangeStart, rangeEnd, sliceSize));
  }

  /** Distinct slice indices below num_slices share no train number. */
  lemma SlicesDisjoint(rangeStart: int, rangeEnd: int, sliceSize: int, i: int, j: int)
    requires rangeStart <= rangeEnd && sliceSize > 0
    requires 0 <= i < j < NumSlices(rangeStart, rangeEnd, sliceSize)
    ensures forall x :: x in BuildSlice(rangeStart, rangeEnd, sliceSize, i).value ==> x !in BuildSlice(rangeStart, rangeEnd, sliceSize, j).value
  {
    SliceAt(rangeStart, rangeEnd, sliceSize, i);
    SliceAt(rangeStart, rangeEnd, sliceSize, j);
    MulMono(i + 1, j, sliceSize);
    MulPred(i + 1, sliceSize);
    var a := rangeStart + i * sliceSize;
    var b := rangeStart + j * sliceSize;
    RangesDisjoint(a, Min(rangeEnd, a + sliceSize - 1), b, Min(rangeEnd, b + sliceSize - 1));
  }

  /** Ranges that end before one another begins are disjoint. */
  lemma RangesDisjoint(lo1: int, hi1: int, lo2: int, hi2: int)
    requires hi1 < lo2
    ensures forall x :: x in Range(lo1, hi1) ==> x !in Range(lo2, hi2)
  {
    forall x | x in Range(lo1, hi1)
      ensures x !in Range(lo2, hi2)
    {
      var k :| 0 <= k < |Range(lo1, hi1)| && Range(lo1, hi1)[k] == x;
      assert x <= hi1;
    }
  }
}
