/**
 * The bin arithmetic of the histogram (createHistogram in script.js,
 * lines 111-128): the number of bins, their width and ranges, and the
 * per-value count.  The drawing itself is a chart library call and is not
 * part of this model.
 *
 * Values are exact reals.  When every value is the same, the width is zero
 * and the source's bin index is 0 / 0 = NaN: no slot of the count array is
 * incremented.  Slot returns None for that case, and ConstantDataEmptyHistogram
 * states the consequence.
 */
module Histogram {
  import opened Wrappers
  import opened Statistics

  // ---------------------------------------------------------------------------
  // Number of bins: Math.min(10, Math.ceil(Math.sqrt(n)))
  // ---------------------------------------------------------------------------

  /** k is the ceiling of the square root of n: the least k with k * k >= n. */
  predicate IsCeilSqrt(n: nat, k: nat) {
    k * k >= n && forall j: nat :: j < k ==> j * j < n
  }

  lemma SquareMonotone(i: nat, j: nat)
    requires i <= j
    ensures i * i <= j * j
  {
    assert j * j - i * i == (j - i) * (j + i);
  }

  function CeilSqrtFrom(n: nat, k: nat): (r: nat)
    requires k == 0 || (k - 1) * (k - 1) < n
    ensures IsCeilSqrt(n, r)
    decreases n - k
  {
    if k * k >= n then
      assert forall j: nat :: j < k ==> j * j < n by {
        forall j: nat | j < k ensures j * j < n {
          SquareMonotone(j, k - 1);
        }
      }
      k
    else
      assert k <= k * k;
      CeilSqrtFrom(n, k + 1)
  }

  /** Math.ceil(Math.sqrt(n)) over exact arithmetic. */
  function CeilSqrt(n: nat): (r: nat)
    ensures IsCeilSqrt(n, r)
  {
    CeilSqrtFrom(n, 0)
  }

  /** There is only one ceiling square root. */
  lemma CeilSqrtUnique(n: nat, k1: nat, k2: nat)
    requires IsCeilSqrt(n, k1) && IsCeilSqrt(n, k2)
    ensures k1 == k2
  {
    assert k1 < k2 ==> k1 * k1 < n;
    assert k2 < k1 ==> k2 * k2 < n;
  }

  function BinCount(n: nat): (c: nat)
    ensures c <= 10
    ensures n >= 1 ==> c >= 1
    ensures c == 10 || IsCeilSqrt(n, c)
    ensures c < 10 ==> forall k: nat :: IsCeilSqrt(n, k) ==> k == c
  {
    var k := CeilSqrt(n);
    assert n >= 1 ==> k != 0;
    if k < 10 then
      assert forall j: nat :: IsCeilSqrt(n, j) ==> j == k by {
        forall j: nat | IsCeilSqrt(n, j) ensures j == k {
          CeilSqrtUnique(n, j, k);
        }
      }
      k
    else 10
  }

  /** The bin count is the ceiling square root, capped at ten. */
  lemma BinCountIsCappedCeilSqrt(n: nat, k: nat)
    requires IsCeilSqrt(n, k)
    ensures BinCount(n) == if k < 10 then k else 10
  {
    CeilSqrtUnique(n, k, CeilSqrt(n));
  }

  // ---------------------------------------------------------------------------
  // The bin of one value: Math.min(Math.floor((value - min) / binWidth), binCount - 1)
  // ---------------------------------------------------------------------------

  lemma QuotientNonNegative(a: real, w: real)
    requires w > 0.0
    ensures a >= 0.0 ==> a / w >= 0.0
  {
  }

  /**
   * The index the source increments for value v, or None when the index is
   * NaN (zero width, so 0 / 0).
   */
  function Slot(v: real, lo: real, width: real, count: nat): (k: Option<nat>)
    requires count > 0 && width >= 0.0 && lo <= v
    ensures k.Some? <==> width > 0.0
    ensures k.Some? ==> k.value < count
  {
    if width == 0.0 then None
    else
      QuotientNonNegative(v - lo, width);
      var f := ((v - lo) / width).Floor;
      Some(if f < count - 1 then f else count - 1)
  }

  /**
   * The bin a value belongs to, stated without division: bin k covers
   * [lo + k w, lo + (k + 1) w), and the last bin also takes everything above.
   */
  predicate InBin(v: real, lo: real, width: real, count: nat, k: nat) {
    && k < count
    && lo + k as real * width <= v
    && (v < lo + (k as real + 1.0) * width || k == count - 1)
  }

  /** For 0 < w, k <= x exactly when k w <= x w, and likewise for <. */
  lemma ScaleCompare(k: real, x: real, w: real)
    requires w > 0.0
    ensures k <= x <==> k * w <= x * w
    ensures x < k <==> x * w < k * w
  {
    if k <= x { MulMonotone(k, x, w); } else { MulStrict(x, k, w); }
  }

  /** A bin boundary, restated on the quotient (v - lo) / w. */
  lemma ScaledBound(v: real, lo: real, w: real, k: real)
    requires w > 0.0
    ensures lo + k * w <= v <==> k <= (v - lo) / w
  {
    var x := (v - lo) / w;
    assert x * w == v - lo;
    ScaleCompare(k, x, w);
  }

  /** With a positive width, the index the source computes is exactly the bin the value belongs to. */
  lemma SlotIsBin(v: real, lo: real, width: real, count: nat, k: nat)
    requires count > 0 && width > 0.0 && lo <= v
    ensures Slot(v, lo, width, count) == Some(k) <==> InBin(v, lo, width, count, k)
  {
    var x := (v - lo) / width;
    QuotientNonNegative(v - lo, width);
    ScaledBound(v, lo, width, k as real);
    ScaledBound(v, lo, width, k as real + 1.0);
    var f := x.Floor;
    assert f as real <= x < f as real + 1.0;
    if f < count - 1 {
      assert Slot(v, lo, width, count) == Some(f);
      assert InBin(v, lo, width, count, k) <==> k as real <= x < k as real + 1.0;
    } else {
      assert Slot(v, lo, width, count) == Some(count - 1);
      assert InBin(v, lo, width, count, k) <==> k == count - 1;
    }
  }

  /** The greatest value lands in the last bin, because of the clamp. */
  lemma MaxInLastBin(lo: real, hi: real, width: real, count: nat)
    requires count > 0 && width > 0.0 && lo + count as real * width == hi
    ensures Slot(hi, lo, width, count) == Some(count - 1)
  {
    ScaleCompare((count - 1) as real, count as real, width);
    SlotIsBin(hi, lo, width, count, count - 1);
  }

  /** The least value lands in the first bin whenever the width is positive. */
  lemma MinInFirstBin(lo: real, width: real, count: nat)
    requires count > 0 && width > 0.0
    ensures Slot(lo, lo, width, count) == Some(0)
  {
    SlotIsBin(lo, lo, width, count, 0);
  }

  // ---------------------------------------------------------------------------
  // The counts: data.forEach(value => bins[binIndex]++)
  // ---------------------------------------------------------------------------

  predicate AllAtLeast(data: seq<real>, lo: real) {
    forall i :: 0 <= i < |data| ==> lo <= data[i]
  }

  function Zeros(count: nat): (t: seq<int>)
    ensures |t| == count
    ensures forall k :: 0 <= k < count ==> t[k] == 0
  {
    seq(count, _ => 0)
  }

  /** The count array after the values of data have been added one by one, from the left. */
  function Tally(data: seq<real>, lo: real, width: real, count: nat): (t: seq<int>)
    requires count > 0 && width >= 0.0 && AllAtLeast(data, lo)
    ensures |t| == count
    ensures forall k :: 0 <= k < count ==> t[k] >= 0
  {
    if data == [] then Zeros(count)
    else
      var init := data[..|data| - 1];
      assert AllAtLeast(init, lo) by {
        assert forall i :: 0 <= i < |init| ==> init[i] == data[i];
      }
      var t := Tally(init, lo, width, count);
      match Slot(data[|data| - 1], lo, width, count)
      case None => t
      case Some(k) => t[k := t[k] + 1]
  }

  function SumInts(t: seq<int>): int {
    if t == [] then 0 else SumInts(t[..|t| - 1]) + t[|t| - 1]
  }

  lemma {:induction false} SumIntsZeros(count: nat)
    ensures SumInts(Zeros(count)) == 0
  {
    if count > 0 {
      assert Zeros(count)[..count - 1] == Zeros(count - 1);
      SumIntsZeros(count - 1);
    }
  }

  lemma {:induction false} SumIntsIncrement(t: seq<int>, k: nat)
    requires k < |t|
    ensures SumInts(t[k := t[k] + 1]) == SumInts(t) + 1
  {
    var u := t[k := t[k] + 1];
    if k < |t| - 1 {
      assert u[..|u| - 1] == t[..|t| - 1][k := t[k] + 1];
      SumIntsIncrement(t[..|t| - 1], k);
    } else {
      assert u[..|u| - 1] == t[..|t| - 1];
    }
  }

  /** With a positive width every value is counted once: the counts add up to the number of values. */
  lemma {:induction false} TallySum(data: seq<real>, lo: real, width: real, count: nat)
    requires count > 0 && width > 0.0 && AllAtLeast(data, lo)
    ensures SumInts(Tally(data, lo, width, count)) == |data|
  {
    if data == [] {
      SumIntsZeros(count);
    } else {
      var init := data[..|data| - 1];
      assert forall i :: 0 <= i < |init| ==> init[i] == data[i];
      TallySum(init, lo, width, count);
      var k := Slot(data[|data| - 1], lo, width, count).value;
      SumIntsIncrement(Tally(init, lo, width, count), k);
    }
  }

  /** With zero width no slot is ever incremented: every count stays 0. */
  lemma {:induction false} TallyZeroWidth(data: seq<real>, lo: real, count: nat)
    requires count > 0 && AllAtLeast(data, lo)
    ensures Tally(data, lo, 0.0, count) == Zeros(count)
  {
    if data != [] {
      var init := data[..|data| - 1];
      assert forall i :: 0 <= i < |init| ==> init[i] == data[i];
      TallyZeroWidth(init, lo, count);
    }
  }

  /** The number of values of data that lie in bin k. */
  function CountInBin(data: seq<real>, lo: real, width: real, count: nat, k: nat): (c: nat)
    ensures c <= |data|
  {
    if data == [] then 0
    else
      CountInBin(data[..|data| - 1], lo, width, count, k)
      + (if InBin(data[|data| - 1], lo, width, count, k) then 1 else 0)
  }

  /** With a positive width, count k is the number of values that lie in bin k. */
  lemma {:induction false} TallyCounts(data: seq<real>, lo: real, width: real, count: nat, k: nat)
    requires count > 0 && width > 0.0 && AllAtLeast(data, lo) && k < count
    ensures Tally(data, lo, width, count)[k] == CountInBin(data, lo, width, count, k)
  {
    if data != [] {
      var init := data[..|data| - 1];
      assert forall i :: 0 <= i < |init| ==> init[i] == data[i];
      TallyCounts(init, lo, width, count, k);
      SlotIsBin(data[|data| - 1], lo, width, count, k);
    }
  }

  // ---------------------------------------------------------------------------
  // The bin ranges: start = min + i * binWidth, end = start + binWidth
  // ---------------------------------------------------------------------------

  datatype BinRange = BinRange(start: real, end: real)

  /** The range of bin i: it starts i widths above lo and is one width wide. */
  function RangeOf(lo: real, width: real, i: nat): BinRange {
    var start := lo + i as real * width;
    BinRange(start, start + width)
  }

  /** The ranges of the first m bins. */
  function BinRanges(lo: real, width: real, m: nat): (r: seq<BinRange>)
    ensures |r| == m
    ensures forall i :: 0 <= i < m ==> r[i] == RangeOf(lo, width, i)
  {
    if m == 0 then [] else BinRanges(lo, width, m - 1) + [RangeOf(lo, width, m - 1)]
  }

  lemma NextStart(lo: real, width: real, i: nat)
    ensures RangeOf(lo, width, i).end == RangeOf(lo, width, i + 1).start
  {
    var a := i as real;
    assert (a + 1.0) * width == a * width + width;
    assert (i + 1) as real == a + 1.0;
  }

  /** The ranges start at lo, each starts where the previous one ends, and the last ends at lo + m width. */
  lemma RangesTile(lo: real, width: real, m: nat)
    requires m > 0
    ensures var r := BinRanges(lo, width, m);
      && r[0].start == lo
      && r[m - 1].end == lo + m as real * width
      && (forall i :: 0 <= i < m - 1 ==> r[i].end == r[i + 1].start)
  {
    var r := BinRanges(lo, width, m);
    forall i | 0 <= i < m - 1
      ensures r[i].end == r[i + 1].start
    {
      NextStart(lo, width, i);
    }
    NextStart(lo, width, m - 1);
  }

  // ---------------------------------------------------------------------------
  // The whole histogram
  // ---------------------------------------------------------------------------

  datatype Bins = Bins(counts: seq<int>, ranges: seq<BinRange>)

  /** A spread divided evenly over count bins. */
  function Width(spread: real, count: nat): (w: real)
    requires count > 0
    ensures count as real * w == spread
    ensures spread >= 0.0 ==> w >= 0.0
    ensures w > 0.0 <==> spread > 0.0
  {
    QuotientNonNegative(spread, count as real);
    spread / count as real
  }

  /** binWidth = (max - min) / binCount */
  function BinWidth(data: seq<real>): (w: real)
    requires |data| > 0
    ensures w >= 0.0
    ensures w > 0.0 <==> Min(data) < Max(data)
  {
    Width(Range(data), BinCount(|data|))
  }

  /** The counts and the ranges createHistogram computes for data. */
  function HistogramOf(data: seq<real>): (h: Bins)
    ensures |h.counts| == BinCount(|data|) && |h.ranges| == BinCount(|data|)
  {
    if |data| == 0 then Bins([], []) else
    var lo := Min(data);
    var count := BinCount(|data|);
    var width := BinWidth(data);
    Bins(Tally(data, lo, width, count), BinRanges(lo, width, count))
  }

  /** count bins of an even share of spread run from lo to lo + spread without gaps. */
  lemma RangesSpan(lo: real, spread: real, count: nat)
    requires count > 0
    ensures var r := BinRanges(lo, Width(spread, count), count);
      && r[0].start == lo
      && r[count - 1].end == lo + spread
      && (forall i :: 0 <= i < count - 1 ==> r[i].end == r[i + 1].start)
  {
    RangesTile(lo, Width(spread, count), count);
  }

  /** One to ten bins, whose ranges run from the least value to the greatest without gaps. */
  lemma HistogramShape(data: seq<real>)
    requires |data| > 0
    ensures var h := HistogramOf(data);
      var c := |h.counts|;
      && 1 <= c <= 10
      && h.ranges[0].start == Min(data)
      && h.ranges[c - 1].end == Max(data)
      && (forall i :: 0 <= i < c - 1 ==> h.ranges[i].end == h.ranges[i + 1].start)
  {
    var c := BinCount(|data|);
    assert HistogramOf(data).ranges == BinRanges(Min(data), Width(Range(data), c), c);
    RangesSpan(Min(data), Range(data), c);
    RangeSpans(data);
  }

  /** When the extremes differ, every value is counted: the counts sum to n. */
  lemma HistogramTotal(data: seq<real>)
    requires |data| > 0 && Min(data) < Max(data)
    ensures SumInts(HistogramOf(data).counts) == |data|
  {
    TallySum(data, Min(data), BinWidth(data), BinCount(|data|));
  }

  /** When the extremes differ, the count of bin k is the number of values lying in bin k. */
  lemma HistogramCounts(data: seq<real>, k: nat)
    requires |data| > 0 && Min(data) < Max(data) && k < BinCount(|data|)
    ensures HistogramOf(data).counts[k] == CountInBin(data, Min(data), BinWidth(data), BinCount(|data|), k)
  {
    TallyCounts(data, Min(data), BinWidth(data), BinCount(|data|), k);
  }

  /** With count bins sharing the positive spread from lo to hi, lo lands in the first bin and hi in the last. */
  lemma SpreadInEndBins(lo: real, hi: real, spread: real, count: nat)
    requires count > 0 && spread > 0.0 && lo + spread == hi
    ensures Slot(hi, lo, Width(spread, count), count) == Some(count - 1)
    ensures Slot(lo, lo, Width(spread, count), count) == Some(0)
  {
    MaxInLastBin(lo, hi, Width(spread, count), count);
    MinInFirstBin(lo, Width(spread, count), count);
  }

  /** The greatest value is counted in the last bin and the least in the first. */
  lemma ExtremesInEndBins(data: seq<real>)
    requires |data| > 0 && Min(data) < Max(data)
    ensures var c := BinCount(|data|);
      && Slot(Max(data), Min(data), BinWidth(data), c) == Some(c - 1)
      && Slot(Min(data), Min(data), BinWidth(data), c) == Some(0)
  {
    var c := BinCount(|data|);
    assert BinWidth(data) == Width(Range(data), c);
    RangeSpans(data);
    SpreadInEndBins(Min(data), Max(data), Range(data), c);
  }

  /** When all values are equal the width is zero, and as written no count is incremented. */
  lemma ConstantDataEmptyHistogram(data: seq<real>)
    requires |data| > 0 && Min(data) == Max(data)
    ensures forall k :: 0 <= k < |HistogramOf(data).counts| ==> HistogramOf(data).counts[k] == 0
  {
    TallyZeroWidth(data, Min(data), BinCount(|data|));
  }

  /** The label loop: the range of bin i starts i widths above lo. */
  method LabelRanges(lo: real, width: real, count: nat) returns (ranges: seq<BinRange>)
    ensures ranges == BinRanges(lo, width, count)
  {
    ranges := [];
    var i := 0;
    while i < count
      invariant 0 <= i <= count
      invariant ranges == BinRanges(lo, width, i)
    {
      var start := lo + i as real * width;
      var end := start + width;
      ranges := ranges + [BinRange(start, end)];
      i := i + 1;
    }
  }

  /** The forEach loop: one slot of the zero-filled bins is incremented per value. */
  method CountInto(bins: array<int>, data: seq<real>, lo: real, width: real)
    requires bins.Length > 0 && width >= 0.0 && AllAtLeast(data, lo)
    requires bins[..] == Zeros(bins.Length)
    modifies bins
    ensures bins[..] == Tally(data, lo, width, bins.Length)
  {
    var j := 0;
    while j < |data|
      invariant 0 <= j <= |data|
      invariant AllAtLeast(data[..j], lo)
      invariant bins[..] == Tally(data[..j], lo, width, bins.Length)
    {
      var value := data[j];
      assert data[..j + 1][..j] == data[..j];
      var slot := Slot(value, lo, width, bins.Length);
      if slot.Some? {
        bins[slot.value] := bins[slot.value] + 1;
      }
      j := j + 1;
    }
    assert data[..|data|] == data;
  }

  /**
   * createHistogram's bin computation: the count array is allocated filled
   * with zeros, the label loop produces the ranges, and the forEach loop
   * increments one slot per value (none when the index is NaN).
   */
  method CreateHistogram(data: seq<real>) returns (bins: array<int>, ranges: seq<BinRange>)
    ensures fresh(bins)
    ensures bins[..] == HistogramOf(data).counts
    ensures ranges == HistogramOf(data).ranges
  {
    if |data| == 0 {
      // Math.ceil(Math.sqrt(0)) is 0: no bins, no labels, nothing to count
      bins := new int[0];
      return bins, [];
    }
    var lo := Min(data);
    var binCount := BinCount(|data|);
    var binWidth := BinWidth(data);
    bins := new int[binCount](_ => 0);
    assert bins[..] == Zeros(binCount);
    ranges := LabelRanges(lo, binWidth, binCount);
    CountInto(bins, data, lo, binWidth);
  }
}
