/**
 * The statistics engine of the calculator (calculateStatistics in script.js).
 *
 * Values are exact reals.  The pure reductions (sort, mean, median, min, max,
 * variance, percentile interpolation) are functions; the two loops of the
 * source, the frequency table and the percentile table, are methods proved
 * equal to the functions that specify them.  SummaryOf is the whole summary
 * as a function, and CalculateStatistics computes it the way the source does.
 */
module Statistics {
  import opened Wrappers

  // ---------------------------------------------------------------------------
  // Real arithmetic used by the proofs below
  // ---------------------------------------------------------------------------

  lemma MulMonotone(a: real, b: real, c: real)
    requires a <= b && c >= 0.0
    ensures a * c <= b * c
  {
    assert b * c - a * c == (b - a) * c;
  }

  lemma MulStrict(a: real, b: real, c: real)
    requires a < b && c > 0.0
    ensures a * c < b * c
  {
    assert b * c - a * c == (b - a) * c;
  }

  lemma DivBounds(s: real, n: real, lo: real, hi: real)
    requires n > 0.0 && n * lo <= s <= n * hi
    ensures lo <= s / n <= hi
  {
    assert (s / n) * n == s;
    if s / n < lo {
      MulStrict(s / n, lo, n);
    }
    if s / n > hi {
      MulStrict(hi, s / n, n);
    }
  }

  /** a moved toward b by the fraction w of the way: a * (1 - w) + b * w. */
  function Lerp(a: real, b: real, w: real): real {
    a * (1.0 - w) + b * w
  }

  /** A linear blend of a and b with weight w in [0, 1] lies between them and grows with w. */
  lemma Blend(a: real, b: real, w1: real, w2: real)
    requires a <= b && 0.0 <= w1 <= w2 <= 1.0
    ensures a <= Lerp(a, b, w1) <= Lerp(a, b, w2) <= b
  {
    assert a * (1.0 - w1) + b * w1 == a + (b - a) * w1;
    assert a * (1.0 - w2) + b * w2 == a + (b - a) * w2;
    MulMonotone(0.0, w1, b - a);
    MulMonotone(w1, w2, b - a);
    MulMonotone(w2, 1.0, b - a);
    assert (b - a) * w1 == w1 * (b - a);
    assert (b - a) * w2 == w2 * (b - a);
  }

  // ---------------------------------------------------------------------------
  // Sorting: [...data].sort((a, b) => a - b)
  // ---------------------------------------------------------------------------

  predicate SortedAsc(s: seq<real>) {
    forall i, j :: 0 <= i < j < |s| ==> s[i] <= s[j]
  }

  /** A value no greater than any element of an ascending sequence can go in front of it. */
  lemma ConsSorted(y: real, t: seq<real>)
    requires SortedAsc(t) && forall k :: 0 <= k < |t| ==> y <= t[k]
    ensures SortedAsc([y] + t)
  {
    var r := [y] + t;
    forall i, j | 0 <= i < j < |r| ensures r[i] <= r[j] {
      assert r[j] == t[j - 1];
      if i > 0 {
        assert r[i] == t[i - 1];
      }
    }
  }

  /** A lower bound of u and of x bounds every arrangement of u with x added. */
  lemma LowerBoundKept(y: real, u: seq<real>, x: real, t: seq<real>)
    requires y <= x && forall k :: 0 <= k < |u| ==> y <= u[k]
    requires multiset(t) == multiset(u) + multiset{x}
    ensures forall k :: 0 <= k < |t| ==> y <= t[k]
  {
    forall k | 0 <= k < |t| ensures y <= t[k] {
      assert t[k] in multiset(t);
      if t[k] != x {
        assert t[k] in multiset(u);
        var i :| 0 <= i < |u| && u[i] == t[k];
      }
    }
  }

  /** Inserting behind the head: the head stays in front of the tail with x inserted. */
  lemma InsertBehind(x: real, s: seq<real>, t: seq<real>)
    requires SortedAsc(s) && s != [] && s[0] < x
    requires SortedAsc(t) && multiset(t) == multiset(s[1..]) + multiset{x}
    ensures SortedAsc([s[0]] + t)
    ensures multiset([s[0]] + t) == multiset(s) + multiset{x}
  {
    assert s == [s[0]] + s[1..];
    LowerBoundKept(s[0], s[1..], x, t);
    ConsSorted(s[0], t);
  }

  function Insert(x: real, s: seq<real>): (r: seq<real>)
    requires SortedAsc(s)
    ensures SortedAsc(r)
    ensures multiset(r) == multiset(s) + multiset{x}
  {
    if s == [] || x <= s[0] then
      ConsSorted(x, s);
      [x] + s
    else
      SortedTail(s);
      var t := Insert(x, s[1..]);
      InsertBehind(x, s, t);
      [s[0]] + t
  }

  /** An ascending copy of s: the same values with the same multiplicities. */
  function Sort(s: seq<real>): (r: seq<real>)
    ensures SortedAsc(r)
    ensures multiset(r) == multiset(s)
    ensures |r| == |s|
  {
    if s == [] then []
    else
      assert s == [s[0]] + s[1..];
      var r := Insert(s[0], Sort(s[1..]));
      assert |r| == |multiset(r)|;
      r
  }

  lemma SortedFirstIsLeast(a: seq<real>, x: real)
    requires SortedAsc(a) && x in a
    ensures a[0] <= x
  {
    var i :| 0 <= i < |a| && a[i] == x;
  }

  lemma SortedTail(a: seq<real>)
    requires SortedAsc(a) && a != []
    ensures SortedAsc(a[1..])
    ensures multiset(a[1..]) == multiset(a) - multiset{a[0]}
  {
    assert a == [a[0]] + a[1..];
  }

  /** There is only one ascending arrangement of a multiset of values. */
  lemma {:induction false} SortedPermutationUnique(a: seq<real>, b: seq<real>)
    requires SortedAsc(a) && SortedAsc(b)
    requires multiset(a) == multiset(b)
    ensures a == b
  {
    if a == [] {
      assert |b| == |multiset(b)| == 0;
    } else {
      assert |b| == |multiset(b)| == |multiset(a)| == |a|;
      assert a[0] in multiset(b) && b[0] in multiset(a);
      assert a[0] == b[0] by {
        SortedFirstIsLeast(b, a[0]);
        SortedFirstIsLeast(a, b[0]);
      }
      SortedTail(a);
      SortedTail(b);
      SortedPermutationUnique(a[1..], b[1..]);
      assert a == [a[0]] + a[1..];
      assert b == [b[0]] + b[1..];
    }
  }

  // ---------------------------------------------------------------------------
  // Reductions: sum, mean, min, max, median
  // ---------------------------------------------------------------------------

  /** data.reduce((sum, val) => sum + val, 0), folded from the left. */
  function Sum(s: seq<real>): real {
    if s == [] then 0.0 else Sum(s[..|s| - 1]) + s[|s| - 1]
  }

  /** total / n: the equal share of n parts whose sum is total. */
  function Share(total: real, n: nat): (q: real)
    requires n > 0
    ensures n as real * q == total
    ensures total >= 0.0 ==> q >= 0.0
    ensures total == 0.0 <==> q == 0.0
  {
    total / n as real
  }

  /** The arithmetic mean: the sum of the values divided by n. */
  function Mean(data: seq<real>): real
    requires |data| > 0
  {
    Share(Sum(data), |data|)
  }

  /** Math.min(...data) */
  function Min(s: seq<real>): (m: real)
    requires |s| > 0
    ensures m in s
    ensures forall i :: 0 <= i < |s| ==> m <= s[i]
  {
    if |s| == 1 then s[0]
    else
      var rest := Min(s[1..]);
      assert forall i :: 1 <= i < |s| ==> s[i] == s[1..][i - 1];
      if s[0] <= rest then s[0] else rest
  }

  /** Math.max(...data) */
  function Max(s: seq<real>): (m: real)
    requires |s| > 0
    ensures m in s
    ensures forall i :: 0 <= i < |s| ==> s[i] <= m
  {
    if |s| == 1 then s[0]
    else
      var rest := Max(s[1..]);
      assert forall i :: 1 <= i < |s| ==> s[i] == s[1..][i - 1];
      if s[0] >= rest then s[0] else rest
  }

  /** max - min: the spread of the values, never negative. */
  function Range(s: seq<real>): (r: real)
    requires |s| > 0
    ensures r >= 0.0
  {
    Max(s) - Min(s)
  }

  /** The range spans from the least value to the greatest. */
  lemma RangeSpans(s: seq<real>)
    requires |s| > 0
    ensures Min(s) + Range(s) == Max(s)
  {
  }

  /** (a + b) / 2 */
  function Midpoint(a: real, b: real): (m: real)
    ensures a <= b ==> a <= m <= b
  {
    (a + b) / 2.0
  }

  /**
   * The middle element, or the average of the two middle elements when the
   * length is even.  Of an ascending sequence it lies between the two middle
   * order statistics (which coincide for odd lengths).
   */
  function Median(sorted: seq<real>): (m: real)
    requires |sorted| > 0
    ensures SortedAsc(sorted) ==> sorted[(|sorted| - 1) / 2] <= m <= sorted[|sorted| / 2]
  {
    var n := |sorted|;
    if n % 2 == 0 then Midpoint(sorted[n / 2 - 1], sorted[n / 2]) else sorted[n / 2]
  }

  /** The two branches of the median, one for each parity of the length. */
  lemma MedianCases(sorted: seq<real>, n: nat)
    requires n == |sorted| > 0
    ensures && (n % 2 == 1 ==> Median(sorted) == sorted[n / 2])
      && (n % 2 == 0 ==> Median(sorted) == Midpoint(sorted[n / 2 - 1], sorted[n / 2]))
  {
  }

  /** A least element of the data is the first of any ascending arrangement of it. */
  lemma LeastIsFirst(data: seq<real>, sorted: seq<real>, lo: real)
    requires lo in data && forall i :: 0 <= i < |data| ==> lo <= data[i]
    requires SortedAsc(sorted) && multiset(sorted) == multiset(data)
    ensures |sorted| > 0 && sorted[0] == lo
  {
    assert lo in multiset(sorted);
    var i :| 0 <= i < |sorted| && sorted[i] == lo;
    assert sorted[0] in multiset(data);
    var j :| 0 <= j < |data| && data[j] == sorted[0];
  }

  /** A greatest element of the data is the last of any ascending arrangement of it. */
  lemma GreatestIsLast(data: seq<real>, sorted: seq<real>, hi: real)
    requires hi in data && forall i :: 0 <= i < |data| ==> data[i] <= hi
    requires SortedAsc(sorted) && multiset(sorted) == multiset(data)
    ensures |sorted| > 0 && sorted[|sorted| - 1] == hi
  {
    assert hi in multiset(sorted);
    var i :| 0 <= i < |sorted| && sorted[i] == hi;
    assert sorted[|sorted| - 1] in multiset(data);
    var j :| 0 <= j < |data| && data[j] == sorted[|sorted| - 1];
  }

  /** The least and greatest values are the ends of any ascending arrangement. */
  lemma MinMaxOfSorted(data: seq<real>, sorted: seq<real>)
    requires |data| > 0
    requires SortedAsc(sorted) && multiset(sorted) == multiset(data)
    ensures |sorted| == |data|
    ensures Min(data) == sorted[0] && Max(data) == sorted[|sorted| - 1]
  {
    assert |sorted| == |multiset(sorted)| == |data|;
    LeastIsFirst(data, sorted, Min(data));
    GreatestIsLast(data, sorted, Max(data));
  }

  /** The median lies between the least and the greatest value. */
  lemma MedianBounds(sorted: seq<real>)
    requires |sorted| > 0 && SortedAsc(sorted)
    ensures sorted[0] <= Median(sorted) <= sorted[|sorted| - 1]
  {
    var n := |sorted|;
    if n % 2 == 0 {
      assert sorted[0] <= sorted[n / 2 - 1] <= sorted[n / 2] <= sorted[n - 1];
    } else {
      assert sorted[0] <= sorted[n / 2] <= sorted[n - 1];
    }
  }

  lemma {:induction false} SumBounds(s: seq<real>, lo: real, hi: real)
    requires forall i :: 0 <= i < |s| ==> lo <= s[i] <= hi
    ensures |s| as real * lo <= Sum(s) <= |s| as real * hi
  {
    if s != [] {
      var init := s[..|s| - 1];
      assert forall i :: 0 <= i < |init| ==> init[i] == s[i];
      SumBounds(init, lo, hi);
      assert |s| as real * lo == |init| as real * lo + lo;
      assert |s| as real * hi == |init| as real * hi + hi;
    }
  }

  /** The mean lies within any bounds of the values. */
  lemma MeanBetween(data: seq<real>, lo: real, hi: real)
    requires |data| > 0
    requires forall i :: 0 <= i < |data| ==> lo <= data[i] <= hi
    ensures lo <= Mean(data) <= hi
  {
    SumBounds(data, lo, hi);
    DivBounds(Sum(data), |data| as real, lo, hi);
  }

  /** The mean lies between the least and the greatest value. */
  lemma MeanBounds(data: seq<real>)
    requires |data| > 0
    ensures Min(data) <= Mean(data) <= Max(data)
  {
    MeanBetween(data, Min(data), Max(data));
  }

  // ---------------------------------------------------------------------------
  // Variance: the mean of the squared deviations from the mean (divisor n)
  // ---------------------------------------------------------------------------

  /** data.reduce((sum, val) => sum + Math.pow(val - mean, 2), 0) */
  function SquaredDeviations(s: seq<real>, mean: real): real {
    if s == [] then 0.0
    else SquaredDeviations(s[..|s| - 1], mean) + (s[|s| - 1] - mean) * (s[|s| - 1] - mean)
  }

  function Variance(data: seq<real>): real
    requires |data| > 0
  {
    Share(SquaredDeviations(data, Mean(data)), |data|)
  }

  /** All values are the same. */
  predicate Constant(s: seq<real>) {
    forall i :: 0 <= i < |s| ==> s[i] == s[0]
  }

  lemma {:induction false} SquaredDeviationsNonNegative(s: seq<real>, mean: real)
    ensures SquaredDeviations(s, mean) >= 0.0
  {
    if s != [] {
      SquaredDeviationsNonNegative(s[..|s| - 1], mean);
      var d := s[|s| - 1] - mean;
      assert d * d >= 0.0;
    }
  }

  lemma ProductPositive(a: real, b: real, r: real, t: real)
    requires (a > 0.0 && b > 0.0) || (a < 0.0 && b < 0.0)
    requires r >= 0.0 && t == r + a * b
    ensures t > 0.0
  {
    if a < 0.0 {
      assert a * b == (-a) * (-b);
    }
  }

  /** Adding the square of a non-zero deviation to a non-negative total makes it positive. */
  lemma SquareStep(r: real, d: real, t: real)
    requires d != 0.0 && r >= 0.0 && t == r + d * d
    ensures t > 0.0
  {
    ProductPositive(d, d, r, t);
  }

  lemma {:induction false} SquaredDeviationsZero(s: seq<real>, mean: real)
    ensures SquaredDeviations(s, mean) == 0.0 <==> forall i :: 0 <= i < |s| ==> s[i] == mean
  {
    if s != [] {
      var init := s[..|s| - 1];
      SquaredDeviationsZero(init, mean);
      SquaredDeviationsNonNegative(init, mean);
      assert forall i :: 0 <= i < |init| ==> init[i] == s[i];
      if s[|s| - 1] != mean {
        SquareStep(SquaredDeviations(init, mean), s[|s| - 1] - mean, SquaredDeviations(s, mean));
      }
    }
  }

  /**
   * The divisor is n, not n - 1: the values 1 and 3 deviate by 1 from their
   * mean 2, and their variance is (1 + 1) / 2.
   */
  lemma PopulationVariance()
    ensures Mean([1.0, 3.0]) == 2.0
    ensures Variance([1.0, 3.0]) == 1.0
  {
    var data := [1.0, 3.0];
    assert data[..1] == [1.0];
    assert Sum(data) == 4.0;
    assert SquaredDeviations(data, 2.0) == 2.0;
  }

  /** The variance is never negative. */
  lemma VarianceNonNegative(data: seq<real>)
    requires |data| > 0
    ensures Variance(data) >= 0.0
  {
    SquaredDeviationsNonNegative(data, Mean(data));
  }

  /** The variance is zero exactly when all values are equal (so always when there is one value). */
  lemma VarianceZeroIffConstant(data: seq<real>)
    requires |data| > 0
    ensures Variance(data) == 0.0 <==> Constant(data)
  {
    var n := |data| as real;
    var ss := SquaredDeviations(data, Mean(data));
    SquaredDeviationsZero(data, Mean(data));
    assert Variance(data) * n == ss;
    if Constant(data) {
      MeanBetween(data, data[0], data[0]);
    } else {
      assert !forall i :: 0 <= i < |data| ==> data[i] == Mean(data);
    }
  }

  // ---------------------------------------------------------------------------
  // Frequency table and mode
  // ---------------------------------------------------------------------------

  /** The distinct values of s. */
  function Elements(s: seq<real>): set<real> {
    set x | x in s
  }

  predicate Distinct(s: seq<real>) {
    forall i, j :: 0 <= i < j < |s| ==> s[i] != s[j]
  }

  /** The frequency table: every value of data, mapped to its number of occurrences. */
  function Frequency(data: seq<real>): (freq: map<real, int>)
    ensures freq.Keys == Elements(data)
  {
    map v | v in data :: multiset(data)[v]
  }

  lemma FrequencyStep(s: seq<real>, v: real)
    ensures Frequency(s + [v]) == Frequency(s)[v := (if v in Frequency(s) then Frequency(s)[v] else 0) + 1]
  {
    assert multiset(s + [v]) == multiset(s) + multiset{v};
    assert Elements(s + [v]) == Elements(s) + {v};
  }

  /**
   * data.forEach(val => frequency[val] = (frequency[val] || 0) + 1):
   * the table is built by one pass over the data.
   */
  method BuildFrequency(data: seq<real>) returns (freq: map<real, int>)
    ensures freq == Frequency(data)
    ensures forall v :: v in freq <==> v in data
    ensures forall v :: v in freq ==> freq[v] == multiset(data)[v]
  {
    freq := map[];
    var i := 0;
    while i < |data|
      invariant 0 <= i <= |data|
      invariant freq == Frequency(data[..i])
    {
      var v := data[i];
      FrequencyStep(data[..i], v);
      assert data[..i + 1] == data[..i] + [v];
      freq := freq[v := (if v in freq then freq[v] else 0) + 1];
      i := i + 1;
    }
    assert data[..|data|] == data;
  }

  /**
   * Math.max(...Object.values(frequency)): the largest count in the table,
   * where xs enumerates the keys of the table (possibly with repetitions).
   */
  function MaxCount(freq: map<real, int>, xs: seq<real>): (m: int)
    requires |xs| > 0
    requires forall i :: 0 <= i < |xs| ==> xs[i] in freq
    ensures exists i :: 0 <= i < |xs| && m == freq[xs[i]]
    ensures forall i :: 0 <= i < |xs| ==> freq[xs[i]] <= m
    ensures (forall k :: k in freq ==> k in xs) ==> m in freq.Values && forall k :: k in freq ==> freq[k] <= m
  {
    if |xs| == 1 then freq[xs[0]]
    else
      var rest := MaxCount(freq, xs[1..]);
      assert forall i :: 1 <= i < |xs| ==> xs[i] == xs[1..][i - 1];
      if freq[xs[0]] >= rest then freq[xs[0]] else rest
  }

  /** Object.keys(frequency).filter(key => frequency[key] === maxFreq), as a set. */
  function ModeSet(data: seq<real>): set<real>
    requires |data| > 0
  {
    var freq := Frequency(data);
    var top := MaxCount(freq, data);
    set k | k in freq && freq[k] == top
  }

  /** The reported mode: the sentinel 'Tidak ada' (none), or the set of modal values. */
  datatype Mode = NoMode | Modes(values: set<real>)

  function ModeOf(data: seq<real>): Mode
    requires |data| > 0
  {
    var modes := ModeSet(data);
    if |modes| == |data| then NoMode else Modes(modes)
  }

  /** The modal values are exactly the values that occur at least as often as any other. */
  lemma ModeSetIsMostFrequent(data: seq<real>, v: real)
    requires |data| > 0
    ensures v in ModeSet(data) <==> v in data && forall w :: w in data ==> multiset(data)[w] <= multiset(data)[v]
  {
    var freq := Frequency(data);
    var top := MaxCount(freq, data);
    if v in data && forall w :: w in data ==> multiset(data)[w] <= multiset(data)[v] {
      var k :| k in freq && freq[k] == top;
      assert multiset(data)[k] <= multiset(data)[v];
    }
  }

  lemma {:induction false} ElementsCard(s: seq<real>)
    ensures |Elements(s)| <= |s|
    ensures |Elements(s)| == |s| <==> Distinct(s)
  {
    if s != [] {
      var t := s[1..];
      ElementsCard(t);
      assert Elements(s) == {s[0]} + Elements(t);
      assert forall i :: 1 <= i < |s| ==> s[i] == t[i - 1];
      if s[0] in t {
        assert Elements(s) == Elements(t);
        var i :| 0 <= i < |t| && t[i] == s[0];
        assert s[i + 1] == s[0];
      } else {
        assert |Elements(s)| == |Elements(t)| + 1;
        if Distinct(t) {
          forall i, j | 0 <= i < j < |s| ensures s[i] != s[j] {
            if i > 0 { assert s[i] == t[i - 1] && s[j] == t[j - 1]; } else { assert s[j] in t; }
          }
        }
      }
    }
  }

  lemma {:induction false} DistinctOccursOnce(s: seq<real>, v: real)
    requires Distinct(s) && v in s
    ensures multiset(s)[v] == 1
  {
    var t := s[1..];
    assert s == [s[0]] + t;
    assert multiset(s) == multiset{s[0]} + multiset(t);
    if s[0] != v {
      assert v in t;
      DistinctOccursOnce(t, v);
    }
  }

  lemma HasElement(a: set<real>)
    requires a != {}
    ensures exists x :: x in a
  {
    if forall x :: x !in a {
      assert false;
    }
  }

  lemma {:induction false} SubsetCard(a: set<real>, b: set<real>)
    requires a <= b
    ensures |a| <= |b|
    ensures |a| == |b| ==> a == b
  {
    if a != {} {
      HasElement(a);
      var x :| x in a;
      SubsetCard(a - {x}, b - {x});
    }
  }

  /** Every value is modal when each occurs once. */
  lemma DistinctAllModal(data: seq<real>)
    requires |data| > 0 && Distinct(data)
    ensures ModeSet(data) == Elements(data)
  {
    var freq := Frequency(data);
    var top := MaxCount(freq, data);
    forall v | v in data ensures freq[v] == 1 {
      DistinctOccursOnce(data, v);
    }
    var i :| 0 <= i < |data| && top == freq[data[i]];
    assert top == 1;
  }

  /** The sentinel is reported exactly when all values are distinct. */
  lemma NoModeIffDistinct(data: seq<real>)
    requires |data| > 0
    ensures ModeOf(data) == NoMode <==> Distinct(data)
  {
    var modes := ModeSet(data);
    assert modes <= Elements(data);
    ElementsCard(data);
    SubsetCard(modes, Elements(data));
    if Distinct(data) {
      DistinctAllModal(data);
    }
  }

  // ---------------------------------------------------------------------------
  // Percentiles: linear interpolation between order statistics
  // ---------------------------------------------------------------------------

  /** (p / 100) * (n - 1) */
  function Position(p: int, n: nat): (index: real)
    requires 0 <= p <= 100 && n > 0
    ensures 0.0 <= index <= (n - 1) as real
  {
    var f := p as real / 100.0;
    var k := (n - 1) as real;
    assert f * k <= k by { assert k - f * k == (1.0 - f) * k; }
    f * k
  }

  /** Math.floor(index) */
  function LowerIndex(index: real, n: nat): (lower: nat)
    requires 0.0 <= index <= (n - 1) as real
    ensures lower as real <= index < lower as real + 1.0
    ensures lower < n
  {
    index.Floor
  }

  /** Math.ceil(index) */
  function UpperIndex(index: real, n: nat): (upper: nat)
    requires 0.0 <= index <= (n - 1) as real
    ensures index <= upper as real < index + 1.0
    ensures LowerIndex(index, n) <= upper <= LowerIndex(index, n) + 1
    ensures upper < n
  {
    var lower := LowerIndex(index, n);
    if lower as real == index then lower else lower + 1
  }

  /** The value at a fractional index into an ascending sequence: the two order statistics around it, blended linearly. */
  function Interpolate(sorted: seq<real>, index: real): real
    requires 0.0 <= index <= (|sorted| - 1) as real
  {
    var n := |sorted|;
    var lower := LowerIndex(index, n);
    var upper := UpperIndex(index, n);
    var weight := index - lower as real;
    if lower == upper then sorted[lower]
    else Lerp(sorted[lower], sorted[upper], weight)
  }

  function Percentile(sorted: seq<real>, p: int): real
    requires |sorted| > 0 && 0 <= p <= 100
  {
    Interpolate(sorted, Position(p, |sorted|))
  }

  /** The interpolated value lies between the two order statistics it blends. */
  lemma InterpolateBetween(sorted: seq<real>, index: real)
    requires 0.0 <= index <= (|sorted| - 1) as real
    requires SortedAsc(sorted)
    ensures sorted[LowerIndex(index, |sorted|)] <= Interpolate(sorted, index)
    ensures Interpolate(sorted, index) <= sorted[UpperIndex(index, |sorted|)]
  {
    var n := |sorted|;
    var lower, upper := LowerIndex(index, n), UpperIndex(index, n);
    if lower != upper {
      var weight := index - lower as real;
      Blend(sorted[lower], sorted[upper], weight, weight);
    }
  }

  lemma InterpolateMonotone(sorted: seq<real>, x: real, y: real)
    requires 0.0 <= x <= y <= (|sorted| - 1) as real
    requires SortedAsc(sorted)
    ensures Interpolate(sorted, x) <= Interpolate(sorted, y)
  {
    var n := |sorted|;
    var lx, ly := LowerIndex(x, n), LowerIndex(y, n);
    var ux, uy := UpperIndex(x, n), UpperIndex(y, n);
    InterpolateBetween(sorted, x);
    InterpolateBetween(sorted, y);
    if lx < ly {
      assert sorted[ux] <= sorted[ly];
    } else if lx != ux {
      // x and y lie strictly inside the same segment
      assert ly == lx && uy == ux;
      Blend(sorted[lx], sorted[ux], x - lx as real, y - lx as real);
    }
  }

  /** The lower and upper indices are in bounds, one apart at most, and the weight is in [0, 1). */
  lemma PercentileIndices(n: nat, p: int)
    requires n > 0 && 0 <= p <= 100
    ensures var index := Position(p, n);
      var lower := LowerIndex(index, n);
      var upper := UpperIndex(index, n);
      var weight := index - lower as real;
      && 0 <= lower <= upper <= n - 1
      && upper - lower <= 1
      && 0.0 <= weight < 1.0
      && (lower == upper <==> weight == 0.0)
  {
  }

  /** A percentile lies between the order statistics at its lower and upper index. */
  lemma PercentileBetween(sorted: seq<real>, p: int)
    requires |sorted| > 0 && 0 <= p <= 100 && SortedAsc(sorted)
    ensures var index := Position(p, |sorted|);
      sorted[LowerIndex(index, |sorted|)] <= Percentile(sorted, p) <= sorted[UpperIndex(index, |sorted|)]
  {
    InterpolateBetween(sorted, Position(p, |sorted|));
  }

  lemma PositionMonotone(p: int, q: int, n: nat)
    requires 0 <= p <= q <= 100 && n > 0
    ensures Position(p, n) <= Position(q, n)
  {
    var k := (n - 1) as real;
    var x, y := Position(p, n), Position(q, n);
    assert x == (p as real / 100.0) * k;
    assert y == (q as real / 100.0) * k;
    MulMonotone(p as real / 100.0, q as real / 100.0, k);
  }

  /** Percentiles do not decrease with the rank. */
  lemma PercentileMonotone(sorted: seq<real>, p: int, q: int)
    requires |sorted| > 0 && 0 <= p <= q <= 100 && SortedAsc(sorted)
    ensures Percentile(sorted, p) <= Percentile(sorted, q)
  {
    PositionMonotone(p, q, |sorted|);
    InterpolateMonotone(sorted, Position(p, |sorted|), Position(q, |sorted|));
  }

  /** Every percentile lies between the least and the greatest value. */
  lemma PercentileWithin(sorted: seq<real>, p: int)
    requires |sorted| > 0 && 0 <= p <= 100 && SortedAsc(sorted)
    ensures sorted[0] <= Percentile(sorted, p) <= sorted[|sorted| - 1]
  {
    PercentileMonotone(sorted, 0, p);
    PercentileMonotone(sorted, p, 100);
    assert Percentile(sorted, 0) == sorted[0] by {
      assert Position(0, |sorted|) == 0.0;
    }
    assert Percentile(sorted, 100) == sorted[|sorted| - 1] by {
      assert Position(100, |sorted|) == (|sorted| - 1) as real;
    }
  }

  /** The 50th percentile is the median, for odd and even lengths alike. */
  lemma PercentileFiftyIsMedian(sorted: seq<real>)
    requires |sorted| > 0
    ensures Percentile(sorted, 50) == Median(sorted)
  {
    var n := |sorted|;
    var index := Position(50, n);
    assert index == (n - 1) as real / 2.0;
    if n % 2 == 1 {
      assert index == (n / 2) as real;
      assert LowerIndex(index, n) == n / 2;
    } else {
      assert index == (n / 2 - 1) as real + 0.5;
      assert LowerIndex(index, n) == n / 2 - 1;
      assert UpperIndex(index, n) == n / 2;
    }
  }

  /** The number of ranks in the percentile table. */
  const RankCount: nat := 19

  /** A rank of the percentile table: 5, 10, ..., 95. */
  predicate IsRank(p: int) {
    5 <= p <= 95 && p % 5 == 0
  }

  /** The multiples of five up to 5 m are those up to 5 (m - 1), and 5 m. */
  lemma RankStep(m: nat)
    requires m > 0
    ensures forall p :: 5 <= p <= 5 * m && p % 5 == 0 <==> (5 <= p <= 5 * (m - 1) && p % 5 == 0) || p == 5 * m
  {
    forall p | 5 * (m - 1) < p < 5 * m
      ensures p % 5 != 0
    {
      assert p == 5 * (p / 5) + p % 5;
    }
  }

  /** The table of the first m ranks, 5, 10, ..., 5 m. */
  function PercentileTable(sorted: seq<real>, m: nat): (table: map<int, real>)
    requires |sorted| > 0 && m <= RankCount
    ensures |table| == m
    ensures forall p :: p in table <==> 5 <= p <= 5 * m && p % 5 == 0
    ensures forall p :: p in table ==> table[p] == Percentile(sorted, p)
  {
    if m == 0 then map[]
    else
      var t := PercentileTable(sorted, m - 1);
      RankStep(m);
      assert 5 * m !in t;
      t[5 * m := Percentile(sorted, 5 * m)]
  }

  lemma PercentileTableStep(sorted: seq<real>, m: nat)
    requires |sorted| > 0 && m < RankCount
    ensures PercentileTable(sorted, m + 1) == PercentileTable(sorted, m)[5 * (m + 1) := Percentile(sorted, 5 * (m + 1))]
  {
  }

  /** The nineteen percentiles P5, P10, ..., P95. */
  function Percentiles(sorted: seq<real>): map<int, real>
    requires |sorted| > 0
  {
    PercentileTable(sorted, RankCount)
  }

  /** for (let p = 5; p <= 95; p += 5) percentiles[p] = ... */
  method BuildPercentiles(sorted: seq<real>) returns (table: map<int, real>)
    requires |sorted| > 0
    ensures table == Percentiles(sorted)
  {
    table := map[];
    assert table == PercentileTable(sorted, 0);
    var p := 5;
    ghost var m: nat := 0;
    while p <= 95
      invariant p == 5 * (m + 1) && m <= RankCount
      invariant table == PercentileTable(sorted, m)
    {
      PercentileTableStep(sorted, m);
      table := table[p := Percentile(sorted, p)];
      p, m := p + 5, m + 1;
    }
    assert m == RankCount;
  }

  /** The table has exactly the nineteen ranks, and its entries lie within the data and grow with the rank. */
  lemma PercentilesShape(sorted: seq<real>)
    requires |sorted| > 0 && SortedAsc(sorted)
    ensures |Percentiles(sorted)| == 19
    ensures forall p :: p in Percentiles(sorted) <==> IsRank(p)
    ensures forall p :: p in Percentiles(sorted) ==>
      sorted[0] <= Percentiles(sorted)[p] <= sorted[|sorted| - 1]
    ensures forall p, q :: p in Percentiles(sorted) && q in Percentiles(sorted) && p <= q ==>
      Percentiles(sorted)[p] <= Percentiles(sorted)[q]
  {
    var t := Percentiles(sorted);
    forall p | p in t ensures sorted[0] <= t[p] <= sorted[|sorted| - 1] {
      PercentileWithin(sorted, p);
    }
    forall p, q | p in t && q in t && p <= q ensures t[p] <= t[q] {
      PercentileMonotone(sorted, p, q);
    }
  }

  // ---------------------------------------------------------------------------
  // The summary
  // ---------------------------------------------------------------------------

  /** The record calculateStatistics returns (without the floating-point stddev). */
  datatype Summary = Summary(
    count: nat,
    mean: real,
    median: real,
    mode: Mode,
    min: real,
    max: real,
    range: real,
    variance: real,
    percentiles: map<int, real>,
    sorted: seq<real>)

  /** calculateStatistics(data): null on empty input, otherwise the summary. */
  function SummaryOf(data: seq<real>): (r: Option<Summary>)
    ensures r.None? <==> |data| == 0
    ensures r.Some? ==> r.value.count == |data|
    ensures r.Some? ==> SortedAsc(r.value.sorted) && multiset(r.value.sorted) == multiset(data)
  {
    if |data| == 0 then None
    else
      var sorted := Sort(data);
      Some(Summary(|data|, Mean(data), Median(sorted), ModeOf(data), Min(data), Max(data), Range(data),
                   Variance(data), Percentiles(sorted), sorted))
  }

  /** The ordering facts of a summary: the extremes, the median and the mean agree with each other. */
  lemma SummaryOrder(data: seq<real>)
    requires |data| > 0
    ensures var s := SummaryOf(data).value;
      && s.min == s.sorted[0]
      && s.max == s.sorted[|s.sorted| - 1]
      && s.min <= s.median <= s.max
      && s.min <= s.mean <= s.max
      && s.range == s.max - s.min
      && s.range >= 0.0
      && s.sorted == Sort(data)
  {
    var s := SummaryOf(data).value;
    MinMaxOfSorted(data, s.sorted);
    MedianBounds(s.sorted);
    MeanBounds(data);
  }

  /** The median is the middle order statistic, or the average of the two middle ones. */
  lemma SummaryMedian(data: seq<real>)
    requires |data| > 0
    ensures var s := SummaryOf(data).value;
      var n := |data|;
      && (n % 2 == 1 ==> s.median == s.sorted[n / 2])
      && (n % 2 == 0 ==> s.median == Midpoint(s.sorted[n / 2 - 1], s.sorted[n / 2]))
  {
    var sorted := Sort(data);
    assert SummaryOf(data).value.sorted == sorted;
    MedianCases(sorted, |data|);
  }

  /** The median is also the 50th percentile. */
  lemma SummaryMedianIsPercentile(data: seq<real>)
    requires |data| > 0
    ensures var s := SummaryOf(data).value;
      50 in s.percentiles && s.median == s.percentiles[50]
  {
    PercentileFiftyIsMedian(Sort(data));
  }

  /** The dispersion facts of a summary. */
  lemma SummaryVariance(data: seq<real>)
    requires |data| > 0
    ensures var s := SummaryOf(data).value;
      && s.variance >= 0.0
      && (s.variance == 0.0 <==> Constant(data))
  {
    VarianceNonNegative(data);
    VarianceZeroIffConstant(data);
  }

  /** The mode of a summary: the sentinel exactly for distinct values, otherwise the most frequent values. */
  lemma SummaryMode(data: seq<real>)
    requires |data| > 0
    ensures var s := SummaryOf(data).value;
      && (s.mode == NoMode <==> Distinct(data))
      && (s.mode.Modes? ==> forall v :: v in s.mode.values <==>
            v in data && forall w :: w in data ==> multiset(data)[w] <= multiset(data)[v])
  {
    NoModeIffDistinct(data);
    forall v ensures v in ModeSet(data) <==>
        v in data && forall w :: w in data ==> multiset(data)[w] <= multiset(data)[v] {
      ModeSetIsMostFrequent(data, v);
    }
  }

  /** The percentiles of a summary: nineteen ranks, each in [min, max], not decreasing. */
  lemma SummaryPercentiles(data: seq<real>)
    requires |data| > 0
    ensures var s := SummaryOf(data).value;
      && |s.percentiles| == 19
      && (forall p :: p in s.percentiles <==> IsRank(p))
      && (forall p :: p in s.percentiles ==> s.min <= s.percentiles[p] <= s.max)
      && (forall p, q :: p in s.percentiles && q in s.percentiles && p <= q ==>
            s.percentiles[p] <= s.percentiles[q])
  {
    var s := SummaryOf(data).value;
    MinMaxOfSorted(data, s.sorted);
    PercentilesShape(s.sorted);
  }

  /** With a single value every measure is that value, the spread is zero and there is no mode. */
  lemma SingleValueSummary(x: real)
    ensures var s := SummaryOf([x]).value;
      && s.mean == x && s.median == x && s.min == x && s.max == x
      && s.range == 0.0 && s.variance == 0.0 && s.mode == NoMode
      && forall p :: p in s.percentiles ==> s.percentiles[p] == x
  {
    var s := SummaryOf([x]).value;
    assert s.min == x && s.max == x && s.median == x && s.mean == x && s.range == 0.0 by {
      SummaryOrder([x]);
    }
    assert s.variance == 0.0 by {
      SummaryVariance([x]);
    }
    assert s.mode == NoMode by {
      SummaryMode([x]);
    }
    assert forall p :: p in s.percentiles ==> s.percentiles[p] == x by {
      SummaryPercentiles([x]);
    }
  }

  /**
   * calculateStatistics as the source computes it: a sorted copy, the
   * reductions, the frequency loop and the percentile loop.
   */
  method CalculateStatistics(data: seq<real>) returns (r: Option<Summary>)
    ensures r == SummaryOf(data)
  {
    if |data| == 0 {
      return None;
    }
    var sorted := Sort(data);
    var n := |data|;
    var mean := Mean(data);
    var median := Median(sorted);
    var frequency := BuildFrequency(data);
    var maxFreq := MaxCount(frequency, data);
    var modes := set k | k in frequency && frequency[k] == maxFreq;
    var mode := if |modes| == n then NoMode else Modes(modes);
    var min := Min(data);
    var max := Max(data);
    var range := max - min;
    assert range == Range(data);
    var variance := Variance(data);
    var percentiles := BuildPercentiles(sorted);
    assert mode == ModeOf(data) by {
      assert modes == ModeSet(data);
    }
    r := Some(Summary(n, mean, median, mode, min, max, range, variance, percentiles, sorted));
  }
}
