# Statistics calculator: a verified model of its numeric core

The calculator is a single-page web application (`script.js`). The user pastes
numbers into a text field. The page parses them, computes a statistical summary
and draws a histogram. This project models in Dafny the four parts of that
page that compute something, and proves properties of each:

- **The parser** (`parseData`, module `Parser`, `parser.dfy`).
  - Input that is blank after trimming gives no values.
  - Otherwise the text is split at every run of commas and whitespace, and empty fields are dropped.
  - Each remaining token goes through `parseFloat`, which reads the longest numeric prefix: `12abc` gives 12, `abc` gives NaN.
  - Tokens that give NaN are dropped.
  - The split is modelled as JavaScript's regex split (`SplitFrom`), with its empty leading and trailing fields. It is proved equal to a plain definition of maximal delimiter-free runs (`WordsFrom`).
  - The numeric prefix is a grammar: an optional sign, then digits with an optional fraction, or a point followed by digits. Over it, `ParseNumber` is proved to succeed exactly on tokens that have a numeric prefix, and to read signed decimal numerals (`12`, `-3.75`, `.5`) back as their exact values.
- **The statistics engine** (`calculateStatistics`, module `Statistics`, `statistics.dfy`).
  - Empty data gives no summary (`null`).
  - Otherwise the summary holds the count, the mean, the median of the sorted copy, and the mode.
  - The mode is the set of most frequent values, or "Tidak ada" ("none") when every value is distinct.
  - It also holds the minimum, the maximum, the range, and the population variance (divisor n).
  - It holds the 5th, 10th, …, 95th percentiles, linearly interpolated between neighbouring ranks, and the sorted copy.
  - The two loops of the source are methods proved equal to the functions that specify them: `BuildFrequency` (the `forEach` that fills the frequency table) and `BuildPercentiles` (the `for p` loop).
  - `CalculateStatistics` assembles the summary.
- **The histogram binner** (the arithmetic of `createHistogram`, module `Histogram`, `histogram.dfy`).
  - There are `min(10, ⌈√n⌉)` bins of equal width over `[min, max]`.
  - Each value goes to bin `min(⌊(v − min)/width⌋, binCount − 1)`.
  - `bins` is an `array<int>` filled by a loop (`CountInto`), and the bin limits come from a second loop (`LabelRanges`).
  - Both are proved against the functions `Tally` and `BinRanges`.
- **The request gate** (`calculateStats`, module `Calculator`, `calculator.dfy`).
  - Parsed input with no values is refused with "Silakan masukkan data yang valid. Pastikan data berupa angka."
  - A single value is refused with "Minimal 2 data diperlukan untuk perhitungan statistik."
  - Otherwise the response holds the summary and the histogram.

Numbers are exact reals throughout. `wrappers.dfy` holds the `Option` type.

## Model

| member | source | states |
|---|---|---|
| Parser.Split | script.js:6 | `input.split(/[,\s\n\r]+/)`: the fields between maximal runs of commas and whitespace, with an empty first or last field where the text starts or ends with a delimiter |
| Parser.SplitFrom | script.js:6 | a regex split always yields at least one field (possibly empty) |
| Parser.NonEmpty | script.js:8 | dropping empty fields keeps only non-empty tokens and never adds any |
| Parser.Tokens | script.js:6-8 | the tokens of the text: the split fields with the empty ones dropped |
| Parser.WordsFrom | script.js:6-8 | the reference tokenisation: every token is non-empty and holds no comma or whitespace |
| Parser.NonEmptyAppend | script.js:8 | filtering out empty fields distributes over concatenation |
| Parser.SplitFromIsWords | script.js:6-8 | splitting at delimiter runs and dropping empty fields gives exactly the maximal delimiter-free runs |
| Parser.TokensAreWords | script.js:6-8 | the split-and-filter pipeline equals the reference tokenisation, for every input |
| Parser.WordsSkipDelimiters | script.js:6 | leading delimiters contribute no token |
| Parser.WordsSeparate | script.js:6 | a delimiter run ends the current token, and what follows is tokenised on its own |
| Parser.TokensOfDelimiters | script.js:6-8 | text made only of commas and whitespace yields no token |
| Parser.TokensSeparate | script.js:6-8 | tokens of `a + run + b` are the tokens of `a` followed by those of `b`, for any non-empty delimiter run |
| Parser.DigitRunLength | script.js:9 | the length of the leading digit run: everything before it is a digit, the character after it is not |
| Parser.NaturalBelowPow10 | script.js:9 | k decimal digits denote less than 10^k, so a fraction never reaches 1 |
| Parser.FractionValue | script.js:9 | the digits d1…dk after the decimal point denote the exact decimal fraction: the digits read as a whole number, over 10^k; the value lies in [0, 1) and is zero when there are no digits |
| Parser.HasNumericPrefix | script.js:9-10 | the tokens parseFloat does not turn into NaN: after at most one sign, a digit, or a point followed by a digit |
| Parser.ParseUnsigned | script.js:9 | an unsigned prefix exists exactly when the text starts with a digit or with a point followed by a digit, and its value is non-negative |
| Parser.ParseNumber | script.js:9-10 | parseFloat yields a number exactly when the token has a numeric prefix; a leading minus gives a non-positive value, otherwise it is non-negative |
| Parser.Values | script.js:9-10 | dropping NaN results never yields more values than tokens |
| Parser.ValuesAppend | script.js:9-10 | parsing and dropping NaN distributes over concatenation of token lists, so order and duplicates are kept |
| Parser.ParseData | script.js:2-13 | parseData: no values for blank input, otherwise the parseFloat values of the tokens in order, with the NaN ones dropped |
| Parser.ParseDataIsPipeline | script.js:2-13 | the early return for blank input agrees with the general pipeline: parseData is tokenise, then parse each token and drop NaN |
| Parser.ParseDataOfDelimiters | script.js:3-10 | empty input, or input made only of commas and whitespace, yields no values |
| Parser.ParseDataSeparate | script.js:6-10 | values of `a + run + b` are those of `a` followed by those of `b`, in order with duplicates |
| Parser.DelimiterRunsCollapse | script.js:6 | which non-empty run of separators stands between two pieces of text does not change the result |
| Parser.WordsOfWord | script.js:6 | a delimiter-free text is one token |
| Parser.ParseDataOfToken | script.js:6-10 | a single delimiter-free token yields its parseFloat value when it has a numeric prefix and nothing otherwise |
| Parser.NaturalValueOfDecimal | script.js:9 | reading back the decimal digits of n gives n |
| Parser.DigitRunOfDigits | script.js:9 | the digit run of a numeral followed by a non-digit is exactly the numeral |
| Parser.ParseUnsignedOfDecimal | script.js:9 | an unsigned numeral followed by text that continues neither the digits nor the fraction parses to its value |
| Parser.UnsignedOfSigned | script.js:9 | one leading sign is stripped and the minus is recognised |
| Parser.ParseNumberOfSigned | script.js:9 | a signed token parses to the unsigned value, negated exactly for a minus sign |
| Parser.ParseNumberOfDecimal | script.js:9 | round trip: printing the integer n in decimal with an optional sign and non-numeric trailing text parses back to ±n |
| Parser.ParseUnsignedOfPointed | script.js:9 | digits, a decimal point and digits (at least one digit overall), followed by text that does not continue the fraction, parse to the integer part plus the fraction |
| Parser.PointedValue | script.js:9 | the value of the numeral n.ds lies in [n, n + 1) |
| Parser.PointedUnsigned | script.js:9 | the unsigned numeral n.ds followed by non-digit text parses to the value of n.ds |
| Parser.ParseNumberOfPointed | script.js:9 | round trip with fractions: a signed numeral n.ds followed by text that does not continue a number (neither a digit nor an exponent) parses to ±(n + ds/10^k), where k is the number of digits in ds |
| Parser.LeadingPointUnsigned | script.js:9 | an unsigned numeral written with a leading point, .ds, parses to 0.ds |
| Parser.ParseNumberOfLeadingPoint | script.js:9 | round trip with a leading point: ±.ds followed by non-continuing text parses to ±0.ds |
| Parser.ParseTwelvePointTwoFive | script.js:9 | the token `12.25` parses to exactly 12.25 |
| Statistics.Lerp | script.js:56 | the interpolation `sorted[lower] * (1 - weight) + sorted[upper] * weight` |
| Statistics.Blend | script.js:56 | the interpolation `a(1 − w) + bw` stays between a and b and grows with the weight |
| Statistics.Insert | script.js:19 | inserting into an ascending sequence keeps it ascending and adds exactly that element |
| Statistics.Sort | script.js:19 | the numeric sort is ascending, a permutation of its input, and of the same length |
| Statistics.SortedFirstIsLeast | script.js:19 | the first element of an ascending sequence is its least |
| Statistics.SortedTail | script.js:19 | dropping the first element of an ascending sequence keeps it ascending and removes one copy of that element |
| Statistics.SortedPermutationUnique | script.js:19 | two ascending permutations of the same values are equal, so the sorted copy is determined by the data |
| Statistics.Sum | script.js:23 | `data.reduce((sum, val) => sum + val, 0)`, folded from the left |
| Statistics.Share | script.js:23 | the quotient by n times n gives back the total; non-negative for a non-negative total, zero exactly for a zero total |
| Statistics.Mean | script.js:23 | the mean: the sum of the values divided by n |
| Statistics.Min | script.js:38 | Math.min is an element of the data and no greater than any element |
| Statistics.Max | script.js:39 | Math.max is an element of the data and no less than any element |
| Statistics.Range | script.js:40 | the range is non-negative |
| Statistics.Midpoint | script.js:27 | the average of two ordered values lies between them |
| Statistics.Median | script.js:26-28 | the middle element of the sorted copy for odd n, the average of the two middle elements for even n; on ascending input it lies between the two middle order statistics |
| Statistics.LeastIsFirst | script.js:38 | the least value of the data is the first element of any ascending permutation of it |
| Statistics.GreatestIsLast | script.js:39 | the greatest value of the data is the last element of any ascending permutation of it |
| Statistics.MinMaxOfSorted | script.js:38-39 | Math.min and Math.max of the data are the ends of the sorted copy |
| Statistics.MedianBounds | script.js:26-28 | the median lies between the first and last elements of the sorted copy |
| Statistics.SumBounds | script.js:23 | a sum of n values within [lo, hi] lies within [n·lo, n·hi] |
| Statistics.MeanBetween | script.js:23 | the mean lies between any lower and upper bound of the values |
| Statistics.MeanBounds | script.js:23 | the mean lies between the minimum and the maximum |
| Statistics.SquaredDeviations | script.js:43 | the sum of the squared differences of the values from a centre, folded from the left |
| Statistics.Variance | script.js:43 | the population variance: the squared deviations from the mean, divided by n |
| Statistics.SquaredDeviationsNonNegative | script.js:43 | a sum of squared deviations is non-negative |
| Statistics.SquaredDeviationsZero | script.js:43 | a sum of squared deviations is zero exactly when every value equals the centre |
| Statistics.PopulationVariance | script.js:43 | the variance divides by n, not n − 1: the data 1, 3 have mean 2 and variance 1 |
| Statistics.VarianceNonNegative | script.js:43 | the variance is never negative |
| Statistics.VarianceZeroIffConstant | script.js:43 | the variance is zero exactly when all values are equal |
| Statistics.Frequency | script.js:31-32 | the frequency table has one key per distinct value |
| Statistics.FrequencyStep | script.js:32 | one more value increments its count, or enters the table with count 1 |
| Statistics.BuildFrequency | script.js:31-32 | the forEach loop builds a table whose keys are exactly the values and whose counts are their multiplicities |
| Statistics.MaxCount | script.js:33 | the maximum frequency is attained by some value and bounds every count |
| Statistics.ModeSet | script.js:33-34 | the keys of the frequency table whose count equals the maximum count |
| Statistics.ModeOf | script.js:35 | "Tidak ada" when there are as many modal values as values, otherwise the set of modal values |
| Statistics.ModeSetIsMostFrequent | script.js:33-34 | a value is modal exactly when it occurs in the data at least as often as every other value |
| Statistics.ElementsCard | script.js:35 | there are at most n distinct values, and exactly n when the data are distinct |
| Statistics.DistinctOccursOnce | script.js:35 | in distinct data every value has multiplicity one |
| Statistics.DistinctAllModal | script.js:33-35 | in distinct data every value is modal |
| Statistics.NoModeIffDistinct | script.js:35 | the mode is "Tidak ada" exactly when no value repeats |
| Statistics.Position | script.js:49 | the rank `(p/100)(n − 1)` lies within [0, n − 1] |
| Statistics.LowerIndex | script.js:50 | Math.floor of the rank: the greatest index not above it, and a valid index |
| Statistics.UpperIndex | script.js:51 | Math.ceil of the rank: the least index not below it, at most one above the floor, and a valid index |
| Statistics.Interpolate | script.js:50-56 | the value at a fractional rank: the order statistic itself when floor and ceiling coincide, otherwise the linear blend of the two by the fractional part |
| Statistics.Percentile | script.js:49-56 | the p-th percentile: interpolation at rank (p/100)(n − 1) of the sorted copy |
| Statistics.InterpolateBetween | script.js:54-56 | the interpolated percentile lies between the elements at the floor and ceiling ranks |
| Statistics.InterpolateMonotone | script.js:54-56 | interpolation over an ascending sequence is monotone in the rank |
| Statistics.PercentileIndices | script.js:49-52 | lower ≤ upper ≤ n − 1 with upper − lower ≤ 1, the weight lies in [0, 1), and lower equals upper exactly when the weight is zero |
| Statistics.PercentileBetween | script.js:48-56 | each percentile lies between its two neighbouring ranks |
| Statistics.PositionMonotone | script.js:49 | a larger p gives a larger rank |
| Statistics.PercentileMonotone | script.js:48-56 | percentiles never decrease as p grows |
| Statistics.PercentileWithin | script.js:48-56 | every percentile lies between the minimum and the maximum |
| Statistics.PercentileFiftyIsMedian | script.js:48-56 | the 50th percentile equals the median, for odd and even n |
| Statistics.RankStep | script.js:48 | the ranks 5, 10, …, 5m are those up to 5(m − 1) plus 5m |
| Statistics.PercentileTable | script.js:47-57 | after m rounds the table holds exactly the ranks 5, …, 5m, each mapped to its percentile |
| Statistics.Percentiles | script.js:47-57 | the table of the 19 percentiles P5, P10, …, P95 |
| Statistics.BuildPercentiles | script.js:47-57 | the `for p` loop builds exactly the percentile table |
| Statistics.PercentilesShape | script.js:47-57 | the table has 19 entries, one for each multiple of 5 from 5 to 95; every entry lies within [min, max]; entries grow with p |
| Statistics.SummaryOf | script.js:16-72 | null exactly on empty data; otherwise count n and a sorted permutation of the data |
| Statistics.SummaryOrder | script.js:19-40 | min and max are the ends of the sorted copy; median and mean lie between them; range is max − min and non-negative |
| Statistics.SummaryMedianIsPercentile | script.js:47-57 | the reported median equals the reported 50th percentile |
| Statistics.SummaryVariance | script.js:43 | the reported variance is non-negative, and zero exactly for constant data |
| Statistics.SummaryMode | script.js:31-35 | "Tidak ada" exactly for distinct data; otherwise the reported modes are exactly the most frequent values |
| Statistics.SummaryPercentiles | script.js:47-57 | 19 percentiles at 5, …, 95, each within [min, max] and non-decreasing in p |
| Statistics.SingleValueSummary | script.js:16-72 | for one value x: mean, median, min, max and every percentile are x; range and variance are 0; mode is "Tidak ada" |
| Statistics.CalculateStatistics | script.js:16-72 | the method computes exactly the specified summary |
| Histogram.SquareMonotone | script.js:113 | squaring is monotone on naturals |
| Histogram.CeilSqrtFrom | script.js:113 | the search finds the ceiling square root: the least k with k² ≥ n |
| Histogram.CeilSqrt | script.js:113 | Math.ceil(Math.sqrt(n)) as the least k with k² ≥ n |
| Histogram.CeilSqrtUnique | script.js:113 | the ceiling square root is unique |
| Histogram.BinCount | script.js:113 | between 1 and 10 bins for non-empty data; below 10, exactly the ceiling square root |
| Histogram.BinCountIsCappedCeilSqrt | script.js:113 | the bin count is the ceiling square root of n capped at 10 |
| Histogram.Width | script.js:114 | binCount bins of this width span exactly the spread; positive exactly for a positive spread |
| Histogram.BinWidth | script.js:114 | the bin width is non-negative, and positive exactly when the data are not all equal |
| Histogram.Slot | script.js:126 | a value gets a bin index exactly when the width is positive, and the index is in range |
| Histogram.InBin | script.js:126 | bin k holds the values in [lo + k·width, lo + (k + 1)·width), and the last bin also holds everything above |
| Histogram.ScaleCompare | script.js:126 | scaling by a positive width preserves order |
| Histogram.ScaledBound | script.js:126 | a value is at or past the start of bin k exactly when k is at most its scaled offset |
| Histogram.SlotIsBin | script.js:126 | the index formula sends a value to bin k exactly when the value lies in bin k's half-open interval, or is past every bin and k is the last |
| Histogram.MaxInLastBin | script.js:126 | the value at the upper end of the bins goes to the last bin, because of the clamp |
| Histogram.MinInFirstBin | script.js:126 | the lower end goes to the first bin |
| Histogram.SpreadInEndBins | script.js:114-126 | with the width from the spread, the upper end of the spread lands in the last bin and the lower end in the first |
| Histogram.ExtremesInEndBins | script.js:111-126 | for data that are not all equal, Math.max lands in the last bin and Math.min in the first |
| Histogram.Zeros | script.js:116 | `Array(binCount).fill(0)`: binCount zeros |
| Histogram.Tally | script.js:125-128 | the counts after the values are added one by one: one non-negative entry per bin (what each entry counts is TallyCounts) |
| Histogram.SumIntsZeros | script.js:116 | the fresh bins hold nothing |
| Histogram.SumIntsIncrement | script.js:127 | incrementing one bin adds one to the total |
| Histogram.TallySum | script.js:125-128 | with a positive width every value is counted exactly once: the counts add up to n |
| Histogram.TallyZeroWidth | script.js:126-127 | with zero width nothing is counted: every bin stays zero |
| Histogram.CountInBin | script.js:125-128 | the number of values lying in bin k, never more than n |
| Histogram.TallyCounts | script.js:125-128 | with a positive width, count k is exactly the number of values lying in bin k |
| Histogram.RangeOf | script.js:120-121 | bin i starts i widths above the minimum and ends one width later |
| Histogram.BinRanges | script.js:119-123 | bin i covers [lo + i·width, lo + i·width + width] |
| Histogram.NextStart | script.js:120-121 | a bin ends where the next one starts |
| Histogram.RangesTile | script.js:119-123 | the bins start at lo, end at lo + m·width, and leave no gap between neighbours |
| Histogram.RangesSpan | script.js:114-123 | with the width from the spread, the bins span exactly [lo, lo + spread] without gaps |
| Histogram.HistogramOf | script.js:111-128 | one count and one range per bin |
| Histogram.HistogramShape | script.js:111-123 | for non-empty data: 1 to 10 bins that tile [min, max] without gaps |
| Histogram.HistogramTotal | script.js:111-128 | when the data are not all equal, the bin counts add up to the number of values |
| Histogram.HistogramCounts | script.js:111-128 | when the data are not all equal, the count of each bin is the number of values lying in that bin |
| Histogram.ConstantDataEmptyHistogram | script.js:114-127 | when all values are equal the index is NaN and every bin count stays zero |
| Histogram.LabelRanges | script.js:119-123 | the label loop produces exactly the specified bin ranges |
| Histogram.CountInto | script.js:125-128 | the forEach loop over the array leaves exactly the specified tally in it |
| Histogram.CreateHistogram | script.js:111-128 | a fresh bins array holding the specified counts, and the specified ranges |
| Calculator.CalculateStats | script.js:177-191 | refused with the no-data message exactly when nothing parses; with the too-few message exactly when one value parses; otherwise it computes the summary and histogram of the parsed values |
| Calculator.BlankInputRejected | script.js:177-182 | blank input, or input of only commas and whitespace, gets the no-data message |
| Calculator.SingleTokenRejected | script.js:177-187 | a single token gets the too-few message when it is a number and the no-data message otherwise |
| Calculator.TwoTokensComputed | script.js:177-191 | two numbers separated by delimiters parse in order to exactly those two values and are computed: count 2, sorted copy holding both |
| Calculator.ComputedResponse | script.js:184-191 | two or more parsed values are always computed; the response covers all of them; its sorted copy is a sorted permutation; it has 1 to 10 bins from min to max, whose counts add up to n when min < max |

## Left out

- Everything that touches the page is not modelled. This covers reading the input field, `showError` and `clearError`, `displayResults`, Chart.js drawing, the success notification and its timers, and the clear and sample-data handlers. The gate returns what would be shown or drawn instead.
- `createPieChart` is not modelled: its body is not in the source file.
- The standard deviation is not modelled, because `Math.sqrt` has no exact real counterpart. The summary therefore has no `stddev` field.
- IEEE-754 arithmetic is not modelled: rounding, overflow to Infinity and NaN propagation inside sums. All arithmetic is on exact reals.
- Parser.ParseNumber: `parseFloat`'s exponent suffix and the literal `Infinity` are not modelled. `1e5` reads as 1 here and as 100000 in JavaScript, and `Infinity` is dropped here but kept in JavaScript. ParseNumberOfDecimal excludes trailing text that starts with `e` or `E` for this reason.
- Parser.IsWhitespace: only the six ASCII whitespace characters count as delimiters. The Unicode space separators that JavaScript's `\s` and `trim` also match are left out, and so is the initial `trim` treating them as blank.
- The `.map(s => s.trim())` step at script.js:7 has no member of its own, because it changes nothing. After a split at whitespace runs, no token holds whitespace (WordsFrom proves this). The leading whitespace that `parseFloat` skips is absent for the same reason.
- Statistics.ModeOf: the mode is reported as a set of values. The source's string built from object keys (`join(', ')`) is not modelled, so key order and the number-to-string coercion of keys are left out. Distinct reals are assumed to give distinct keys.
- Statistics.MaxCount: the maximum count is taken over the data, not over `Object.values(frequency)`. Every key occurs in the data, so the maximum is the same (MaxCount's third ensures).
- Histogram.BinRanges: bin labels are kept as numeric start and end points. The `toFixed(1)` text formatting is left out.
- Histogram.Slot: when all values are equal, the width is 0, and `(v − min)/0` is NaN in JavaScript. Incrementing `bins[NaN]` leaves every bin at zero. This is modelled as written: no slot, zero counts (ConstantDataEmptyHistogram). Dropping the values this way is how the source behaves, and the model keeps that behaviour.
- Histogram.CreateHistogram: on empty data the source computes `Math.min()` = Infinity and zero bins. The model gives zero bins and no ranges without computing a minimum. The only caller passes at least two values.
