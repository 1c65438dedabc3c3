/**
 * The request gate of calculateStats (script.js, lines 177-191): the text
 * is parsed, fewer than two values are refused with one of two messages,
 * and only otherwise are the summary and the histogram computed.  Showing
 * the message, drawing the charts and the notification are not part of
 * this model; the response carries what they would be given.
 */
module Calculator {
  import opened Wrappers
  import opened Parser
  import opened Statistics
  import opened Histogram

  /** Shown when the text holds no number at all. */
  const NoDataMessage: string := "Silakan masukkan data yang valid. Pastikan data berupa angka."

  /** Shown when the text holds exactly one number. */
  const TooFewMessage: string := "Minimal 2 data diperlukan untuk perhitungan statistik."

  datatype Response =
    | Rejected(message: string)
    | Computed(stats: Summary, histogram: Bins)

  /**
   * calculateStats on the text of the input field.  The two refusals are
   * told apart by the number of parsed values, and a computed response
   * holds exactly the summary and the histogram of the parsed values.
   */
  function CalculateStats(input: string): (r: Response)
    ensures r == Rejected(NoDataMessage) <==> |ParseData(input)| == 0
    ensures r == Rejected(TooFewMessage) <==> |ParseData(input)| == 1
    ensures r.Rejected? <==> |ParseData(input)| < 2
    ensures r.Computed? ==>
      && SummaryOf(ParseData(input)) == Some(r.stats)
      && r.histogram == HistogramOf(ParseData(input))
  {
    var data := ParseData(input);
    if |data| == 0 then Rejected(NoDataMessage)
    else if |data| < 2 then Rejected(TooFewMessage)
    else Computed(SummaryOf(data).value, HistogramOf(data))
  }

  /** Blank input, or input made only of commas and whitespace, is refused as holding no data. */
  lemma BlankInputRejected(input: string)
    requires AllDelimiters(input)
    ensures CalculateStats(input) == Rejected(NoDataMessage)
  {
    ParseDataOfDelimiters(input);
  }

  /** A single token is refused: as holding no data when it is not a number, as too few otherwise. */
  lemma SingleTokenRejected(token: string)
    requires NoDelimiter(token)
    ensures CalculateStats(token) ==
      Rejected(if HasNumericPrefix(token) then TooFewMessage else NoDataMessage)
  {
    ParseDataOfToken(token);
  }

  /**
   * Two numbers separated by a run of delimiters are enough: they are parsed
   * in order, and the summary counts both.
   */
  lemma TwoTokensComputed(a: string, run: string, b: string)
    requires NoDelimiter(a) && NoDelimiter(b) && HasNumericPrefix(a) && HasNumericPrefix(b)
    requires |run| > 0 && AllDelimiters(run)
    ensures ParseData(a + run + b) == [ParseNumber(a).value, ParseNumber(b).value]
    ensures var r := CalculateStats(a + run + b);
      && r.Computed?
      && r.stats.count == 2
      && multiset(r.stats.sorted) == multiset{ParseNumber(a).value, ParseNumber(b).value}
  {
    ParseDataSeparate(a, run, b);
    ParseDataOfToken(a);
    ParseDataOfToken(b);
    var data := ParseData(a + run + b);
    assert data == [ParseNumber(a).value, ParseNumber(b).value];
  }

  /**
   * Two or more parsed values are always computed, and the response then
   * promises: a summary counting all of them, a sorted
   * permutation of them, one to ten bins tiling the range of the values,
   * and, when the values are not all equal, bin counts that add up to the
   * number of values.
   */
  lemma ComputedResponse(input: string)
    requires |ParseData(input)| >= 2
    ensures var r := CalculateStats(input);
      var data := ParseData(input);
      && r.Computed?
      && r.stats.count == |data| >= 2
      && SortedAsc(r.stats.sorted) && multiset(r.stats.sorted) == multiset(data)
      && 1 <= |r.histogram.counts| <= 10
      && r.histogram.ranges[0].start == r.stats.min
      && r.histogram.ranges[|r.histogram.counts| - 1].end == r.stats.max
      && (r.stats.min < r.stats.max ==> SumInts(r.histogram.counts) == r.stats.count)
  {
    var data := ParseData(input);
    HistogramShape(data);
    if Min(data) < Max(data) {
      HistogramTotal(data);
    }
  }
}
