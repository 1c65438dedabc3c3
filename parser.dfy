/**
 * The input parser of the statistics calculator (parseData in script.js).
 *
 * The raw text is split on maximal runs of delimiter characters (a comma or
 * white space), empty fields are dropped, every remaining token is read with
 * the numeric-prefix semantics of JavaScript's parseFloat, and tokens without
 * a numeric prefix are dropped.  Numbers are exact reals.
 */
module Parser {
  import opened Wrappers

  // ---------------------------------------------------------------------------
  // Characters
  // ---------------------------------------------------------------------------

  /** The white space recognised by trim() and by \s: the ASCII subset. */
  predicate IsWhitespace(c: char) {
    c == ' ' || c == '\t' || c == '\n' || c == '\U{B}' || c == '\U{C}' || c == '\r'
  }

  /** A character of the split pattern [,\s\n\r]. */
  predicate IsDelimiter(c: char) {
    c == ',' || IsWhitespace(c)
  }

  predicate IsDigit(c: char) {
    '0' <= c <= '9'
  }

  function DigitValue(c: char): (d: nat)
    requires IsDigit(c)
    ensures d <= 9
  {
    c as int - '0' as int
  }

  predicate AllWhitespace(s: string) {
    forall i :: 0 <= i < |s| ==> IsWhitespace(s[i])
  }

  predicate AllDelimiters(s: string) {
    forall i :: 0 <= i < |s| ==> IsDelimiter(s[i])
  }

  predicate NoDelimiter(s: string) {
    forall i :: 0 <= i < |s| ==> !IsDelimiter(s[i])
  }

  predicate AllDigits(s: string) {
    forall i :: 0 <= i < |s| ==> IsDigit(s[i])
  }

  // ---------------------------------------------------------------------------
  // Tokenisation: input.split(/[,\s\n\r]+/).filter(s => s !== '')
  // ---------------------------------------------------------------------------

  /**
   * String.prototype.split with the pattern /[,\s\n\r]+/, read left to right:
   * `field` is the field being collected and `inRun` says that the previous
   * character was a delimiter.  A maximal run of delimiters ends one field;
   * an empty first field appears when the text starts with a delimiter and
   * an empty last field when it ends with one.
   */
  function SplitFrom(s: string, field: string, inRun: bool): (fields: seq<string>)
    ensures |fields| >= 1
  {
    if s == [] then [field]
    else if !IsDelimiter(s[0]) then SplitFrom(s[1..], field + [s[0]], false)
    else if inRun then SplitFrom(s[1..], [], true)
    else [field] + SplitFrom(s[1..], [], true)
  }

  function Split(s: string): seq<string> {
    SplitFrom(s, [], false)
  }

  /** filter(s => s !== '') */
  function NonEmpty(fields: seq<string>): (tokens: seq<string>)
    ensures |tokens| <= |fields|
    ensures forall i :: 0 <= i < |tokens| ==> tokens[i] != []
  {
    if fields == [] then []
    else if fields[0] == [] then NonEmpty(fields[1..])
    else [fields[0]] + NonEmpty(fields[1..])
  }

  /** The word collected so far, as a list of at most one token. */
  function Emit(word: string): seq<string> {
    if word == [] then [] else [word]
  }

  /**
   * The reference tokeniser: the maximal runs of non-delimiter characters of
   * s, in order, where `word` is the part of the current run already read.
   */
  function WordsFrom(s: string, word: string): (words: seq<string>)
    requires NoDelimiter(word)
    ensures forall i :: 0 <= i < |words| ==> words[i] != [] && NoDelimiter(words[i])
  {
    if s == [] then Emit(word)
    else if IsDelimiter(s[0]) then Emit(word) + WordsFrom(s[1..], [])
    else WordsFrom(s[1..], word + [s[0]])
  }

  function Words(s: string): seq<string> {
    WordsFrom(s, [])
  }

  /** The tokens the source keeps: the split fields that are not empty. */
  function Tokens(s: string): seq<string> {
    NonEmpty(Split(s))
  }

  // ---------------------------------------------------------------------------
  // Numeric prefix: parseFloat restricted to  [+-]? (digits (. digits?)? | . digits)
  // ---------------------------------------------------------------------------

  /** Length of the longest prefix of s made only of decimal digits. */
  function DigitRunLength(s: string): (k: nat)
    ensures k <= |s|
    ensures AllDigits(s[..k])
    ensures k < |s| ==> !IsDigit(s[k])
  {
    if s == [] || !IsDigit(s[0]) then 0 else 1 + DigitRunLength(s[1..])
  }

  /** The value of a digit string read as a whole number. */
  function NaturalValue(ds: string): nat
    requires AllDigits(ds)
  {
    if ds == [] then 0
    else NaturalValue(ds[..|ds| - 1]) * 10 + DigitValue(ds[|ds| - 1])
  }

  function Pow10(k: nat): (p: nat)
    ensures p >= 1
  {
    if k == 0 then 1 else 10 * Pow10(k - 1)
  }

  /** k decimal digits denote less than 10^k. */
  lemma {:induction false} NaturalBelowPow10(ds: string)
    requires AllDigits(ds)
    ensures NaturalValue(ds) < Pow10(|ds|)
  {
    if ds != [] {
      NaturalBelowPow10(ds[..|ds| - 1]);
    }
  }

  lemma RatioBelowOne(q: nat, p: nat)
    requires q < p
    ensures 0.0 <= q as real / p as real < 1.0
  {
  }

  /**
   * The value of the digits after a decimal point, 0.d1 d2 ... dk: the
   * digits read as a whole number, over 10^k.
   */
  function FractionValue(ds: string): (f: real)
    requires AllDigits(ds)
    ensures 0.0 <= f < 1.0
    ensures f == 0.0 <== ds == []
  {
    NaturalBelowPow10(ds);
    RatioBelowOne(NaturalValue(ds), Pow10(|ds|));
    NaturalValue(ds) as real / Pow10(|ds|) as real
  }

  /** The part of a token after an optional leading sign. */
  function Unsigned(token: string): string {
    if |token| > 0 && (token[0] == '-' || token[0] == '+') then token[1..] else token
  }

  /** A token has a numeric prefix when, after its sign, it starts with a digit or with '.' and a digit. */
  predicate HasNumericPrefix(token: string) {
    var u := Unsigned(token);
    (|u| > 0 && IsDigit(u[0])) || (|u| > 1 && u[0] == '.' && IsDigit(u[1]))
  }

  /** The longest unsigned decimal prefix of u, when there is one. */
  function ParseUnsigned(u: string): (r: Option<real>)
    ensures r.Some? <==> (|u| > 0 && IsDigit(u[0])) || (|u| > 1 && u[0] == '.' && IsDigit(u[1]))
    ensures r.Some? ==> r.value >= 0.0
  {
    var i := DigitRunLength(u);
    var afterInteger := u[i..];
    var fraction :=
      if |afterInteger| > 0 && afterInteger[0] == '.'
      then afterInteger[1..][..DigitRunLength(afterInteger[1..])]
      else [];
    if i == 0 && fraction == [] then None
    else Some(NaturalValue(u[..i]) as real + FractionValue(fraction))
  }

  /**
   * parseFloat on one token: the longest decimal prefix, or None where
   * JavaScript would produce NaN.
   */
  function ParseNumber(token: string): (r: Option<real>)
    ensures r.Some? <==> HasNumericPrefix(token)
    ensures r.Some? && |token| > 0 && token[0] == '-' ==> r.value <= 0.0
    ensures r.Some? && (|token| == 0 || token[0] != '-') ==> r.value >= 0.0
  {
    match ParseUnsigned(Unsigned(token))
    case None => None
    case Some(magnitude) =>
      Some(if |token| > 0 && token[0] == '-' then -magnitude else magnitude)
  }

  /** .map(parseFloat).filter(n => !isNaN(n)) */
  function Values(tokens: seq<string>): (xs: seq<real>)
    ensures |xs| <= |tokens|
  {
    if tokens == [] then []
    else
      match ParseNumber(tokens[0])
      case Some(x) => [x] + Values(tokens[1..])
      case None => Values(tokens[1..])
  }

  /** parseData: the numbers of the input text, in order of appearance. */
  function ParseData(input: string): seq<real> {
    if AllWhitespace(input) then [] else Values(Tokens(input))
  }

  // ---------------------------------------------------------------------------
  // Properties
  // ---------------------------------------------------------------------------

  lemma {:induction false} NonEmptyAppend(x: seq<string>, y: seq<string>)
    ensures NonEmpty(x + y) == NonEmpty(x) + NonEmpty(y)
  {
    if x != [] {
      assert (x + y)[1..] == x[1..] + y;
      NonEmptyAppend(x[1..], y);
    } else {
      assert x + y == y;
    }
  }

  lemma {:induction false} ValuesAppend(x: seq<string>, y: seq<string>)
    ensures Values(x + y) == Values(x) + Values(y)
  {
    if x != [] {
      assert (x + y)[1..] == x[1..] + y;
      ValuesAppend(x[1..], y);
    } else {
      assert x + y == y;
    }
  }

  /** Splitting and dropping the empty fields leaves exactly the words. */
  lemma {:induction false} SplitFromIsWords(s: string, field: string, inRun: bool)
    requires NoDelimiter(field)
    requires inRun ==> field == []
    ensures NonEmpty(SplitFrom(s, field, inRun)) == WordsFrom(s, field)
  {
    if s == [] {
    } else if !IsDelimiter(s[0]) {
      SplitFromIsWords(s[1..], field + [s[0]], false);
    } else if inRun {
      SplitFromIsWords(s[1..], [], true);
    } else {
      SplitFromIsWords(s[1..], [], true);
      NonEmptyAppend([field], SplitFrom(s[1..], [], true));
    }
  }

  lemma TokensAreWords(s: string)
    ensures Tokens(s) == Words(s)
  {
    SplitFromIsWords(s, [], false);
  }

  /** Delimiters before a word add nothing. */
  lemma {:induction false} WordsSkipDelimiters(run: string, b: string)
    requires AllDelimiters(run)
    ensures Words(run + b) == Words(b)
  {
    if run != [] {
      assert (run + b)[1..] == run[1..] + b;
      WordsSkipDelimiters(run[1..], b);
    } else {
      assert run + b == b;
    }
  }

  /** A delimiter run ends the current word and starts afresh. */
  lemma {:induction false} WordsSeparate(a: string, word: string, run: string, b: string)
    requires NoDelimiter(word)
    requires |run| > 0 && AllDelimiters(run)
    ensures WordsFrom(a + run + b, word) == WordsFrom(a, word) + Words(b)
  {
    if a == [] {
      assert a + run + b == run + b;
      assert (run + b)[1..] == run[1..] + b;
      WordsSkipDelimiters(run[1..], b);
    } else {
      assert (a + run + b)[1..] == a[1..] + run + b;
      if IsDelimiter(a[0]) {
        WordsSeparate(a[1..], [], run, b);
      } else {
        WordsSeparate(a[1..], word + [a[0]], run, b);
      }
    }
  }

  /** Text made only of delimiters holds no token. */
  lemma TokensOfDelimiters(s: string)
    requires AllDelimiters(s)
    ensures Tokens(s) == []
  {
    TokensAreWords(s);
    WordsSkipDelimiters(s, []);
    assert s + [] == s;
  }

  /**
   * The trim() guard at the top of parseData returns what the pipeline
   * would have returned anyway: parseData is the pipeline on every input.
   */
  lemma ParseDataIsPipeline(input: string)
    ensures ParseData(input) == Values(Tokens(input))
  {
    if AllWhitespace(input) {
      TokensOfDelimiters(input);
    }
  }

  /**
   * A run of delimiters only separates: the tokens of a + run + b are the
   * tokens of a followed by the tokens of b.
   */
  lemma TokensSeparate(a: string, run: string, b: string)
    requires |run| > 0 && AllDelimiters(run)
    ensures Tokens(a + run + b) == Tokens(a) + Tokens(b)
  {
    TokensAreWords(a + run + b);
    TokensAreWords(a);
    TokensAreWords(b);
    WordsSeparate(a, [], run, b);
  }

  /**
   * parseData keeps order and duplicates: the numbers of a + run + b are the
   * numbers of a followed by the numbers of b.
   */
  lemma ParseDataSeparate(a: string, run: string, b: string)
    requires |run| > 0 && AllDelimiters(run)
    ensures ParseData(a + run + b) == ParseData(a) + ParseData(b)
  {
    ParseDataIsPipeline(a + run + b);
    ParseDataIsPipeline(a);
    ParseDataIsPipeline(b);
    TokensSeparate(a, run, b);
    ValuesAppend(Tokens(a), Tokens(b));
  }

  /** Consecutive delimiters add nothing: any two runs between the same two texts give the same numbers. */
  lemma DelimiterRunsCollapse(a: string, run1: string, run2: string, b: string)
    requires |run1| > 0 && AllDelimiters(run1)
    requires |run2| > 0 && AllDelimiters(run2)
    ensures ParseData(a + run1 + b) == ParseData(a + run2 + b)
  {
    ParseDataSeparate(a, run1, b);
    ParseDataSeparate(a, run2, b);
  }

  /** Input that is empty or only white space and commas yields no numbers. */
  lemma ParseDataOfDelimiters(input: string)
    requires AllDelimiters(input)
    ensures ParseData(input) == []
  {
    ParseDataIsPipeline(input);
    TokensOfDelimiters(input);
  }

  lemma {:induction false} WordsOfWord(s: string, word: string)
    requires NoDelimiter(word) && NoDelimiter(s)
    ensures WordsFrom(s, word) == Emit(word + s)
  {
    if s == [] {
      assert word + s == word;
    } else {
      assert word + [s[0]] + s[1..] == word + s;
      WordsOfWord(s[1..], word + [s[0]]);
    }
  }

  /** A single token yields its number, or nothing when it has no numeric prefix. */
  lemma ParseDataOfToken(token: string)
    requires NoDelimiter(token)
    ensures ParseData(token) == if HasNumericPrefix(token) then [ParseNumber(token).value] else []
  {
    ParseDataIsPipeline(token);
    TokensAreWords(token);
    WordsOfWord(token, []);
    assert [] + token == token;
  }

  // ---------------------------------------------------------------------------
  // Round trip with decimal numerals
  // ---------------------------------------------------------------------------

  function DigitChar(d: nat): (c: char)
    requires d <= 9
    ensures IsDigit(c) && DigitValue(c) == d
  {
    ('0' as int + d) as char
  }

  /** The decimal numeral of n, without leading zeros. */
  function Decimal(n: nat): (ds: string)
    ensures |ds| > 0 && AllDigits(ds)
  {
    if n < 10 then [DigitChar(n)] else Decimal(n / 10) + [DigitChar(n % 10)]
  }

  lemma {:induction false} NaturalValueOfDecimal(n: nat)
    ensures NaturalValue(Decimal(n)) == n
  {
    if n >= 10 {
      var ds := Decimal(n);
      assert ds[..|ds| - 1] == Decimal(n / 10);
      NaturalValueOfDecimal(n / 10);
    }
  }

  lemma {:induction false} DigitRunOfDigits(ds: string, rest: string)
    requires AllDigits(ds)
    requires rest == [] || !IsDigit(rest[0])
    ensures DigitRunLength(ds + rest) == |ds|
  {
    if ds != [] {
      assert (ds + rest)[1..] == ds[1..] + rest;
      DigitRunOfDigits(ds[1..], rest);
    } else {
      assert ds + rest == rest;
    }
  }

  lemma ParseUnsignedOfDecimal(n: nat, rest: string)
    requires rest == [] || (!IsDigit(rest[0]) && rest[0] != '.')
    ensures ParseUnsigned(Decimal(n) + rest) == Some(n as real)
    ensures IsDigit((Decimal(n) + rest)[0])
  {
    var ds := Decimal(n);
    DigitRunOfDigits(ds, rest);
    assert (ds + rest)[..|ds|] == ds;
    assert (ds + rest)[|ds|..] == rest;
    NaturalValueOfDecimal(n);
  }

  lemma UnsignedOfSigned(sign: string, ds: string)
    requires sign == [] || sign == ['+'] || sign == ['-']
    requires |ds| > 0 && ds[0] != '+' && ds[0] != '-'
    ensures Unsigned(sign + ds) == ds
    ensures (sign + ds)[0] == '-' <==> sign == ['-']
  {
    if sign != [] {
      assert (sign + ds)[1..] == ds;
    }
  }

  lemma AppendAssociates(a: string, b: string, c: string)
    ensures a + b + c == a + (b + c)
  {
  }

  /** A sign in front of an unsigned numeral only sets the sign of its value. */
  lemma ParseNumberOfSigned(token: string, sign: string, u: string, x: real)
    requires sign == [] || sign == ['+'] || sign == ['-']
    requires |u| > 0 && u[0] != '+' && u[0] != '-' && ParseUnsigned(u) == Some(x)
    requires token == sign + u
    ensures ParseNumber(token) == Some(if sign == ['-'] then -x else x)
  {
    UnsignedOfSigned(sign, u);
  }

  /**
   * parseFloat reads the leading numeral of a token: a whole number written in
   * decimal, optionally signed and followed by text that does not continue a
   * number ("12abc" gives 12), reads back as that number.
   */
  lemma ParseNumberOfDecimal(n: nat, sign: string, rest: string)
    requires sign == [] || sign == ['+'] || sign == ['-']
    requires rest == [] || (!IsDigit(rest[0]) && rest[0] != '.' && rest[0] != 'e' && rest[0] != 'E')
    ensures ParseNumber(sign + Decimal(n) + rest) == Some(if sign == ['-'] then -(n as real) else n as real)
  {
    var ds := Decimal(n);
    ParseUnsignedOfDecimal(n, rest);
    assert sign + ds + rest == sign + (ds + rest) by {
      AppendAssociates(sign, ds, rest);
    }
    ParseNumberOfSigned(sign + ds + rest, sign, ds + rest, n as real);
  }

  // ---------------------------------------------------------------------------
  // Round trip with decimal fractions
  // ---------------------------------------------------------------------------

  /** The integer part of ip + after is ip when after starts with a non-digit. */
  lemma IntegerPart(u: string, ip: string, after: string)
    requires AllDigits(ip) && |after| > 0 && !IsDigit(after[0]) && u == ip + after
    ensures DigitRunLength(u) == |ip| && u[..|ip|] == ip && u[|ip|..] == after
  {
    DigitRunOfDigits(ip, after);
  }

  /** The digits of the fraction field: the leading digit run after the point. */
  lemma FractionPart(after: string, ds: string, rest: string)
    requires AllDigits(ds) && (rest == [] || !IsDigit(rest[0]))
    requires after == ['.'] + (ds + rest)
    ensures after[1..] == ds + rest
    ensures after[1..][..DigitRunLength(after[1..])] == ds
  {
    assert after[1..] == ds + rest;
    DigitRunOfDigits(ds, rest);
  }

  /** ParseUnsigned of a text whose integer digits, point and fraction digits are known. */
  lemma ParseUnsignedOfParts(u: string, ip: string, after: string, fraction: string)
    requires DigitRunLength(u) == |ip| && u[..|ip|] == ip && u[|ip|..] == after
    requires |after| > 0 && after[0] == '.'
    requires after[1..][..DigitRunLength(after[1..])] == fraction
    requires |ip| > 0 || |fraction| > 0
    ensures AllDigits(ip) && AllDigits(fraction)
    ensures ParseUnsigned(u) == Some(NaturalValue(ip) as real + FractionValue(fraction))
  {
  }

  /**
   * An unsigned numeral with a decimal point, digits on at least one side of
   * it, and text after it that does not continue the fraction: the integer
   * part plus the fraction.
   */
  lemma ParseUnsignedOfPointed(u: string, ip: string, ds: string, rest: string)
    requires AllDigits(ip) && AllDigits(ds) && (|ip| > 0 || |ds| > 0)
    requires rest == [] || !IsDigit(rest[0])
    requires u == ip + (['.'] + (ds + rest))
    ensures ParseUnsigned(u) == Some(NaturalValue(ip) as real + FractionValue(ds))
  {
    var after := ['.'] + (ds + rest);
    IntegerPart(u, ip, after);
    FractionPart(after, ds, rest);
    ParseUnsignedOfParts(u, ip, after, ds);
  }

  /** The magnitude of n.ds: n plus the digits ds over 10^|ds|. */
  function PointedValue(n: nat, ds: string): (x: real)
    requires AllDigits(ds)
    ensures n as real <= x < n as real + 1.0
  {
    NaturalBelowPow10(ds);
    RatioBelowOne(NaturalValue(ds), Pow10(|ds|));
    n as real + NaturalValue(ds) as real / Pow10(|ds|) as real
  }

  lemma AppendAssociates4(a: string, b: string, c: string, d: string)
    ensures a + b + c + d == a + (b + (c + d))
  {
  }

  lemma AppendAssociates5(a: string, b: string, c: string, d: string, e: string)
    ensures a + b + c + d + e == a + (b + (c + (d + e)))
  {
  }

  /** The unsigned part of n.ds followed by non-continuing text. */
  lemma PointedUnsigned(n: nat, ds: string, rest: string, u: string)
    requires AllDigits(ds) && (rest == [] || !IsDigit(rest[0]))
    requires u == Decimal(n) + (['.'] + (ds + rest))
    ensures |u| > 0 && u[0] != '+' && u[0] != '-'
    ensures ParseUnsigned(u) == Some(PointedValue(n, ds))
  {
    ParseUnsignedOfPointed(u, Decimal(n), ds, rest);
    NaturalValueOfDecimal(n);
    assert u[0] == Decimal(n)[0];
  }

  /**
   * parseFloat reads a decimal fraction back: a whole number in decimal, a
   * point and any digits, optionally signed and followed by text that does not
   * continue a number ("-3.75x" gives -3.75), reads back as that value.
   */
  lemma ParseNumberOfPointed(n: nat, sign: string, ds: string, rest: string)
    requires sign == [] || sign == ['+'] || sign == ['-']
    requires AllDigits(ds)
    requires rest == [] || (!IsDigit(rest[0]) && rest[0] != 'e' && rest[0] != 'E')
    ensures var x := PointedValue(n, ds);
      ParseNumber(sign + Decimal(n) + "." + ds + rest) == Some(if sign == ['-'] then -x else x)
  {
    var u := Decimal(n) + (['.'] + (ds + rest));
    assert sign + Decimal(n) + "." + ds + rest == sign + u by {
      AppendAssociates5(sign, Decimal(n), ".", ds, rest);
    }
    PointedUnsigned(n, ds, rest, u);
    ParseNumberOfSigned(sign + Decimal(n) + "." + ds + rest, sign, u, PointedValue(n, ds));
  }

  /** The unsigned part of .ds followed by non-continuing text. */
  lemma LeadingPointUnsigned(ds: string, rest: string, u: string)
    requires |ds| > 0 && AllDigits(ds) && (rest == [] || !IsDigit(rest[0]))
    requires u == ['.'] + (ds + rest)
    ensures |u| > 0 && u[0] != '+' && u[0] != '-'
    ensures ParseUnsigned(u) == Some(PointedValue(0, ds))
  {
    assert [] + u == u;
    ParseUnsignedOfPointed(u, [], ds, rest);
  }

  /** A leading point: ".5" and "-.25" read back as 0.5 and -0.25. */
  lemma ParseNumberOfLeadingPoint(sign: string, ds: string, rest: string)
    requires sign == [] || sign == ['+'] || sign == ['-']
    requires |ds| > 0 && AllDigits(ds)
    requires rest == [] || (!IsDigit(rest[0]) && rest[0] != 'e' && rest[0] != 'E')
    ensures var x := PointedValue(0, ds);
      ParseNumber(sign + "." + ds + rest) == Some(if sign == ['-'] then -x else x)
  {
    var u := ['.'] + (ds + rest);
    assert sign + "." + ds + rest == sign + u by {
      AppendAssociates4(sign, ".", ds, rest);
    }
    LeadingPointUnsigned(ds, rest, u);
    ParseNumberOfSigned(sign + "." + ds + rest, sign, u, PointedValue(0, ds));
  }

  /** A worked case of the fraction round trip: "12.25" reads as 12.25. */
  lemma ParseTwelvePointTwoFive()
    ensures ParseNumber("12.25") == Some(12.25)
  {
    assert "12.25" == [] + Decimal(12) + "." + "25" + [] by {
      assert Decimal(12) == "12";
    }
    assert PointedValue(12, "25") == 12.25 by {
      assert NaturalValue("25") == 25 by {
        assert "25"[..1] == "2";
        assert "2"[..0] == [];
      }
      assert Pow10(2) == 100;
    }
    ParseNumberOfPointed(12, [], "25", []);
  }
}
