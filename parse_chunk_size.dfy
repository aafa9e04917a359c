/**
 * `ParseChunkSize.ParseSize` (Cthulhu.Core/ParseChunkSize.cs): turns a human
 * size string such as "16MB" or "4MiB" into a byte count.
 *
 * The string is trimmed and upper-cased; if what is left is a plain signed
 * 64-bit integer (as `long.TryParse` with `NumberStyles.Integer` reads it) that
 * integer is the result. Otherwise the ending selects a factor from a fixed
 * table (1 when no entry matches), the maximal run of leading ASCII digits is
 * the number, and the result is number * factor; an empty digit run is a
 * format error.
 *
 * Line numbers in the comments below refer to Cthulhu.Core/ParseChunkSize.cs.
 *
 * `ParseSize` computes number * factor in `double` and casts to `long`. Here it
 * is exact integer arithmetic, and `ParseSize` requires `ExactInDouble`, under
 * which the `double` computation is exact as well.
 */
module ParseChunkSize {
  import opened Wrappers
  import Longs

  /** 2^53: every integer up to it is exactly representable as a `double`. */
  const MaxExactDouble: int := 0x20_0000_0000_0000

  /** `double.Parse` of an empty digit run throws a `FormatException`. */
  datatype ParseError = FormatError

  // ---------------------------------------------------------------------------
  // Characters and strings

  predicate IsAscii(s: string) {
    forall i :: 0 <= i < |s| ==> s[i] <= '\U{7F}'
  }

  lemma AsciiAppend(a: string, b: string)
    requires IsAscii(a) && IsAscii(b)
    ensures IsAscii(a + b)
  {
    forall i | 0 <= i < |a + b| ensures (a + b)[i] <= '\U{7F}' {
      if i < |a| { assert (a + b)[i] == a[i]; } else { assert (a + b)[i] == b[i - |a|]; }
    }
  }

  /** `char.IsWhiteSpace` restricted to ASCII: U+0009..U+000D and the space. */
  predicate IsWhiteSpace(c: char) {
    c == ' ' || '\t' <= c <= '\r'
  }

  predicate AllWhiteSpace(s: string) {
    forall i :: 0 <= i < |s| ==> IsWhiteSpace(s[i])
  }

  /** `char.IsDigit` restricted to ASCII. */
  predicate IsDigit(c: char) {
    '0' <= c <= '9'
  }

  predicate AllDigits(s: string) {
    forall i :: 0 <= i < |s| ==> IsDigit(s[i])
  }

  predicate IsUpperLetter(c: char) {
    'A' <= c <= 'Z'
  }

  /** `char.ToUpperInvariant` on ASCII: only 'a'..'z' change. */
  function ToUpper(c: char): char {
    if 'a' <= c <= 'z' then (c as int - 32) as char else c
  }

  /** `string.ToUpperInvariant`, character by character. */
  function ToUpperInvariant(s: string): (r: string)
    ensures |r| == |s|
    ensures forall i :: 0 <= i < |s| ==> r[i] == ToUpper(s[i])
  {
    if s == [] then [] else [ToUpper(s[0])] + ToUpperInvariant(s[1..])
  }

  /** `string.TrimStart`: drops leading white space. */
  function TrimStart(s: string): string {
    if s != [] && IsWhiteSpace(s[0]) then TrimStart(s[1..]) else s
  }

  /** `string.TrimEnd`: drops trailing white space. */
  function TrimEnd(s: string): string {
    if s != [] && IsWhiteSpace(s[|s| - 1]) then TrimEnd(s[..|s| - 1]) else s
  }

  /** `string.Trim`. */
  function Trim(s: string): string {
    TrimEnd(TrimStart(s))
  }

  /** `TrimStart` leaves the suffix of `s` that starts at its first non-white
      character. */
  lemma {:induction false} TrimStartSpec(s: string)
    ensures var r := TrimStart(s);
      |r| <= |s| && r == s[|s| - |r|..] && AllWhiteSpace(s[..|s| - |r|])
      && (r == [] || !IsWhiteSpace(r[0]))
  {
    if s != [] && IsWhiteSpace(s[0]) {
      TrimStartSpec(s[1..]);
      var r := TrimStart(s);
      assert s[..|s| - |r|] == [s[0]] + s[1..][..|s| - 1 - |r|];
    }
  }

  /** `TrimEnd` leaves the prefix of `s` that ends at its last non-white
      character. */
  lemma {:induction false} TrimEndSpec(s: string)
    ensures var r := TrimEnd(s);
      |r| <= |s| && r == s[..|r|] && AllWhiteSpace(s[|r|..])
      && (r == [] || !IsWhiteSpace(r[|r| - 1]))
  {
    if s != [] && IsWhiteSpace(s[|s| - 1]) {
      TrimEndSpec(s[..|s| - 1]);
      var r := TrimEnd(s);
      assert s[|r|..] == s[..|s| - 1][|r|..] + [s[|s| - 1]];
    }
  }

  /** `Trim` removes exactly the white space at both ends: what is left is a
      slice of `s`, everything cut away is white, and it neither starts nor
      ends with white space. */
  lemma TrimSpec(s: string)
    ensures var r := Trim(s);
      (r == [] || (!IsWhiteSpace(r[0]) && !IsWhiteSpace(r[|r| - 1])))
      && exists i, j :: 0 <= i <= j <= |s| && r == s[i..j]
                     && AllWhiteSpace(s[..i]) && AllWhiteSpace(s[j..])
  {
    var u := TrimStart(s);
    var r := TrimEnd(u);
    TrimStartSpec(s);
    TrimEndSpec(u);
    assert r == s[|s| - |u|..|s| - |u| + |r|];
    assert s[|s| - |u| + |r|..] == u[|r|..];
  }

  /** ParseChunkSize.cs line 6: trim, then upper-case. */
  function Normalize(s: string): string {
    ToUpperInvariant(Trim(s))
  }

  // ---------------------------------------------------------------------------
  // Decimal digits

  function DigitValue(c: char): nat
    requires IsDigit(c)
  {
    c as int - '0' as int
  }

  /** The value of a run of decimal digits (the empty run is 0). */
  function DigitsValue(d: string): nat
    requires AllDigits(d)
  {
    if d == [] then 0 else 10 * DigitsValue(d[..|d| - 1]) + DigitValue(d[|d| - 1])
  }

  /** The canonical decimal text of a natural number, used to state round trips. */
  function Decimal(n: nat): (d: string)
    ensures d != [] && AllDigits(d) && DigitsValue(d) == n
    ensures IsAscii(d)
  {
    var last := ('0' as int + n % 10) as char;
    if n < 10 then
      [last]
    else
      var d := Decimal(n / 10) + [last];
      assert d[..|d| - 1] == Decimal(n / 10);
      d
  }

  /** The canonical signed decimal text of an integer ("-" only when negative). */
  function SignedDecimal(n: int): (d: string)
    ensures d != [] && IsAscii(d)
  {
    if n < 0 then "-" + Decimal(-n) else Decimal(n)
  }

  // ---------------------------------------------------------------------------
  // long.TryParse(s, NumberStyles.Integer, CultureInfo.InvariantCulture, out _)

  /** .NET number parsing accepts a run of '\0' characters after the number. */
  function DropTrailingNuls(s: string): string {
    if s != [] && s[|s| - 1] == '\0' then DropTrailingNuls(s[..|s| - 1]) else s
  }

  /** An optional '+' or '-' followed by at least one digit. */
  predicate IsSignedDigits(u: string) {
    if u != [] && (u[0] == '+' || u[0] == '-') then |u| > 1 && AllDigits(u[1..])
    else u != [] && AllDigits(u)
  }

  function SignedValue(u: string): int
    requires IsSignedDigits(u)
  {
    if u[0] == '-' then -(DigitsValue(u[1..]) as int)
    else if u[0] == '+' then DigitsValue(u[1..])
    else DigitsValue(u)
  }

  /** `long.TryParse` with `NumberStyles.Integer` (leading and trailing white
      space, a leading sign) in the invariant culture: `Some` of the value when
      the text is an optionally signed digit run whose value fits in a `long`. */
  function TryParseLong(s: string): (r: Option<int>)
    ensures r.Some? ==> Longs.Min <= r.value <= Longs.Max
  {
    var u := TrimEnd(TrimStart(DropTrailingNuls(s)));
    if IsSignedDigits(u) && Longs.Min <= SignedValue(u) <= Longs.Max then
      Some(SignedValue(u))
    else
      None
  }

  /** On a string with nothing to strip at either end, `TryParseLong` is the
      signed-digits test itself. */
  lemma TryParseLongOfBare(t: string)
    requires t != [] && !IsWhiteSpace(t[0]) && !IsWhiteSpace(t[|t| - 1]) && t[|t| - 1] != '\0'
    ensures TryParseLong(t) == if IsSignedDigits(t) && Longs.Min <= SignedValue(t) <= Longs.Max
                               then Some(SignedValue(t)) else None
  {
    assert DropTrailingNuls(t) == t;
    assert TrimStart(t) == t;
    assert TrimEnd(t) == t;
  }

  // ---------------------------------------------------------------------------
  // The suffix table (ParseChunkSize.cs lines 13-18)

  datatype Unit = Unit(suffix: string, factor: nat)

  /** The suffixes in the order lines 13-18 test them. */
  const Units: seq<Unit> := [
    Unit("MIB", 0x10_0000),
    Unit("MB", 1_000_000),
    Unit("KIB", 0x400),
    Unit("KB", 1_000),
    Unit("GB", 1_000_000_000),
    Unit("GIB", 0x4000_0000)
  ]

  /** Every suffix is a non-empty run of upper-case letters and every factor
      is positive. */
  lemma UnitShape(i: nat)
    requires i < |Units|
    ensures |Units[i].suffix| >= 2 && AllUpperLetters(Units[i].suffix) && Units[i].factor >= 1
  {
  }

  predicate AllUpperLetters(x: string) {
    forall i :: 0 <= i < |x| ==> IsUpperLetter(x[i])
  }

  /** Ordinal `string.EndsWith`. */
  predicate EndsWith(t: string, suffix: string) {
    |suffix| <= |t| && t[|t| - |suffix|..] == suffix
  }

  /** The first unit in `units` whose suffix ends `t` gives the factor; 1 if none. */
  function FactorIn(t: string, units: seq<Unit>): nat {
    if units == [] then 1
    else if EndsWith(t, units[0].suffix) then units[0].factor
    else FactorIn(t, units[1..])
  }

  /** The nested conditional of ParseChunkSize.cs lines 13-18. */
  function Factor(t: string): nat {
    FactorIn(t, Units)
  }

  // ---------------------------------------------------------------------------
  // Leading digits (ParseChunkSize.cs line 20)

  /** `TakeWhile(char.IsDigit)`: the maximal prefix of digits. */
  function LeadingDigits(t: string): (r: string)
    ensures AllDigits(r)
  {
    if t != [] && IsDigit(t[0]) then [t[0]] + LeadingDigits(t[1..]) else []
  }

  /** `LeadingDigits` is the maximal prefix of digits: a prefix, all digits, and
      followed by a non-digit or by the end of the string. */
  lemma {:induction false} LeadingDigitsSpec(t: string)
    ensures var r := LeadingDigits(t);
      |r| <= |t| && r == t[..|r|] && (|r| == |t| || !IsDigit(t[|r|]))
  {
    if t != [] && IsDigit(t[0]) {
      LeadingDigitsSpec(t[1..]);
    }
  }

  // ---------------------------------------------------------------------------
  // ParseSize

  /** The region in which the `double` arithmetic on ParseChunkSize.cs line 21 is exact:
      either the integer path is taken, or the digit value times the factor is
      at most 2^53. */
  predicate ExactInDouble(t: string) {
    TryParseLong(t).Some? || DigitsValue(LeadingDigits(t)) * Factor(t) <= MaxExactDouble
  }

  /** Within the exact range the product also fits in a `long`, so the cast on
      line 21 neither saturates nor wraps. */
  lemma ExactProductFitsLong(n: nat, f: nat)
    requires n * f <= MaxExactDouble
    ensures Longs.Min <= n * f <= Longs.Max
  {
  }

  /** ParseChunkSize.cs lines 7-21, applied to the trimmed, upper-cased string `t`. */
  function ParseNormalized(t: string): (r: Result<int, ParseError>)
    requires ExactInDouble(t)
    ensures r.Ok? ==> Longs.Min <= r.value <= Longs.Max
    ensures r.Err? <==> TryParseLong(t).None? && (t == [] || !IsDigit(t[0]))
    ensures TryParseLong(t).Some? ==> r == Ok(TryParseLong(t).value)
    ensures r.Ok? && TryParseLong(t).None? ==> r.value == DigitsValue(LeadingDigits(t)) * Factor(t)
  {
    match TryParseLong(t)
    case Some(bytes) => Ok(bytes)
    case None =>
      var factor := Factor(t);
      var number := LeadingDigits(t);
      if number == [] then Err(FormatError)
      else
        ExactProductFitsLong(DigitsValue(number), factor);
        Ok(DigitsValue(number) * factor)
  }

  /** `ParseChunkSize.ParseSize`: the byte count a size string denotes, or the
      `FormatException` it throws when the string is neither a plain integer
      nor starts with a digit. */
  function ParseSize(sizeString: string): (r: Result<int, ParseError>)
    requires IsAscii(sizeString) && ExactInDouble(Normalize(sizeString))
    ensures r.Ok? ==> Longs.Min <= r.value <= Longs.Max
    ensures r.Err? <==> TryParseLong(Normalize(sizeString)).None?
                        && (Normalize(sizeString) == [] || !IsDigit(Normalize(sizeString)[0]))
    ensures TryParseLong(Normalize(sizeString)).Some? ==> r == Ok(TryParseLong(Normalize(sizeString)).value)
    ensures r.Ok? && TryParseLong(Normalize(sizeString)).None? ==>
              r.value == DigitsValue(LeadingDigits(Normalize(sizeString))) * Factor(Normalize(sizeString))
  {
    ParseNormalized(Normalize(sizeString))
  }

  // ---------------------------------------------------------------------------
  // Leading and trailing white space is ignored (ParseChunkSize.cs line 6)

  lemma {:induction false} TrimStartOfPadded(w: string, s: string)
    requires AllWhiteSpace(w)
    ensures TrimStart(w + s) == TrimStart(s)
  {
    if w == [] {
      assert w + s == s;
    } else {
      assert (w + s)[0] == w[0] && IsWhiteSpace(w[0]);
      assert (w + s)[1..] == w[1..] + s;
      TrimStartOfPadded(w[1..], s);
    }
  }

  lemma {:induction false} TrimEndOfPadded(s: string, w: string)
    requires AllWhiteSpace(w)
    ensures TrimEnd(s + w) == TrimEnd(s)
  {
    if w == [] {
      assert s + w == s;
    } else {
      assert (s + w)[|s + w| - 1] == w[|w| - 1] && IsWhiteSpace(w[|w| - 1]);
      assert (s + w)[..|s + w| - 1] == s + w[..|w| - 1];
      TrimEndOfPadded(s, w[..|w| - 1]);
    }
  }

  /** Trailing white space passes through `TrimStart` unless everything is white. */
  lemma {:induction false} TrimStartThenEnd(s: string, w: string)
    requires AllWhiteSpace(w)
    ensures TrimEnd(TrimStart(s + w)) == TrimEnd(TrimStart(s))
  {
    if s == [] {
      assert s + w == w;
      TrimStartOfPadded(w, []);
      assert w + [] == w;
    } else if IsWhiteSpace(s[0]) {
      assert (s + w)[1..] == s[1..] + w;
      TrimStartThenEnd(s[1..], w);
    } else {
      assert TrimStart(s + w) == s + w;
      TrimEndOfPadded(s, w);
    }
  }

  lemma TrimOfPadded(w1: string, s: string, w2: string)
    requires AllWhiteSpace(w1) && AllWhiteSpace(w2)
    ensures Trim(w1 + s + w2) == Trim(s)
  {
    assert w1 + s + w2 == w1 + (s + w2);
    TrimStartOfPadded(w1, s + w2);
    TrimStartThenEnd(s, w2);
  }

  /** " 4MiB " and "4MiB" give the same result: white space around the size
      string changes neither the precondition nor the result. */
  lemma ParseSizeIgnoresPadding(w1: string, s: string, w2: string)
    requires AllWhiteSpace(w1) && AllWhiteSpace(w2)
    requires IsAscii(s) && ExactInDouble(Normalize(s))
    ensures IsAscii(w1 + s + w2) && ExactInDouble(Normalize(w1 + s + w2))
    ensures ParseSize(w1 + s + w2) == ParseSize(s)
  {
    assert IsAscii(w1) && IsAscii(w2);
    AsciiAppend(w1, s);
    AsciiAppend(w1 + s, w2);
    TrimOfPadded(w1, s, w2);
  }

  // ---------------------------------------------------------------------------
  // Letter case is ignored (ParseChunkSize.cs line 6)

  lemma {:induction false} TrimStartOfUpper(s: string)
    ensures TrimStart(ToUpperInvariant(s)) == ToUpperInvariant(TrimStart(s))
  {
    if s != [] {
      assert ToUpperInvariant(s)[1..] == ToUpperInvariant(s[1..]);
      TrimStartOfUpper(s[1..]);
    }
  }

  lemma {:induction false} TrimEndOfUpper(s: string)
    ensures TrimEnd(ToUpperInvariant(s)) == ToUpperInvariant(TrimEnd(s))
  {
    if s != [] {
      var u := ToUpperInvariant(s);
      assert u[..|u| - 1] == ToUpperInvariant(s[..|s| - 1]);
      TrimEndOfUpper(s[..|s| - 1]);
    }
  }

  /** Upper-casing and trimming commute, so line 6 may be read either way round. */
  lemma NormalizeUpperFirst(s: string)
    ensures Normalize(s) == Trim(ToUpperInvariant(s))
  {
    TrimStartOfUpper(s);
    TrimEndOfUpper(TrimStart(s));
  }

  /** Upper-casing maps ASCII to ASCII and leaves everything else alone. */
  lemma AsciiOfSameUpper(a: string, b: string)
    requires ToUpperInvariant(a) == ToUpperInvariant(b) && IsAscii(a)
    ensures IsAscii(b)
  {
    forall i | 0 <= i < |b| ensures b[i] <= '\U{7F}' {
      assert ToUpper(b[i]) == ToUpperInvariant(b)[i] == ToUpperInvariant(a)[i] == ToUpper(a[i]);
    }
  }

  /** "4mib", "4MiB" and "4MIB" give the same result: two size strings that
      agree once upper-cased are parsed alike (and the second is ASCII and in
      range whenever the first is). */
  lemma ParseSizeIgnoresCase(a: string, b: string)
    requires ToUpperInvariant(a) == ToUpperInvariant(b)
    requires IsAscii(a) && ExactInDouble(Normalize(a))
    ensures IsAscii(b) && ExactInDouble(Normalize(b))
    ensures ParseSize(a) == ParseSize(b)
  {
    AsciiOfSameUpper(a, b);
    NormalizeUpperFirst(a);
    NormalizeUpperFirst(b);
    assert Normalize(a) == Normalize(b);
  }

  // ---------------------------------------------------------------------------
  // The suffix table: no entry ends another, so the order of the tests on
  // lines 13-18 does not matter

  lemma EndsWithBoth(t: string, a: string, b: string)
    requires EndsWith(t, a) && EndsWith(t, b) && |a| <= |b|
    ensures EndsWith(b, a)
  {
    assert b[|b| - |a|..] == t[|t| - |a|..];
  }

  /** No suffix in the table is an ending of another one. */
  lemma UnitsIndependent(i: nat, j: nat)
    requires i < |Units| && j < |Units| && i != j
    ensures !EndsWith(Units[j].suffix, Units[i].suffix)
  {
    var a, b := Units[i].suffix, Units[j].suffix;
    // Two-letter suffixes start with M, K or G where the three-letter ones
    // have I; suffixes of the same length differ.
    if |a| == |b| {
      assert a[0] != b[0];
    } else if |a| < |b| {
      assert |a| == 2 && |b| == 3 && a[0] != 'I' && b[1] == 'I';
      assert b[|b| - |a|..][0] == b[1];
    }
  }

  /** At most one table entry matches any string. */
  lemma UnitsUnambiguous(t: string, i: nat, j: nat)
    requires i < |Units| && j < |Units|
    requires EndsWith(t, Units[i].suffix) && EndsWith(t, Units[j].suffix)
    ensures i == j
  {
    if i != j {
      if |Units[i].suffix| <= |Units[j].suffix| {
        EndsWithBoth(t, Units[i].suffix, Units[j].suffix);
        UnitsIndependent(i, j);
      } else {
        EndsWithBoth(t, Units[j].suffix, Units[i].suffix);
        UnitsIndependent(j, i);
      }
    }
  }

  lemma {:induction false} FactorInMatch(t: string, k: nat, i: nat)
    requires k <= i < |Units| && EndsWith(t, Units[i].suffix)
    ensures FactorIn(t, Units[k..]) == Units[i].factor
    decreases i - k
  {
    assert Units[k..][0] == Units[k];
    if EndsWith(t, Units[k].suffix) {
      UnitsUnambiguous(t, k, i);
    } else {
      assert Units[k..][1..] == Units[k + 1..];
      FactorInMatch(t, k + 1, i);
    }
  }

  lemma {:induction false} FactorInNoMatch(t: string, k: nat)
    requires k <= |Units|
    requires forall i :: k <= i < |Units| ==> !EndsWith(t, Units[i].suffix)
    ensures FactorIn(t, Units[k..]) == 1
    decreases |Units| - k
  {
    if k < |Units| {
      assert Units[k..][0] == Units[k];
      assert Units[k..][1..] == Units[k + 1..];
      FactorInNoMatch(t, k + 1);
    }
  }

  /** A string ending in a table suffix gets that suffix's factor, wherever the
      entry stands in the table. */
  lemma FactorOfSuffix(t: string, i: nat)
    requires i < |Units| && EndsWith(t, Units[i].suffix)
    ensures Factor(t) == Units[i].factor
  {
    assert Units[0..] == Units;
    FactorInMatch(t, 0, i);
  }

  /** Any other ending gives the factor 1. */
  lemma FactorOfOtherEnding(t: string)
    requires forall i :: 0 <= i < |Units| ==> !EndsWith(t, Units[i].suffix)
    ensures Factor(t) == 1
  {
    assert Units[0..] == Units;
    FactorInNoMatch(t, 0);
  }

  // ---------------------------------------------------------------------------
  // Round trips

  /** A string without surrounding white space or lower-case letters is left
      as it is by line 6. */
  lemma NormalizeCanonical(x: string)
    requires x == [] || (!IsWhiteSpace(x[0]) && !IsWhiteSpace(x[|x| - 1]))
    requires forall i :: 0 <= i < |x| ==> !('a' <= x[i] <= 'z')
    ensures Normalize(x) == x
  {
    assert TrimStart(x) == x;
    assert TrimEnd(x) == x;
  }

  lemma {:induction false} LeadingDigitsOfDigitsThen(d: string, x: string)
    requires AllDigits(d) && (x == [] || !IsDigit(x[0]))
    ensures LeadingDigits(d + x) == d
  {
    if d != [] {
      assert (d + x)[1..] == d[1..] + x;
      LeadingDigitsOfDigitsThen(d[1..], x);
    }
  }

  /** A digit run followed by text that starts with a non-digit and ends in an
      upper-case letter is not a plain integer, is left alone by line 6, and
      its leading digits are exactly the run. */
  lemma DigitsThenText(d: string, x: string)
    requires d != [] && AllDigits(d)
    requires x != [] && !IsDigit(x[0]) && IsUpperLetter(x[|x| - 1])
    requires IsAscii(x) && forall i :: 0 <= i < |x| ==> !('a' <= x[i] <= 'z')
    ensures IsAscii(d + x) && Normalize(d + x) == d + x
    ensures TryParseLong(d + x) == None
    ensures LeadingDigits(d + x) == d
  {
    var t := d + x;
    assert IsAscii(d);
    AsciiAppend(d, x);
    forall i | 0 <= i < |t| ensures !('a' <= t[i] <= 'z') {
      if i < |d| { assert t[i] == d[i]; } else { assert t[i] == x[i - |d|]; }
    }
    NormalizeCanonical(t);
    assert t[0] == d[0] && t[|t| - 1] == x[|x| - 1];
    assert !IsDigit(t[|t| - 1]);
    assert !AllDigits(t);
    TryParseLongOfBare(t);
    LeadingDigitsOfDigitsThen(d, x);
  }

  /** A plain integer in the range of `long`, written in decimal, is returned
      unchanged ("-5" gives -5); no suffix logic runs. */
  lemma ParseSizeOfInteger(n: int)
    requires Longs.Min <= n <= Longs.Max
    ensures IsAscii(SignedDecimal(n)) && ExactInDouble(Normalize(SignedDecimal(n)))
    ensures ParseSize(SignedDecimal(n)) == Ok(n)
  {
    var d := SignedDecimal(n);
    SignedDecimalShape(n);
    assert d + [] == d;
    ParseSizeOfPlainInteger(d, []);
  }

  lemma SignedDecimalShape(n: int)
    ensures var d := SignedDecimal(n);
      IsSignedDigits(d) && SignedValue(d) == n && IsDigit(d[|d| - 1])
      && forall i :: 0 <= i < |d| ==> d[i] == '-' || IsDigit(d[i])
  {
    var d := SignedDecimal(n);
    if n < 0 {
      var digits := Decimal(-n);
      assert d[0] == '-' && d[1..] == digits;
      forall i | 0 < i < |d| ensures IsDigit(d[i]) { assert d[i] == digits[i - 1]; }
    }
  }

  /** Any string made of a digit run and then text that starts with a
      non-digit, ends in a letter and has no lower-case letter parses to the
      run's value times the factor its ending selects ("16 MB" gives
      16,000,000, "007KB" gives 7,000). */
  lemma ParseSizeOfDigitsThen(d: string, x: string)
    requires d != [] && AllDigits(d)
    requires x != [] && !IsDigit(x[0]) && IsUpperLetter(x[|x| - 1])
    requires IsAscii(x) && forall i :: 0 <= i < |x| ==> !('a' <= x[i] <= 'z')
    requires DigitsValue(d) * Factor(d + x) <= MaxExactDouble
    ensures IsAscii(d + x) && ExactInDouble(Normalize(d + x))
    ensures ParseSize(d + x) == Ok(DigitsValue(d) * Factor(d + x))
  {
    DigitsThenText(d, x);
  }

  /** `DropTrailingNuls` removes exactly the NULs appended to a string that
      does not itself end in one. */
  lemma {:induction false} DropNulsOfPadded(u: string, z: string)
    requires u == [] || u[|u| - 1] != '\0'
    requires forall i :: 0 <= i < |z| ==> z[i] == '\0'
    ensures DropTrailingNuls(u + z) == u
  {
    if z == [] {
      assert u + z == u;
    } else {
      var z' := z[..|z| - 1];
      assert (u + z)[..|u + z| - 1] == u + z';
      DropNulsOfPadded(u, z');
    }
  }

  /** Every text `long.TryParse` reads as an in-range integer without help
      from white space (an optional sign, any digits including leading zeros,
      trailing NULs) is returned as its value: "+5", "007", "-0" and "5\0"
      give 5, 7, 0 and 5. */
  lemma ParseSizeOfPlainInteger(u: string, z: string)
    requires IsSignedDigits(u) && Longs.Min <= SignedValue(u) <= Longs.Max
    requires forall i :: 0 <= i < |z| ==> z[i] == '\0'
    ensures IsAscii(u + z) && ExactInDouble(Normalize(u + z))
    ensures ParseSize(u + z) == Ok(SignedValue(u))
  {
    var t := u + z;
    forall i | 0 <= i < |t|
      ensures t[i] <= '\U{7F}' && !('a' <= t[i] <= 'z') && !IsWhiteSpace(t[i])
    {
      if i < |u| {
        assert t[i] == u[i];
        if i > 0 { assert IsDigit(u[1..][i - 1]); }
      } else {
        assert t[i] == z[i - |u|];
      }
    }
    NormalizeCanonical(t);
    assert IsDigit(u[|u| - 1]) by {
      if u[0] == '+' || u[0] == '-' { assert u[|u| - 1] == u[1..][|u| - 2]; }
    }
    DropNulsOfPadded(u, z);
    assert TrimStart(u) == u;
    assert TrimEnd(u) == u;
  }

  /** A digit run followed by a table suffix in upper case gives the number
      times that suffix's factor ("16MB" gives 16,000,000). */
  lemma ParseSizeOfScaled(n: nat, i: nat)
    requires i < |Units| && n * Units[i].factor <= MaxExactDouble
    ensures IsAscii(Decimal(n) + Units[i].suffix)
    ensures ExactInDouble(Normalize(Decimal(n) + Units[i].suffix))
    ensures ParseSize(Decimal(n) + Units[i].suffix) == Ok(n * Units[i].factor)
  {
    var u := Units[i].suffix;
    UnitShape(i);
    UpperLettersText(u);
    assert (Decimal(n) + u)[|Decimal(n) + u| - |u|..] == u;
    FactorOfSuffix(Decimal(n) + u, i);
    ParseSizeOfDigitsThen(Decimal(n), u);
  }

  lemma UpperLettersText(x: string)
    requires x != [] && AllUpperLetters(x)
    ensures !IsDigit(x[0]) && IsUpperLetter(x[|x| - 1]) && IsAscii(x)
    ensures forall i :: 0 <= i < |x| ==> !('a' <= x[i] <= 'z')
  {
  }

  /** A digit run followed by an upper-case ending that is not in the table
      gives the number itself, factor 1 ("16XB" gives 16). */
  lemma ParseSizeOfOtherSuffix(n: nat, x: string)
    requires n <= MaxExactDouble
    requires x != [] && AllUpperLetters(x)
    requires forall i :: 0 <= i < |Units| ==> !EndsWith(x, Units[i].suffix)
    ensures IsAscii(Decimal(n) + x) && ExactInDouble(Normalize(Decimal(n) + x))
    ensures ParseSize(Decimal(n) + x) == Ok(n)
  {
    var d := Decimal(n);
    UpperLettersText(x);
    forall i | 0 <= i < |Units| ensures !EndsWith(d + x, Units[i].suffix) {
      NoUnitEndsDigitsThen(d, x, i);
    }
    FactorOfOtherEnding(d + x);
    ParseSizeOfDigitsThen(d, x);
  }

  /** Table suffixes are letters only, so one that ends digits followed by
      letters already ends the letters. */
  lemma NoUnitEndsDigitsThen(d: string, x: string, i: nat)
    requires d != [] && AllDigits(d) && AllUpperLetters(x)
    requires i < |Units| && !EndsWith(x, Units[i].suffix)
    ensures !EndsWith(d + x, Units[i].suffix)
  {
    var u := Units[i].suffix;
    UnitShape(i);
    var t := d + x;
    if |u| <= |x| {
      assert x[|x| - |u|..] == t[|t| - |u|..];
    } else if |u| <= |t| {
      var k := |u| - |x| - 1;
      assert t[|t| - |u|..][k] == t[|d| - 1] == d[|d| - 1];
      assert IsUpperLetter(u[k]);
    }
  }

  /** Only the leading digit run counts: a fractional part is dropped, so
      "1.5MB" gives 1,000,000 rather than 1,500,000. */
  lemma ParseSizeOfFraction(n: nat, m: nat, i: nat)
    requires i < |Units| && n * Units[i].factor <= MaxExactDouble
    ensures IsAscii(Decimal(n) + "." + Decimal(m) + Units[i].suffix)
    ensures ExactInDouble(Normalize(Decimal(n) + "." + Decimal(m) + Units[i].suffix))
    ensures ParseSize(Decimal(n) + "." + Decimal(m) + Units[i].suffix) == Ok(n * Units[i].factor)
  {
    var u := Units[i].suffix;
    var x := "." + Decimal(m) + u;
    assert Decimal(n) + "." + Decimal(m) + u == Decimal(n) + x;
    FractionThenSuffix(m, i);
    assert (Decimal(n) + x)[|Decimal(n) + x| - |u|..] == x[|x| - |u|..];
    FactorOfSuffix(Decimal(n) + x, i);
    ParseSizeOfDigitsThen(Decimal(n), x);
  }

  lemma FractionThenSuffix(m: nat, i: nat)
    requires i < |Units|
    ensures var x := "." + Decimal(m) + Units[i].suffix;
      x != [] && !IsDigit(x[0]) && IsUpperLetter(x[|x| - 1]) && IsAscii(x)
      && (forall k :: 0 <= k < |x| ==> !('a' <= x[k] <= 'z'))
      && EndsWith(x, Units[i].suffix)
  {
    var u := Units[i].suffix;
    UnitShape(i);
    var v := "." + Decimal(m);
    var x := v + u;
    assert x == "." + Decimal(m) + u;
    assert IsAscii(u);
    AsciiAppend(v, u);
    assert x[|x| - |u|..] == u;
    forall k | 0 <= k < |x| ensures !('a' <= x[k] <= 'z') {
      if k < |v| {
        if k > 0 { assert x[k] == Decimal(m)[k - 1]; }
      } else {
        assert x[k] == u[k - |v|];
      }
    }
  }

  /** A sign is accepted only on the plain-integer path: a signed number with
      a table suffix has no leading digit and fails ("+5MB", "-5MB"). */
  lemma ParseSizeOfSignedScaled(sign: char, n: nat, i: nat)
    requires sign == '+' || sign == '-'
    requires i < |Units|
    ensures IsAscii([sign] + Decimal(n) + Units[i].suffix)
    ensures ExactInDouble(Normalize([sign] + Decimal(n) + Units[i].suffix))
    ensures ParseSize([sign] + Decimal(n) + Units[i].suffix) == Err(FormatError)
  {
    var t := [sign] + Decimal(n) + Units[i].suffix;
    UnitShape(i);
    SignThenText(sign, Decimal(n), Units[i].suffix);
    NormalizeCanonical(t);
    TryParseLongOfBare(t);
    assert !IsSignedDigits(t);
    assert TryParseLong(t) == None;
    assert LeadingDigits(t) == [];
  }

  lemma SignThenText(sign: char, d: string, u: string)
    requires sign == '+' || sign == '-'
    requires AllDigits(d) && u != [] && AllUpperLetters(u)
    ensures var t := [sign] + d + u;
      IsAscii(t) && t[0] == sign && !IsUpperLetter(t[0]) && IsUpperLetter(t[|t| - 1])
      && (forall k :: 0 <= k < |t| ==> !('a' <= t[k] <= 'z'))
      && !AllDigits(t[1..])
  {
    var v := d + u;
    var t := [sign] + v;
    assert t == [sign] + d + u;
    assert t[1..] == v;
    assert v[|v| - 1] == u[|u| - 1];
    forall k | 0 <= k < |t| ensures t[k] <= '\U{7F}' && !('a' <= t[k] <= 'z') {
      if k > 0 {
        assert t[k] == v[k - 1];
        if k - 1 < |d| { assert v[k - 1] == d[k - 1]; } else { assert v[k - 1] == u[k - 1 - |d|]; }
      }
    }
  }

  // ---------------------------------------------------------------------------
  // Concrete examples, each an instance of the lemmas above. The string is a
  // parameter fixed by the precondition rather than a literal in the
  // conclusion, which keeps the verifier from evaluating `ParseSize` on it
  // symbol by symbol.

  /** First example of the comment on ParseChunkSize.cs line 5. */
  lemma ParseSizeExample16MB(s: string)
    requires s == "16MB"
    ensures IsAscii(s) && ExactInDouble(Normalize(s))
    ensures ParseSize(s) == Ok(16_000_000)
  {
    var n: nat, i: nat := 16, 1;
    assert Decimal(n) == Decimal(1) + ['6'];
    assert s == Decimal(n) + Units[i].suffix;
    ParseSizeOfScaled(n, i);
  }

  /** Second example of the comment on ParseChunkSize.cs line 5. */
  lemma ParseSizeExample4MiB(s: string)
    requires s == "4MiB"
    ensures IsAscii(s) && ExactInDouble(Normalize(s))
    ensures ParseSize(s) == Ok(4_194_304)
  {
    var n: nat, i: nat := 4, 0;
    var t := Decimal(n) + Units[i].suffix;
    assert t == "4MIB";
    ParseSizeOfScaled(n, i);
    assert ToUpperInvariant(t) == ToUpperInvariant(s);
    ParseSizeIgnoresCase(t, s);
  }

  /** Lower case and surrounding white space. */
  lemma ParseSizeExamplePadded(s: string)
    requires s == " 4mib "
    ensures IsAscii(s) && ExactInDouble(Normalize(s))
    ensures ParseSize(s) == Ok(4_194_304)
  {
    var n: nat, i: nat := 4, 0;
    var t := Decimal(n) + Units[i].suffix;
    var w, lower := " ", "4mib";
    assert t == "4MIB" && s == w + lower + w;
    ParseSizeOfScaled(n, i);
    assert ToUpperInvariant(t) == ToUpperInvariant(lower);
    ParseSizeIgnoresCase(t, lower);
    ParseSizeIgnoresPadding(w, lower, w);
  }

  /** The fraction is dropped. */
  lemma ParseSizeExampleFraction(s: string)
    requires s == "1.5MB"
    ensures IsAscii(s) && ExactInDouble(Normalize(s))
    ensures ParseSize(s) == Ok(1_000_000)
  {
    var n: nat, m: nat, i: nat := 1, 5, 1;
    assert s == Decimal(n) + "." + Decimal(m) + Units[i].suffix;
    ParseSizeOfFraction(n, m, i);
  }

  /** An ending not in the table scales by 1. */
  lemma ParseSizeExampleOtherSuffix(s: string)
    requires s == "16XB"
    ensures IsAscii(s) && ExactInDouble(Normalize(s))
    ensures ParseSize(s) == Ok(16)
  {
    var n: nat, x := 16, "XB";
    assert Decimal(n) == Decimal(1) + ['6'];
    assert s == Decimal(n) + x;
    forall i | 0 <= i < |Units| ensures !EndsWith(x, Units[i].suffix) {
      assert x[|x| - 2] == 'X';
    }
    ParseSizeOfOtherSuffix(n, x);
  }

  /** A signed plain integer is returned as it is. */
  lemma ParseSizeExampleNegative(s: string)
    requires s == "-5"
    ensures IsAscii(s) && ExactInDouble(Normalize(s))
    ensures ParseSize(s) == Ok(-5)
  {
    var n := -5;
    assert s == SignedDecimal(n);
    ParseSizeOfInteger(n);
  }

  /** A sign before a suffixed size leaves no leading digit. */
  lemma ParseSizeExampleSignedSuffix(s: string)
    requires s == "+5MB" || s == "-5MB"
    ensures IsAscii(s) && ExactInDouble(Normalize(s))
    ensures ParseSize(s) == Err(FormatError)
  {
    var n: nat, i: nat := 5, 1;
    assert s == [s[0]] + Decimal(n) + Units[i].suffix;
    ParseSizeOfSignedScaled(s[0], n, i);
  }

  /** White space between the number and the suffix is kept by the trim on
      line 6 and does not disturb the suffix test. */
  lemma ParseSizeExampleSpaced(s: string)
    requires s == "16 MB"
    ensures IsAscii(s) && ExactInDouble(Normalize(s))
    ensures ParseSize(s) == Ok(16_000_000)
  {
    var d, x := "16", " MB";
    assert s == d + x;
    assert DigitsValue(d) == 16;
    assert EndsWith(s, Units[1].suffix);
    FactorOfSuffix(s, 1);
    ParseSizeOfDigitsThen(d, x);
  }

  /** A sign and leading zeros are accepted on the plain-integer path. */
  lemma ParseSizeExampleSignedZeros(s: string)
    requires s == "+007"
    ensures IsAscii(s) && ExactInDouble(Normalize(s))
    ensures ParseSize(s) == Ok(7)
  {
    assert s + [] == s;
    var d := s[1..];
    var d1, d2 := d[..1], d[..2];
    assert d1[..0] == [] && d1[0] == '0';
    assert DigitsValue(d1) == 0;
    assert d2[..1] == d1 && d2[1] == '0';
    assert DigitsValue(d2) == 0;
    assert d[..2] == d2 && d[2] == '7';
    assert SignedValue(s) == DigitsValue(d) == 7;
    ParseSizeOfPlainInteger(s, []);
  }

  /** A suffix without a number fails. */
  lemma ParseSizeExampleNoNumber(s: string)
    requires s == "MB"
    ensures IsAscii(s) && ExactInDouble(Normalize(s))
    ensures ParseSize(s) == Err(FormatError)
  {
    NormalizeCanonical(s);
    TryParseLongOfBare(s);
  }
}
