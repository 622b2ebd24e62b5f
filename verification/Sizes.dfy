/** Decimal sizes such as `1.5GB`: a size is accepted exactly when it is a whole number of bytes. */
module Sizes {
  import opened Basics

  const REFUSED := Failure(InvalidArgument)

  const U64_LIMIT: nat := 0x1_0000_0000_0000_0000

  predicate Digit(c: char) {
    '0' <= c <= '9'
  }

  predicate AllDigits(s: string) {
    forall i | 0 <= i < |s| :: Digit(s[i])
  }

  function Pow10(n: nat): (p: nat)
    ensures p > 0
  {
    if n == 0 then 1 else 10 * Pow10(n - 1)
  }

  /** The number a string of digits denotes. */
  function Value(s: string): nat
    requires AllDigits(s)
  {
    if s == "" then 0 else 10 * Value(s[..|s| - 1]) + (s[|s| - 1] as int - '0' as int)
  }

  /** `str::parse::<u64>` on digits. */
  function ParseU64(s: string): Result<nat>
    requires AllDigits(s)
  {
    if s != "" && Value(s) < U64_LIMIT then Success(Value(s)) else REFUSED
  }

  function CheckedMul(a: nat, b: nat): Result<nat> {
    if a * b < U64_LIMIT then Success(a * b) else REFUSED
  }

  function CheckedAdd(a: nat, b: nat): Result<nat> {
    if a + b < U64_LIMIT then Success(a + b) else REFUSED
  }

  function TrimZeros(s: string): string {
    if s != "" && s[|s| - 1] == '0' then TrimZeros(s[..|s| - 1]) else s
  }

  /** The bytes of the digits after the point. */
  function FractionBytes(digits: string, places: nat): Result<nat>
    requires AllDigits(digits) && AllDigits(TrimZeros(digits))
  {
    var significant := TrimZeros(digits);
    if |significant| > places then REFUSED
    else if significant == "" then Success(0)
    else match ParseU64(significant)
      case Failure(error) => Failure(error)
      case Success(fraction) => CheckedMul(fraction, Pow10(places - |significant|))
  }

  /** The parts of a number at its points, as `split('.')` yields them. */
  function SplitAtPoints(s: string): (parts: seq<string>)
    ensures parts != []
  {
    if s == "" then [""]
    else
      var rest := SplitAtPoints(s[1..]);
      if s[0] == '.' then [""] + rest else [[s[0]] + rest[0]] + rest[1..]
  }

  /** `amount` times the unit, plus the fraction's bytes, with every overflow checked. */
  function Combine(amount: Result<nat>, unit: nat, fraction: Result<nat>): Result<nat> {
    match amount
    case Failure(error) => Failure(error)
    case Success(whole) =>
      match CheckedMul(whole, unit)
      case Failure(error) => Failure(error)
      case Success(wholeBytes) =>
        match fraction
        case Failure(error) => Failure(error)
        case Success(fractionBytes) => CheckedAdd(wholeBytes, fractionBytes)
  }

  /** A number with an optional fraction, in units of ten to the power `places` bytes. */
  function ParseDecimalBytes(number: string, places: nat): Result<nat> {
    var parts := SplitAtPoints(number);
    var whole := parts[0];
    if |parts| > 2 then REFUSED
    else if whole == "" || !AllDigits(whole) || (|parts| == 2 && (parts[1] == "" || !AllDigits(parts[1]))) then REFUSED
    else if |parts| == 1 then Combine(ParseU64(whole), Pow10(places), Success(0))
    else
      TrimmedDigits(parts[1]);
      Combine(ParseU64(whole), Pow10(places), FractionBytes(parts[1], places))
  }

  function Upper(c: char): char {
    if 'a' <= c <= 'z' then (c as int - 32) as char else c
  }

  /** The exponent of a unit, whatever its case. */
  function Places(unit: string): Result<nat>
    requires |unit| == 2
  {
    if Upper(unit[1]) != 'B' then REFUSED
    else if Upper(unit[0]) == 'M' then Success(6)
    else if Upper(unit[0]) == 'G' then Success(9)
    else REFUSED
  }

  function ParseSize(input: string): Result<nat> {
    if input == "" then REFUSED
    else if input[0] == '-' then REFUSED
    else if exists i | 0 <= i < |input| :: input[i] >= 128 as char then REFUSED
    else if forall i | 0 <= i < |input| :: Digit(input[i]) || input[i] == '.' then REFUSED
    else if |input| < 2 then REFUSED
    else match Places(input[|input| - 2..])
      case Failure(error) => Failure(error)
      case Success(places) => ParseDecimalBytes(input[..|input| - 2], places)
  }

  /** Digits, or digits, a point and digits. */
  datatype Number = Number(whole: string, fraction: string) {
    predicate Valid() {
      whole != "" && AllDigits(whole) && AllDigits(fraction)
    }

    function Text(): string {
      if fraction == "" then whole else whole + "." + fraction
    }

    /** The number is `Numerator() / Pow10(|fraction|)`. */
    function Numerator(): nat
      requires Valid()
    {
      Value(whole) * Pow10(|fraction|) + Value(fraction)
    }
  }

  /** `bytes` is the number times ten to the power `places`, exactly. */
  ghost predicate IsBytes(n: Number, places: nat, bytes: nat)
    requires n.Valid()
  {
    bytes * Pow10(|n.fraction|) == n.Numerator() * Pow10(places)
  }

  lemma {:induction false} TrimmedDigits(s: string)
    requires AllDigits(s)
    ensures AllDigits(TrimZeros(s)) && |TrimZeros(s)| <= |s|
    ensures TrimZeros(s) != "" ==> TrimZeros(s)[|TrimZeros(s)| - 1] != '0'
    ensures Value(s) == Value(TrimZeros(s)) * Pow10(|s| - |TrimZeros(s)|)
  {
    if s != "" && s[|s| - 1] == '0' {
      var front := s[..|s| - 1];
      TrimmedDigits(front);
      var k := |front| - |TrimZeros(front)|;
      Regroup(Value(TrimZeros(front)), Pow10(k));
    }
  }

  lemma Regroup(a: nat, b: nat)
    ensures 10 * (a * b) == a * (10 * b)
  {
  }

  lemma {:induction false} ValueBounded(s: string)
    requires AllDigits(s)
    ensures Value(s) < Pow10(|s|)
  {
    if s != "" { ValueBounded(s[..|s| - 1]); }
  }

  lemma {:induction false} Pow10Add(a: nat, b: nat)
    ensures Pow10(a + b) == Pow10(a) * Pow10(b)
    decreases b
  {
    if b > 0 {
      Pow10Add(a, b - 1);
      Regroup(Pow10(a), Pow10(b - 1));
    }
  }

  lemma {:induction false} SplitShort(s: string)
    requires '.' !in s
    ensures SplitAtPoints(s) == [s]
  {
    if s != "" {
      SplitShort(s[1..]);
      assert [s[0]] + s[1..] == s;
    }
  }

  lemma {:induction false} SplitOnce(a: string, b: string)
    requires '.' !in a
    ensures SplitAtPoints(a + "." + b) == [a] + SplitAtPoints(b)
  {
    var s := a + "." + b;
    if a == "" {
      assert s[1..] == b;
    } else {
      assert s[1..] == a[1..] + "." + b;
      SplitOnce(a[1..], b);
      assert [a[0]] + a[1..] == a;
    }
  }

  /** Splitting and joining with points gives the string back. */
  lemma {:induction false} SplitJoins(s: string)
    ensures |SplitAtPoints(s)| == 1 ==> s == SplitAtPoints(s)[0]
    ensures |SplitAtPoints(s)| == 2 ==> s == SplitAtPoints(s)[0] + "." + SplitAtPoints(s)[1]
  {
    if s != "" {
      SplitJoins(s[1..]);
      var rest := SplitAtPoints(s[1..]);
      assert s == [s[0]] + s[1..];
      if s[0] != '.' && |rest| == 2 { assert [s[0]] + (rest[0] + "." + rest[1]) == ([s[0]] + rest[0]) + "." + rest[1]; }
    }
  }

  lemma Pow10Grows(a: nat, b: nat)
    requires a <= b
    ensures Pow10(a) <= Pow10(b)
  {
    Pow10Add(a, b - a);
    assert Pow10(a) * Pow10(b - a) >= Pow10(a) * 1;
  }

  lemma NineDigits()
    ensures Pow10(9) == 1_000_000_000 && Pow10(6) == 1_000_000
  {
    Pow10Add(3, 3);
    Pow10Add(6, 3);
    assert Pow10(3) == 1_000;
  }

  lemma Scaled(a: nat, b: nat, c: nat)
    requires a < b && c > 0
    ensures a * c < b * c
  {
  }

  /** The fraction's bytes, and when there are none. */
  lemma FractionExact(digits: string, places: nat)
    requires AllDigits(digits) && places <= 9 && AllDigits(TrimZeros(digits))
    ensures |TrimZeros(digits)| > places ==> FractionBytes(digits, places) == REFUSED
    ensures |TrimZeros(digits)| <= places ==>
              FractionBytes(digits, places) == Success(Value(TrimZeros(digits)) * Pow10(places - |TrimZeros(digits)|))
  {
    var t := TrimZeros(digits);
    if |t| <= places {
      ValueBounded(t);
      Pow10Grows(|t|, 9);
      NineDigits();
      Pow10Add(|t|, places - |t|);
      Pow10Grows(places, 9);
      Scaled(Value(t), Pow10(|t|), Pow10(places - |t|));
    }
  }

  lemma Multiply(a: nat, b: nat, c: nat)
    ensures a * b * c == a * (b * c) == b * c * a
  {
  }

  /** Shifting the point: with `k` significant digits the fraction is a whole number of bytes. */
  lemma FractionFits(t: nat, l: nat, k: nat, places: nat)
    requires k <= l && k <= places
    ensures t * Pow10(places - k) * Pow10(l) == t * Pow10(l - k) * Pow10(places)
  {
    Pow10Add(places - k, l);
    Pow10Add(l - k, places);
    Multiply(t, Pow10(places - k), Pow10(l));
    Multiply(t, Pow10(l - k), Pow10(places));
  }

  lemma Cancel(a: int, b: int, c: nat)
    requires c > 0 && a * c == b * c
    ensures a == b
  {
    assert (a - b) * c == 0;
  }

  lemma TooFine(t: nat, m: int, q: nat, pj: nat)
    requires pj > 0 && t % 10 != 0
    ensures m * (pj * (10 * q)) != t * pj
  {
    if m * (pj * (10 * q)) == t * pj {
      assert m * (pj * (10 * q)) == (10 * (m * q)) * pj;
      Cancel(10 * (m * q), t, pj);
    }
  }

  /** With more significant digits than places it is none: the last digit would have to be zero. */
  lemma FractionTooFine(t: nat, l: nat, k: nat, places: nat, m: int)
    requires places < k <= l && t % 10 != 0
    ensures m * Pow10(l) != t * Pow10(l - k) * Pow10(places)
  {
    var j := l - k + places;
    Pow10Add(l - k, places);
    Pow10Add(j, k - places);
    Multiply(t, Pow10(l - k), Pow10(places));
    TooFine(t, m, Pow10(k - places - 1), Pow10(j));
  }

  lemma LastDigit(s: string)
    requires AllDigits(s) && s != "" && s[|s| - 1] != '0'
    ensures Value(s) % 10 != 0
  {
  }

  lemma BytesUnique(n: Number, places: nat, a: nat, b: nat)
    requires n.Valid() && IsBytes(n, places, a) && IsBytes(n, places, b)
    ensures a == b
  {
    Cancel(a, b, Pow10(|n.fraction|));
  }

  lemma Distribute(a: int, b: int, c: int)
    ensures (a + b) * c == a * c + b * c
  {
  }

  /** The exact value of a number whose fraction fits, and the absence of one otherwise. */
  lemma NumberBytes(n: Number, places: nat)
    requires n.Valid()
    ensures var t := TrimZeros(n.fraction);
            AllDigits(t) &&
            (|t| <= places ==> IsBytes(n, places, Value(n.whole) * Pow10(places) + Value(t) * Pow10(places - |t|)))
    ensures |TrimZeros(n.fraction)| > places ==> forall b: nat :: !IsBytes(n, places, b)
  {
    var t, l, p := TrimZeros(n.fraction), |n.fraction|, Pow10(places);
    TrimmedDigits(n.fraction);
    var w := Value(n.whole);
    Distribute(w * Pow10(l), Value(n.fraction), p);
    Multiply(w, Pow10(l), p);
    Multiply(w, p, Pow10(l));
    if |t| <= places {
      FractionFits(Value(t), l, |t|, places);
      Distribute(w * p, Value(t) * Pow10(places - |t|), Pow10(l));
    } else {
      LastDigit(t);
      forall b: nat ensures !IsBytes(n, places, b) {
        FractionTooFine(Value(t), l, |t|, places, b - w * p);
        Distribute(b - w * p, w * p, Pow10(l));
      }
    }
  }

  lemma {:induction false} NoPoints(s: string)
    requires AllDigits(s)
    ensures '.' !in s
  {
  }

  lemma AtLeastOnce(a: nat, b: nat)
    requires b > 0
    ensures a * b >= a
  {
  }

  lemma CombineNumbers(w: nat, unit: nat, wholeBytes: nat, fractionBytes: nat)
    requires wholeBytes == w * unit && wholeBytes >= w
    ensures Combine(if w < U64_LIMIT then Success(w) else REFUSED, unit, Success(fractionBytes)) ==
            if wholeBytes + fractionBytes < U64_LIMIT then Success(wholeBytes + fractionBytes) else REFUSED
  {
  }

  lemma CombineExact(whole: string, unit: nat, fractionBytes: nat)
    requires whole != "" && AllDigits(whole) && unit > 0
    ensures var total := Value(whole) * unit + fractionBytes;
            Combine(ParseU64(whole), unit, Success(fractionBytes)) == if total < U64_LIMIT then Success(total) else REFUSED
  {
    AtLeastOnce(Value(whole), unit);
    CombineNumbers(Value(whole), unit, Value(whole) * unit, fractionBytes);
  }

  /** The text of a number splits into its parts. */
  lemma TextSplits(n: Number)
    requires n.Valid()
    ensures SplitAtPoints(n.Text()) == if n.fraction == "" then [n.whole] else [n.whole, n.fraction]
  {
    NoPoints(n.whole);
    NoPoints(n.fraction);
    if n.fraction == "" {
      SplitShort(n.whole);
    } else {
      SplitOnce(n.whole, n.fraction);
      SplitShort(n.fraction);
    }
  }

  /** The bytes of a number whose fraction fits. */
  function Total(n: Number, places: nat): nat
    requires n.Valid() && AllDigits(TrimZeros(n.fraction)) && |TrimZeros(n.fraction)| <= places
  {
    Value(n.whole) * Pow10(places) + Value(TrimZeros(n.fraction)) * Pow10(places - |TrimZeros(n.fraction)|)
  }

  lemma TextFits(n: Number, places: nat)
    requires n.Valid() && places <= 9 && AllDigits(TrimZeros(n.fraction))
    ensures |TrimZeros(n.fraction)| > places ==> ParseDecimalBytes(n.Text(), places) == REFUSED
    ensures |TrimZeros(n.fraction)| <= places ==>
              ParseDecimalBytes(n.Text(), places) == if Total(n, places) < U64_LIMIT then Success(Total(n, places)) else REFUSED
  {
    TextSplits(n);
    FractionExact(n.fraction, places);
    if |TrimZeros(n.fraction)| <= places {
      CombineExact(n.whole, Pow10(places), Value(TrimZeros(n.fraction)) * Pow10(places - |TrimZeros(n.fraction)|));
    }
  }

  /** A number in text form is parsed to its bytes, if these are a whole number below the limit. */
  lemma TextParsed(n: Number, places: nat)
    requires n.Valid() && places <= 9
    ensures ParseDecimalBytes(n.Text(), places).Success? ==>
              ParseDecimalBytes(n.Text(), places).value < U64_LIMIT && IsBytes(n, places, ParseDecimalBytes(n.Text(), places).value)
    ensures forall b: nat | b < U64_LIMIT && IsBytes(n, places, b) :: ParseDecimalBytes(n.Text(), places) == Success(b)
  {
    NumberBytes(n, places);
    TextFits(n, places);
    if |TrimZeros(n.fraction)| <= places {
      forall b: nat | IsBytes(n, places, b) ensures b == Total(n, places) { BytesUnique(n, places, b, Total(n, places)); }
    }
  }

  /** What is accepted is the text of a number. */
  lemma AcceptedIsNumber(text: string, places: nat) returns (n: Number)
    requires ParseDecimalBytes(text, places).Success?
    ensures n.Valid() && text == n.Text()
  {
    var parts := SplitAtPoints(text);
    SplitJoins(text);
    n := Number(parts[0], if |parts| == 2 then parts[1] else "");
  }

  /**
   * A number is accepted exactly when it has digits with an optional fraction and its value is a
   * whole number of bytes below the limit, which is then the result.
   */
  lemma ParseExact(text: string, places: nat, bytes: nat)
    requires places <= 9
    ensures ParseDecimalBytes(text, places) == Success(bytes) <==>
              bytes < U64_LIMIT && exists n: Number :: n.Valid() && text == n.Text() && IsBytes(n, places, bytes)
  {
    if ParseDecimalBytes(text, places) == Success(bytes) {
      var n := AcceptedIsNumber(text, places);
      TextParsed(n, places);
    }
    if n: Number :| n.Valid() && text == n.Text() && IsBytes(n, places, bytes) {
      TextParsed(n, places);
    }
  }

  lemma UnitsAreLetters(unit: string)
    requires |unit| == 2 && Places(unit).Success?
    ensures Places(unit).value <= 9 && forall i | 0 <= i < 2 :: !Digit(unit[i]) && unit[i] != '.' && unit[i] < 128 as char
  {
  }

  lemma TextIsPlain(n: Number)
    requires n.Valid()
    ensures |n.Text()| > 0 && Digit(n.Text()[0]) && forall i | 0 <= i < |n.Text()| :: n.Text()[i] < 128 as char
  {
    assert n.Text()[0] == n.whole[0];
  }

  /** The checks before the units refuse no number with a unit. */
  lemma SizeChecks(input: string, n: Number)
    requires n.Valid() && |input| >= 2 && input[..|input| - 2] == n.Text() && Places(input[|input| - 2..]).Success?
    ensures ParseSize(input) == ParseDecimalBytes(n.Text(), Places(input[|input| - 2..]).value)
  {
    var text, unit := input[..|input| - 2], input[|input| - 2..];
    UnitsAreLetters(unit);
    TextIsPlain(n);
    assert input[0] == text[0];
    assert input[|input| - 1] == unit[1];
    forall i | 0 <= i < |input| ensures input[i] < 128 as char {
      if i < |text| { assert input[i] == text[i]; } else { assert input[i] == unit[i - |text|]; }
    }
  }

  /**
   * A size is accepted exactly when it is digits with an optional fraction and a unit, and stands
   * for a whole number of bytes below two to the 64th.
   */
  lemma SizeExact(input: string, bytes: nat)
    ensures ParseSize(input) == Success(bytes) <==>
              && |input| >= 2 && Places(input[|input| - 2..]).Success? && bytes < U64_LIMIT
              && exists n: Number ::
                   n.Valid() && input[..|input| - 2] == n.Text() && IsBytes(n, Places(input[|input| - 2..]).value, bytes)
  {
    if |input| >= 2 && Places(input[|input| - 2..]).Success? {
      var text, places := input[..|input| - 2], Places(input[|input| - 2..]).value;
      UnitsAreLetters(input[|input| - 2..]);
      ParseExact(text, places, bytes);
      if n: Number :| n.Valid() && text == n.Text() && IsBytes(n, places, bytes) {
        SizeChecks(input, n);
      }
    }
  }

  function DigitOf(d: nat): char
    requires d < 10
  {
    '0' + d as char
  }

  function Digits(k: nat): string {
    if k < 10 then [DigitOf(k)] else Digits(k / 10) + [DigitOf(k % 10)]
  }

  /** Exactly `width` digits. */
  function Padded(m: nat, width: nat): string {
    if width == 0 then "" else Padded(m / 10, width - 1) + [DigitOf(m % 10)]
  }

  lemma {:induction false} DigitsValue(k: nat)
    ensures Digits(k) != "" && AllDigits(Digits(k)) && Value(Digits(k)) == k
  {
    if k >= 10 {
      DigitsValue(k / 10);
      assert Digits(k)[..|Digits(k)| - 1] == Digits(k / 10);
    }
  }

  lemma {:induction false} PaddedValue(m: nat, width: nat)
    requires m < Pow10(width)
    ensures |Padded(m, width)| == width && AllDigits(Padded(m, width)) && Value(Padded(m, width)) == m
    decreases width
  {
    if width > 0 {
      PaddedValue(m / 10, width - 1);
      assert Padded(m, width)[..width - 1] == Padded(m / 10, width - 1);
    }
  }

  /** A byte count in gigabytes with nine decimals. */
  function Gigabytes(bytes: nat): string {
    Digits(bytes / 1_000_000_000) + "." + Padded(bytes % 1_000_000_000, 9) + "GB"
  }

  /** The units are MB and GB, in any case of the letters. */
  lemma PlacesExactly(unit: string)
    requires |unit| == 2
    ensures Places(unit) == Success(6) <==> (unit == "MB" || unit == "mb" || unit == "Mb" || unit == "mB")
    ensures Places(unit) == Success(9) <==> (unit == "GB" || unit == "gb" || unit == "Gb" || unit == "gB")
    ensures Places(unit).Success? ==> Places(unit) == Success(6) || Places(unit) == Success(9)
  {
    assert unit == [unit[0], unit[1]];
  }

  /** The same for gigabytes. */
  lemma GigabytesParseBack(bytes: nat)
    ensures bytes < U64_LIMIT ==> ParseSize(Gigabytes(bytes)) == Success(bytes)
    ensures bytes >= U64_LIMIT ==> ParseSize(Gigabytes(bytes)) == REFUSED
  {
    var n := Number(Digits(bytes / 1_000_000_000), Padded(bytes % 1_000_000_000, 9));
    NineDigits();
    DigitsValue(bytes / 1_000_000_000);
    PaddedValue(bytes % 1_000_000_000, 9);
    var input := Gigabytes(bytes);
    assert input == n.Text() + "GB";
    assert input[..|input| - 2] == n.Text() && input[|input| - 2..] == "GB";
    assert n.Numerator() == bytes && IsBytes(n, 9, bytes);
    TextParsed(n, 9);
    SizeChecks(input, n);
    if ParseSize(input).Success? { BytesUnique(n, 9, bytes, ParseSize(input).value); }
  }

  /** A byte count in megabytes with six decimals. */
  function Megabytes(bytes: nat): string {
    Digits(bytes / 1_000_000) + "." + Padded(bytes % 1_000_000, 6) + "MB"
  }

  /** Printing a byte count and parsing it back yields it again. */
  lemma MegabytesParseBack(bytes: nat)
    ensures bytes < U64_LIMIT ==> ParseSize(Megabytes(bytes)) == Success(bytes)
    ensures bytes >= U64_LIMIT ==> ParseSize(Megabytes(bytes)) == REFUSED
  {
    var n := Number(Digits(bytes / 1_000_000), Padded(bytes % 1_000_000, 6));
    NineDigits();
    DigitsValue(bytes / 1_000_000);
    PaddedValue(bytes % 1_000_000, 6);
    var input := Megabytes(bytes);
    assert input == n.Text() + "MB";
    assert input[..|input| - 2] == n.Text() && input[|input| - 2..] == "MB";
    assert n.Numerator() == bytes && IsBytes(n, 6, bytes);
    TextParsed(n, 6);
    SizeChecks(input, n);
    if ParseSize(input).Success? { BytesUnique(n, 6, bytes, ParseSize(input).value); }
  }
}
