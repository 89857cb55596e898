/** C strings as the driver prints them and the server searches them, and reading the
    printed numbers back. */
module Text {
  import opened Options

  // ----- printing -----

  function Digit(d: int): char
    requires 0 <= d < 10
  {
    ['0', '1', '2', '3', '4', '5', '6', '7', '8', '9'][d]
  }

  predicate IsDigit(c: char) {
    '0' <= c <= '9'
  }

  /** %d for a number that is not negative. */
  function Decimal(n: nat): (s: string)
    ensures |s| >= 1 && forall i :: 0 <= i < |s| ==> IsDigit(s[i])
  {
    if n < 10 then [Digit(n)] else Decimal(n / 10) + [Digit(n % 10)]
  }

  /** %d. */
  function Signed(n: int): string {
    if n < 0 then "-" + Decimal(-n) else Decimal(n)
  }

  /** %02d for a number below 100. */
  function TwoDigits(n: int): (s: string)
    requires 0 <= n < 100
    ensures |s| == 2 && IsDigit(s[0]) && IsDigit(s[1])
  {
    [Digit(n / 10), Digit(n % 10)]
  }

  /** C's division and remainder truncate toward zero. */
  function Quotient(a: int): int {
    if a < 0 then -(-a / 100) else a / 100
  }

  function Remainder(a: int): int {
    a - 100 * Quotient(a)
  }

  function Abs(a: int): nat {
    if a < 0 then -a else a
  }

  /** "%d.%02d" of hundredths, the way the driver splits them. */
  function Number(hundredths: int): string {
    Signed(Quotient(hundredths)) + "." + TwoDigits(Abs(Remainder(hundredths)))
  }

  // ----- reading numbers back -----

  function DigitValue(c: char): int {
    c as int - '0' as int
  }

  function ParseNat(s: string): int {
    if s == [] then 0 else 10 * ParseNat(s[..|s| - 1]) + DigitValue(s[|s| - 1])
  }

  /** "<int>.<two digits>", the integer with an optional minus sign, in hundredths. */
  function ParseNumber(s: string): int
    requires |s| >= 4
  {
    if s[0] == '-' then -ParseUnsigned(s[1..]) else ParseUnsigned(s)
  }

  function ParseUnsigned(s: string): int
    requires |s| >= 3
  {
    100 * ParseNat(s[..|s| - 3]) + ParseNat(s[|s| - 2..])
  }

  lemma ParseOneMore(s: string, c: char)
    ensures ParseNat(s + [c]) == 10 * ParseNat(s) + DigitValue(c)
  {
    assert (s + [c])[..|s|] == s;
  }

  lemma {:induction false} DecimalRoundTrip(n: nat)
    ensures ParseNat(Decimal(n)) == n
  {
    if n < 10 {
      ParseOneMore([], Digit(n));
      assert [] + [Digit(n)] == [Digit(n)];
    } else {
      DecimalRoundTrip(n / 10);
      ParseOneMore(Decimal(n / 10), Digit(n % 10));
    }
  }

  lemma TwoDigitsRoundTrip(n: int)
    requires 0 <= n < 100
    ensures ParseNat(TwoDigits(n)) == n
  {
    ParseOneMore([], Digit(n / 10));
    ParseOneMore([Digit(n / 10)], Digit(n % 10));
    assert [] + [Digit(n / 10)] == [Digit(n / 10)];
    assert [Digit(n / 10)] + [Digit(n % 10)] == TwoDigits(n);
    DigitIsItsValue(n / 10);
    DigitIsItsValue(n % 10);
  }

  lemma DigitIsItsValue(d: int)
    requires 0 <= d < 10
    ensures DigitValue(Digit(d)) == d
  {
  }

  lemma UnsignedRoundTrip(whole: nat, cents: int)
    requires 0 <= cents < 100
    ensures ParseUnsigned(Decimal(whole) + "." + TwoDigits(cents)) == 100 * whole + cents
  {
    var s := Decimal(whole) + "." + TwoDigits(cents);
    assert s[..|s| - 3] == Decimal(whole) && s[|s| - 2..] == TwoDigits(cents);
    DecimalRoundTrip(whole);
    TwoDigitsRoundTrip(cents);
  }

  lemma SplitHundredths(h: int)
    ensures h == 100 * Quotient(h) + Remainder(h) && Abs(Remainder(h)) < 100
    ensures h >= 0 ==> Quotient(h) >= 0 && Remainder(h) >= 0
    ensures h < 0 ==> Quotient(h) <= 0 && Remainder(h) <= 0
    ensures Quotient(h) == 0 <==> -100 < h < 100
  {
  }

  /** Reading a printed number gives it back, except that between -99 and -1 the whole part
      is 0 and its sign is lost. */
  lemma NumberRoundTrip(h: int)
    ensures |Number(h)| >= 4
    ensures ParseNumber(Number(h)) == if -100 < h < 0 then -h else h
    ensures ParseNumber(Number(h)) == h <==> !(-100 < h < 0)
  {
    hide Quotient, Remainder, Decimal, TwoDigits, ParseUnsigned;
    SplitHundredths(h);
    var unsigned := Decimal(Abs(Quotient(h))) + "." + TwoDigits(Abs(Remainder(h)));
    UnsignedRoundTrip(Abs(Quotient(h)), Abs(Remainder(h)));
    if Quotient(h) < 0 {
      assert Number(h) == "-" + unsigned && Number(h)[1..] == unsigned;
    } else {
      assert Number(h) == unsigned && IsDigit(unsigned[0]);
    }
  }

  /** The characters a printed number is made of. */
  predicate Numeric(c: char) {
    IsDigit(c) || c == '.' || c == '-'
  }

  lemma NumberIsNumeric(h: int)
    ensures forall i :: 0 <= i < |Number(h)| ==> Numeric(Number(h)[i])
  {
  }

  lemma DecimalShort(n: nat)
    requires n < 1000
    ensures |Decimal(n)| <= 3
  {
    assert n / 10 < 100 && n / 10 / 10 < 10;
    assert n / 10 >= 10 ==> |Decimal(n / 10 / 10)| == 1;
    assert n >= 10 ==> |Decimal(n / 10)| <= 2;
  }

  lemma NumberShort(h: int)
    requires -100000 < h < 100000
    ensures 1 <= |Number(h)| <= 7
  {
    DecimalShort(Abs(Quotient(h)));
  }

  // ----- buffers -----

  /** What snprintf leaves of a text in a buffer of the given size. */
  function Bounded(s: string, size: nat): string
    requires size >= 1
  {
    if |s| < size then s else s[..size - 1]
  }

  /** strstr: where the pattern first occurs. */
  function Find(s: string, pattern: string): (place: Option<nat>)
    ensures place.Some? ==> place.value + |pattern| <= |s|
  {
    if |s| < |pattern| then None
    else if s[..|pattern|] == pattern then Some(0)
    else
      match Find(s[1..], pattern)
      case None => None
      case Some(i) => Some(i + 1)
  }

  predicate Stands(s: string, pattern: string, k: nat) {
    k + |pattern| <= |s| && s[k..k + |pattern|] == pattern
  }

  lemma StandsInTail(s: string, pattern: string, k: nat)
    requires |s| >= 1 && k >= 1
    ensures Stands(s, pattern, k) <==> Stands(s[1..], pattern, k - 1)
  {
    if k + |pattern| <= |s| {
      var here, there := s[k..k + |pattern|], s[1..][k - 1..k - 1 + |pattern|];
      assert forall i :: 0 <= i < |pattern| ==> here[i] == there[i];
    }
  }

  /** Find answers with the first place where the pattern stands, and with None if there is none. */
  lemma {:induction false} FindIsFirst(s: string, pattern: string)
    requires pattern != []
    ensures match Find(s, pattern)
            case Some(k) => Stands(s, pattern, k) && forall j: nat :: j < k ==> !Stands(s, pattern, j)
            case None => forall j: nat :: !Stands(s, pattern, j)
  {
    if |s| >= |pattern| && s[..|pattern|] != pattern {
      FindIsFirst(s[1..], pattern);
      forall j: nat | j >= 1
        ensures Stands(s, pattern, j) <==> Stands(s[1..], pattern, j - 1)
      {
        StandsInTail(s, pattern, j);
      }
    }
  }

  /** Find answers k if the pattern stands there and no earlier place has its first two
      characters. */
  lemma {:induction false} FindAt(s: string, pattern: string, k: nat)
    requires |pattern| >= 2 && Stands(s, pattern, k)
    requires forall j :: 0 <= j < k ==> s[j] != pattern[0] || s[j + 1] != pattern[1]
    ensures Find(s, pattern) == Some(k)
  {
    if k > 0 {
      assert s[..|pattern|][0] == s[0] && s[..|pattern|][1] == s[1];
      StandsInTail(s, pattern, k);
      FindAt(s[1..], pattern, k - 1);
    }
  }
}
