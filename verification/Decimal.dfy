/** Integers as JavaScript prints them in decimal, and the two ways it reads them back. */
module Decimal {
  import opened Wrappers
  import opened Text

  const PLUS: CodeUnit := 0x2B

  // ---------------------------------------------------------------------
  // Printing
  // ---------------------------------------------------------------------

  function Digits(n: nat): (t: Text)
    ensures t != [] && AllDigits(t)
  {
    if n < 10 then [0x30 + n] else Digits(n / 10) + [0x30 + n % 10]
  }

  /** `String(n)` of a safe integer. */
  function Print(n: int): (t: Text)
    ensures t != []
  {
    if n < 0 then [HYPHEN] + Digits(-n) else Digits(n)
  }

  // ---------------------------------------------------------------------
  // Reading
  // ---------------------------------------------------------------------

  predicate AllDigits(t: Text) {
    forall i :: 0 <= i < |t| ==> IsDigit(t[i])
  }

  function DigitsValue(t: Text): nat
    requires AllDigits(t)
  {
    if t == [] then 0 else 10 * DigitsValue(t[..|t| - 1]) + (t[|t| - 1] - 0x30)
  }

  predicate IsIntegerLiteral(t: Text) {
    (t != [] && AllDigits(t)) || (|t| > 1 && t[0] == HYPHEN && AllDigits(t[1..]))
  }

  /**
   `Number(t)` where it is finite. An optionally negated run of digits is read here; every other
   spelling (blank text, fractions, exponents, radix prefixes) is left to `otherLiteral`.
   */
  function ReadNumber(t: Text, otherLiteral: Text -> Option<int>): Option<int> {
    if !IsIntegerLiteral(t) then otherLiteral(t)
    else if t[0] == HYPHEN then Some(-(DigitsValue(t[1..]) as int))
    else Some(DigitsValue(t))
  }

  function DigitPrefix(t: Text): (d: Text)
    ensures d <= t && AllDigits(d)
    ensures |d| == |t| || !IsDigit(t[|d|])
  {
    if t == [] || !IsDigit(t[0]) then [] else [t[0]] + DigitPrefix(t[1..])
  }

  function DropSign(t: Text): (u: Text)
    ensures |u| <= |t|
  {
    if t != [] && (t[0] == HYPHEN || t[0] == PLUS) then t[1..] else t
  }

  /** `Number.parseInt(t, 10)`, or None for NaN. */
  function ParseInt(t: Text): Option<int> {
    ParseTrimmed(TrimStart(t))
  }

  function ParseTrimmed(s: Text): Option<int> {
    var digits := DigitPrefix(DropSign(s));
    if digits == [] then None
    else if s[0] == HYPHEN then Some(-(DigitsValue(digits) as int))
    else Some(DigitsValue(digits))
  }

  // ---------------------------------------------------------------------
  // Round trips
  // ---------------------------------------------------------------------

  lemma {:induction false} DigitsRoundTrip(n: nat)
    ensures DigitsValue(Digits(n)) == n
  {
    if n >= 10 {
      DigitsRoundTrip(n / 10);
      assert Digits(n)[..|Digits(n)| - 1] == Digits(n / 10);
    } else {
      assert Digits(n)[..0] == [];
    }
  }

  /** Only an optional "-" and then digits, at least one and nothing else, is read here. */
  lemma ReadsOnlyIntegers(t: Text, otherLiteral: Text -> Option<int>)
    requires t == [] || (t[0] != '-' as int && !IsDigit(t[0])) || (|t| == 1 && t[0] == '-' as int)
             || exists i :: 0 < i < |t| && !IsDigit(t[i])
    ensures ReadNumber(t, otherLiteral) == otherLiteral(t)
  {
    if i :| 0 < i < |t| && !IsDigit(t[i]) {
      assert t[1..][i - 1] == t[i];
    }
  }

  lemma ReadNumberOfPrint(n: int, otherLiteral: Text -> Option<int>)
    ensures ReadNumber(Print(n), otherLiteral) == Some(n)
  {
    if n < 0 {
      assert Print(n)[1..] == Digits(-n);
      DigitsRoundTrip(-n);
    } else {
      DigitsRoundTrip(n);
    }
  }

  /** A text that starts with a digit has nothing to trim and no sign. */
  lemma PlainStart(t: Text)
    requires t != [] && IsDigit(t[0])
    ensures t[0] != HYPHEN && TrimStart(t) == t && DropSign(t) == t
  {
    assert !IsSpace(t[0]);
  }

  lemma {:induction false} DigitPrefixStops(d: Text, rest: Text)
    requires AllDigits(d) && (rest == [] || !IsDigit(rest[0]))
    ensures DigitPrefix(d + rest) == d
  {
    if d == [] {
      assert d + rest == rest;
    } else {
      assert (d + rest)[0] == d[0] && (d + rest)[1..] == d[1..] + rest;
      DigitPrefixStops(d[1..], rest);
    }
  }

  /** `parseInt` reads as far as the digits go and ignores what follows. */
  lemma ParseIntOfDigits(d: Text, rest: Text)
    requires d != [] && AllDigits(d) && (rest == [] || !IsDigit(rest[0]))
    ensures ParseInt(d + rest) == Some(DigitsValue(d))
  {
    PlainStart(d + rest);
    DigitPrefixStops(d, rest);
  }

  lemma {:induction false} TrimStartDrops(spaces: Text, t: Text)
    requires (forall i :: 0 <= i < |spaces| ==> IsSpace(spaces[i])) && t != [] && !IsSpace(t[0])
    ensures TrimStart(spaces + t) == t
  {
    if spaces == [] {
      assert spaces + t == t;
    } else {
      assert (spaces + t)[0] == spaces[0] && (spaces + t)[1..] == spaces[1..] + t;
      TrimStartDrops(spaces[1..], t);
    }
  }

  /** `parseInt` skips white space before a number. */
  lemma ParseIntSkipsSpace(spaces: Text, t: Text)
    requires (forall i :: 0 <= i < |spaces| ==> IsSpace(spaces[i])) && t != [] && !IsSpace(t[0])
    ensures ParseInt(spaces + t) == ParseInt(t)
  {
    TrimStartDrops(spaces, t);
    TrimStartDrops([], t);
    assert [] + t == t;
  }

  lemma NothingToTrim(first: CodeUnit, rest: Text)
    requires !IsSpace(first)
    ensures ParseInt([first] + rest) == ParseTrimmed([first] + rest)
  {
    assert ([first] + rest)[0] == first;
  }

  lemma SignThenDigits(sign: CodeUnit, d: Text, rest: Text)
    requires (sign == 0x2B || sign == 0x2D) && d != [] && AllDigits(d) && (rest == [] || !IsDigit(rest[0]))
    ensures ParseTrimmed([sign] + (d + rest)) == Some(if sign == 0x2D then 0 - DigitsValue(d) else DigitsValue(d))
  {
    var t := [sign] + (d + rest);
    assert t[0] == sign && t[1..] == d + rest;
    assert DropSign(t) == d + rest;
    DigitPrefixStops(d, rest);
  }

  /** A leading "-" negates the number, and a leading "+" does not. */
  lemma ParseIntSigns(sign: CodeUnit, n: nat, rest: Text)
    requires (sign == 0x2B || sign == 0x2D) && (rest == [] || !IsDigit(rest[0]))
    ensures ParseInt([sign] + (Print(n) + rest)) == Some(if sign == 0x2D then 0 - n else n)
  {
    SignThenDigits(sign, Digits(n), rest);
    DigitsRoundTrip(n);
    NothingToTrim(sign, Digits(n) + rest);
  }

  /** Most significant digit first, after the sign of a negative number. */
  lemma PrintReads()
    ensures Print(0) == Ascii("0") && Print(120) == Ascii("120") && Print(-5) == Ascii("-5")
  {
    assert Digits(1) == [0x31] && Digits(12) == [0x31, 0x32] && Digits(120) == [0x31, 0x32, 0x30];
    assert Digits(0) == [0x30] && Digits(5) == [0x35];
  }

  lemma ParseIntOfPrint(n: nat, rest: Text)
    requires rest == [] || !IsDigit(rest[0])
    ensures ParseInt(Print(n) + rest) == Some(n)
  {
    ParseIntOfDigits(Digits(n), rest);
    DigitsRoundTrip(n);
  }
}
