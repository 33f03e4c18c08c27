/**
 * The parts of the Java library that the integer columns rely on:
 * the 32-bit `int` range, `Integer.parseInt`, `Integer.toString` and
 * `String.format("%05d", n)`, all stated over ASCII decimal digits.
 */
module JavaInt {
  import opened Wrappers

  const MinInt: int := -0x8000_0000
  const MaxInt: int := 0x7fff_ffff

  /** A value of Java's `int`. */
  type Int32 = x: int | MinInt <= x <= MaxInt

  predicate IsDigit(c: char) {
    '0' <= c <= '9'
  }

  predicate AllDigits(s: string) {
    forall i :: 0 <= i < |s| ==> IsDigit(s[i])
  }

  /** A non-empty digit string without a superfluous leading zero. */
  predicate IsNumeral(s: string) {
    |s| > 0 && AllDigits(s) && (|s| == 1 || s[0] != '0')
  }

  /** The shape of every `Integer.toString` result: no plus sign, no leading zero, no "-0". */
  predicate IsCanonical(s: string) {
    IsNumeral(s) || (|s| >= 2 && s[0] == '-' && IsNumeral(s[1..]) && s[1] != '0')
  }

  function DigitValue(c: char): (d: nat)
    requires IsDigit(c)
    ensures d < 10
  {
    c as int - '0' as int
  }

  function DigitChar(d: nat): (c: char)
    requires d < 10
    ensures IsDigit(c) && DigitValue(c) == d
  {
    ('0' as int + d) as char
  }

  /** The number a digit string denotes, most significant digit first. */
  function DigitsValue(s: string): nat
    requires AllDigits(s)
  {
    if s == [] then 0 else DigitsValue(s[..|s| - 1]) * 10 + DigitValue(s[|s| - 1])
  }

  /** The decimal digits of n, without leading zeros ("0" for zero). */
  function Digits(n: nat): (s: string)
    ensures IsNumeral(s) && DigitsValue(s) == n
    decreases n
  {
    if n < 10 then
      [DigitChar(n)]
    else
      var t := Digits(n / 10);
      assert (t + [DigitChar(n % 10)])[..|t|] == t;
      t + [DigitChar(n % 10)]
  }

  function Zeros(k: nat): (z: string)
    ensures |z| == k && AllDigits(z)
  {
    seq(k, _ => '0')
  }

  /** `Integer.toString(n)`. */
  function IntToString(n: int): (s: string)
    ensures IsCanonical(s)
    ensures s[0] == '-' <==> n < 0
  {
    if n < 0 then "-" + Digits(-n) else Digits(n)
  }

  /**
   * `Integer.parseInt(s)`: an optional `-` or `+`, then at least one digit,
   * and a value inside the `int` range; None where Java throws
   * `NumberFormatException`.
   */
  function ParseInt(s: string): (r: Option<Int32>)
    ensures r.Some? ==> |s| > 0 && (forall i :: 0 < i < |s| ==> IsDigit(s[i]))
    ensures r.Some? ==> IsDigit(s[0]) || (|s| >= 2 && (s[0] == '-' || s[0] == '+'))
  {
    if |s| > 0 && (s[0] == '-' || s[0] == '+') then
      ParseMagnitude(s[1..], s[0] == '-')
    else
      ParseMagnitude(s, false)
  }

  function ParseMagnitude(d: string, negative: bool): Option<Int32>
  {
    if d == [] || !AllDigits(d) then
      None
    else
      var v := if negative then -(DigitsValue(d) as int) else DigitsValue(d) as int;
      if MinInt <= v <= MaxInt then Some(v) else None
  }

  /** Left-pads a digit string with zeros up to `width` characters. */
  function PadZeros(d: string, width: nat): (s: string)
  {
    if |d| >= width then d else Zeros(width - |d|) + d
  }

  /**
   * `String.format("%05d", n)`: the sign, then the digits of |n| widened with
   * zeros so that the whole text is at least five characters long
   * (a locale whose zero digit is '0').
   */
  function Format05(n: int): (s: string)
    ensures |s| == if |IntToString(n)| >= 5 then |IntToString(n)| else 5
    ensures |IntToString(n)| >= 5 ==> s == IntToString(n)
    ensures n < 0 <==> s[0] == '-'
  {
    if n < 0 then "-" + PadZeros(Digits(-(n as int)), 4) else PadZeros(Digits(n), 5)
  }

  lemma {:induction false} ZerosValue(k: nat)
    ensures DigitsValue(Zeros(k)) == 0
  {
    if k > 0 {
      assert Zeros(k)[..k - 1] == Zeros(k - 1);
      ZerosValue(k - 1);
    }
  }

  /** Leading zeros do not change the value of a digit string. */
  lemma {:induction false} LeadingZeros(k: nat, s: string)
    requires AllDigits(s)
    ensures AllDigits(Zeros(k) + s) && DigitsValue(Zeros(k) + s) == DigitsValue(s)
  {
    var z := Zeros(k) + s;
    if s == [] {
      assert z == Zeros(k);
      ZerosValue(k);
    } else {
      assert z[..|z| - 1] == Zeros(k) + s[..|s| - 1];
      LeadingZeros(k, s[..|s| - 1]);
    }
  }

  /** A digit string denotes at least its leading digit. */
  lemma {:induction false} LeadingDigitBound(s: string)
    requires |s| > 0 && AllDigits(s)
    ensures DigitsValue(s) >= DigitValue(s[0])
  {
    if |s| > 1 {
      LeadingDigitBound(s[..|s| - 1]);
    }
  }

  /** Digits is the inverse of DigitsValue on numerals. */
  lemma {:induction false} DigitsOfValue(d: string)
    requires IsNumeral(d)
    ensures Digits(DigitsValue(d)) == d
  {
    if |d| > 1 {
      var init := d[..|d| - 1];
      assert IsNumeral(init);
      LeadingDigitBound(init);
      DigitsOfValue(init);
      var v := DigitsValue(d);
      assert v / 10 == DigitsValue(init) && v % 10 == DigitValue(d[|d| - 1]);
      assert d == init + [d[|d| - 1]];
    }
  }

  /**
   * `Integer.parseInt(Integer.toString(n))` gives back n exactly when n is an
   * `int`; the text of any wider number is rejected as out of range.
   */
  lemma ParseIntToString(n: int)
    ensures ParseInt(IntToString(n)) == if MinInt <= n <= MaxInt then Some(n) else None
  {
    var s := IntToString(n);
    if n < 0 {
      assert s[1..] == Digits(-n);
    }
  }

  /** Parsing a numeral gives back the number it was printed from. */
  lemma ParseNumeral(d: string, negative: bool)
    requires IsNumeral(d)
    requires ParseMagnitude(d, negative).Some?
    ensures negative && d[0] != '0' ==> IntToString(ParseMagnitude(d, negative).value) == "-" + d
    ensures !negative ==> IntToString(ParseMagnitude(d, negative).value) == d
  {
    DigitsOfValue(d);
    LeadingDigitBound(d);
  }

  /**
   * On canonical text the two conversions are mutual inverses:
   * `parseInt(s) == n` exactly when `Integer.toString(n) == s`.
   */
  lemma ParseIntCanonical(s: string, n: Int32)
    requires IsCanonical(s)
    ensures ParseInt(s) == Some(n) <==> IntToString(n) == s
  {
    if IntToString(n) == s {
      ParseIntToString(n);
    }
    if ParseInt(s) == Some(n) {
      if IsNumeral(s) {
        assert ParseInt(s) == ParseMagnitude(s, false);
        ParseNumeral(s, false);
      } else {
        var d := s[1..];
        assert ParseInt(s) == ParseMagnitude(d, true);
        ParseNumeral(d, true);
        assert s == "-" + d;
      }
    }
  }

  /** A zero-padded numeral still parses to the number it pads. */
  lemma ParsePadded(m: nat, width: nat, negative: bool)
    requires MinInt <= (if negative then -(m as int) else m as int) <= MaxInt
    ensures ParseMagnitude(PadZeros(Digits(m), width), negative) == Some(if negative then -(m as int) else m as int)
  {
    var d := Digits(m);
    if |d| < width {
      LeadingZeros(width - |d|, d);
    }
  }

  /** The zero-padded text still parses to the number: padding is only zeros. */
  lemma {:induction false} Format05Parses(n: Int32)
    ensures ParseInt(Format05(n)) == Some(n)
  {
    var s := Format05(n);
    if n < 0 {
      var p := PadZeros(Digits(-(n as int)), 4);
      assert s == "-" + p;
      assert s[1..] == p;
      ParsePadded(-(n as int), 4, true);
      assert ParseInt(s) == ParseMagnitude(p, true);
    } else {
      var p := PadZeros(Digits(n), 5);
      assert s == p;
      assert IsDigit(s[0]);
      ParsePadded(n, 5, false);
      assert ParseInt(s) == ParseMagnitude(p, false);
    }
  }

  /**
   * The value of every text `parseInt` is given: a sign ("", "+" or "-")
   * and a non-empty digit string, leading zeros allowed, is accepted exactly
   * when its value lies in the `int` range, and then gives that value.
   */
  lemma ParseIntValue(sign: string, d: string)
    requires sign == "" || sign == "+" || sign == "-"
    requires |d| > 0 && AllDigits(d)
    ensures var v := if sign == "-" then -(DigitsValue(d) as int) else DigitsValue(d) as int;
      ParseInt(sign + d) == if MinInt <= v <= MaxInt then Some(v) else None
  {
    var s := sign + d;
    if sign == "" {
      assert s == d && IsDigit(s[0]);
    } else {
      assert s[0] == sign[0] && s[1..] == d;
    }
  }

  /** Zeros before the digits, with or without a sign, do not change the value `parseInt` gives. */
  lemma {:induction false} ParseIntLeadingZeros(sign: string, k: nat, m: nat)
    requires sign == "" || sign == "+" || sign == "-"
    requires MinInt <= (if sign == "-" then -(m as int) else m as int) <= MaxInt
    ensures ParseInt(sign + Zeros(k) + Digits(m)) == Some(if sign == "-" then -(m as int) else m as int)
  {
    var d := Digits(m);
    LeadingZeros(k, d);
    assert sign + Zeros(k) + d == sign + (Zeros(k) + d);
    ParseIntValue(sign, Zeros(k) + d);
  }

  /** A zero before a minus sign makes the text no number at all. */
  lemma {:induction false} ZeroBeforeSignRejected(k: nat, n: Int32)
    requires k > 0 && n < 0
    ensures ParseInt(Zeros(k) + IntToString(n)) == None
  {
    var s := Zeros(k) + IntToString(n);
    assert s[0] == '0' && s[k] == '-';
  }

  /** Text a user may type into an integer cell, and what `parseInt` makes of it. */
  lemma ParseIntExamples()
    ensures ParseInt("+7") == Some(7)
    ensures ParseInt("007") == Some(7)
    ensures ParseInt("-0") == Some(0)
  {
    assert Digits(7) == "7" && Zeros(2) == "00" && Zeros(0) == "";
    ParseIntLeadingZeros("+", 0, 7);
    assert "+" + Zeros(0) + Digits(7) == "+7";
    ParseIntLeadingZeros("", 2, 7);
    assert "" + Zeros(2) + Digits(7) == "007";
    ParseIntValue("-", "0");
    assert "-" + "0" == "-0";
  }

  lemma TwoToThe31Text()
    ensures Digits(2147483648) == "2147483648"
  {
    assert Digits(2) == "2" && Digits(21) == "21" && Digits(214) == "214";
    assert Digits(2147) == "2147" && Digits(21474) == "21474";
    assert Digits(214748) == "214748" && Digits(2147483) == "2147483";
    assert Digits(21474836) == "21474836" && Digits(214748364) == "214748364";
  }

  /** Only "-2147483648" of the texts of 2^31 is an `int`; a plus sign or a leading zero does not help. */
  lemma ParseIntRangeExamples()
    ensures ParseInt("-2147483648") == Some(MinInt)
    ensures ParseInt("+2147483648") == None
    ensures ParseInt("02147483648") == None
  {
    var big := Digits(2147483648);
    TwoToThe31Text();
    ParseIntValue("-", big);
    ParseIntValue("+", big);
    LeadingZeros(1, big);
    ParseIntValue("", Zeros(1) + big);
    assert Zeros(1) == "0";
    assert "" + (Zeros(1) + big) == "02147483648";
  }
}
