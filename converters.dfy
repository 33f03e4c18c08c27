/**
 * The two `StringConverter<Integer>` that `initialize` installs on integer
 * columns: a plain one for an Integer property and the article-number one
 * for an ArtNoProperty.
 */
module Converters {
  import opened Wrappers
  import opened JavaInt

  datatype IntConverter = PlainInt | ArtNo

  /** `toString(Integer)`: article number 0 shows as empty text, any other as `%05d`. */
  function ToString(c: IntConverter, n: Int32): string
  {
    match c
    case PlainInt => IntToString(n)
    case ArtNo => if n == 0 then "" else Format05(n)
  }

  /** `fromString(String)`: both converters call `Integer.parseInt`. */
  function FromString(c: IntConverter, s: string): Option<Int32>
  {
    ParseInt(s)
  }

  /**
   * Editing a cell without touching its text gives back the same value,
   * except for article number 0: its empty text is not a number.
   */
  lemma RoundTrip(c: IntConverter, n: Int32)
    ensures FromString(c, ToString(c, n)) == if c == ArtNo && n == 0 then None else Some(n)
  {
    match c
    case PlainInt => ParseIntToString(n);
    case ArtNo => if n != 0 { Format05Parses(n); }
  }

  /** The article-number display: empty for 0, otherwise at least five characters, zero-padded. */
  lemma ArtNoDisplay(n: Int32)
    ensures ToString(ArtNo, n) == "" <==> n == 0
    ensures n != 0 ==> |ToString(ArtNo, n)| == if |IntToString(n)| >= 5 then |IntToString(n)| else 5
    ensures n != 0 && |IntToString(n)| >= 5 ==> ToString(ArtNo, n) == IntToString(n)
    ensures 0 < n ==> AllDigits(ToString(ArtNo, n))
  {
    if 0 < n {
      var d := Digits(n);
      if |d| < 5 {
        LeadingZeros(5 - |d|, d);
      }
    }
  }

  lemma ArtNoExamples()
    ensures ToString(ArtNo, 0) == ""
    ensures ToString(ArtNo, 7) == "00007"
    ensures ToString(ArtNo, -7) == "-0007"
    ensures ToString(ArtNo, 123456) == "123456"
    ensures FromString(ArtNo, "00007") == Some(7)
    ensures FromString(ArtNo, "") == None
  {
    assert Digits(7) == "7";
    assert Zeros(4) == "0000";
    assert Zeros(3) == "000";
    assert Digits(123456) == "123456";
    RoundTrip(ArtNo, 7);
  }

  /**
   * Text that is empty, a lone sign, carries a stray character, or lies
   * outside the `int` range (with any sign and any leading zeros) is rejected.
   */
  lemma ParseRejects(s: string, n: int, sign: string, d: string)
    ensures FromString(PlainInt, "") == None && FromString(ArtNo, "") == None
    ensures FromString(PlainInt, "+") == None && FromString(PlainInt, "-") == None
    ensures (exists i :: 0 < i < |s| && !IsDigit(s[i])) ==> FromString(PlainInt, s) == None
    ensures !(MinInt <= n <= MaxInt) ==> FromString(PlainInt, IntToString(n)) == None
    ensures && (sign == "" || sign == "+" || sign == "-") && |d| > 0 && AllDigits(d)
            && DigitsValue(d) > MaxInt + (if sign == "-" then 1 else 0)
            ==> FromString(PlainInt, sign + d) == None
  {
    ParseIntToString(n);
    if (sign == "" || sign == "+" || sign == "-") && |d| > 0 && AllDigits(d) {
      ParseIntValue(sign, d);
    }
  }

  /**
   * The article-number parser as evidently intended: the empty text it
   * displays for 0 reads back as 0, everything else as `Integer.parseInt`.
   */
  function IntendedFromString(c: IntConverter, s: string): Option<Int32>
  {
    if c == ArtNo && s == "" then Some(0) else ParseInt(s)
  }

  /** The converter as written: article number 0 cannot be committed back unchanged. */
  lemma ArtNoZeroRejected()
    ensures ToString(ArtNo, 0) == "" && FromString(ArtNo, ToString(ArtNo, 0)) == None
  {
  }

  /** With the intended parser every value of either converter survives display and re-entry. */
  lemma IntendedRoundTrip(c: IntConverter, n: Int32)
    ensures IntendedFromString(c, ToString(c, n)) == Some(n)
  {
    RoundTrip(c, n);
  }
}
