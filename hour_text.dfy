/**
 * Decimal rendering of hours: `String(n)`, the two-character left padding with "0"
 * used by the reservation handler, and the "HH:00" times it sends to the store.
 * `ParseHourTime` is the reading side, used only to state what the rendering means.
 */
module HourText {
  import opened Wrappers

  predicate IsDigit(c: char) {
    '0' <= c <= '9'
  }

  predicate AllDigits(s: string) {
    forall i :: 0 <= i < |s| ==> IsDigit(s[i])
  }

  function DigitChar(d: nat): (c: char)
    requires d < 10
    ensures IsDigit(c) && c as int - '0' as int == d
  {
    (d + '0' as int) as char
  }

  /** The decimal digits of `n`, without leading zeros. */
  function Digits(n: nat): (s: string)
    ensures 1 <= |s| && AllDigits(s)
    ensures |s| == 1 <==> n < 10
    ensures 10 <= n < 100 ==> |s| == 2
    decreases n
  {
    if n < 10 then [DigitChar(n)] else Digits(n / 10) + [DigitChar(n % 10)]
  }

  /** The number a string of decimal digits denotes (most significant digit first). */
  function DigitsValue(s: string): nat
    requires AllDigits(s)
  {
    if s == [] then 0 else DigitsValue(s[..|s| - 1]) * 10 + (s[|s| - 1] as int - '0' as int)
  }

  /** Reading back the digits of `n` gives `n`. */
  lemma {:induction false} DigitsRoundTrip(n: nat)
    ensures DigitsValue(Digits(n)) == n
  {
    if n >= 10 {
      DigitsRoundTrip(n / 10);
      var s := Digits(n);
      assert s[..|s| - 1] == Digits(n / 10);
    }
  }

  /** `String(n)` for an integer `n`: a minus sign before the digits of a negative number. */
  function NumberString(n: int): (s: string)
    ensures n >= 0 ==> AllDigits(s) && DigitsValue(s) == n
    ensures n < 0 ==> |s| >= 2 && s[0] == '-'
  {
    if n < 0 then "-" + Digits(-n) else DigitsRoundTrip(n); Digits(n)
  }

  /**
   * `String(n).padStart(2, "0")`: a one-character rendering gets a leading "0",
   * anything longer is left as it is.
   */
  function Pad(n: int): (s: string)
    ensures 0 <= n < 100 ==> |s| == 2 && AllDigits(s) && DigitsValue(s) == n
    ensures (n < 0 || 10 <= n) ==> s == NumberString(n)
  {
    var t := NumberString(n);
    if |t| < 2 then
      assert DigitsValue("0" + t) == DigitsValue(t) by {
        assert ("0" + t)[..1] == "0";
      }
      "0" + t
    else
      t
  }

  /** The "HH:00" time of the hour `n`: for 0..99, two digits that read back as `n`, then ":00". */
  function HourTime(n: int): (s: string)
    ensures 0 <= n < 100 ==>
      && |s| == 5 && s[2..] == ":00"
      && AllDigits(s[..2]) && DigitsValue(s[..2]) == n
  {
    var t := Pad(n) + ":00";
    assert t[..|Pad(n)|] == Pad(n);
    t
  }

  /** The two digits of an "HH:00" time: a leading "0" below ten. */
  lemma {:induction false} HourTimeDigits(n: int)
    requires 0 <= n < 100
    ensures n < 10 ==> HourTime(n) == ['0', DigitChar(n)] + ":00"
    ensures 10 <= n ==> HourTime(n) == [DigitChar(n / 10), DigitChar(n % 10)] + ":00"
  {
    if n >= 10 {
      assert Digits(n / 10) == [DigitChar(n / 10)];
    }
  }

  /** The renderings the reservation examples use: one-digit hours get a leading zero and
      24 is written as it is. */
  lemma HourTimeExamples()
    ensures HourTime(0) == "00:00" && HourTime(10) == "10:00"
    ensures HourTime(13) == "13:00" && HourTime(24) == "24:00"
  {
    HourTimeDigits(0);
    HourTimeDigits(10);
    HourTimeDigits(13);
    HourTimeDigits(24);
    assert DigitChar(0) == '0' && DigitChar(1) == '1' && DigitChar(2) == '2';
    assert DigitChar(3) == '3' && DigitChar(4) == '4';
  }

  /** Reads an "HH:00" time back to its hour; anything else is rejected. */
  function ParseHourTime(s: string): (r: Option<int>)
    ensures r.Some? ==> 0 <= r.value < 100
  {
    if |s| == 5 && AllDigits(s[..2]) && s[2..] == ":00" then
      var v := DigitsValue(s[..2]);
      assert v == DigitsValue(s[..1]) * 10 + (s[1] as int - '0' as int) by {
        assert s[..2][..1] == s[..1];
      }
      assert DigitsValue(s[..1]) < 10 by {
        assert s[..1][..0] == [];
      }
      Some(v)
    else
      None
  }

  /** Every hour from 0 to 99 renders as exactly five characters that read back to it. */
  lemma {:induction false} HourTimeRoundTrip(n: int)
    requires 0 <= n < 100
    ensures |HourTime(n)| == 5
    ensures ParseHourTime(HourTime(n)) == Some(n)
  {
    var s := HourTime(n);
    assert s[..2] == Pad(n);
    assert s[2..] == ":00";
  }

  /** Distinct hours from 0 to 99 render as distinct times. */
  lemma {:induction false} HourTimeInjective(m: int, n: int)
    requires 0 <= m < 100 && 0 <= n < 100
    ensures HourTime(m) == HourTime(n) <==> m == n
  {
    HourTimeRoundTrip(m);
    HourTimeRoundTrip(n);
  }
}
