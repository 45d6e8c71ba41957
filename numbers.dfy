/** Decimal formatting and parsing as the .NET runtime does it for the
    services' codes: `int.ToString()`, `string.PadLeft`, the custom format
    `"000"` and `int.TryParse` with the default integer number style. */
module Numbers {
  import opened Common

  predicate IsDigit(c: char) { '0' <= c <= '9' }

  predicate AllDigits(s: string) { forall i :: 0 <= i < |s| ==> IsDigit(s[i]) }

  function DigitChar(d: nat): (c: char)
    requires d < 10
    ensures IsDigit(c)
  {
    ('0' as int + d) as char
  }

  function DigitValue(c: char): (d: nat)
    requires IsDigit(c)
    ensures d < 10 && DigitChar(d) == c
  {
    c as int - '0' as int
  }

  /** The decimal digits of `n`, without leading zeros ("0" for zero). */
  function Digits(n: nat): string {
    if n < 10 then [DigitChar(n)] else Digits(n / 10) + [DigitChar(n % 10)]
  }

  /** At least one digit, no leading zero, and a single digit exactly below ten. */
  lemma {:induction false} DigitsShape(n: nat)
    ensures var s := Digits(n);
      && 1 <= |s| && AllDigits(s)
      && (|s| > 1 ==> s[0] != '0')
      && (n < 10 <==> |s| == 1)
  {
    if n >= 10 {
      DigitsShape(n / 10);
      var s := Digits(n);
      assert s == Digits(n / 10) + [DigitChar(n % 10)];
      assert s[0] == Digits(n / 10)[0];
    }
  }

  /** The number a string of decimal digits denotes. */
  function ValueOf(s: string): nat
    requires AllDigits(s)
  {
    if s == [] then 0 else 10 * ValueOf(s[..|s| - 1]) + DigitValue(s[|s| - 1])
  }

  /** `n` copies of `c`. */
  function Repeat(c: char, n: nat): (r: string)
    ensures |r| == n && forall i :: 0 <= i < n ==> r[i] == c
  {
    seq(n, _ => c)
  }

  /** `s.PadLeft(width, c)`. */
  function PadLeft(s: string, width: nat, c: char): string {
    if |s| >= width then s else Repeat(c, width - |s|) + s
  }

  /** The padded string is `width` long (or `s` itself when longer), ends
      with `s`, and is `c` before it. */
  lemma PadLeftShape(s: string, width: nat, c: char)
    ensures var r := PadLeft(s, width, c);
      && |r| == (if |s| >= width then |s| else width)
      && r[|r| - |s|..] == s
      && forall i :: 0 <= i < |r| - |s| ==> r[i] == c
  {
    var r := PadLeft(s, width, c);
    if |s| < width {
      assert r == Repeat(c, width - |s|) + s;
      assert r[|r| - |s|..] == s;
    }
  }

  /** `n.ToString()` for a C# `int`. */
  function IntToString(n: int): string {
    if n < 0 then "-" + Digits(-n) else Digits(n)
  }

  /** `n.ToString("000")`: at least three digits, a leading minus when negative. */
  function Format000(n: int): (s: string)
    ensures |s| >= 3
  {
    var m: nat := if n < 0 then -n else n;
    PadLeftShape(Digits(m), 3, '0');
    if n < 0 then "-" + PadLeft(Digits(-n), 3, '0') else PadLeft(Digits(n), 3, '0')
  }

  /** The white space `int.TryParse` skips before and after the number. */
  predicate IsNumberWhite(c: char) { '\t' <= c <= '\r' || c == ' ' }

  function TrimStart(s: string): (r: string)
    ensures |r| <= |s| && r == s[|s| - |r|..]
    ensures r != [] ==> !IsNumberWhite(r[0])
  {
    if s != [] && IsNumberWhite(s[0]) then TrimStart(s[1..]) else s
  }

  function TrimEnd(s: string): (r: string)
    ensures |r| <= |s| && r == s[..|r|]
    ensures r != [] ==> !IsNumberWhite(r[|r| - 1])
  {
    if s != [] && IsNumberWhite(s[|s| - 1]) then TrimEnd(s[..|s| - 1]) else s
  }

  /** `int.TryParse(s, out n)`: optional white space, an optional sign, one
      or more decimal digits, optional white space, and a value that fits
      in 32 bits; anything else fails (`None`). */
  function TryParseInt32(s: string): Option<Int32> {
    ParseTrimmed(TrimEnd(TrimStart(s)))
  }

  /** The part of `int.TryParse` after the white space is skipped. */
  function ParseTrimmed(t: string): Option<Int32> {
    var negative := |t| > 0 && t[0] == '-';
    var body := if |t| > 0 && (t[0] == '-' || t[0] == '+') then t[1..] else t;
    if body == [] || !AllDigits(body) then None
    else
      var v := SignedValue(negative, body);
      if INT32_MIN <= v <= INT32_MAX then Some(v) else None
  }

  function SignedValue(neg: bool, d: string): int
    requires AllDigits(d)
  {
    if neg then -(ValueOf(d) as int) else ValueOf(d)
  }

  /** The digits of `n` denote `n`. */
  lemma {:induction false} ValueOfDigits(n: nat)
    ensures Digits(n) != [] && AllDigits(Digits(n)) && ValueOf(Digits(n)) == n
  {
    DigitsShape(n);
    if n >= 10 {
      DigitsShape(n / 10);
      var s := Digits(n);
      assert s[..|s| - 1] == Digits(n / 10);
      ValueOfDigits(n / 10);
    }
  }

  /** Leading zeros do not change the value of a digit string. */
  lemma {:induction false} ValueOfLeadingZeros(k: nat, s: string)
    requires AllDigits(s)
    ensures AllDigits(Repeat('0', k) + s)
    ensures ValueOf(Repeat('0', k) + s) == ValueOf(s)
  {
    var z := Repeat('0', k) + s;
    if s == [] {
      assert z == Repeat('0', k);
      if k > 0 {
        assert z[..|z| - 1] == Repeat('0', k - 1) + [];
        ValueOfLeadingZeros(k - 1, []);
      }
    } else {
      var init := s[..|s| - 1];
      assert z[..|z| - 1] == Repeat('0', k) + init;
      ValueOfLeadingZeros(k, init);
    }
  }

  lemma PadLeftValue(s: string, width: nat)
    requires AllDigits(s)
    ensures AllDigits(PadLeft(s, width, '0'))
    ensures ValueOf(PadLeft(s, width, '0')) == ValueOf(s)
  {
    if |s| < width {
      ValueOfLeadingZeros(width - |s|, s);
    }
  }

  /** A string of digits with a first character that is a digit and a last
      character that is a digit is left alone by the trimming. */
  lemma TrimDigits(s: string)
    requires s != [] && !IsNumberWhite(s[0]) && !IsNumberWhite(s[|s| - 1])
    ensures TrimEnd(TrimStart(s)) == s
    ensures TryParseInt32(s) == ParseTrimmed(s)
  {
  }

  /** `int.TryParse` on a sign (or none) followed by digits. */
  lemma ParseSignedDigits(neg: bool, d: string)
    requires d != [] && AllDigits(d)
    requires INT32_MIN <= SignedValue(neg, d) <= INT32_MAX
    ensures TryParseInt32(if neg then "-" + d else d) == Some(SignedValue(neg, d))
  {
    var s := if neg then "-" + d else d;
    SignedEdges(neg, d);
    TrimDigits(s);
    if neg {
      ParseNegative(d);
    } else {
      ParseNonNegative(d);
    }
  }

  lemma SignedEdges(neg: bool, d: string)
    requires d != [] && AllDigits(d)
    ensures var s := if neg then "-" + d else d; !IsNumberWhite(s[0]) && !IsNumberWhite(s[|s| - 1])
  {
    var s := if neg then "-" + d else d;
    assert IsDigit(d[0]) && IsDigit(d[|d| - 1]);
    assert s[|s| - 1] == d[|d| - 1];
  }

  lemma ParseNonNegative(d: string)
    requires d != [] && AllDigits(d)
    requires SignedValue(false, d) <= INT32_MAX
    ensures ParseTrimmed(d) == Some(SignedValue(false, d))
  {
    assert IsDigit(d[0]);
  }

  lemma ParseNegative(d: string)
    requires d != [] && AllDigits(d)
    requires INT32_MIN <= SignedValue(true, d)
    ensures ParseTrimmed("-" + d) == Some(SignedValue(true, d))
  {
    var s := "-" + d;
    assert s[0] == '-' && s[1..] == d;
  }

  /** `int.TryParse` reads back what `ToString("000")` writes. */
  lemma Format000RoundTrip(n: Int32)
    ensures TryParseInt32(Format000(n)) == Some(n)
  {
    var m: nat := if n < 0 then -(n as int) else n as int;
    var p := PadLeft(Digits(m), 3, '0');
    ValueOfDigits(m);
    PadLeftValue(Digits(m), 3);
    assert Format000(n) == if n < 0 then "-" + p else p;
    ParseSignedDigits(n < 0, p);
  }

  /** `int.TryParse` reads back what `ToString()` writes. */
  lemma IntToStringRoundTrip(n: Int32)
    ensures TryParseInt32(IntToString(n)) == Some(n)
  {
    var m: nat := if n < 0 then -(n as int) else n as int;
    ValueOfDigits(m);
    ParseSignedDigits(n < 0, Digits(m));
  }

  /** Below 1000, `ToString("000")` is exactly three digits: hundreds, tens, units. */
  lemma {:induction false} Format000Small(n: nat)
    requires n < 1000
    ensures Format000(n) == [DigitChar(n / 100), DigitChar(n / 10 % 10), DigitChar(n % 10)]
  {
    if n >= 100 {
      assert Digits(n) == Digits(n / 10) + [DigitChar(n % 10)];
      assert Digits(n / 10) == Digits(n / 100) + [DigitChar(n / 10 % 10)];
    } else if n >= 10 {
      assert Digits(n) == Digits(n / 10) + [DigitChar(n % 10)];
    }
  }

  /** Zero padding: `7` pads to "007", `1234` stays "1234". */
  lemma PadLeftExamples()
    ensures PadLeft(IntToString(7), 3, '0') == "007"
    ensures PadLeft(IntToString(1234), 3, '0') == "1234"
    ensures Format000(-5) == "-005"
  {
    assert Digits(1234) == Digits(123) + ['4'];
    assert Digits(123) == Digits(12) + ['3'];
    assert Digits(12) == Digits(1) + ['2'];
  }
}
