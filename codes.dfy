/** The two sequence codes: product codes `PRnnn`, derived from the latest
    product code of the school (ProductService.GenerateProductCodeAsync),
    and vendor codes `Vnnn`, derived from the vendor's generated id
    (VendorService.CreateAsync). */
module Codes {
  import opened Common
  import opened Numbers
  import opened Ordering

  const FIRST_PRODUCT_CODE := "PR001"

  /** `number++` on a C# `int`: unchecked, so the largest value wraps to the smallest. */
  function Increment32(n: Int32): (m: Int32)
    ensures n < INT32_MAX ==> m == n + 1
    ensures n == INT32_MAX ==> m == INT32_MIN
  {
    if n == INT32_MAX then INT32_MIN else n + 1
  }

  /** The code after `last`, the code of the school's product with the highest
      id (`None` when the school has no product). `Substring(2)` throws on a
      string shorter than two characters, so such a `last` is excluded. */
  function NextProductCode(last: Option<string>): (code: string)
    requires last.Some? && !IsNullOrWhiteSpace(last) ==> |last.value| >= 2
    ensures IsNullOrWhiteSpace(last) ==> code == FIRST_PRODUCT_CODE
    ensures |code| >= 5 && code[..2] == "PR"
  {
    if IsNullOrWhiteSpace(last) then FIRST_PRODUCT_CODE
    else "PR" + Format000(Increment32(SuffixNumber(last.value)))
  }

  /** `int.TryParse(last.Substring(2), out number)`, with 0 when it fails. */
  function SuffixNumber(last: string): Int32
    requires |last| >= 2
  {
    match TryParseInt32(last[2..])
    case Some(n) => n
    case None => 0
  }

  /** The code `PR` followed by `n` written with at least three digits. */
  function ProductCode(n: int): string {
    "PR" + Format000(n)
  }

  /** A code that is not blank is followed by the code of its suffix's
      number plus one. */
  lemma NextProductCodeNonBlank(last: string)
    requires |last| >= 2 && !IsNullOrWhiteSpace(Some(last))
    ensures NextProductCode(Some(last)) == ProductCode(Increment32(SuffixNumber(last)))
  {
  }

  /** When the text after the first two characters of `last` parses as `n`,
      the next code carries `n + 1` (wrapping at the top of the range). */
  lemma NextProductCodeOfNumber(last: string, n: Int32)
    requires |last| >= 2 && !IsWhiteSpace(last[0])
    requires TryParseInt32(last[2..]) == Some(n)
    ensures NextProductCode(Some(last)) == ProductCode(Increment32(n))
  {
    assert !IsNullOrWhiteSpace(Some(last));
    NextProductCodeNonBlank(last);
    assert SuffixNumber(last) == n;
  }

  /** A code of the form `PRnnn` is followed by the code of the next number. */
  lemma NextProductCodeIncrements(n: Int32)
    requires n < INT32_MAX
    ensures NextProductCode(Some(ProductCode(n))) == ProductCode(n + 1)
  {
    var last := ProductCode(n);
    var digits := Format000(n);
    assert last == "PR" + digits;
    assert last[0] == 'P' && |last| >= 2;
    assert last[2..] == digits;
    Format000RoundTrip(n);
    NextProductCodeOfNumber(last, n);
  }

  /** A code whose text after the first two characters does not parse
      counts as number 0, so the next code is `PR001`. */
  lemma NextProductCodeUnparsable(last: string)
    requires |last| >= 2 && !IsNullOrWhiteSpace(Some(last))
    requires TryParseInt32(last[2..]).None?
    ensures NextProductCode(Some(last)) == FIRST_PRODUCT_CODE
  {
    NextProductCodeNonBlank(last);
    var n := SuffixNumber(last);
    assert n == 0;
    assert Increment32(n) == 1;
    CodeOfOne();
  }

  /** The code of number 1 is the first code. */
  lemma CodeOfOne()
    ensures ProductCode(1) == FIRST_PRODUCT_CODE
  {
    FormatOne();
  }

  /** Whatever follows the first two characters: when it is not a number the
      code restarts at `PR001`, because the unparsable suffix counts as 0. */
  lemma NextProductCodeOfNonNumeric(p: string, suffix: string)
    requires |p| == 2 && !IsWhiteSpace(p[0])
    requires TryParseInt32(suffix).None?
    ensures NextProductCode(Some(p + suffix)) == FIRST_PRODUCT_CODE
  {
    var last := p + suffix;
    assert last[2..] == suffix && last[0] == p[0];
    assert !IsNullOrWhiteSpace(Some(last));
    NextProductCodeUnparsable(last);
  }

  lemma FormatOne()
    ensures Format000(1) == "001"
  {
    assert Digits(1) == "1";
  }

  lemma DigitCharMonotone(x: nat, y: nat)
    requires x < y < 10
    ensures DigitChar(x) < DigitChar(y)
  {
  }

  lemma Decompose(a: nat)
    requires a < 1000
    ensures a == 100 * (a / 100) + 10 * (a / 10 % 10) + a % 10
    ensures a / 100 < 10
  {
    assert a == 10 * (a / 10) + a % 10;
    assert a / 10 == 10 * (a / 10 / 10) + a / 10 % 10;
    assert a / 10 / 10 == a / 100;
  }

  lemma ThreeDigitsLess(a2: nat, a1: nat, a0: nat, b2: nat, b1: nat, b0: nat)
    requires a2 < 10 && a1 < 10 && a0 < 10 && b2 < 10 && b1 < 10 && b0 < 10
    requires 100 * a2 + 10 * a1 + a0 < 100 * b2 + 10 * b1 + b0
    ensures OrdinalLt([DigitChar(a2), DigitChar(a1), DigitChar(a0)], [DigitChar(b2), DigitChar(b1), DigitChar(b0)])
  {
    var x2, x1, x0 := DigitChar(a2), DigitChar(a1), DigitChar(a0);
    var y2, y1, y0 := DigitChar(b2), DigitChar(b1), DigitChar(b0);
    assert [x2, x1, x0] == [x2] + ([x1] + [x0]) && [y2, y1, y0] == [y2] + ([y1] + [y0]);
    OrdinalCons(x2, [x1] + [x0], y2, [y1] + [y0]);
    OrdinalCons(x1, [x0], y1, [y0]);
    OrdinalCons(x0, [], y0, []);
    if a2 < b2 {
      DigitCharMonotone(a2, b2);
    } else if a2 == b2 && a1 < b1 {
      DigitCharMonotone(a1, b1);
    } else {
      assert a2 == b2 && a1 == b1 && a0 < b0;
      DigitCharMonotone(a0, b0);
    }
  }

  lemma ThreeDigitsOrdered(a: nat, b: nat)
    requires a < b < 1000
    ensures OrdinalLt(Format000(a), Format000(b))
  {
    Format000Small(a);
    Format000Small(b);
    Decompose(a);
    Decompose(b);
    ThreeDigitsLess(a / 100, a / 10 % 10, a % 10, b / 100, b / 10 % 10, b % 10);
  }

  /** Up to `PR999` every new code sorts strictly after the one it follows. */
  lemma NextProductCodeSortsAfter(n: nat)
    requires n < 999
    ensures OrdinalLt(ProductCode(n), NextProductCode(Some(ProductCode(n))))
  {
    NextProductCodeIncrements(n);
    ThreeDigitsOrdered(n, n + 1);
    OrdinalCommonPrefix("PR", Format000(n), Format000(n + 1));
  }

  /** The k-th code a school receives when its products are created one after
      the other, each new product having the highest id of the school. */
  function NthProductCode(k: nat): (code: string)
    requires k >= 1
    ensures |code| >= 5
  {
    if k == 1 then NextProductCode(None) else NextProductCode(Some(NthProductCode(k - 1)))
  }

  /** A school's first product gets `PR001`. */
  lemma FirstProductCode()
    ensures NthProductCode(1) == ProductCode(1)
  {
    FormatOne();
  }

  /** Once the `k-1`-th code is `ProductCode(k - 1)`, the `k`-th is `ProductCode(k)`. */
  lemma ProductCodeStep(k: nat)
    requires 2 <= k <= INT32_MAX
    requires NthProductCode(k - 1) == ProductCode(k - 1)
    ensures NthProductCode(k) == ProductCode(k)
  {
    assert NthProductCode(k) == NextProductCode(Some(ProductCode(k - 1)));
    NextProductCodeIncrements(k - 1);
  }

  /** Sequential creation numbers a school's products `PR001`, `PR002`, ... */
  lemma {:induction false} ProductCodeSequence(k: nat)
    requires 1 <= k <= INT32_MAX
    ensures NthProductCode(k) == ProductCode(k)
  {
    if k == 1 {
      FirstProductCode();
    } else {
      ProductCodeSequence(k - 1);
      ProductCodeStep(k);
    }
  }

  /** `"V" + id.ToString().PadLeft(3, '0')`. */
  function VendorCode(id: int): string {
    "V" + PadLeft(IntToString(id), 3, '0')
  }

  /** The digits of a vendor code give back the vendor's id. */
  lemma VendorCodeRoundTrip(id: nat)
    requires id <= INT32_MAX
    ensures TryParseInt32(VendorCode(id)[1..]) == Some(id)
  {
    var d := PadLeft(Digits(id), 3, '0');
    assert VendorCode(id)[1..] == d;
    ValueOfDigits(id);
    PadLeftValue(Digits(id), 3);
    ParseSignedDigits(false, d);
  }

  /** Distinct vendors get distinct codes. */
  lemma VendorCodeInjective(a: nat, b: nat)
    requires a <= INT32_MAX && b <= INT32_MAX
    requires VendorCode(a) == VendorCode(b)
    ensures a == b
  {
    VendorCodeRoundTrip(a);
    VendorCodeRoundTrip(b);
  }

  lemma VendorCodeExamples()
    ensures VendorCode(7) == "V007"
    ensures VendorCode(1234) == "V1234"
  {
    PadLeftExamples();
  }
}
