/** Numbers other than plain whole ones, printed digit by digit, are read back as themselves. */
module TomlNumbers {
  import opened Common
  import opened TomlScan
  import opened TomlValue
  import opened TomlRoundTrip
  import opened TomlDocument

  // ----- Hexadecimal numbers -----

  const LOWER := "0123456789abcdef"
  const UPPER := "0123456789ABCDEF"

  /** The number in base sixteen, each digit in either case. */
  function HexFor(n: nat, upper: nat -> bool): (r: string)
    ensures r != ""
  {
    (if n < 16 then "" else HexFor(n / 16, upper)) + [if upper(n) then UPPER[n % 16] else LOWER[n % 16]]
  }

  function Zeros(k: nat): (r: string)
    ensures |r| == k && forall i :: 0 <= i < k ==> r[i] == '0'
  {
    seq(k, i => '0')
  }

  lemma DigitIsPlace(d: nat)
    requires d < 16
    ensures IsHexDigit(LOWER[d]) && DigitOf(LOWER[d]) == d
    ensures IsHexDigit(UPPER[d]) && DigitOf(UPPER[d]) == d
  {
    assert LOWER == ['0', '1', '2', '3', '4', '5', '6', '7', '8', '9', 'a', 'b', 'c', 'd', 'e', 'f'];
    assert UPPER == ['0', '1', '2', '3', '4', '5', '6', '7', '8', '9', 'A', 'B', 'C', 'D', 'E', 'F'];
  }

  lemma {:induction false} ZerosAreNothing(k: nat, radix: nat)
    ensures forall i :: 0 <= i < k ==> IsHexDigit(Zeros(k)[i])
    ensures ValueOf(Zeros(k), radix) == 0
  {
    if k > 0 {
      assert Zeros(k)[..k - 1] == Zeros(k - 1);
      ZerosAreNothing(k - 1, radix);
    }
  }

  lemma OneMoreDigit(text: string, c: char, n: nat)
    requires IsHexDigit(c) && (forall i :: 0 <= i < |text| ==> IsHexDigit(text[i])) && ValueOf(text, 16) == n
    ensures AreHexDigits(text + [c]) && ValueOf(text + [c], 16) == n * 16 + DigitOf(c)
  {
    assert (text + [c])[..|text|] == text;
  }

  lemma {:induction false} HexDenotes(zeros: nat, n: nat, upper: nat -> bool)
    ensures AreHexDigits(Zeros(zeros) + HexFor(n, upper)) && ValueOf(Zeros(zeros) + HexFor(n, upper), 16) == n
  {
    var text := Zeros(zeros) + HexFor(n, upper);
    DigitIsPlace(n % 16);
    var c := if upper(n) then UPPER[n % 16] else LOWER[n % 16];
    if n < 16 {
      ZerosAreNothing(zeros, 16);
      OneMoreDigit(Zeros(zeros), c, 0);
      assert text == Zeros(zeros) + [c];
    } else {
      HexDenotes(zeros, n / 16, upper);
      OneMoreDigit(Zeros(zeros) + HexFor(n / 16, upper), c, n / 16);
      assert text == Zeros(zeros) + HexFor(n / 16, upper) + [c];
    }
  }

  function HexText(negative: bool, digits: string): string {
    (if negative then "-" else "") + "0x" + digits
  }

  lemma HexReads(negative: bool, digits: string, n: nat, before: string, behind: string, comment: string)
    requires AreHexDigits(digits) && ValueOf(digits, 16) == n
    requires IsBlank(before) && IsBlank(behind) && IsComment(comment)
    ensures ParseValue(HexText(negative, digits)) == Ok(Number(if negative then -(n as real) else n as real))
    ensures ParseValue(Trim(Stripped(before + HexText(negative, digits) + behind + comment, START)))
         == ParseValue(HexText(negative, digits))
  {
    assert Render(Hexadecimal(negative, digits)) == HexText(negative, digits);
    ParseRender(Hexadecimal(negative, digits));
    LineRoundTrip(Hexadecimal(negative, digits), before, behind, comment);
  }

  /** A hexadecimal number in any mixture of cases, signed or not, is read as itself on any line. */
  lemma HexRoundTrip(negative: bool, zeros: nat, n: nat, upper: nat -> bool,
                     before: string, behind: string, comment: string)
    requires IsBlank(before) && IsBlank(behind) && IsComment(comment)
    ensures
      var text := HexText(negative, Zeros(zeros) + HexFor(n, upper));
      && ParseValue(text) == Ok(Number(if negative then -(n as real) else n as real))
      && ParseValue(Trim(Stripped(before + text + behind + comment, START))) == ParseValue(text)
  {
    HexDenotes(zeros, n, upper);
    HexReads(negative, Zeros(zeros) + HexFor(n, upper), n, before, behind, comment);
  }

  // ----- Fractions -----

  /** The first digit behind the point of a number below one, and what it leaves for the others. */
  function FirstDigit(x: real): (d: nat)
    requires 0.0 <= x < 1.0
    ensures d < 10
  {
    (10.0 * x).Floor
  }

  function Remainder(x: real): (r: real)
    requires 0.0 <= x < 1.0
    ensures 0.0 <= r < 1.0 && FirstDigit(x) as real + r == 10.0 * x
  {
    10.0 * x - (10.0 * x).Floor as real
  }

  function DecimalDigit(d: nat): (c: char)
    requires d < 10
    ensures IsDigit(c) && DigitOf(c) == d
  {
    ('0' as int + d) as char
  }

  /** The first `k` digits behind the point. */
  function Expansion(x: real, k: nat): (r: string)
    requires 0.0 <= x < 1.0
    ensures |r| == k && forall i :: 0 <= i < k ==> IsDigit(r[i])
    decreases k
  {
    if k == 0 then "" else [DecimalDigit(FirstDigit(x))] + Expansion(Remainder(x), k - 1)
  }

  /** The expansion ends within `k` digits. */
  predicate Terminates(x: real, k: nat)
    requires 0.0 <= x < 1.0
    decreases k
  {
    if k == 0 then x == 0.0 else Terminates(Remainder(x), k - 1)
  }

  lemma {:induction false} LeadingDigit(c: char, rest: string)
    requires IsDigit(c) && forall i :: 0 <= i < |rest| ==> IsDigit(rest[i])
    ensures ValueOf([c] + rest, 10) == DigitOf(c) * Ten(|rest|) + ValueOf(rest, 10)
  {
    var text := [c] + rest;
    if rest == "" {
      assert text[..0] == "";
      assert ValueOf(text[..0], 10) == 0;
    } else {
      var shorter := rest[..|rest| - 1];
      LeadingDigit(c, shorter);
      assert text[..|text| - 1] == [c] + shorter;
    }
  }

  predicate Scaled(n: nat, x: real, scale: nat) { n as real == x * scale as real }

  lemma {:induction false} ExpansionDenotes(x: real, k: nat)
    requires 0.0 <= x < 1.0 && Terminates(x, k)
    ensures Scaled(ValueOf(Expansion(x, k), 10), x, Ten(k))
    decreases k
  {
    if k > 0 {
      var rest := Expansion(Remainder(x), k - 1);
      ExpansionDenotes(Remainder(x), k - 1);
      ScaledMore(x, Remainder(x), DecimalDigit(FirstDigit(x)), rest);
    }
  }

  lemma ScaledMore(x: real, left: real, c: char, rest: string)
    requires IsDigit(c) && forall i :: 0 <= i < |rest| ==> IsDigit(rest[i])
    requires DigitOf(c) as real + left == 10.0 * x && Scaled(ValueOf(rest, 10), left, Ten(|rest|))
    ensures Scaled(ValueOf([c] + rest, 10), x, Ten(|rest| + 1))
  {
    LeadingDigit(c, rest);
    Shifted(x, left, DigitOf(c), Ten(|rest|), ValueOf(rest, 10));
  }

  lemma Shifted(x: real, left: real, d: nat, scale: nat, rest: nat)
    requires d as real + left == 10.0 * x && Scaled(rest, left, scale)
    ensures Scaled(d * scale + rest, x, 10 * scale)
  {
    assert (d * scale) as real == d as real * scale as real;
    assert left == 10.0 * x - d as real;
  }

  lemma Quotient(x: real, scale: nat, n: nat)
    requires scale > 0 && Scaled(n, x, scale)
    ensures n as real / scale as real == x
  {
  }

  lemma DecimalIs(digits: string, part: string, x: real)
    requires AreDigits(digits) && AreDigits(part) && Scaled(ValueOf(part, 10), x, Ten(|part|))
    ensures DecimalOf(digits, part) == ValueOf(digits, 10) as real + x
  {
    Quotient(x, Ten(|part|), ValueOf(part, 10));
  }

  function FractionText(negative: bool, digits: string, part: string): string {
    (if negative then "-" else "") + digits + "." + part
  }

  lemma SpelledFraction(negative: bool, digits: string, part: string, n: real)
    requires AreDigits(digits) && AreDigits(part) && DecimalOf(digits, part) == n
    ensures ParseValue(FractionText(negative, digits, part)) == Ok(Number(if negative then -n else n))
  {
    FractionIsWritten(negative, digits, part);
    ParseRender(Fraction(negative, digits, part));
  }

  lemma FractionIsWritten(negative: bool, digits: string, part: string)
    ensures Render(Fraction(negative, digits, part)) == FractionText(negative, digits, part)
  {
  }

  /** A decimal fraction that ends within its written digits is read as itself. */
  lemma FractionRoundTrip(negative: bool, whole: nat, x: real, k: nat)
    requires 0.0 <= x < 1.0 && k > 0 && Terminates(x, k)
    ensures
      var n := whole as real + x;
      ParseValue(FractionText(negative, DigitsFor(whole), Expansion(x, k))) == Ok(Number(if negative then -n else n))
  {
    DigitsDenote(whole);
    ExpansionDenotes(x, k);
    DecimalIs(DigitsFor(whole), Expansion(x, k), x);
    SpelledFraction(negative, DigitsFor(whole), Expansion(x, k), whole as real + x);
  }
}
