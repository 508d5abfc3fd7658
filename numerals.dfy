/**
 * Decimal numerals: the zero-padded counters of `f"{n:03d}"` / `f"{n:04d}"`, and
 * prices in whole cents together with the text Python writes for them
 * (`str(float)`) and reads back (`float(text)`).
 */
module Numerals {
  import opened Wrappers
  import opened Text

  predicate IsDigit(c: char)
  {
    '0' <= c <= '9'
  }

  predicate AllDigits(s: string)
  {
    forall i :: 0 <= i < |s| ==> IsDigit(s[i])
  }

  function DigitChar(d: nat): (c: char)
    requires d < 10
    ensures IsDigit(c)
  {
    (48 + d) as char
  }

  function DigitValue(c: char): (d: nat)
    requires IsDigit(c)
    ensures d < 10 && DigitChar(d) == c
  {
    (c as int - 48) as nat
  }

  /** The value of a string of decimal digits (Python's `int(s)` for such a string; "" reads as 0). */
  function ParseNat(s: string): nat
    requires AllDigits(s)
  {
    if s == [] then 0 else 10 * ParseNat(s[..|s| - 1]) + DigitValue(s[|s| - 1])
  }

  function Pow10(k: nat): (p: nat)
    ensures p >= 1
  {
    if k == 0 then 1 else 10 * Pow10(k - 1)
  }

  /** A numeral of `k` digits is below `10^k`. */
  lemma {:induction false} ParseNatBelow(s: string)
    requires AllDigits(s)
    ensures ParseNat(s) < Pow10(|s|)
  {
    if s != [] {
      ParseNatBelow(s[..|s| - 1]);
    }
  }

  /** The decimal digits of `n` without leading zeros (`str(n)`). */
  function NatToDigits(n: nat): (s: string)
    ensures |s| >= 1 && AllDigits(s)
    ensures |s| > 1 ==> s[0] != '0'
  {
    if n < 10 then [DigitChar(n)] else NatToDigits(n / 10) + [DigitChar(n % 10)]
  }

  lemma {:induction false} ParseNatToDigits(n: nat)
    ensures ParseNat(NatToDigits(n)) == n
  {
    if n >= 10 {
      var s := NatToDigits(n);
      assert s[..|s| - 1] == NatToDigits(n / 10);
      ParseNatToDigits(n / 10);
    }
  }

  function Zeros(k: nat): (z: string)
    ensures |z| == k && AllDigits(z)
    ensures forall i :: 0 <= i < k ==> z[i] == '0'
  {
    if k == 0 then "" else "0" + Zeros(k - 1)
  }

  /** Python's `f"{n:0{width}d}"`: the digits of `n`, left-padded with zeros to at least `width` characters. */
  function PadZeros(n: nat, width: nat): (s: string)
    ensures AllDigits(s)
    ensures |s| == if |NatToDigits(n)| < width then width else |NatToDigits(n)|
  {
    var d := NatToDigits(n);
    if |d| < width then Zeros(width - |d|) + d else d
  }

  /** Leading zeros do not change a value. */
  lemma {:induction false} ParseNatLeadingZeros(k: nat, s: string)
    requires AllDigits(s)
    ensures ParseNat(Zeros(k) + s) == ParseNat(s)
    decreases |s|
  {
    if s == [] {
      assert Zeros(k) + s == Zeros(k);
      ZerosValue(k);
    } else {
      var t := Zeros(k) + s;
      assert t[..|t| - 1] == Zeros(k) + s[..|s| - 1];
      ParseNatLeadingZeros(k, s[..|s| - 1]);
    }
  }

  lemma {:induction false} ZerosValue(k: nat)
    ensures ParseNat(Zeros(k)) == 0
  {
    if k > 0 {
      var z := Zeros(k);
      assert z[..k - 1] == Zeros(k - 1);
      ZerosValue(k - 1);
    }
  }

  /** A zero-padded numeral reads back as the number it was made from. */
  lemma PadZerosValue(n: nat, width: nat)
    ensures ParseNat(PadZeros(n, width)) == n
  {
    var d := NatToDigits(n);
    ParseNatToDigits(n);
    if |d| < width {
      var z := Zeros(width - |d|);
      assert PadZeros(n, width) == z + d;
      ParseNatLeadingZeros(width - |d|, d);
    } else {
      assert PadZeros(n, width) == d;
    }
  }

  /** Different counters never give the same padded numeral. */
  lemma PadZerosInjective(m: nat, n: nat, width: nat)
    requires PadZeros(m, width) == PadZeros(n, width)
    ensures m == n
  {
    PadZerosValue(m, width);
    PadZerosValue(n, width);
  }

  // ---------------------------------------------------------------------------
  // Prices. A price is a whole number of cents; Python keeps it as a float.

  /** The fraction digits `repr` prints for `f` hundredths: "0", one digit, or two. */
  function FractionText(f: nat): (s: string)
    requires f < 100
    ensures 1 <= |s| <= 2 && AllDigits(s)
    ensures s[|s| - 1] != '0' || s == "0"
  {
    if f == 0 then "0"
    else if f % 10 == 0 then [DigitChar(f / 10)]
    else [DigitChar(f / 10), DigitChar(f % 10)]
  }

  /** Python's `str(price)` for a price of `cents` hundredths, e.g. "50.0", "12.5", "12.55", "-0.5". */
  function FormatPrice(cents: int): (s: string)
    ensures |s| >= 3
  {
    var a := if cents < 0 then -cents else cents;
    var body := NatToDigits(a / 100) + "." + FractionText(a % 100);
    if cents < 0 then "-" + body else body
  }

  /** Reads "[digits][.digits]" with at most two fraction digits and at least one digit, as cents. */
  function ParseUnsignedCents(t: string): (r: Option<nat>)
  {
    var parts := Split(t, '.');
    if |parts| > 2 then None
    else
      var whole := parts[0];
      var frac := if |parts| == 2 then parts[1] else "";
      if !AllDigits(whole) || !AllDigits(frac) || |frac| > 2 then None
      else if |whole| + |frac| == 0 then None
      else
        var f := if |frac| == 0 then 0 else if |frac| == 1 then 10 * DigitValue(frac[0]) else ParseNat(frac);
        Some(100 * ParseNat(whole) + f)
  }

  /**
   * Python's `float(text)` for the price texts of this model: surrounding whitespace is
   * ignored, an optional sign, then a decimal numeral. `None` stands for the ValueError.
   */
  function ParsePrice(text: string): (r: Option<int>)
    ensures Strip(text) == "" ==> r == None
  {
    var t := Strip(text);
    if |t| > 0 && (t[0] == '+' || t[0] == '-') then
      match ParseUnsignedCents(t[1..])
      case None => None
      case Some(v) => var x: int := v; Some(if t[0] == '-' then -x else x)
    else
      match ParseUnsignedCents(t)
      case None => None
      case Some(v) => Some(v)
  }

  /** The unsigned text written for a price reads back as that price. */
  lemma FormatUnsignedRoundTrip(a: nat)
    ensures ParseUnsignedCents(NatToDigits(a / 100) + "." + FractionText(a % 100)) == Some(a)
  {
    var w := NatToDigits(a / 100);
    var f := FractionText(a % 100);
    SplitDecimal(w, f);
    ParseNatToDigits(a / 100);
    FractionValue(a % 100);
  }

  /** A numeral with a fraction splits at its point into the two digit strings. */
  lemma SplitDecimal(w: string, f: string)
    requires AllDigits(w) && AllDigits(f)
    ensures Split(w + "." + f, '.') == [w, f]
  {
    assert '.' !in w by { forall i | 0 <= i < |w| ensures w[i] != '.' { assert IsDigit(w[i]); } }
    assert '.' !in f by { forall i | 0 <= i < |f| ensures f[i] != '.' { assert IsDigit(f[i]); } }
    assert Join([w, f], '.') == w + "." + f;
    SplitJoin([w, f], '.');
  }

  /** The fraction digits read back as the hundredths they were written for. */
  lemma FractionValue(fv: nat)
    requires fv < 100
    ensures var f := FractionText(fv);
      (if |f| == 1 then 10 * DigitValue(f[0]) else ParseNat(f)) == fv
  {
    var f := FractionText(fv);
    if fv != 0 && fv % 10 != 0 {
      assert f[..1] == [DigitChar(fv / 10)];
      assert ParseNat(f[..1]) == fv / 10;
      assert ParseNat(f) == 10 * (fv / 10) + fv % 10;
    }
  }

  /** How the formatted price is put together: an optional minus sign, then the unsigned text. */
  lemma FormatPriceParts(cents: int)
    ensures var s := FormatPrice(cents);
      var a := if cents < 0 then -cents else cents;
      && (cents < 0 ==> s[0] == '-' && s[1..] == NatToDigits(a / 100) + "." + FractionText(a % 100))
      && (cents >= 0 ==> IsDigit(s[0]) && s == NatToDigits(a / 100) + "." + FractionText(a % 100))
      && IsDigit(s[|s| - 1])
  {
    var a := if cents < 0 then -cents else cents;
    var w := NatToDigits(a / 100);
    var f := FractionText(a % 100);
    var body := w + "." + f;
    assert body[0] == w[0];
    assert body[|body| - 1] == f[|f| - 1];
    if cents < 0 {
      assert ("-" + body)[1..] == body;
    }
  }

  /**
   * A decimal numeral in the shortest form `repr` gives a float with at most two decimals:
   * digits on both sides of a point, no leading zero in the whole part, one or two fraction
   * digits, and no trailing zero in the fraction unless it is the single "0".
   */
  ghost predicate ShortDecimal(body: string)
  {
    exists p :: 1 <= p && p + 2 <= |body| <= p + 3 && body[p] == '.'
      && AllDigits(body[..p]) && AllDigits(body[p + 1..])
      && (p > 1 ==> body[0] != '0')
      && (body[|body| - 1] != '0' || body[p + 1..] == "0")
  }

  lemma ShortDecimalOf(w: string, f: string)
    requires |w| >= 1 && AllDigits(w) && (|w| > 1 ==> w[0] != '0')
    requires 1 <= |f| <= 2 && AllDigits(f) && (f[|f| - 1] != '0' || f == "0")
    ensures ShortDecimal(w + "." + f)
  {
    var body := w + "." + f;
    var p := |w|;
    assert body[p] == '.' && body[..p] == w && body[p + 1..] == f;
    assert body[0] == w[0] && body[|body| - 1] == f[|f| - 1];
  }

  /** The shape of `str(price)`: a minus sign exactly for a negative price, then a short decimal numeral. */
  lemma FormatPriceShape(cents: int)
    ensures var s := FormatPrice(cents);
      && (s[0] == '-' <==> cents < 0)
      && ShortDecimal(if cents < 0 then s[1..] else s)
  {
    var a := if cents < 0 then -cents else cents;
    FormatPriceParts(cents);
    var w := NatToDigits(a / 100);
    ShortDecimalOf(w, FractionText(a % 100));
  }

  /** Reading back the text written for a price gives the same price. */
  lemma FormatPriceRoundTrip(cents: int)
    ensures ParsePrice(FormatPrice(cents)) == Some(cents)
  {
    var s := FormatPrice(cents);
    var a := if cents < 0 then -cents else cents;
    FormatPriceParts(cents);
    assert !IsSpace(s[0]) && !IsSpace(s[|s| - 1]);
    StripTrimmed(s);
    FormatUnsignedRoundTrip(a);
    if cents < 0 {
      SignedPrice(s, a);
    } else {
      UnsignedPrice(s, a);
    }
  }

  lemma SignedPrice(s: string, a: nat)
    requires Strip(s) == s && |s| > 0 && s[0] == '-'
    requires ParseUnsignedCents(s[1..]) == Some(a)
    ensures ParsePrice(s) == Some(-(a as int))
  {
    var t := Strip(s);
    assert t[0] == '-';
  }

  lemma UnsignedPrice(s: string, a: nat)
    requires Strip(s) == s && |s| > 0 && IsDigit(s[0])
    requires ParseUnsignedCents(s) == Some(a)
    ensures ParsePrice(s) == Some(a)
  {
    var t := Strip(s);
    assert t[0] != '+' && t[0] != '-';
  }

  /** `float` reads a numeral with two decimals as its value in cents. */
  lemma ParseTwoDecimals(w: nat, x: nat, y: nat)
    requires x < 10 && y < 10
    ensures ParsePrice(NatToDigits(w) + "." + [DigitChar(x), DigitChar(y)]) == Some(100 * w + 10 * x + y)
  {
    var d := NatToDigits(w);
    var f := [DigitChar(x), DigitChar(y)];
    var t := d + "." + f;
    assert IsDigit(t[0]) && !IsSpace(t[0]) by { assert t[0] == d[0]; }
    assert !IsSpace(t[|t| - 1]) by { assert t[|t| - 1] == DigitChar(y); }
    StripTrimmed(t);
    assert ParseUnsignedCents(t) == Some(100 * w + 10 * x + y) by {
      SplitDecimal(d, f);
      ParseNatToDigits(w);
      assert f[..1] == [DigitChar(x)];
      assert ParseNat(f[..1]) == x;
    }
    UnsignedPrice(t, 100 * w + 10 * x + y);
  }

  /** A whole number typed without a point, such as "50", reads as that many units. */
  lemma ParseWhole(w: nat)
    ensures ParsePrice(NatToDigits(w)) == Some(100 * w)
  {
    var d := NatToDigits(w);
    assert !IsSpace(d[0]) && !IsSpace(d[|d| - 1]);
    StripTrimmed(d);
    assert ParseUnsignedCents(d) == Some(100 * w) by {
      assert '.' !in d by { forall i | 0 <= i < |d| ensures d[i] != '.' { assert IsDigit(d[i]); } }
      SplitNoSep(d, '.');
      ParseNatToDigits(w);
    }
    UnsignedPrice(d, 100 * w);
  }

  /** `float` reads a leading minus as negation of the number after it. */
  lemma MinusSign(s: string)
    requires |s| >= 2 && s[0] == '-' && IsDigit(s[1]) && IsDigit(s[|s| - 1])
    ensures ParsePrice(s) == (if ParsePrice(s[1..]).Some? then Some(-ParsePrice(s[1..]).value) else None)
  {
    var t := s[1..];
    assert t[0] == s[1] && t[|t| - 1] == s[|s| - 1];
    assert !IsSpace(t[0]) && !IsSpace(t[|t| - 1]);
    StripTrimmed(t);
    StripTrimmed(s);
    match ParseUnsignedCents(t)
    case None =>
      UnparsedPrice(t);
      UnparsedPrice(s);
    case Some(a) =>
      UnsignedPrice(t, a);
      SignedPrice(s, a);
  }

  /** `float` ignores a leading plus. */
  lemma PlusSign(s: string)
    requires |s| >= 2 && s[0] == '+' && IsDigit(s[1]) && IsDigit(s[|s| - 1])
    ensures ParsePrice(s) == ParsePrice(s[1..])
  {
    var t := s[1..];
    assert t[0] == s[1] && t[|t| - 1] == s[|s| - 1];
    assert !IsSpace(t[0]) && !IsSpace(t[|t| - 1]);
    StripTrimmed(t);
    StripTrimmed(s);
    match ParseUnsignedCents(t)
    case None =>
      UnparsedPrice(t);
      UnparsedPrice(s);
    case Some(a) =>
      UnsignedPrice(t, a);
      PlusPrice(s, a);
  }

  lemma PlusPrice(s: string, a: nat)
    requires Strip(s) == s && |s| > 0 && s[0] == '+'
    requires ParseUnsignedCents(s[1..]) == Some(a)
    ensures ParsePrice(s) == Some(a)
  {
    var t := Strip(s);
    assert t[0] == '+';
  }

  lemma UnparsedPrice(s: string)
    requires Strip(s) == s && |s| > 0
    requires ParseUnsignedCents(if s[0] == '+' || s[0] == '-' then s[1..] else s) == None
    ensures ParsePrice(s) == None
  {
    var t := Strip(s);
    assert t == s;
  }
}
