/** `clean_price`: price text such as "£1,234.56" to a number. The
    function appears twice in the repository with the same body; this is
    the one definition of it. Numbers are exact reals over a plain ASCII
    decimal grammar. */
module Prices {
  import opened Common
  import opened Text

  predicate IsDigit(c: char) {
    '0' <= c <= '9'
  }

  predicate AllDigits(s: string) {
    forall i :: 0 <= i < |s| ==> IsDigit(s[i])
  }

  function DigitValue(c: char): nat
    requires IsDigit(c)
  {
    c as int - '0' as int
  }

  function DigitChar(d: nat): (c: char)
    requires d < 10
    ensures IsDigit(c) && DigitValue(c) == d
  {
    ('0' as int + d) as char
  }

  /** The value of a string of decimal digits, most significant first. */
  function DigitsValue(s: string): nat
    requires AllDigits(s)
    decreases |s|
  {
    if |s| == 0 then 0 else 10 * DigitsValue(s[..|s| - 1]) + DigitValue(s[|s| - 1])
  }

  function Pow10(n: nat): (r: nat)
    ensures r >= 1
  {
    if n == 0 then 1 else 10 * Pow10(n - 1)
  }

  /** The decimal numeral of `n`, without leading zeros. */
  function NatDigits(n: nat): (s: string)
    decreases n
    ensures |s| > 0 && AllDigits(s)
  {
    if n < 10 then [DigitChar(n)] else NatDigits(n / 10) + [DigitChar(n % 10)]
  }

  /** Reading back a numeral gives the number it was written from. */
  lemma {:induction false} NatDigitsValue(n: nat)
    decreases n
    ensures DigitsValue(NatDigits(n)) == n
  {
    if n >= 10 {
      var s := NatDigits(n);
      assert s[..|s| - 1] == NatDigits(n / 10);
      NatDigitsValue(n / 10);
    }
  }

  /** An unsigned decimal: digits, optionally a point and more digits, with
      at least one digit overall ("12", "12.", ".5", "12.50"). */
  function ParseUnsigned(s: string): (r: Option<real>)
    ensures r.Some? ==> r.value >= 0.0
  {
    match IndexOf(s, ".")
    case None =>
      if |s| > 0 && AllDigits(s) then Some(DigitsValue(s) as real) else None
    case Some(i) =>
      var whole, fraction := s[..i], s[i + 1..];
      if |whole| + |fraction| > 0 && AllDigits(whole) && AllDigits(fraction)
      then Some(DigitsValue(whole) as real + DigitsValue(fraction) as real / Pow10(|fraction|) as real)
      else None
  }

  /** A decimal with an optional leading sign. */
  function ParseDecimal(s: string): (r: Option<real>)
    ensures r.Some? && r.value < 0.0 ==> |s| > 0 && s[0] == '-'
  {
    if |s| > 0 && (s[0] == '+' || s[0] == '-') then
      match ParseUnsigned(s[1..])
      case None => None
      case Some(v) => Some(if s[0] == '-' then -v else v)
    else
      ParseUnsigned(s)
  }

  /** The text `float` is applied to: every "£" and "," removed, then the
      surrounding whitespace. */
  function Cleaned(price: string): (r: string)
    ensures |r| > 0 ==> !IsSpace(r[0]) && !IsSpace(r[|r| - 1])
  {
    Strip(RemoveChar(RemoveChar(price, '£'), ','))
  }

  /** The cleaned text holds no pound sign and no separator. */
  lemma CleanedAlphabet(price: string)
    ensures '£' !in Cleaned(price) && ',' !in Cleaned(price)
  {
    var noPound := RemoveChar(price, '£');
    var noSeparator := RemoveChar(noPound, ',');
    assert multiset(noPound)['£'] == 0;
    assert multiset(noSeparator)['£'] == 0;
    StripKeepsOnly(noSeparator);
  }

  /** `clean_price`: the number the cleaned text spells, or None when it
      spells no number or a negative one. It never raises. Its contract
      is stated against the parser; what it means for price texts is
      proved beside it: `CleanFormattedPrice` (a written price in pounds
      and pence reads back as that amount), `CleanIgnoresSeparator` (a
      thousands separator changes nothing), and `NegativeAfterPoundRejected`
      and `NegativeBeforePoundRejected` (a negative price is refused
      wherever its minus sign stands). */
  function CleanPrice(price: string): (r: Option<real>)
    ensures r.Some? ==> r.value >= 0.0
    ensures r.None? <==> ParseDecimal(Cleaned(price)).None? || ParseDecimal(Cleaned(price)).value < 0.0
    ensures r.Some? ==> ParseDecimal(Cleaned(price)) == r
  {
    match ParseDecimal(Cleaned(price))
    case None => None
    case Some(v) => if v >= 0.0 then Some(v) else None
  }

  /** Text that is already clean is passed to the parser as it is. */
  lemma CleanedUnchanged(s: string)
    requires '£' !in s && ',' !in s
    requires |s| > 0 ==> !IsSpace(s[0]) && !IsSpace(s[|s| - 1])
    ensures Cleaned(s) == s
  {
    RemoveCharAbsent(s, '£');
    RemoveCharAbsent(s, ',');
    StripUnchanged(s);
  }

  /** A leading pound sign is dropped from otherwise clean text. */
  lemma CleanedPound(s: string)
    requires '£' !in s && ',' !in s
    requires |s| > 0 ==> !IsSpace(s[0]) && !IsSpace(s[|s| - 1])
    ensures Cleaned("£" + s) == s
  {
    RemoveCharAppend("£", s, '£');
    assert RemoveChar("£", '£') == [];
    RemoveCharAbsent(s, '£');
    assert RemoveChar("£" + s, '£') == s;
    RemoveCharAbsent(s, ',');
    StripUnchanged(s);
  }

  /** In digits, a point and digits, the leftmost point is the one
      between the two runs of digits. */
  lemma PointSplit(w: string, f: string)
    requires AllDigits(w)
    ensures var s := w + "." + f;
      IndexOf(s, ".") == Some(|w|) && s[..|w|] == w && s[|w| + 1..] == f
  {
    var s := w + "." + f;
    assert s[|w|..|w| + 1] == ".";
    forall k | 0 <= k < |w|
      ensures !OccursAt(s, ".", k)
    {
      assert s[k] == w[k];
      NoOccurrenceAt(s, ".", k, 0);
    }
    FirstOccurrenceIsIndexOf(s, ".", |w|);
  }

  lemma ParseAtPoint(w: string, f: string, s: string)
    requires AllDigits(w) && AllDigits(f) && |w| + |f| > 0
    requires IndexOf(s, ".") == Some(|w|) && s[..|w|] == w && s[|w| + 1..] == f
    ensures ParseUnsigned(s)
      == Some(DigitsValue(w) as real + DigitsValue(f) as real / Pow10(|f|) as real)
  {
  }

  /** Digits, a point and digits read as the whole part plus the fraction. */
  lemma ParseWithPoint(w: string, f: string)
    requires AllDigits(w) && AllDigits(f) && |w| + |f| > 0
    ensures ParseUnsigned(w + "." + f)
      == Some(DigitsValue(w) as real + DigitsValue(f) as real / Pow10(|f|) as real)
  {
    PointSplit(w, f);
    ParseAtPoint(w, f, w + "." + f);
  }

  // ---------------------------------------------------------------------
  // A price written in pounds and pence, and what cleaning makes of it

  /** The two digits of the pence part of `n`. */
  function PenceDigits(n: nat): (f: string)
    ensures |f| == 2 && AllDigits(f) && DigitsValue(f) == n % 100
  {
    var f := [DigitChar(n % 100 / 10), DigitChar(n % 10)];
    assert f[..1][..0] == [];
    assert DigitsValue(f[..1]) == n % 100 / 10;
    assert n % 100 == 10 * (n % 100 / 10) + n % 10;
    f
  }

  /** `n` pence written as pounds with two decimals, e.g. 2249 as "22.49". */
  function FormatPence(n: nat): (s: string)
    ensures |s| > 0 && IsDigit(s[0]) && IsDigit(s[|s| - 1])
    ensures forall i :: 0 <= i < |s| ==> IsDigit(s[i]) || s[i] == '.'
  {
    NatDigits(n / 100) + "." + PenceDigits(n)
  }

  /** Written prices hold no pound sign, separator or sign. */
  lemma FormatPenceAlphabet(n: nat)
    ensures '£' !in FormatPence(n) && ',' !in FormatPence(n)
    ensures '-' !in FormatPence(n) && '+' !in FormatPence(n)
  {
  }

  /** Parsing what FormatPence wrote gives back the amount in pounds. */
  lemma FormatPenceParses(n: nat)
    ensures ParseDecimal(FormatPence(n)) == Some(n as real / 100.0)
  {
    NatDigitsValue(n / 100);
    ParsePoundsAndPence(NatDigits(n / 100), PenceDigits(n), FormatPence(n));
    PoundsAndPence(n);
  }

  /** Pounds, a point and two digits of pence. */
  lemma ParsePoundsAndPence(w: string, f: string, s: string)
    requires |w| > 0 && AllDigits(w) && |f| == 2 && AllDigits(f) && s == w + "." + f
    ensures ParseDecimal(s) == Some(DigitsValue(w) as real + DigitsValue(f) as real / 100.0)
  {
    assert s[0] == w[0];
    UnsignedIsDecimal(s);
    UnsignedPoundsAndPence(w, f, s);
  }

  lemma UnsignedPoundsAndPence(w: string, f: string, s: string)
    requires |w| > 0 && AllDigits(w) && |f| == 2 && AllDigits(f) && s == w + "." + f
    ensures ParseUnsigned(s) == Some(DigitsValue(w) as real + DigitsValue(f) as real / 100.0)
  {
    assert ParseUnsigned(s) == Some(DigitsValue(w) as real + DigitsValue(f) as real / Pow10(|f|) as real) by {
      PointSplit(w, f);
      ParseAtPoint(w, f, s);
    }
    assert Pow10(|f|) as real == 100.0 by {
      assert Pow10(|f|) == 100;
    }
  }

  /** Text that starts with a digit has no sign to read. */
  lemma UnsignedIsDecimal(s: string)
    requires |s| > 0 && IsDigit(s[0])
    ensures ParseDecimal(s) == ParseUnsigned(s)
  {
  }

  lemma PoundsAndPence(n: nat)
    ensures (n / 100) as real + (n % 100) as real / 100.0 == n as real / 100.0
  {
    var q, p := n / 100, n % 100;
    assert n == 100 * q + p;
  }

  /** The round trip: a price in pence, written with a pound sign, cleans
      to its value in pounds. */
  lemma CleanFormattedPrice(n: nat)
    ensures CleanPrice("£" + FormatPence(n)) == Some(n as real / 100.0)
  {
    FormatPenceAlphabet(n);
    CleanedPound(FormatPence(n));
    FormatPenceParses(n);
  }

  lemma SeparatorKeptByPound(a: string, b: string)
    ensures RemoveChar(a + "," + b, '£') == RemoveChar(a, '£') + "," + RemoveChar(b, '£')
  {
    assert a + "," + b == a + [','] + b;
    RemoveCharAround(a, ',', b, '£');
    RemoveCharSingle(',', '£');
  }

  lemma SeparatorDropped(a: string, b: string)
    ensures RemoveChar(a + "," + b, ',') == RemoveChar(a, ',') + RemoveChar(b, ',')
  {
    assert a + "," + b == a + [','] + b;
    RemoveCharAround(a, ',', b, ',');
    RemoveCharSingle(',', ',');
  }

  /** A thousands separator anywhere in the text is removed before parsing. */
  lemma SeparatorRemoved(a: string, b: string)
    ensures Cleaned(a + "," + b) == Cleaned(a + b)
  {
    SeparatorKeptByPound(a, b);
    SeparatorDropped(RemoveChar(a, '£'), RemoveChar(b, '£'));
    RemoveCharAppend(a, b, '£');
    RemoveCharAppend(RemoveChar(a, '£'), RemoveChar(b, '£'), ',');
  }

  /** A thousands separator anywhere in the text does not change the result. */
  lemma CleanIgnoresSeparator(a: string, b: string)
    ensures CleanPrice(a + "," + b) == CleanPrice(a + b)
  {
    SeparatorRemoved(a, b);
  }

  /** A minus sign before an unsigned number negates it. */
  lemma ParseNegated(s: string, v: real)
    requires ParseUnsigned(s) == Some(v)
    ensures ParseDecimal("-" + s) == Some(-v)
  {
    assert ("-" + s)[1..] == s;
  }

  /** A negative amount in pounds and pence, as cleaning leaves it. */
  lemma NegatedPenceParses(n: nat)
    ensures var m := "-" + FormatPence(n);
      && ParseDecimal(m) == Some(-(n as real / 100.0))
      && '£' !in m && ',' !in m && !IsSpace(m[0]) && !IsSpace(m[|m| - 1])
  {
    var s := FormatPence(n);
    FormatPenceAlphabet(n);
    FormatPenceParses(n);
    ParseNegated(s, n as real / 100.0);
  }

  /** A minus sign after the pound sign makes a non-zero price invalid. */
  lemma NegativeAfterPoundRejected(n: nat)
    requires n > 0
    ensures CleanPrice("£-" + FormatPence(n)) == None
  {
    var m := "-" + FormatPence(n);
    NegatedPenceParses(n);
    CleanedPound(m);
    MinusAfterPound(FormatPence(n));
  }

  lemma MinusAfterPound(s: string)
    ensures "£-" + s == "£" + ("-" + s)
  {
  }

  lemma PoundAfterMinusDropped(s: string)
    requires '£' !in s
    ensures RemoveChar("-£" + s, '£') == "-" + s
  {
    assert "-£" + s == "-" + ['£'] + s;
    RemoveCharAround("-", '£', s, '£');
    RemoveCharSingle('£', '£');
    RemoveCharAbsent("-", '£');
    RemoveCharAbsent(s, '£');
  }

  /** A minus sign before the pound sign makes a non-zero price invalid. */
  lemma NegativeBeforePoundRejected(n: nat)
    requires n > 0
    ensures CleanPrice("-£" + FormatPence(n)) == None
  {
    var s := FormatPence(n);
    FormatPenceAlphabet(n);
    PoundAfterMinusDropped(s);
    NegatedPenceParses(n);
    var m := "-" + s;
    RemoveCharAbsent(m, ',');
    StripUnchanged(m);
  }

  // ---------------------------------------------------------------------
  // The values the unit tests pin down

  /** A test price that FormatPence writes cleans to its value. */
  lemma CleanWrittenPrice(n: nat, text: string, price: string)
    requires FormatPence(n) == text && price == "£" + text
    ensures CleanPrice(price) == Some(n as real / 100.0)
  {
    CleanFormattedPrice(n);
  }

  lemma TestPriceTexts()
    ensures "£" + "22.49" == "£22.49" && "£" + "0.00" == "£0.00"
  {
  }

  lemma FormatPenceExample()
    ensures FormatPence(2249) == "22.49"
  {
  }

  lemma FormatPenceZeroExample()
    ensures FormatPence(0) == "0.00"
  {
  }

  lemma FormatPenceRoundExample()
    ensures FormatPence(1000) == "10.00"
  {
  }

  lemma FormatPenceThousandsExample()
    ensures FormatPence(123456) == "1234.56"
  {
  }

  lemma CleanPriceExample()
    ensures CleanPrice("£22.49") == Some(22.49)
  {
    FormatPenceExample();
    TestPriceTexts();
    CleanWrittenPrice(2249, "22.49", "£22.49");
  }

  lemma CleanPriceZeroExample()
    ensures CleanPrice("£0.00") == Some(0.0)
  {
    FormatPenceZeroExample();
    TestPriceTexts();
    CleanWrittenPrice(0, "0.00", "£0.00");
  }

  lemma CleanPriceNegativeExample()
    ensures CleanPrice("£-10.00") == None
  {
    NegativeAfterPoundRejected(1000);
    NegativeLiteral();
  }

  lemma NegativeLiteral()
    ensures "£-" + FormatPence(1000) == "£-10.00"
  {
    FormatPenceRoundExample();
  }

  lemma SeparatorExample()
    ensures "£1" + "," + "234.56" == "£1,234.56"
    ensures "£1" + "234.56" == "£" + FormatPence(123456)
  {
    FormatPenceThousandsExample();
  }

  lemma CleanPriceSeparatorExample()
    ensures CleanPrice("£1,234.56") == Some(1234.56)
  {
    CleanFormattedPrice(123456);
    CleanIgnoresSeparator("£1", "234.56");
    SeparatorExample();
  }

  lemma CleanedText()
    ensures Cleaned("sdfa") == "sdfa" && Cleaned("") == ""
  {
    CleanedUnchanged("sdfa");
    CleanedUnchanged("");
  }

  lemma TextIsNotANumber()
    ensures ParseDecimal("sdfa") == None && ParseDecimal("") == None
  {
    assert !IsDigit("sdfa"[0]);
    assert IndexOf("sdfa", ".") == None by {
      OccursAtChar("sdfa", '.');
    }
  }

  lemma CleanPriceRejectsText()
    ensures CleanPrice("sdfa") == None
    ensures CleanPrice("") == None
  {
    CleanedText();
    TextIsNotANumber();
  }
}
