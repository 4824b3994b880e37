/**
  The text handling of Canteen-Automation-System-Website/cart.js around prices
  and quantities: the `replace(/[^\d.-]/g, '')` filter, the number that
  `parseFloat` reads from it (money in minor units), and the quantity input
  with its clamp. Also the decimal rendering used to put numbers into text.
*/
module Prices {
  import opened Wrappers

  // ---------------------------------------------------------- price filter

  /** `[\d.-]`: the characters the filter keeps. */
  predicate IsPriceChar(c: char) {
    ('0' <= c <= '9') || c == '.' || c == '-'
  }

  /** `text.replace(/[^\d.-]/g, '')`. */
  function FilterPriceText(s: string): (r: string)
    ensures |r| <= |s|
    ensures forall c :: c in r ==> IsPriceChar(c)
    ensures forall c :: IsPriceChar(c) ==> multiset(r)[c] == multiset(s)[c]
  {
    if s == [] then []
    else
      assert s == [s[0]] + s[1..];
      (if IsPriceChar(s[0]) then [s[0]] else []) + FilterPriceText(s[1..])
  }

  /** The filter works character by character: it keeps the order of what it keeps. */
  lemma {:induction false} FilterPriceTextAppend(a: string, b: string)
    ensures FilterPriceText(a + b) == FilterPriceText(a) + FilterPriceText(b)
  {
    if a == [] {
      assert a + b == b;
    } else {
      assert (a + b)[0] == a[0];
      assert (a + b)[1..] == a[1..] + b;
      FilterPriceTextAppend(a[1..], b);
    }
  }

  /** Text made only of digits, dots and minus signs passes unchanged. */
  lemma {:induction false} FilterKeepsPriceText(s: string)
    requires forall c :: c in s ==> IsPriceChar(c)
    ensures FilterPriceText(s) == s
  {
    if s != [] {
      assert s[0] in s;
      assert forall c :: c in s[1..] ==> c in s;
      FilterKeepsPriceText(s[1..]);
    }
  }

  /** Filtering twice is filtering once. */
  lemma FilterPriceTextIdempotent(s: string)
    ensures FilterPriceText(FilterPriceText(s)) == FilterPriceText(s)
  {
    FilterKeepsPriceText(FilterPriceText(s));
  }

  // ------------------------------------------------------ decimal digits

  predicate IsDigit(c: char) { '0' <= c <= '9' }

  predicate AllDigits(s: string) { forall i :: 0 <= i < |s| ==> IsDigit(s[i]) }

  function DigitChar(d: nat): (c: char)
    requires d < 10
    ensures IsDigit(c) && (c - '0') as nat == d
  {
    ('0' as int + d) as char
  }

  function DigitValue(c: char): nat
    requires IsDigit(c)
  {
    (c - '0') as nat
  }

  /** The value of a run of decimal digits. */
  function DigitsValue(s: string): nat
    requires AllDigits(s)
  {
    if s == [] then 0 else DigitsValue(s[..|s| - 1]) * 10 + DigitValue(s[|s| - 1])
  }

  /** The shortest decimal text of a natural number. */
  function NatText(n: nat): (s: string)
    ensures AllDigits(s) && |s| >= 1
  {
    if n < 10 then [DigitChar(n)] else NatText(n / 10) + [DigitChar(n % 10)]
  }

  lemma {:induction false} NatTextValue(n: nat)
    ensures DigitsValue(NatText(n)) == n
  {
    if n >= 10 {
      var t := NatText(n / 10) + [DigitChar(n % 10)];
      assert t[..|t| - 1] == NatText(n / 10);
      NatTextValue(n / 10);
    }
  }

  /** A number as `String(n)` writes an integer. */
  function IntText(n: int): (s: string)
    ensures |s| >= 1
  {
    if n < 0 then "-" + NatText(-n) else NatText(n)
  }

  // ------------------------------------------------------- price parsing

  /** The length of the run of decimal digits that `s` starts with. */
  function DigitRun(s: string): (n: nat)
    ensures n <= |s| && AllDigits(s[..n])
    ensures n < |s| ==> !IsDigit(s[n])
  {
    if s == [] || !IsDigit(s[0]) then 0
    else
      var k := DigitRun(s[1..]);
      assert s[..k + 1] == [s[0]] + s[1..][..k];
      k + 1
  }

  /** The digits after the decimal point, when `t` goes on with one after `w` digits. */
  function Fraction(t: string, w: nat): (f: string)
    requires w <= |t|
    ensures AllDigits(f)
  {
    if w < |t| && t[w] == '.' then t[w + 1..][..DigitRun(t[w + 1..])] else ""
  }

  /**
    The longest unsigned decimal prefix of `t`, as `parseFloat` reads it, in
    minor units. None when there is no digit at all (NaN), and also when the
    prefix carries more than two decimals, which no amount in minor units has.
  */
  function ParseUnsigned(t: string): (r: Option<int>)
    ensures r.Some? ==> r.value >= 0
  {
    var w := DigitRun(t);
    var frac := Fraction(t, w);
    if w + |frac| == 0 || |frac| > 2 then None
    else Some(DigitsValue(t[..w]) * 100 + (if |frac| == 1 then DigitsValue(frac) * 10 else DigitsValue(frac)))
  }

  /**
    `parseFloat` of the filtered price text, in minor units: an optional minus
    sign, then the longest decimal prefix; what follows it is ignored. The
    empty text and a lone minus sign are NaN, and only a leading minus sign
    gives a negative amount.
  */
  function ParsePrice(t: string): (r: Option<int>)
    ensures t == [] || t == "-" ==> r.None?
    ensures r.Some? && r.value < 0 ==> t[0] == '-'
    ensures r.Some? && t[0] == '-' ==> r.value <= 0
  {
    var negative := t != [] && t[0] == '-';
    var magnitude := ParseUnsigned(if negative then t[1..] else t);
    if negative then Negate(magnitude) else magnitude
  }

  function Negate(v: Option<int>): Option<int> {
    match v
    case Some(x) => Some(-x)
    case None => None
  }

  /** The two-digit fractional part of an amount. */
  function CentsText(c: nat): (s: string)
    requires c < 100
    ensures |s| == 2 && AllDigits(s)
  {
    [DigitChar(c / 10), DigitChar(c % 10)]
  }

  /** A non-negative amount in minor units written with two decimals. */
  function UnsignedAmountText(a: nat): (s: string)
    ensures |s| >= 4 && IsDigit(s[0])
  {
    NatText(a / 100) + "." + CentsText(a % 100)
  }

  /** An amount in minor units written with two decimals, as a menu shows it. */
  function AmountText(m: int): string {
    if m < 0 then "-" + UnsignedAmountText(-m) else UnsignedAmountText(m)
  }

  lemma CentsValue(c: nat)
    requires c < 100
    ensures DigitsValue(CentsText(c)) == c
  {
    var t := CentsText(c);
    assert DigitValue(t[0]) == c / 10 && DigitValue(t[1]) == c % 10;
    assert t[..1][..0] == [];
    assert DigitsValue(t[..1]) == c / 10;
    assert t[..|t| - 1] == t[..1];
    assert DigitsValue(t) == (c / 10) * 10 + c % 10;
  }

  lemma DigitRunOfDigits(w: string, rest: string)
    requires AllDigits(w)
    requires rest == [] || !IsDigit(rest[0])
    ensures DigitRun(w + rest) == |w|
  {
    if w != [] {
      assert (w + rest)[1..] == w[1..] + rest;
      DigitRunOfDigits(w[1..], rest);
    }
  }

  lemma FractionAfterDot(w: string, c: string, rest: string)
    requires AllDigits(c)
    requires rest == [] || !IsDigit(rest[0])
    ensures Fraction(w + "." + c + rest, |w|) == c
  {
    var t := w + "." + c + rest;
    assert t[|w|] == '.';
    assert t[|w| + 1..] == c + rest;
    DigitRunOfDigits(c, rest);
    assert (c + rest)[..|c|] == c;
  }

  lemma DigitRunBeforeDot(w: string, c: string, rest: string)
    requires AllDigits(w)
    ensures DigitRun(w + "." + c + rest) == |w|
  {
    var t := w + "." + c + rest;
    assert t == w + ("." + c + rest);
    DigitRunOfDigits(w, "." + c + rest);
  }

  lemma ParseOfParts(t: string, w: string, c: string)
    requires AllDigits(w) && AllDigits(c) && |c| == 2
    requires |w| <= |t| && t[..|w|] == w
    requires DigitRun(t) == |w| && Fraction(t, |w|) == c
    ensures ParseUnsigned(t) == Some(DigitsValue(w) * 100 + DigitsValue(c))
  {
  }

  lemma ParseTwoDecimals(w: string, c: string, rest: string)
    requires AllDigits(w) && AllDigits(c) && |c| == 2
    requires rest == [] || !IsDigit(rest[0])
    ensures ParseUnsigned(w + "." + c + rest) == Some(DigitsValue(w) * 100 + DigitsValue(c))
  {
    var t := w + "." + c + rest;
    DigitRunBeforeDot(w, c, rest);
    FractionAfterDot(w, c, rest);
    assert t[..|w|] == w;
    ParseOfParts(t, w, c);
  }

  /** `parseFloat` stops at the first character that cannot extend the number. */
  lemma TrailingTextIgnored(a: nat, rest: string)
    requires rest == [] || !IsDigit(rest[0])
    ensures ParseUnsigned(UnsignedAmountText(a) + rest) == Some(a)
  {
    ParseTwoDecimals(NatText(a / 100), CentsText(a % 100), rest);
    NatTextValue(a / 100);
    CentsValue(a % 100);
  }

  lemma UnsignedAmountRoundTrip(a: nat)
    ensures ParseUnsigned(UnsignedAmountText(a)) == Some(a)
  {
    TrailingTextIgnored(a, "");
    assert UnsignedAmountText(a) + "" == UnsignedAmountText(a);
  }

  lemma ParsePriceUnsigned(u: string)
    requires u != [] && IsDigit(u[0])
    ensures ParsePrice(u) == ParseUnsigned(u)
  {
  }

  lemma ParsePriceNegative(u: string)
    ensures ParsePrice("-" + u) == Negate(ParseUnsigned(u))
  {
    assert ("-" + u)[1..] == u;
  }

  lemma UnsignedPriceRoundTrip(a: nat)
    ensures ParsePrice(UnsignedAmountText(a)) == Some(a)
  {
    UnsignedAmountRoundTrip(a);
    ParsePriceUnsigned(UnsignedAmountText(a));
  }

  lemma SignedTextParses(u: string, a: nat)
    requires ParseUnsigned(u) == Some(a)
    ensures ParsePrice("-" + u) == Some(-(a as int))
  {
    ParsePriceNegative(u);
  }

  lemma NegatedAmountParses(a: nat)
    ensures ParsePrice("-" + UnsignedAmountText(a)) == Some(-(a as int))
  {
    UnsignedAmountRoundTrip(a);
    SignedTextParses(UnsignedAmountText(a), a);
  }

  lemma NegativePriceRoundTrip(a: nat)
    requires a > 0
    ensures ParsePrice(AmountText(-(a as int))) == Some(-(a as int))
  {
    NegatedAmountParses(a);
  }

  /** Reading back an amount written with two decimals gives the amount. */
  lemma PriceRoundTrip(m: int)
    ensures ParsePrice(AmountText(m)) == Some(m)
  {
    if m < 0 {
      NegativePriceRoundTrip(-m);
    } else {
      UnsignedPriceRoundTrip(m);
    }
  }

  lemma UnsignedAmountIsPriceText(a: nat)
    ensures forall c :: c in UnsignedAmountText(a) ==> IsPriceChar(c)
  {
    var w := NatText(a / 100);
    var d := CentsText(a % 100);
    assert forall c :: c in w ==> IsPriceChar(c);
    assert forall c :: c in d ==> IsPriceChar(c);
  }

  lemma AmountIsPriceText(m: int)
    ensures forall c :: c in AmountText(m) ==> IsPriceChar(c)
  {
    if m < 0 {
      UnsignedAmountIsPriceText(-m);
    } else {
      UnsignedAmountIsPriceText(m);
    }
  }

  lemma GlyphIsFilteredOut(glyph: char, t: string)
    requires !IsPriceChar(glyph)
    requires forall c :: c in t ==> IsPriceChar(c)
    ensures FilterPriceText([glyph] + t) == t
  {
    FilterPriceTextAppend([glyph], t);
    assert FilterPriceText([glyph]) == [] by {
      assert [glyph][1..] == [];
    }
    FilterKeepsPriceText(t);
  }

  /** A menu price shown with a currency glyph in front reads as its amount. */
  lemma DisplayedPriceParses(glyph: char, m: int)
    requires !IsPriceChar(glyph)
    ensures ParsePrice(FilterPriceText([glyph] + AmountText(m))) == Some(m)
  {
    AmountIsPriceText(m);
    GlyphIsFilteredOut(glyph, AmountText(m));
    PriceRoundTrip(m);
  }

  // ------------------------------------------------------------ quantity

  /** The value of a `type="number"` input: blank when what was typed is not a number. */
  datatype Quantity = Blank | Value(n: int)

  /** `parseInt(input.value)`; None stands for NaN. */
  function ParseQuantity(q: Quantity): Option<int> {
    match q
    case Blank => None
    case Value(n) => Some(n)
  }

  /**
    `input.value` as text, as it travels in the order payload. A value is
    written in its plain decimal form, so the page's "02" or " 2" becomes "2".
  */
  function QuantityText(q: Quantity): string {
    match q
    case Blank => ""
    case Value(n) => IntText(n)
  }

  /** `if (isNaN(input.value) || input.value <= 0) input.value = 1`. */
  function ClampQuantity(q: Quantity): (r: Quantity)
    ensures r.Value? && r.n >= 1
    ensures q.Value? && q.n >= 1 ==> r == q
    ensures !(q.Value? && q.n >= 1) ==> r == Value(1)
  {
    match q
    case Blank => Value(1)
    case Value(n) => if n <= 0 then Value(1) else q
  }

  lemma ClampIdempotent(q: Quantity)
    ensures ClampQuantity(ClampQuantity(q)) == ClampQuantity(q)
  {
  }
}
