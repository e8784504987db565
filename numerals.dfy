/** Decimal numerals: Python's `"{:d}"` rendering of a natural number, the
    zero-padded fixed-width fields of an ISO-8601 date, the three-decimal
    rendering of a priority, and reading such texts back. */
module Numerals {
  import opened Results

  predicate IsDigit(c: char) {
    '0' <= c <= '9'
  }

  predicate AllDigits(s: string) {
    forall i :: 0 <= i < |s| ==> IsDigit(s[i])
  }

  function DigitChar(d: nat): (c: char)
    requires d < 10
    ensures IsDigit(c) && c as int - '0' as int == d
  {
    ('0' as int + d) as char
  }

  function DigitValue(c: char): (d: nat)
    requires IsDigit(c)
    ensures d < 10 && DigitChar(d) == c
  {
    c as int - '0' as int
  }

  function Pow10(n: nat): (r: nat)
    ensures r > 0
  {
    if n == 0 then 1 else 10 * Pow10(n - 1)
  }

  /** The number a string of decimal digits denotes (leading zeros allowed). */
  function ValueOf(s: string): nat
    requires AllDigits(s)
  {
    if s == [] then 0 else 10 * ValueOf(s[..|s| - 1]) + DigitValue(s[|s| - 1])
  }

  /** `n` in exactly `width` digits, zero-padded on the left (`"%04d"`, `"%02d"`). */
  function Fixed(n: nat, width: nat): (r: string)
    ensures |r| == width && AllDigits(r)
  {
    if width == 0 then "" else Fixed(n / 10, width - 1) + [DigitChar(n % 10)]
  }

  /** Python's `"{:d}".format(n)` for `n >= 0`: no sign, no leading zero. */
  function NatToString(n: nat): (r: string)
    ensures |r| > 0 && AllDigits(r)
    ensures |r| > 1 ==> r[0] != '0'
  {
    if n < 10 then [DigitChar(n)] else NatToString(n / 10) + [DigitChar(n % 10)]
  }

  /** A zero-padded field reads back as the number written, when the number fits. */
  lemma {:induction false} FixedValue(n: nat, width: nat)
    requires n < Pow10(width)
    ensures ValueOf(Fixed(n, width)) == n
  {
    if width > 0 {
      FixedValue(n / 10, width - 1);
      var r := Fixed(n, width);
      assert r[..|r| - 1] == Fixed(n / 10, width - 1);
    }
  }

  /** Every digit string of length `width` is the zero-padded field of its value. */
  lemma {:induction false} ValueFixed(s: string)
    requires AllDigits(s)
    ensures ValueOf(s) < Pow10(|s|) && Fixed(ValueOf(s), |s|) == s
  {
    if s != [] {
      var init := s[..|s| - 1];
      ValueFixed(init);
      var v := ValueOf(s);
      assert v / 10 == ValueOf(init) && v % 10 == DigitValue(s[|s| - 1]);
      assert s == init + [s[|s| - 1]];
    }
  }

  lemma {:induction false} NatToStringValue(n: nat)
    ensures ValueOf(NatToString(n)) == n
  {
    if n >= 10 {
      NatToStringValue(n / 10);
      var r := NatToString(n);
      assert r[..|r| - 1] == NatToString(n / 10);
    }
  }

  /** Distinct numbers render as distinct numerals. */
  lemma NatToStringInjective(m: nat, n: nat)
    requires NatToString(m) == NatToString(n)
    ensures m == n
  {
    NatToStringValue(m);
    NatToStringValue(n);
  }

  /** The position of the first `c` in `s`, or `|s|` when there is none. */
  function IndexOf(s: string, c: char): (i: nat)
    ensures i <= |s| && (i < |s| ==> s[i] == c)
    ensures forall j :: 0 <= j < i ==> s[j] != c
  {
    if s == [] then 0
    else if s[0] == c then 0
    else 1 + IndexOf(s[1..], c)
  }

  /** Python's `"{:.3f}".format(p / 1000)` for a priority held in thousandths. */
  function Thousandths(p: nat): (r: string)
    ensures |r| >= 5 && r[|r| - 4] == '.'
  {
    NatToString(p / 1000) + "." + Fixed(p % 1000, 3)
  }

  /** An `xsd:decimal` text with at most three fraction digits, in thousandths; `None`
      for a text that is not such a decimal. */
  function ParseThousandths(s: string): (r: Option<nat>)
  {
    var i := IndexOf(s, '.');
    var whole := s[..i];
    if whole == [] || !AllDigits(whole) then None
    else if i == |s| then Some(ValueOf(whole) * 1000)
    else
      var frac := s[i + 1..];
      if 1 <= |frac| <= 3 && AllDigits(frac) then
        Some(ValueOf(whole) * 1000 + ValueOf(frac) * Pow10(3 - |frac|))
      else None
  }

  /** A written priority reads back as the same number of thousandths. */
  lemma ThousandthsRoundTrip(p: nat)
    ensures ParseThousandths(Thousandths(p)) == Some(p)
  {
    var w := NatToString(p / 1000);
    var s := Thousandths(p);
    assert s[..|w|] == w;
    assert s[|w|] == '.';
    assert forall j :: 0 <= j < |w| ==> s[j] != '.' by {
      forall j | 0 <= j < |w| ensures s[j] != '.' {
        assert s[j] == w[j];
      }
    }
    assert IndexOf(s, '.') == |w|;
    assert s[|w| + 1..] == Fixed(p % 1000, 3);
    NatToStringValue(p / 1000);
    FixedValue(p % 1000, 3);
  }
}
