/**
 * Character-level helpers shared by the decoders, the formatters and the stores:
 * ASCII digits and decimal strings, the three notions of "blank" used by the
 * source (Java's String.trim, Java's Character.isWhitespace, ECMAScript's
 * String.prototype.trim), trimming, and ASCII upper-casing.
 */
module Text {
  import opened Wrappers

  predicate IsDigit(c: char) { '0' <= c <= '9' }

  predicate AllDigits(s: string) { forall i :: 0 <= i < |s| ==> IsDigit(s[i]) }

  function DigitValue(c: char): (n: nat)
    requires IsDigit(c)
    ensures n < 10
  {
    c as int - '0' as int
  }

  function DigitChar(n: nat): (c: char)
    requires n < 10
    ensures IsDigit(c) && DigitValue(c) == n
  {
    ('0' as int + n) as char
  }

  function Pow10(k: nat): (p: nat)
    ensures p >= 1
  {
    if k == 0 then 1 else 10 * Pow10(k - 1)
  }

  /** The value of a string of decimal digits, most significant first (parseInt of a digit string). */
  function DigitsValue(s: string): (n: nat)
    requires AllDigits(s)
    ensures n < Pow10(|s|)
  {
    if s == [] then 0 else 10 * DigitsValue(s[..|s| - 1]) + DigitValue(s[|s| - 1])
  }

  lemma DigitsValueSnoc(s: string, c: char)
    requires AllDigits(s) && IsDigit(c)
    ensures AllDigits(s + [c]) && DigitsValue(s + [c]) == 10 * DigitsValue(s) + DigitValue(c)
  {
    assert (s + [c])[..|s|] == s;
  }

  /** Decimal rendering of a natural number without leading zeros (Integer.toString, String(n)). */
  function NatToString(n: nat): (r: string)
    ensures |r| >= 1 && AllDigits(r)
    ensures DigitsValue(r) == n
    ensures |r| > 1 ==> r[0] != '0'
  {
    if n < 10 then [DigitChar(n)]
    else
      var prefix := NatToString(n / 10);
      DigitsValueSnoc(prefix, DigitChar(n % 10));
      prefix + [DigitChar(n % 10)]
  }

  /** `r` is a decimal numeral, optionally preceded by '-', whose value is `n`. */
  predicate IsDecimalOf(r: string, n: int)
  {
    if n >= 0 then r != [] && AllDigits(r) && DigitsValue(r) == n && (|r| > 1 ==> r[0] != '0')
    else |r| >= 2 && r[0] == '-' && AllDigits(r[1..]) && DigitsValue(r[1..]) == -n && (|r| > 2 ==> r[1] != '0')
  }

  /** Decimal rendering of a signed integer, with a leading '-' for negatives. */
  function IntToString(i: int): (r: string)
    ensures IsDecimalOf(r, i)
  {
    if i < 0 then
      var digits := NatToString(-i);
      assert ("-" + digits)[1..] == digits;
      "-" + digits
    else NatToString(i)
  }

  /**
   * The digit fields of a NIC-shaped string (ten characters whose first nine are digits,
   * or twelve digits): the two- and four-digit year fields and the three-digit day codes
   * that follow them.
   */
  lemma DigitFields(nic: string)
    requires (|nic| == 10 && AllDigits(nic[..9])) || (|nic| == 12 && AllDigits(nic))
    ensures AllDigits(nic[..2]) && AllDigits(nic[2..5])
    ensures |nic| == 12 ==> AllDigits(nic[..4]) && AllDigits(nic[4..7])
  {
    assert forall i :: 0 <= i < 9 ==> IsDigit(nic[i]) by {
      if |nic| == 10 { assert forall i :: 0 <= i < 9 ==> nic[..9][i] == nic[i]; }
    }
  }

  /** `s` left-padded with '0' to at least `width` characters. */
  function ZeroPad(s: string, width: nat): (r: string)
    ensures |r| == if |s| < width then width else |s|
    ensures r[|r| - |s|..] == s
    ensures forall i :: 0 <= i < |r| - |s| ==> r[i] == '0'
  {
    if |s| < width then seq(width - |s|, _ => '0') + s else s
  }

  /** Zero-padding a digit string keeps its value. */
  lemma ZeroPadValue(s: string, width: nat)
    requires AllDigits(s)
    ensures AllDigits(ZeroPad(s, width)) && DigitsValue(ZeroPad(s, width)) == DigitsValue(s)
  {
    if |s| < width { LeadingZeros(width - |s|, s); }
  }

  /** Leading zeros do not change the value of a digit string. */
  lemma {:induction false} LeadingZeros(k: nat, s: string)
    requires AllDigits(s)
    ensures AllDigits(seq(k, _ => '0') + s)
    ensures DigitsValue(seq(k, _ => '0') + s) == DigitsValue(s)
  {
    var z := seq(k, _ => '0');
    if s == [] {
      assert z + s == z;
      AllZeros(k);
    } else {
      assert (z + s)[..|z + s| - 1] == z + s[..|s| - 1];
      LeadingZeros(k, s[..|s| - 1]);
    }
  }

  lemma {:induction false} AllZeros(k: nat)
    ensures AllDigits(seq(k, _ => '0')) && DigitsValue(seq(k, _ => '0')) == 0
  {
    if k > 0 {
      assert seq(k, _ => '0')[..k - 1] == seq(k - 1, _ => '0');
      AllZeros(k - 1);
    }
  }

  /** A number below 10^k needs at most k digits. */
  lemma {:induction false} ShortNumeral(n: nat, k: nat)
    requires 1 <= k && n < Pow10(k)
    ensures |NatToString(n)| <= k
  {
    if n >= 10 {
      assert k >= 2;
      assert n / 10 < Pow10(k - 1);
      ShortNumeral(n / 10, k - 1);
      assert |NatToString(n)| == |NatToString(n / 10)| + 1;
    }
  }

  /** The numeral of `n` zero-padded to at least `width` digits. */
  function PadNumeral(n: nat, width: nat): (r: string)
    ensures AllDigits(r) && DigitsValue(r) == n && |r| >= width
  {
    ZeroPadValue(NatToString(n), width);
    ZeroPad(NatToString(n), width)
  }

  /** A number below 10^width pads to exactly `width` digits. */
  lemma PadNumeralWidth(n: nat, width: nat)
    requires 1 <= width && n < Pow10(width)
    ensures |PadNumeral(n, width)| == width
  {
    ShortNumeral(n, width);
  }

  /** The widths of the date fields. */
  lemma SmallPowers()
    ensures Pow10(2) == 100 && Pow10(4) == 10000
  {
    assert Pow10(1) == 10 && Pow10(3) == 1000;
  }

  /** Digit strings of one length are equal when their values are: a fixed-width numeral is unique. */
  lemma {:induction false} DigitsInjective(a: string, b: string)
    requires AllDigits(a) && AllDigits(b) && |a| == |b| && DigitsValue(a) == DigitsValue(b)
    ensures a == b
  {
    if a != [] {
      var k := |a| - 1;
      var a', b' := a[..k], b[..k];
      assert AllDigits(a') && AllDigits(b');
      var x, y := DigitsValue(a'), DigitsValue(b');
      var da, db := DigitValue(a[k]), DigitValue(b[k]);
      assert 10 * x + da == 10 * y + db;
      LastDigit(x, da, y, db);
      DigitsInjective(a', b');
      assert a[k] == b[k];
      assert a == a' + [a[k]] && b == b' + [b[k]];
    }
  }

  /** The last decimal digit and the rest of a number are determined by the number. */
  lemma LastDigit(x: nat, da: nat, y: nat, db: nat)
    requires da < 10 && db < 10 && 10 * x + da == 10 * y + db
    ensures x == y && da == db
  {
  }

  /** JavaScript truthiness of an optional string: present and not empty. */
  predicate Truthy(s: Option<string>) { s.Some? && s.value != "" }

  /** Characters removed by Java's String.trim: every code point up to U+0020. */
  predicate JavaTrimmable(c: char) { c <= ' ' }

  /** Java's Character.isWhitespace, which decides String.isBlank. */
  predicate JavaWhitespace(c: char)
  {
    || c == ' ' || ('\t' <= c <= '\r') || ('\U{001C}' <= c <= '\U{001F}')
    || c == '\U{1680}' || ('\U{2000}' <= c <= '\U{2006}') || ('\U{2008}' <= c <= '\U{200A}')
    || c == '\U{2028}' || c == '\U{2029}' || c == '\U{205F}' || c == '\U{3000}'
  }

  /** ECMAScript WhiteSpace and LineTerminator code points, removed by String.prototype.trim. */
  predicate JsWhitespace(c: char)
  {
    || c == '\t' || c == '\n' || c == '\U{000B}' || c == '\U{000C}' || c == '\r' || c == ' '
    || c == '\U{00A0}' || c == '\U{1680}' || ('\U{2000}' <= c <= '\U{200A}')
    || c == '\U{2028}' || c == '\U{2029}' || c == '\U{202F}' || c == '\U{205F}'
    || c == '\U{3000}' || c == '\U{FEFF}'
  }

  /** Java's String.isBlank: empty or made only of Character.isWhitespace code points. */
  predicate JavaIsBlank(s: string) { forall i :: 0 <= i < |s| ==> JavaWhitespace(s[i]) }

  /** The number of leading `blank` characters of `s`. */
  function LeadingBlanks(s: string, blank: char -> bool): (n: nat)
    ensures n <= |s|
    ensures forall i :: 0 <= i < n ==> blank(s[i])
    ensures n < |s| ==> !blank(s[n])
  {
    if s != [] && blank(s[0]) then 1 + LeadingBlanks(s[1..], blank) else 0
  }

  /** `s` without its longest suffix of `blank` characters. */
  function TrimEnd(s: string, blank: char -> bool): (r: string)
    ensures |r| <= |s| && r == s[..|r|]
    ensures forall i :: |r| <= i < |s| ==> blank(s[i])
    ensures r != [] ==> !blank(r[|r| - 1])
  {
    if s != [] && blank(s[|s| - 1]) then TrimEnd(s[..|s| - 1], blank) else s
  }

  /**
   * `s` without leading and trailing `blank` characters: the result is the slice of `s`
   * that starts after the leading blanks, everything cut off is blank, and the result
   * neither starts nor ends with a blank.
   */
  function Trim(s: string, blank: char -> bool): (r: string)
    ensures LeadingBlanks(s, blank) + |r| <= |s|
    ensures r == s[LeadingBlanks(s, blank)..LeadingBlanks(s, blank) + |r|]
    ensures forall k :: LeadingBlanks(s, blank) + |r| <= k < |s| ==> blank(s[k])
    ensures r != [] ==> !blank(r[0]) && !blank(r[|r| - 1])
  {
    TrimEnd(s[LeadingBlanks(s, blank)..], blank)
  }

  function UpperChar(c: char): (u: char)
  {
    if 'a' <= c <= 'z' then (c as int - 32) as char else c
  }

  /** Upper-casing, as far as it concerns ASCII letters. */
  function ToUpper(s: string): (r: string)
    ensures |r| == |s|
    ensures forall i :: 0 <= i < |s| ==> r[i] == UpperChar(s[i])
  {
    seq(|s|, i requires 0 <= i < |s| => UpperChar(s[i]))
  }

}
