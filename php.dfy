/** PHP's own value primitives that the library pages rely on: the truthiness of a
    string (empty() and `?:`), the decimal rendering of an integer and str_pad with
    STR_PAD_LEFT. Decimal strings come with a reading function, DigitsValue, so that
    the renderings built on them can be stated as round trips. */
module Php {

  datatype Option<+T> = None | Some(value: T)

  /** empty($s), and the falsiness of `$s ?: …` and `if ($s)`, for a string:
      only "" and "0" count as empty. */
  predicate Empty(s: string) {
    s == "" || s == "0"
  }

  predicate IsDigit(c: char) {
    '0' <= c <= '9'
  }

  predicate AllDigits(s: string) {
    forall i :: 0 <= i < |s| ==> IsDigit(s[i])
  }

  function Pow10(k: nat): (p: nat)
    ensures p >= 1
  {
    if k == 0 then 1 else 10 * Pow10(k - 1)
  }

  /** The powers of ten the formats below need. */
  lemma Pow10Values()
    ensures Pow10(2) == 100 && Pow10(3) == 1000 && Pow10(4) == 10000 && Pow10(6) == 1000000
  {
  }

  /** The two parts of a concatenation of digit strings. */
  lemma DigitsConcat(a: string, b: string)
    requires AllDigits(a) && AllDigits(b)
    ensures AllDigits(a + b) && (a + b)[..|a|] == a && (a + b)[|a|..] == b
  {
  }

  function DigitChar(d: nat): (c: char)
    requires d < 10
    ensures IsDigit(c)
  {
    ('0' as int + d) as char
  }

  /** The value of a digit character (0 for any other character). */
  function DigitValue(c: char): (d: nat)
    ensures d < 10
  {
    if IsDigit(c) then c as int - '0' as int else 0
  }

  /** The digits PHP writes for a non-negative integer converted to a string:
      at least one digit and no leading zero. */
  function DecimalString(n: nat): (s: string)
    ensures 1 <= |s| && AllDigits(s)
    ensures n > 0 ==> s[0] != '0'
    ensures n == 0 ==> s == "0"
  {
    if n < 10 then [DigitChar(n)] else DecimalString(n / 10) + [DigitChar(n % 10)]
  }

  /** The number a string of decimal digits denotes (leading zeros allowed). */
  function DigitsValue(s: string): nat {
    if s == [] then 0 else DigitsValue(s[..|s| - 1]) * 10 + DigitValue(s[|s| - 1])
  }

  /** str_pad($s, $width, $pad, STR_PAD_LEFT) with a one-character pad. */
  function PadLeft(s: string, width: nat, pad: char): (r: string)
    ensures |r| == if |s| >= width then |s| else width
    ensures r[|r| - |s|..] == s
    ensures forall i :: 0 <= i < |r| - |s| ==> r[i] == pad
  {
    if |s| >= width then s else seq(width - |s|, _ => pad) + s
  }

  lemma {:induction false} DecimalRoundTrip(n: nat)
    ensures DigitsValue(DecimalString(n)) == n
  {
    if n >= 10 {
      var s := DecimalString(n);
      assert s[..|s| - 1] == DecimalString(n / 10);
      DecimalRoundTrip(n / 10);
    }
  }

  /** A number below 10^k needs at most k digits. */
  lemma {:induction false} DecimalLength(n: nat, k: nat)
    requires 1 <= k && n < Pow10(k)
    ensures |DecimalString(n)| <= k
  {
    if n >= 10 {
      assert k >= 2;
      assert n / 10 < Pow10(k - 1);
      DecimalLength(n / 10, k - 1);
    }
  }

  lemma {:induction false} DigitsValueAppend(a: string, b: string)
    requires AllDigits(a) && AllDigits(b)
    ensures AllDigits(a + b)
    ensures DigitsValue(a + b) == DigitsValue(a) * Pow10(|b|) + DigitsValue(b)
  {
    if b == [] {
      assert a + b == a;
    } else {
      var b' := b[..|b| - 1];
      assert (a + b)[..|a + b| - 1] == a + b';
      DigitsValueAppend(a, b');
      var x, p, y := DigitsValue(a), Pow10(|b'|), DigitsValue(b');
      ShiftDistributes(x, p, y);
    }
  }

  lemma ShiftDistributes(x: nat, p: nat, y: nat)
    ensures (x * p + y) * 10 == x * (p * 10) + y * 10
  {
  }

  lemma {:induction false} ZerosValue(k: nat)
    ensures AllDigits(seq(k, _ => '0'))
    ensures DigitsValue(seq(k, _ => '0')) == 0
  {
    if k > 0 {
      var z := seq(k, _ => '0');
      assert z[..k - 1] == seq(k - 1, _ => '0');
      ZerosValue(k - 1);
    }
  }

  /** Padding digits on the left with zeros keeps their value. */
  lemma ZeroPadValue(s: string, width: nat)
    requires AllDigits(s)
    ensures AllDigits(PadLeft(s, width, '0'))
    ensures DigitsValue(PadLeft(s, width, '0')) == DigitsValue(s)
  {
    if |s| < width {
      var z := seq(width - |s|, _ => '0');
      ZerosValue(width - |s|);
      DigitsValueAppend(z, s);
    }
  }

  /** The last width decimal digits of n, leading zeros included. */
  function ZeroPadded(n: nat, width: nat): (s: string)
    ensures |s| == width
  {
    if width == 0 then [] else ZeroPadded(n / 10, width - 1) + [DigitChar(n % 10)]
  }

  /** A number that fits in width digits reads back from its zero-padded digits. */
  lemma {:induction false} ZeroPaddedDigits(n: nat, width: nat)
    requires n < Pow10(width)
    ensures AllDigits(ZeroPadded(n, width)) && DigitsValue(ZeroPadded(n, width)) == n
  {
    if width > 0 {
      var s := ZeroPadded(n, width);
      assert s[..width - 1] == ZeroPadded(n / 10, width - 1);
      ZeroPaddedDigits(n / 10, width - 1);
    }
  }

  /** Digit strings of one length that denote the same number are the same string. */
  lemma {:induction false} DigitsValueInjective(s: string, t: string)
    requires |s| == |t| && AllDigits(s) && AllDigits(t) && DigitsValue(s) == DigitsValue(t)
    ensures s == t
  {
    if s != [] {
      var n := |s| - 1;
      assert DigitValue(s[n]) == DigitsValue(s) % 10 == DigitValue(t[n]);
      DigitsValueInjective(s[..n], t[..n]);
      assert s == s[..n] + [s[n]] && t == t[..n] + [t[n]];
    }
  }

  /** str_pad($n, $width, '0', STR_PAD_LEFT) for a number that fits in width digits is
      ZeroPadded. */
  lemma ZeroPaddedIsStrPad(n: nat, width: nat)
    requires 1 <= width && n < Pow10(width)
    ensures ZeroPadded(n, width) == PadLeft(DecimalString(n), width, '0')
  {
    DecimalLength(n, width);
    ZeroPadValue(DecimalString(n), width);
    DecimalRoundTrip(n);
    ZeroPaddedDigits(n, width);
    DigitsValueInjective(ZeroPadded(n, width), PadLeft(DecimalString(n), width, '0'));
  }
}
