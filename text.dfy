/**
 * The string operations the addon relies on, with Python's meaning
 * restricted to ASCII: `str.strip`, `str.lower`, `str.isdigit`, `int(s)`,
 * `str(n)`, `str.zfill`, repetition, slicing, and the byte-wise ordering
 * that string comparison in the database is modelled by.
 */
module Text {
  import opened Wrappers

  predicate IsDigit(c: char) { '0' <= c <= '9' }

  predicate IsHexDigit(c: char) { IsDigit(c) || 'a' <= c <= 'f' || 'A' <= c <= 'F' }

  /** ASCII whitespace as Python's `str.isspace` sees it (tab to carriage return, 0x1C-0x1F, space). */
  predicate IsSpace(c: char) { 9 <= c as int <= 13 || 28 <= c as int <= 32 }

  /** Every character is a decimal digit (true of the empty string). */
  predicate OnlyDigits(s: string) { forall i | 0 <= i < |s| :: IsDigit(s[i]) }

  /** Python's `s.isdigit()`: non-empty and all digits. */
  predicate AllDigits(s: string) { |s| > 0 && OnlyDigits(s) }

  function Repeat(c: char, n: int): (r: string)
    ensures |r| == if n < 0 then 0 else n
    ensures forall i | 0 <= i < |r| :: r[i] == c
    decreases n
  {
    if n <= 0 then [] else [c] + Repeat(c, n - 1)
  }

  function Pow10(n: nat): (r: nat)
    ensures r >= 1
  {
    if n == 0 then 1 else 10 * Pow10(n - 1)
  }

  // ---------------------------------------------------------------
  // Decimal numerals
  // ---------------------------------------------------------------

  function DigitValue(c: char): nat
    requires IsDigit(c)
  {
    (c as int) - ('0' as int)
  }

  function DigitChar(d: nat): (c: char)
    requires d < 10
    ensures IsDigit(c) && DigitValue(c) == d
  {
    (('0' as int) + d) as char
  }

  /** The value of a digit string (Python's `int(s)` on digits; 0 for the empty string). */
  function DigitsValue(s: string): nat
    requires OnlyDigits(s)
  {
    if |s| == 0 then 0 else DigitsValue(s[..|s| - 1]) * 10 + DigitValue(s[|s| - 1])
  }

  /** Python's `str(n)` for a non-negative integer. */
  function NatToDigits(n: nat): (r: string)
    ensures AllDigits(r)
    ensures r[0] == '0' ==> n == 0
  {
    if n < 10 then [DigitChar(n)] else NatToDigits(n / 10) + [DigitChar(n % 10)]
  }

  /** Python's `s.zfill(width)` for a string without sign. */
  function ZFill(s: string, width: int): (r: string)
    ensures |r| == Max(|s|, width)
    ensures r[|r| - |s|..] == s
    ensures forall i | 0 <= i < |r| - |s| :: r[i] == '0'
  {
    Repeat('0', width - |s|) + s
  }

  /** `str(n).zfill(width)` for a non-negative integer. */
  function PadNat(n: nat, width: int): (r: string)
    ensures AllDigits(r)
  {
    ZFill(NatToDigits(n), width)
  }

  /** Python's `str(n)` for any integer. */
  function IntToString(n: int): string
  {
    if n < 0 then "-" + NatToDigits(-n) else NatToDigits(n)
  }

  /** `str(n).zfill(width)` for any integer: the sign stays in front of the zeros. */
  function PadInt(n: int, width: int): string
  {
    if n < 0 then "-" + ZFill(NatToDigits(-n), width - 1) else PadNat(n, width)
  }

  lemma {:induction false} DigitsValueSnoc(s: string, c: char)
    requires OnlyDigits(s) && IsDigit(c)
    ensures OnlyDigits(s + [c])
    ensures DigitsValue(s + [c]) == DigitsValue(s) * 10 + DigitValue(c)
  {
    assert (s + [c])[..|s|] == s;
  }

  /** `int(str(n)) == n`. */
  lemma {:induction false} DigitsRoundTrip(n: nat)
    ensures DigitsValue(NatToDigits(n)) == n
  {
    if n >= 10 {
      DigitsRoundTrip(n / 10);
      DigitsValueSnoc(NatToDigits(n / 10), DigitChar(n % 10));
    }
  }

  lemma {:induction false} LeadingZerosValue(k: int, s: string)
    requires OnlyDigits(s)
    ensures OnlyDigits(Repeat('0', k) + s)
    ensures DigitsValue(Repeat('0', k) + s) == DigitsValue(s)
    decreases |s|
  {
    var z := Repeat('0', k);
    if |s| == 0 {
      assert z + s == z;
      ZerosValue(k);
    } else {
      var t := z + s;
      assert t[..|t| - 1] == z + s[..|s| - 1];
      LeadingZerosValue(k, s[..|s| - 1]);
    }
  }

  lemma {:induction false} ZerosValue(k: int)
    ensures OnlyDigits(Repeat('0', k)) && DigitsValue(Repeat('0', k)) == 0
    decreases k
  {
    var z := Repeat('0', k);
    if k > 0 {
      assert z[..|z| - 1] == Repeat('0', k - 1);
      ZerosValue(k - 1);
    }
  }

  /** Zero padding keeps the value: `int(str(n).zfill(w)) == n`. */
  lemma PadNatValue(n: nat, width: int)
    ensures DigitsValue(PadNat(n, width)) == n
  {
    LeadingZerosValue(width - |NatToDigits(n)|, NatToDigits(n));
    DigitsRoundTrip(n);
  }

  /** Padded numerals are equal exactly when their values are. */
  lemma PadNatInjective(a: nat, b: nat, width: int)
    ensures PadNat(a, width) == PadNat(b, width) <==> a == b
  {
    PadNatValue(a, width);
    PadNatValue(b, width);
  }

  /** A number below 10^w has at most w digits. */
  lemma {:induction false} NatToDigitsLength(n: nat, w: nat)
    requires w >= 1 && n < Pow10(w)
    ensures |NatToDigits(n)| <= w
  {
    if n >= 10 {
      assert w >= 2;
      assert n / 10 < Pow10(w - 1);
      NatToDigitsLength(n / 10, w - 1);
    }
  }

  /** A number below 10^w padded to w characters is exactly w digits long. */
  lemma PadNatLength(n: nat, w: nat)
    requires w >= 1 && n < Pow10(w)
    ensures |PadNat(n, w)| == w
  {
    NatToDigitsLength(n, w);
  }

  /** A numeral of n digits is below 10^n. */
  lemma {:induction false} DigitsValueBound(s: string)
    requires OnlyDigits(s)
    ensures DigitsValue(s) < Pow10(|s|)
  {
    if |s| > 0 {
      DigitsValueBound(s[..|s| - 1]);
    }
  }

  /** A numeral read from the front: its first digit weighs 10^(n-1). */
  lemma {:induction false} DigitsValueFront(s: string)
    requires OnlyDigits(s) && |s| > 0
    ensures DigitsValue(s) == DigitValue(s[0]) * Pow10(|s| - 1) + DigitsValue(s[1..])
  {
    if |s| > 1 {
      var t := s[..|s| - 1];
      DigitsValueFront(t);
      assert s[1..][..|s| - 2] == t[1..];
      assert Pow10(|s| - 1) == 10 * Pow10(|s| - 2);
      assert DigitValue(s[0]) * Pow10(|s| - 1) == DigitValue(s[0]) * Pow10(|s| - 2) * 10;
    }
  }

  /** For numerals of equal length, byte-wise order is numeric order. */
  lemma {:induction false} LexLeDigits(a: string, b: string)
    requires OnlyDigits(a) && OnlyDigits(b) && |a| == |b|
    ensures LexLe(a, b) <==> DigitsValue(a) <= DigitsValue(b)
  {
    if |a| > 0 {
      var p := Pow10(|a| - 1);
      var x, y := DigitValue(a[0]), DigitValue(b[0]);
      DigitsValueFront(a);
      DigitsValueFront(b);
      DigitsValueBound(a[1..]);
      DigitsValueBound(b[1..]);
      if x == y {
        LexLeDigits(a[1..], b[1..]);
      } else if x < y {
        LeadingDigitDecides(x, y, p, DigitsValue(a[1..]), DigitsValue(b[1..]));
      } else {
        LeadingDigitDecides(y, x, p, DigitsValue(b[1..]), DigitsValue(a[1..]));
      }
    }
  }

  /** A smaller leading digit makes a smaller numeral, whatever follows. */
  lemma LeadingDigitDecides(x: nat, y: nat, p: nat, u: nat, v: nat)
    requires x < y && u < p && v < p
    ensures x * p + u < y * p + v
  {
    MulMonotone(x + 1, y, p);
    MulStep(x, p);
  }

  lemma MulStep(x: nat, p: nat)
    ensures (x + 1) * p == x * p + p
  {
  }

  lemma {:induction false} MulMonotone(x: nat, y: nat, p: nat)
    requires x <= y
    ensures x * p <= y * p
    decreases y - x
  {
    if x < y {
      MulMonotone(x, y - 1, p);
      MulStep(y - 1, p);
    }
  }

  // ---------------------------------------------------------------
  // Parsing integers: Python's int(s) on a str
  // ---------------------------------------------------------------

  /**
   * `int(s)`: surrounding whitespace, an optional sign, then one or more
   * digits. The whitespace is dropped one character at a time, which
   * `ParseIntStrips` shows is the same as `ParseNumeral(Strip(s))`.
   */
  function ParseInt(s: string): (r: Option<int>)
    decreases |s|
  {
    if |s| > 0 && IsSpace(s[0]) then ParseInt(s[1..])
    else if |s| > 0 && IsSpace(s[|s| - 1]) then ParseInt(s[..|s| - 1])
    else ParseNumeral(s)
  }

  /** The text of the `ValueError` that `int(s)` raises on a string that is not a numeral. */
  function IntError(s: string): string
  {
    "invalid literal for int() with base 10: '" + s + "'"
  }

  /** A numeral without surrounding whitespace: digits, or a sign and digits. */
  function ParseNumeral(t: string): (r: Option<int>)
  {
    if AllDigits(t) then Some(DigitsValue(t) as int)
    else if |t| >= 2 && t[0] == '+' && AllDigits(t[1..]) then Some(DigitsValue(t[1..]))
    else if |t| >= 2 && t[0] == '-' && AllDigits(t[1..]) then Some(-(DigitsValue(t[1..]) as int))
    else None
  }

  /** `int(str(n)) == n` for every integer. */
  lemma ParseIntRoundTrip(n: int)
    ensures ParseInt(IntToString(n)) == Some(n)
  {
    var d := if n < 0 then NatToDigits(-n) else NatToDigits(n);
    var v: nat := if n < 0 then -n else n;
    assert d == NatToDigits(v) && AllDigits(d);
    DigitsRoundTrip(v);
    assert DigitsValue(d) == v;
    if n < 0 {
      assert IntToString(n) == "-" + d;
      ParseNegative(d);
    } else {
      assert IntToString(n) == d;
      ParseDigits(d);
    }
  }

  lemma ParseDigits(d: string)
    requires AllDigits(d)
    ensures ParseInt(d) == Some(DigitsValue(d) as int)
  {
    assert IsDigit(d[0]) && IsDigit(d[|d| - 1]);
  }

  lemma ParseNegative(d: string)
    requires AllDigits(d)
    ensures ParseInt("-" + d) == Some(-(DigitsValue(d) as int))
  {
    var s := "-" + d;
    assert |s| == |d| + 1 && s[1..] == d;
    assert s[0] == '-' && s[|s| - 1] == d[|d| - 1] && IsDigit(d[|d| - 1]);
    assert !AllDigits(s) by { assert !IsDigit(s[0]); }
  }

  // ---------------------------------------------------------------
  // strip / lower / prefix
  // ---------------------------------------------------------------

  function TrimLeft(s: string): (r: string)
    ensures |r| <= |s| && r == s[|s| - |r|..]
    ensures r == [] || !IsSpace(r[0])
  {
    if |s| > 0 && IsSpace(s[0]) then TrimLeft(s[1..]) else s
  }

  function TrimRight(s: string): (r: string)
    ensures |r| <= |s| && r == s[..|r|]
    ensures r == [] || !IsSpace(r[|r| - 1])
  {
    if |s| > 0 && IsSpace(s[|s| - 1]) then TrimRight(s[..|s| - 1]) else s
  }

  /** Python's `s.strip()`: a substring of `s` that neither starts nor ends with whitespace. */
  function Strip(s: string): (r: string)
  {
    TrimRight(TrimLeft(s))
  }

  /** `(value or '').strip()`: an unset value counts as the empty string. */
  function Cleaned(o: Option<string>): string
  {
    if o.Some? then Strip(o.value) else []
  }

  lemma StripShape(s: string)
    ensures Strip(s) == [] || (!IsSpace(Strip(s)[0]) && !IsSpace(Strip(s)[|Strip(s)| - 1]))
  {
    var l := TrimLeft(s);
    var r := TrimRight(l);
    assert r == l[..|r|];
  }

  /** A string that neither starts nor ends with whitespace is its own strip. */
  lemma StripKeeps(s: string)
    requires s == [] || (!IsSpace(s[0]) && !IsSpace(s[|s| - 1]))
    ensures Strip(s) == s
  {
  }

  lemma StripIdempotent(s: string)
    ensures Strip(Strip(s)) == Strip(s)
  {
    StripShape(s);
    StripKeeps(Strip(s));
  }

  /** Cleaning a cleaned value changes nothing. */
  lemma CleanedIdempotent(o: Option<string>)
    ensures Cleaned(Some(Cleaned(o))) == Cleaned(o)
  {
    if o.Some? {
      StripIdempotent(o.value);
    }
  }

  /** A digit string comes out of cleaning as it went in. */
  lemma CleanedDigits(s: string)
    requires OnlyDigits(s)
    ensures Cleaned(Some(s)) == s
  {
    StripDigits(s);
  }

  /** A digit string has no whitespace to strip. */
  lemma StripDigits(s: string)
    requires OnlyDigits(s)
    ensures Strip(s) == s
  {
    if |s| > 0 {
      assert IsDigit(s[0]) && IsDigit(s[|s| - 1]);
    }
    StripKeeps(s);
  }

  /** `int(s)` strips the string, then reads the numeral that is left. */
  lemma {:induction false} ParseIntStrips(s: string)
    ensures ParseInt(s) == ParseNumeral(Strip(s))
    decreases |s|
  {
    if |s| > 0 && IsSpace(s[0]) {
      ParseIntStrips(s[1..]);
    } else if |s| > 0 && IsSpace(s[|s| - 1]) {
      var t := s[..|s| - 1];
      assert |s| >= 2;
      assert t[0] == s[0];
      assert TrimLeft(t) == t && TrimLeft(s) == s;
      ParseIntStrips(t);
    } else {
      StripKeeps(s);
    }
  }

  function LowerChar(c: char): char
  {
    if 'A' <= c <= 'Z' then ((c as int) + 32) as char else c
  }

  /** Python's `s.lower()` on ASCII letters. */
  function Lower(s: string): (r: string)
    ensures |r| == |s|
    ensures forall i | 0 <= i < |s| :: r[i] == LowerChar(s[i])
  {
    if s == [] then [] else [LowerChar(s[0])] + Lower(s[1..])
  }

  /** Python's `s[:n] if len(s) > n else s`. */
  function Prefix(s: string, n: nat): (r: string)
    ensures |r| == Min(|s|, n) && r == s[..|r|]
  {
    if |s| > n then s[..n] else s
  }

  // ---------------------------------------------------------------
  // Byte-wise string ordering
  // ---------------------------------------------------------------

  /** `a <= b` in byte-wise (C collation) string order. */
  predicate LexLe(a: string, b: string)
  {
    if |a| == 0 then true
    else if |b| == 0 then false
    else if a[0] != b[0] then a[0] < b[0]
    else LexLe(a[1..], b[1..])
  }

  lemma {:induction false} LexLeTotal(a: string, b: string)
    ensures LexLe(a, b) || LexLe(b, a)
  {
    if |a| > 0 && |b| > 0 && a[0] == b[0] {
      LexLeTotal(a[1..], b[1..]);
    }
  }

  lemma {:induction false} LexLeAntisymmetric(a: string, b: string)
    requires LexLe(a, b) && LexLe(b, a)
    ensures a == b
  {
    if |a| > 0 && |b| > 0 {
      LexLeAntisymmetric(a[1..], b[1..]);
      assert a == [a[0]] + a[1..];
      assert b == [b[0]] + b[1..];
    }
  }

  lemma {:induction false} LexLeTransitive(a: string, b: string, c: string)
    requires LexLe(a, b) && LexLe(b, c)
    ensures LexLe(a, c)
  {
    if |a| > 0 && |b| > 0 && |c| > 0 && a[0] == b[0] && b[0] == c[0] {
      LexLeTransitive(a[1..], b[1..], c[1..]);
    }
  }
}
