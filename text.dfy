/** Python's `str.strip()`, `str(int)` and the decimal digit helpers the
    date parser and the URL builder share. */
module Text {

  /** `str.isspace()`: the characters Python's `strip()` removes. */
  predicate IsSpace(c: char)
  {
    var k := c as int;
    k == 0x20 || 0x09 <= k <= 0x0D || 0x1C <= k <= 0x1F || k == 0x85 || k == 0xA0
    || k == 0x1680 || 0x2000 <= k <= 0x200A || k == 0x2028 || k == 0x2029
    || k == 0x202F || k == 0x205F || k == 0x3000
  }

  /** Drops leading white space. */
  function TrimStart(s: string): (r: string)
    ensures |r| <= |s| && r == s[|s| - |r|..]
    ensures r == [] || !IsSpace(r[0])
    ensures forall i :: 0 <= i < |s| - |r| ==> IsSpace(s[i])
    decreases |s|
  {
    if |s| > 0 && IsSpace(s[0]) then TrimStart(s[1..]) else s
  }

  /** Drops trailing white space. */
  function TrimEnd(s: string): (r: string)
    ensures |r| <= |s| && r == s[..|r|]
    ensures r == [] || !IsSpace(r[|r| - 1])
    ensures forall i :: |r| <= i < |s| ==> IsSpace(s[i])
    decreases |s|
  {
    if |s| > 0 && IsSpace(s[|s| - 1]) then TrimEnd(s[..|s| - 1]) else s
  }

  /** `s.strip()`: the longest slice of `s` that neither starts nor ends
      with white space, everything cut off being white space. */
  function Strip(s: string): (r: string)
    ensures r == [] || (!IsSpace(r[0]) && !IsSpace(r[|r| - 1]))
    ensures var i := |s| - |TrimStart(s)|;
            i + |r| <= |s| && r == s[i..i + |r|]
            && (forall k :: 0 <= k < i ==> IsSpace(s[k]))
            && (forall k :: i + |r| <= k < |s| ==> IsSpace(s[k]))
  {
    TrimEnd(TrimStart(s))
  }

  /** A string made of white space only strips to the empty string, which
      is what makes such a cell "empty" to the table extractor. */
  lemma StripBlank(s: string)
    ensures Strip(s) == [] <==> forall k :: 0 <= k < |s| ==> IsSpace(s[k])
  {
    var r := Strip(s);
    if r != [] {
      assert s[|s| - |TrimStart(s)|] == r[0];
    }
  }

  predicate IsDigit(c: char)
  {
    '0' <= c <= '9'
  }

  predicate AllDigits(s: string)
  {
    forall i :: 0 <= i < |s| ==> IsDigit(s[i])
  }

  function DigitChar(d: nat): (c: char)
    requires d < 10
    ensures IsDigit(c) && c as int - '0' as int == d
  {
    ('0' as int + d) as char
  }

  /** The value of a string of decimal digits, as `int()` reads it. */
  function DigitsValue(s: string): int
  {
    if s == [] then 0 else DigitsValue(s[..|s| - 1]) * 10 + (s[|s| - 1] as int - '0' as int)
  }

  /** `str(n)` for n >= 0: decimal digits, no leading zero. */
  function NatString(n: nat): (s: string)
    ensures |s| >= 1 && IsDigit(s[0])
    ensures s[0] == '0' ==> n == 0
  {
    if n < 10 then [DigitChar(n)] else NatString(n / 10) + [DigitChar(n % 10)]
  }

  /** `str(n)` for any Python int. */
  function DecimalString(n: int): (s: string)
    ensures |s| >= 1
  {
    if n < 0 then "-" + NatString(-n) else NatString(n)
  }

  /** Reading back what NatString wrote gives the number. */
  lemma {:induction false} NatStringRoundTrip(n: nat)
    ensures DigitsValue(NatString(n)) == n
  {
    if n >= 10 {
      NatStringRoundTrip(n / 10);
      var s := NatString(n);
      assert s[..|s| - 1] == NatString(n / 10);
    }
  }

  /** `str` is injective on integers. */
  lemma DecimalStringInjective(m: int, n: int)
    requires DecimalString(m) == DecimalString(n)
    ensures m == n
  {
    var s := DecimalString(m);
    assert (s[0] == '-') == (m < 0) && (s[0] == '-') == (n < 0);
    if m < 0 {
      assert NatString(-m) == s[1..] == NatString(-n);
      NatStringRoundTrip(-m);
      NatStringRoundTrip(-n);
    } else {
      NatStringRoundTrip(m);
      NatStringRoundTrip(n);
    }
  }

  /** Exactly `width` digits, zero-padded on the left (`%0<width>d`). */
  function Padded(n: nat, width: nat): (s: string)
    ensures |s| == width
  {
    if width == 0 then [] else Padded(n / 10, width - 1) + [DigitChar(n % 10)]
  }

  function Power10(k: nat): (p: nat)
    ensures p >= 1
  {
    if k == 0 then 1 else 10 * Power10(k - 1)
  }

  /** A zero-padded field reads back as the number when it fits. */
  lemma {:induction false} PaddedRoundTrip(n: nat, width: nat)
    requires n < Power10(width)
    ensures AllDigits(Padded(n, width)) && DigitsValue(Padded(n, width)) == n
  {
    if width > 0 {
      var s := Padded(n, width);
      assert s[..|s| - 1] == Padded(n / 10, width - 1);
      PaddedRoundTrip(n / 10, width - 1);
      assert s == s[..|s| - 1] + [s[|s| - 1]];
    }
  }

  /** Digits written back at their own length are the digits. */
  lemma {:induction false} DigitsRoundTrip(t: string)
    requires AllDigits(t)
    ensures 0 <= DigitsValue(t) < Power10(|t|)
    ensures Padded(DigitsValue(t), |t|) == t
  {
    if t != [] {
      var n := |t| - 1;
      DigitsRoundTrip(t[..n]);
      assert t == t[..n] + [t[n]];
    }
  }

  /** For a number of exactly `width` digits, `str` and zero padding agree:
      the four-digit years of the date parser. */
  lemma {:induction false} NatStringIsPadded(n: nat, width: nat)
    requires width >= 1 && (width == 1 || Power10(width - 1) <= n) && n < Power10(width)
    ensures NatString(n) == Padded(n, width)
  {
    if width > 1 {
      NatStringIsPadded(n / 10, width - 1);
    }
  }
}
