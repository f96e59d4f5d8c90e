/** Decimal rendering and parsing, zero padding and whitespace trimming: the string
    operations the tracker relies on (`String(n)`, `padStart(2, "0")`, `trim()`). */
module Text {

  predicate IsDigit(c: char) {
    '0' <= c <= '9'
  }

  predicate AllDigits(s: string) {
    forall i | 0 <= i < |s| :: IsDigit(s[i])
  }

  function DigitChar(n: nat): (c: char)
    requires n < 10
    ensures IsDigit(c) && c as int - '0' as int == n
  {
    ('0' as int + n) as char
  }

  function DigitValue(c: char): (n: nat)
    requires IsDigit(c)
    ensures n < 10 && DigitChar(n) == c
  {
    c as int - '0' as int
  }

  /** The value of a string of decimal digits, most significant first. */
  function DigitsValue(s: string): (n: nat)
    requires AllDigits(s)
    decreases |s|
  {
    if s == [] then 0 else DigitsValue(s[..|s| - 1]) * 10 + DigitValue(s[|s| - 1])
  }

  /** `String(n)` for a non-negative integer: its shortest decimal numeral. */
  function NatText(n: nat): (s: string)
    ensures 1 <= |s| && AllDigits(s)
    ensures s[0] == '0' ==> n == 0
    decreases n
  {
    if n < 10 then [DigitChar(n)] else NatText(n / 10) + [DigitChar(n % 10)]
  }

  /** `String(n)` for any integer: a minus sign before the numeral of a negative value. */
  function IntText(n: int): (s: string)
    ensures 1 <= |s|
    ensures n >= 0 ==> s == NatText(n)
  {
    if n < 0 then "-" + NatText(-n) else NatText(n)
  }

  /** `s.padStart(2, "0")`. */
  function PadStart2(s: string): (r: string)
    ensures |r| == if |s| >= 2 then |s| else 2
    ensures r[|r| - |s|..] == s
    ensures forall i | 0 <= i < |r| - |s| :: r[i] == '0'
  {
    if |s| >= 2 then s else if |s| == 1 then "0" + s else "00"
  }

  lemma {:induction false} NatTextRoundTrip(n: nat)
    ensures DigitsValue(NatText(n)) == n
    decreases n
  {
    if n >= 10 {
      var s := NatText(n);
      NatTextRoundTrip(n / 10);
      assert s[..|s| - 1] == NatText(n / 10);
    }
  }

  lemma {:induction false} NatTextOfDigits(s: string)
    requires AllDigits(s) && 1 <= |s| && s[0] != '0'
    ensures NatText(DigitsValue(s)) == s
    decreases |s|
  {
    if |s| > 1 {
      var p := s[..|s| - 1];
      assert AllDigits(p);
      NatTextOfDigits(p);
      DigitsValueLowerBound(p);
    }
  }

  /** A numeral that does not start with 0 is worth at least 1. */
  lemma {:induction false} DigitsValueLowerBound(s: string)
    requires AllDigits(s) && 1 <= |s| && s[0] != '0'
    ensures 1 <= DigitsValue(s)
    decreases |s|
  {
    if |s| > 1 {
      var p := s[..|s| - 1];
      assert AllDigits(p);
      DigitsValueLowerBound(p);
    }
  }

  lemma DigitsValuePair(x: char, y: char)
    requires IsDigit(x) && IsDigit(y)
    ensures DigitsValue([x, y]) == DigitValue(x) * 10 + DigitValue(y)
  {
    var p := [x, y][..1];
    assert p == [x];
    assert p[..0] == [];
    assert DigitsValue(p) == DigitsValue(p[..0]) * 10 + DigitValue(x) == DigitValue(x);
  }

  /** `String(n).padStart(2, "0")` for n <= 99 is exactly two digits that read back as n. */
  lemma TwoDigitField(n: nat)
    requires n < 100
    ensures |PadStart2(NatText(n))| == 2 && AllDigits(PadStart2(NatText(n)))
    ensures DigitsValue(PadStart2(NatText(n))) == n
  {
    if n < 10 {
      var t := NatText(n);
      assert t == [DigitChar(n)];
      assert PadStart2(t) == ['0', DigitChar(n)];
      DigitsValuePair('0', DigitChar(n));
    } else {
      var a, b := n / 10, n % 10;
      assert a < 10 && b < 10 && n == a * 10 + b;
      var t := NatText(n);
      assert t == NatText(a) + [DigitChar(b)];
      assert NatText(a) == [DigitChar(a)];
      assert t == [DigitChar(a), DigitChar(b)];
      DigitsValuePair(DigitChar(a), DigitChar(b));
    }
  }

  /** Two digits naming a value from 1 to 99 are what `String(v).padStart(2, "0")` prints. */
  lemma TwoDigitFieldOfDigits(s: string)
    requires |s| == 2 && AllDigits(s) && 1 <= DigitsValue(s)
    ensures PadStart2(NatText(DigitsValue(s))) == s
  {
    assert s == [s[0], s[1]];
    DigitsValuePair(s[0], s[1]);
    var v := DigitsValue(s);
    if s[0] == '0' {
      assert v == DigitValue(s[1]);
      assert NatText(v) == [s[1]];
    } else {
      assert v / 10 == DigitValue(s[0]) && v % 10 == DigitValue(s[1]);
      assert NatText(v / 10) == [s[0]];
      assert NatText(v) == [s[0], s[1]];
    }
  }

  /** The characters `String.prototype.trim` removes: ECMAScript WhiteSpace (tab, vertical
      tab, form feed, space, no-break space, the byte order mark and the other space
      separators) and LineTerminator (line feed, carriage return, U+2028, U+2029). */
  predicate IsTrimmable(c: char) {
    ('\t' <= c <= '\r') || c == ' ' || c == '\U{00A0}' || c == '\U{1680}'
    || ('\U{2000}' <= c <= '\U{200A}') || c == '\U{2028}' || c == '\U{2029}'
    || c == '\U{202F}' || c == '\U{205F}' || c == '\U{3000}' || c == '\U{FEFF}'
  }

  /** Every character of `s` is whitespace. */
  predicate Blank(s: string) {
    forall i | 0 <= i < |s| :: IsTrimmable(s[i])
  }

  /** How many whitespace characters `s` starts with. */
  function LeadingSpace(s: string): (k: nat)
    ensures k <= |s|
    ensures forall i | 0 <= i < k :: IsTrimmable(s[i])
    ensures k < |s| ==> !IsTrimmable(s[k])
    decreases |s|
  {
    if s != [] && IsTrimmable(s[0]) then LeadingSpace(s[1..]) + 1 else 0
  }

  /** How many whitespace characters `s` ends with. */
  function TrailingSpace(s: string): (k: nat)
    ensures k <= |s|
    ensures forall i | |s| - k <= i < |s| :: IsTrimmable(s[i])
    ensures k < |s| ==> !IsTrimmable(s[|s| - k - 1])
    decreases |s|
  {
    if s != [] && IsTrimmable(s[|s| - 1]) then TrailingSpace(s[..|s| - 1]) + 1 else 0
  }

  /** `s.trim()`: `s` is blank, the trimmed infix, then blank again; the infix neither starts
      nor ends with whitespace, and it is empty exactly when `s` is all whitespace. */
  function Trim(s: string): (r: string)
    ensures r != [] ==> !IsTrimmable(r[0]) && !IsTrimmable(r[|r| - 1])
    ensures r == [] <==> Blank(s)
    ensures LeadingSpace(s) + |r| <= |s|
    ensures s == s[..LeadingSpace(s)] + r + s[LeadingSpace(s) + |r|..]
    ensures Blank(s[..LeadingSpace(s)]) && Blank(s[LeadingSpace(s) + |r|..])
  {
    var k := LeadingSpace(s);
    var j := TrailingSpace(s[k..]);
    TrimShape(s, k, j);
    s[k..|s| - j]
  }

  /** With k leading and j trailing whitespace characters cut off, what is left is `s`'s
      infix from k to |s| - j. */
  lemma TrimShape(s: string, k: nat, j: nat)
    requires k <= |s| && (forall i | 0 <= i < k :: IsTrimmable(s[i]))
    requires k < |s| ==> !IsTrimmable(s[k])
    requires j == TrailingSpace(s[k..])
    ensures var r := s[k..|s| - j];
      |s| - j >= k && s == s[..k] + r + s[k + |r|..]
      && Blank(s[..k]) && Blank(s[k + |r|..])
      && (r != [] ==> !IsTrimmable(r[0]) && !IsTrimmable(r[|r| - 1]))
      && (r == [] <==> Blank(s))
  {
    var t := s[k..];
    var r := s[k..|s| - j];
    assert forall i | |s| - j <= i < |s| :: IsTrimmable(s[i]) by {
      forall i | |s| - j <= i < |s| ensures IsTrimmable(s[i]) {
        assert s[i] == t[i - k];
      }
    }
    assert s == s[..k] + r + s[k + |r|..];
    if k < |s| {
      assert t[0] == s[k];
    }
    if r != [] {
      assert r[|r| - 1] == t[|t| - j - 1];
      assert !Blank(s) by {
        assert s[k] == r[0];
      }
    }
  }

  /** Trimming twice is trimming once. */
  lemma TrimIdempotent(s: string)
    ensures Trim(Trim(s)) == Trim(s)
  {
    var r := Trim(s);
    if r != [] {
      assert LeadingSpace(r) == 0;
      assert TrailingSpace(r[0..]) == 0 by { assert r[0..] == r; }
      assert r[0..][..|r|] == r;
    }
  }
}
