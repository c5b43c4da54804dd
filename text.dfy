/**
 The character classes and the number conversions the bot relies on: the regular-expression
 classes `\d` and `[-/]`, Python's `int()` on a run of digits, `str()` and the `:02d` format of a
 non-negative integer, and `str.strip()`.
 */
module Text {

  /** Python's `\d` on a `str`: a decimal digit. The ASCII, Arabic-Indic and Extended
      Arabic-Indic blocks are modelled (see README, "Left out"). */
  predicate IsDigit(c: char) {
    ('0' <= c <= '9') || ('\U{0660}' <= c <= '\U{0669}') || ('\U{06F0}' <= c <= '\U{06F9}')
  }

  /** The numeric value `int()` gives a digit of any of the modelled blocks. */
  function DigitValue(c: char): (v: nat)
    requires IsDigit(c)
    ensures v < 10
  {
    if '0' <= c <= '9' then c as int - '0' as int
    else if '\U{0660}' <= c <= '\U{0669}' then c as int - 0x0660
    else c as int - 0x06F0
  }

  /** The regular-expression class `[-/]`. No separator is a digit, so in every match the
      separators alone delimit the three groups. */
  predicate IsSeparator(c: char)
    ensures IsSeparator(c) ==> !IsDigit(c)
  {
    c == '-' || c == '/'
  }

  /** Python's `str.isspace()` for one character: the characters `str.strip()` removes. None of
      them is a digit or a separator, so neither pattern can consume one. */
  predicate IsSpace(c: char)
    ensures IsSpace(c) ==> Inert(c)
  {
    ('\U{0009}' <= c <= '\U{000D}') || ('\U{001C}' <= c <= '\U{001F}') || c == ' '
    || c == '\U{0085}' || c == '\U{00A0}' || c == '\U{1680}' || ('\U{2000}' <= c <= '\U{200A}')
    || c == '\U{2028}' || c == '\U{2029}' || c == '\U{202F}' || c == '\U{205F}' || c == '\U{3000}'
  }

  /** A character neither pattern can consume: not a digit and not a separator. */
  predicate Inert(c: char) {
    !IsDigit(c) && !IsSeparator(c)
  }

  predicate AllDigits(s: seq<char>) {
    forall i | 0 <= i < |s| :: IsDigit(s[i])
  }

  function Pow10(n: nat): (p: nat)
    ensures p >= 1
  {
    if n == 0 then 1 else 10 * Pow10(n - 1)
  }

  /** Python's `int()` on a run of decimal digits, read left to right; leading zeros add nothing.
      A run of n digits is below 10^n. */
  function Int(s: seq<char>): (n: nat)
    requires AllDigits(s)
    ensures n < Pow10(|s|)
  {
    if s == [] then 0
    else
      var init := s[..|s| - 1];
      assert AllDigits(init);
      var high := Int(init);
      var low := DigitValue(s[|s| - 1]);
      assert high * 10 + low <= (Pow10(|init|) - 1) * 10 + 9;
      high * 10 + low
  }

  /** A leading zero digit (of any modelled block) does not change the value of a run. */
  lemma {:induction false} IntDropsLeadingZero(z: char, s: seq<char>)
    requires IsDigit(z) && DigitValue(z) == 0 && AllDigits(s)
    ensures AllDigits([z] + s) && Int([z] + s) == Int(s)
  {
    assert AllDigits([z] + s);
    if s != [] {
      var init := s[..|s| - 1];
      assert ([z] + s)[..|s|] == [z] + init;
      IntDropsLeadingZero(z, init);
    }
  }

  /** A run of at most two digits is at most 99, one of at most four at most 9999. */
  lemma ShortRunBound(s: seq<char>)
    requires AllDigits(s)
    ensures |s| <= 2 ==> Int(s) <= 99
    ensures |s| <= 4 ==> Int(s) <= 9999
  {
    assert Pow10(0) == 1 && Pow10(1) == 10 && Pow10(2) == 100;
    assert Pow10(3) == 1000 && Pow10(4) == 10000;
  }

  /** The positional value of one to four digits. */
  lemma IntOfShortRun(s: seq<char>)
    requires 1 <= |s| <= 4 && AllDigits(s)
    ensures |s| == 1 ==> Int(s) == DigitValue(s[0])
    ensures |s| == 2 ==> Int(s) == 10 * DigitValue(s[0]) + DigitValue(s[1])
    ensures |s| == 4 ==> Int(s) == 1000 * DigitValue(s[0]) + 100 * DigitValue(s[1]) + 10 * DigitValue(s[2]) + DigitValue(s[3])
  {
    assert s[..|s| - 1][..0] == [];
    if |s| >= 2 {
      assert s[..|s| - 1][..|s| - 2] == s[..|s| - 2];
    }
    if |s| == 4 {
      assert s[..2][..1] == s[..1];
      assert s[..3][..2] == s[..2];
    }
  }

  /** The ASCII digit of a value below ten. */
  function DigitChar(d: nat): (c: char)
    requires d < 10
    ensures '0' <= c <= '9' && IsDigit(c) && DigitValue(c) == d
  {
    ('0' as int + d) as char
  }

  /** Python's `str()` of a non-negative integer: its shortest decimal numeral, which `int()`
      reads back as the same number. */
  function Decimal(n: nat): (s: seq<char>)
    ensures 1 <= |s| && AllDigits(s) && Int(s) == n
    ensures n < 10 <==> |s| == 1
  {
    if n < 10 then [DigitChar(n)]
    else
      var s := Decimal(n / 10) + [DigitChar(n % 10)];
      assert s[..|s| - 1] == Decimal(n / 10);
      s
  }

  /** A numeral of a number in 1000..9999 has exactly four digits. */
  lemma DecimalOfFourDigitNumber(n: nat)
    requires 1000 <= n <= 9999
    ensures |Decimal(n)| == 4
  {
    var a := n / 10;
    var b := a / 10;
    var c := b / 10;
    assert 100 <= a <= 999 && 10 <= b <= 99 && 1 <= c <= 9;
    assert |Decimal(b)| == |Decimal(c)| + 1;
    assert |Decimal(a)| == |Decimal(b)| + 1;
    assert |Decimal(n)| == |Decimal(a)| + 1;
  }

  /** Python's `{n:02d}`: the numeral padded with zeros to at least two digits. */
  function Pad2(n: nat): (s: seq<char>)
    ensures AllDigits(s) && Int(s) == n
    ensures n <= 99 ==> |s| == 2
  {
    if n < 10 then
      var s := [DigitChar(0)] + Decimal(n);
      IntDropsLeadingZero(DigitChar(0), Decimal(n));
      s
    else
      assert Decimal(n) == Decimal(n / 10) + [DigitChar(n % 10)];
      Decimal(n)
  }

  /** `str.lstrip()`: the suffix left after removing the leading whitespace. */
  function StripStart(s: seq<char>): (r: seq<char>)
    ensures |r| <= |s| && r == s[|s| - |r|..]
    ensures r == [] || !IsSpace(r[0])
  {
    if s != [] && IsSpace(s[0]) then StripStart(s[1..]) else s
  }

  /** `str.rstrip()`: the prefix left after removing the trailing whitespace. */
  function StripEnd(s: seq<char>): (r: seq<char>)
    ensures |r| <= |s| && r == s[..|r|]
    ensures r == [] || !IsSpace(r[|r| - 1])
  {
    if s != [] && IsSpace(s[|s| - 1]) then StripEnd(s[..|s| - 1]) else s
  }

  /** `str.strip()` with no argument: no whitespace is left at either end. */
  function Strip(s: seq<char>): (r: seq<char>)
    ensures |r| <= |s|
    ensures r == [] || (!IsSpace(r[0]) && !IsSpace(r[|r| - 1]))
  {
    var t := StripStart(s);
    var r := StripEnd(t);
    assert r != [] ==> r[0] == t[0];
    r
  }

  /** `lstrip()` drops only whitespace. */
  lemma {:induction false} StripStartShape(s: seq<char>)
    ensures forall i | 0 <= i < |s| - |StripStart(s)| :: IsSpace(s[i])
    decreases |s|
  {
    if s != [] && IsSpace(s[0]) {
      StripStartShape(s[1..]);
      var r := StripStart(s[1..]);
      forall i | 0 <= i < |s| - |r|
        ensures IsSpace(s[i])
      {
        if i > 0 {
          assert s[i] == s[1..][i - 1];
        }
      }
    }
  }

  /** `rstrip()` drops only whitespace. */
  lemma {:induction false} StripEndShape(s: seq<char>)
    ensures forall i | |StripEnd(s)| <= i < |s| :: IsSpace(s[i])
    decreases |s|
  {
    if s != [] && IsSpace(s[|s| - 1]) {
      StripEndShape(s[..|s| - 1]);
      var r := StripEnd(s[..|s| - 1]);
      forall i | |r| <= i < |s|
        ensures IsSpace(s[i])
      {
        if i < |s| - 1 {
          assert s[i] == s[..|s| - 1][i];
        }
      }
    }
  }

  /** What `strip()` leaves: the run of the text that starts after its `k` leading whitespace
      characters, with no whitespace at either end and only whitespace around it. */
  lemma StripShape(s: seq<char>)
    ensures var k, r := |s| - |StripStart(s)|, Strip(s);
      && 0 <= k && k + |r| <= |s|
      && (forall i | 0 <= i < |r| :: r[i] == s[k + i])
      && (forall i | 0 <= i < k :: IsSpace(s[i]))
      && (forall i | k + |r| <= i < |s| :: IsSpace(s[i]))
      && (r == [] || (!IsSpace(r[0]) && !IsSpace(r[|r| - 1])))
  {
    var t, r := StripStart(s), Strip(s);
    assert r == StripEnd(t);
    StripStartShape(s);
    StripEndShape(t);
    StripParts(s, t, r);
  }

  /** A suffix `t` of `s` after only whitespace, and a prefix `r` of `t` followed in `t` only by
      whitespace: `r` sits in `s` right after the part that `t` drops, and only whitespace
      surrounds it. */
  lemma StripParts(s: seq<char>, t: seq<char>, r: seq<char>)
    requires |t| <= |s| && t == s[|s| - |t|..] && forall i | 0 <= i < |s| - |t| :: IsSpace(s[i])
    requires |r| <= |t| && r == t[..|r|] && forall i | |r| <= i < |t| :: IsSpace(t[i])
    ensures var k := |s| - |t|;
      && (forall i | 0 <= i < |r| :: r[i] == s[k + i])
      && (forall i | 0 <= i < k :: IsSpace(s[i]))
      && (forall i | k + |r| <= i < |s| :: IsSpace(s[i]))
  {
    var k := |s| - |t|;
    forall i | k + |r| <= i < |s|
      ensures IsSpace(s[i])
    {
      assert s[i] == t[i - k];
    }
  }
}
