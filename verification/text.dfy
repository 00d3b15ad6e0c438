/** The string operations the content script uses when it renders times:
    `Number.prototype.toString()` of a non-negative integer,
    and `padStart(2, '0')`, together with a decimal reader that undoes
    the rendering. */
module Text {

  predicate IsDigit(c: char) {
    '0' <= c <= '9'
  }

  predicate AllDigits(s: string) {
    forall i :: 0 <= i < |s| ==> IsDigit(s[i])
  }

  function DigitChar(d: nat): (c: char)
    requires d < 10
    ensures IsDigit(c)
  {
    ('0' as int + d) as char
  }

  function DigitValue(c: char): (d: nat)
    requires IsDigit(c)
    ensures d < 10
  {
    c as int - '0' as int
  }

  /** Decimal rendering of a non-negative integer, as `String(n)` gives it:
      at least one digit and no leading zero. */
  function NatToString(n: nat): (s: string)
    ensures 1 <= |s|
    ensures AllDigits(s)
    ensures |s| == 1 <==> n < 10
    ensures |s| == 1 || s[0] != '0'
    decreases n
  {
    if n < 10 then [DigitChar(n)] else NatToString(n / 10) + [DigitChar(n % 10)]
  }

  /** The number a string of decimal digits denotes (leading zeros allowed). */
  function DigitsValue(s: string): nat
    requires AllDigits(s)
  {
    if |s| == 0 then 0 else DigitsValue(s[..|s| - 1]) * 10 + DigitValue(s[|s| - 1])
  }

  /** Reading back a rendered number gives the number. */
  lemma {:induction false} NatToStringRoundTrip(n: nat)
    ensures DigitsValue(NatToString(n)) == n
    decreases n
  {
    var s := NatToString(n);
    if n >= 10 {
      NatToStringRoundTrip(n / 10);
      assert s[..|s| - 1] == NatToString(n / 10);
    }
  }

  /** `s.padStart(2, '0')`: strings shorter than two characters are filled
      with zeros on the left, longer ones are left alone. */
  function PadStart2(s: string): (p: string)
    ensures |p| >= 2
    ensures |s| >= 2 ==> p == s
    ensures |s| < 2 ==> p == seq(2 - |s|, _ => '0') + s
  {
    if |s| >= 2 then s
    else if |s| == 1 then
      assert "0" + s == seq(1, _ => '0') + s;
      "0" + s
    else
      assert "00" == seq(2, _ => '0') + s;
      "00"
  }

  /** `n.toString().padStart(2, '0')`. */
  function Pad2(n: nat): string {
    PadStart2(NatToString(n))
  }

  /** Below one hundred, the padded rendering is exactly two digits that
      read back as the number. */
  lemma Pad2ReadsBack(n: nat)
    requires n < 100
    ensures |Pad2(n)| == 2 && AllDigits(Pad2(n)) && DigitsValue(Pad2(n)) == n
  {
    var d := NatToString(n);
    NatToStringRoundTrip(n);
    if n < 10 {
      assert ("0" + d)[..1] == "0";
    } else {
      assert NatToString(n / 10) == d[..|d| - 1];
    }
  }

  /** A non-digit character does not occur in a string of digits. */
  lemma NonDigitAbsent(s: string, c: char)
    requires AllDigits(s) && !IsDigit(c)
    ensures c !in s
  {
  }

  /** The parts of `a + [x] + b` can be sliced back out of it. */
  lemma SliceAround<T>(a: seq<T>, x: T, b: seq<T>)
    ensures var s := a + [x] + b;
            |s| == |a| + 1 + |b| && s[|a|] == x && s[..|a|] == a && s[|a| + 1..] == b
  {
    var s := a + [x] + b;
    assert s[..|a|] == a;
    assert s[|a| + 1..] == b;
  }
}
