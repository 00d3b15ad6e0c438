/** `formatTime` of the content script: the display string of a chapter
    start time, and the clock reader that inverts it on whole seconds. */
module TimeFormat {
  import opened Values
  import opened Text

  /** The runtime type of the value handed to `formatTime`: a string, a
      number (whole, non-negative seconds here), or anything else. */
  datatype Timestamp = Str(s: string) | Num(n: nat) | Other

  /** What `formatTime` shows for a value it cannot read. */
  const Fallback: string := "0:00"

  /** The white space `parseFloat` skips before a number: JavaScript's
      WhiteSpace (tab, vertical tab, form feed, the byte order mark and
      every space separator of category Zs) and its LineTerminators. */
  predicate IsJsSpace(c: char) {
    var u := c as int;
    || u == 0x09 || u == 0x0A || u == 0x0B || u == 0x0C || u == 0x0D
    || u == 0x20 || u == 0xA0 || u == 0x1680
    || (0x2000 <= u <= 0x200A)
    || u == 0x2028 || u == 0x2029 || u == 0x202F || u == 0x205F
    || u == 0x3000 || u == 0xFEFF
  }

  function SkipSpace(s: string): (t: string)
    ensures |t| <= |s|
    ensures |t| == 0 || !IsJsSpace(t[0])
    decreases |s|
  {
    if |s| > 0 && IsJsSpace(s[0]) then SkipSpace(s[1..]) else s
  }

  /** Length of the run of decimal digits that starts `s`. */
  function DigitRun(s: string): (k: nat)
    ensures k <= |s|
    ensures AllDigits(s[..k])
    ensures k == |s| || !IsDigit(s[k])
    decreases |s|
  {
    if |s| > 0 && IsDigit(s[0]) then
      var k := 1 + DigitRun(s[1..]);
      assert s[..k] == [s[0]] + s[1..][..k - 1];
      k
    else 0
  }

  /** `parseFloat` on the strings it can read as a non-negative decimal
      (`  +12.5xyz`), rounded down to whole seconds; None is NaN. The
      fraction is dropped exactly. `parseFloat` first rounds the decimal to
      the nearest double, so a fraction within about 1e-15 of the next
      whole number reads one higher in the source; this model does not
      follow that rounding. */
  function ParseSeconds(s: string): (r: Option<nat>)
    ensures SkipSpace(s) == "" ==> r.None?
    ensures s != "" && IsDigit(s[0]) ==> r.Some?
  {
    var t := SkipSpace(s);
    var u := if |t| > 0 && t[0] == '+' then t[1..] else t;
    var k := DigitRun(u);
    if k > 0 then Some(DigitsValue(u[..k]))
    else if |u| >= 2 && u[0] == '.' && IsDigit(u[1]) then Some(0)
    else None
  }

  /** The clock display of whole seconds: `M:SS` below one hour and
      `H:MM:SS` from one hour on. */
  function FormatSeconds(n: nat): (r: string)
    ensures ':' in r
    ensures |r| >= 4
  {
    var hours := n / 3600;
    var minutes := (n % 3600) / 60;
    var secs := n % 60;
    if hours > 0 then NatToString(hours) + ":" + Pad2(minutes) + ":" + Pad2(secs)
    else NatToString(minutes) + ":" + Pad2(secs)
  }

  /** `formatTime`: a string that already holds a ':' is shown as it is;
      a value that is neither string nor number, or a string that does not
      parse, is shown as the fallback; everything else is a clock. Every
      display holds a ':'. */
  function FormatTime(t: Timestamp): (r: string)
    ensures ':' in r
    ensures t.Str? && ':' in t.s ==> r == t.s
    ensures t.Other? ==> r == Fallback
    ensures t.Str? && ':' !in t.s && ParseSeconds(t.s).None? ==> r == Fallback
  {
    match t
    case Str(s) =>
      if ':' in s then s
      else (match ParseSeconds(s)
            case None => Fallback
            case Some(n) => FormatSeconds(n))
    case Num(n) => FormatSeconds(n)
    case Other => Fallback
  }

  /** A leading clock field: digits without a leading zero. */
  predicate IsLeadField(p: string) {
    1 <= |p| && AllDigits(p) && (|p| == 1 || p[0] != '0')
  }

  /** A padded clock field: exactly two digits, read as less than 60. */
  predicate IsPaddedField(p: string) {
    |p| == 2 && AllDigits(p) && DigitsValue(p) < 60
  }

  /** Reads an `M:SS` display (minutes below 60) or an `H:MM:SS` display
      (hours at least 1) back into seconds; None for anything else. The
      last two characters are the seconds and a ':' precedes them. */
  function ParseClock(s: string): Option<nat> {
    if |s| < 4 || s[|s| - 3] != ':' then None
    else ReadFields(s[..|s| - 3], s[|s| - 2..])
  }

  /** What precedes the seconds is either the minutes alone or `H:MM`. */
  function ReadFields(rest: string, ss: string): Option<nat> {
    if ':' !in rest then ShortValue(rest, ss)
    else if |rest| >= 4 && rest[|rest| - 3] == ':' then
      LongValue(rest[..|rest| - 3], rest[|rest| - 2..], ss)
    else None
  }

  function ShortValue(m: string, ss: string): Option<nat> {
    if IsLeadField(m) && DigitsValue(m) < 60 && IsPaddedField(ss)
    then Some(DigitsValue(m) * 60 + DigitsValue(ss))
    else None
  }

  function LongValue(h: string, mm: string, ss: string): Option<nat> {
    if IsLeadField(h) && DigitsValue(h) >= 1 && IsPaddedField(mm) && IsPaddedField(ss)
    then Some(DigitsValue(h) * 3600 + DigitsValue(mm) * 60 + DigitsValue(ss))
    else None
  }

  lemma PaddedFieldOf(n: nat)
    requires n < 60
    ensures IsPaddedField(Pad2(n)) && DigitsValue(Pad2(n)) == n
  {
    Pad2ReadsBack(n);
  }

  lemma LeadFieldOf(n: nat)
    ensures IsLeadField(NatToString(n)) && DigitsValue(NatToString(n)) == n
  {
    NatToStringRoundTrip(n);
  }

  /** Reading `lead:ss` from its two fields. */
  lemma ParseShortClock(lead: string, ss: string)
    requires IsLeadField(lead) && DigitsValue(lead) < 60 && IsPaddedField(ss)
    ensures var r := ParseClock(lead + ":" + ss);
            r.Some? && r.value == DigitsValue(lead) * 60 + DigitsValue(ss)
  {
    NonDigitAbsent(lead, ':');
    ClockSplitsAtLastColon(lead, ss);
  }

  /** Reading `h:mm:ss` from its three fields. */
  lemma ParseLongClock(h: string, mm: string, ss: string)
    requires IsLeadField(h) && DigitsValue(h) >= 1 && IsPaddedField(mm) && IsPaddedField(ss)
    ensures var r := ParseClock(h + ":" + mm + ":" + ss);
            r.Some? && r.value == DigitsValue(h) * 3600 + DigitsValue(mm) * 60 + DigitsValue(ss)
  {
    LongFieldsSplit(h, mm, ss);
    ClockSplitsAtLastColon(h + ":" + mm, ss);
  }

  /** A clock is read by splitting off its last two characters as the
      seconds. */
  lemma ClockSplitsAtLastColon(rest: string, ss: string)
    requires |rest| >= 1 && |ss| == 2
    ensures ParseClock(rest + ":" + ss) == ReadFields(rest, ss)
  {
    SliceAround(rest, ':', ss);
  }

  /** The part before the seconds of `h:mm:ss` splits into `h` and `mm`. */
  lemma LongFieldsSplit(h: string, mm: string, ss: string)
    requires |h| >= 1 && |mm| == 2
    ensures ReadFields(h + ":" + mm, ss) == LongValue(h, mm, ss)
  {
    SliceAround(h, ':', mm);
  }

  /** Hours, minutes and seconds as `formatTime` computes them add back up
      to the input. */
  lemma ClockFieldsSum(n: nat)
    ensures (n % 3600) / 60 < 60
    ensures n == (n / 3600) * 3600
                 + ((n % 3600) / 60) * 60
                 + n % 60
  {
    var r := n % 3600;
    assert n == (n / 3600) * 3600 + r;
    assert r == (r / 60) * 60 + r % 60;
    assert r % 60 == n % 60 by {
      assert n == (n / 3600) * 60 * 60 + r;
    }
  }

  /** The display of whole seconds reads back as the same seconds: the
      padded fields are two digits below 60, the leading field has no
      padding, and hours * 3600 + minutes * 60 + seconds is the input. */
  lemma FormatTimeRoundTrip(n: nat)
    ensures ParseClock(FormatTime(Num(n))) == Some(n)
  {
    if n < 3600 {
      ShortDisplayRoundTrip(n);
    } else {
      LongDisplayRoundTrip(n);
    }
  }

  lemma ShortDisplayRoundTrip(n: nat)
    requires n < 3600
    ensures ParseClock(FormatSeconds(n)).Some? && ParseClock(FormatSeconds(n)).value == n
  {
    var minutes, secs := n / 60, n % 60;
    assert n == minutes * 60 + secs;
    assert n / 3600 == 0 && n % 3600 == n;
    assert FormatSeconds(n) == NatToString(minutes) + ":" + Pad2(secs);
    ShortFieldsReadBack(minutes, secs);
  }

  lemma LongDisplayRoundTrip(n: nat)
    requires n >= 3600
    ensures ParseClock(FormatSeconds(n)).Some? && ParseClock(FormatSeconds(n)).value == n
  {
    var hours, minutes, secs := n / 3600, (n % 3600) / 60, n % 60;
    ClockFieldsSum(n);
    assert FormatSeconds(n) == NatToString(hours) + ":" + Pad2(minutes) + ":" + Pad2(secs);
    LongFieldsReadBack(hours, minutes, secs);
  }

  /** `M:SS` built from its fields reads back as minutes * 60 + seconds. */
  lemma ShortFieldsReadBack(minutes: nat, secs: nat)
    requires minutes < 60 && secs < 60
    ensures var r := ParseClock(NatToString(minutes) + ":" + Pad2(secs));
            r.Some? && r.value == minutes * 60 + secs
  {
    LeadFieldOf(minutes);
    PaddedFieldOf(secs);
    ParseShortClock(NatToString(minutes), Pad2(secs));
  }

  /** `H:MM:SS` built from its fields reads back as
      hours * 3600 + minutes * 60 + seconds. */
  lemma LongFieldsReadBack(hours: nat, minutes: nat, secs: nat)
    requires 1 <= hours && minutes < 60 && secs < 60
    ensures var r := ParseClock(NatToString(hours) + ":" + Pad2(minutes) + ":" + Pad2(secs));
            r.Some? && r.value == hours * 3600 + minutes * 60 + secs
  {
    LeadFieldOf(hours);
    PaddedFieldOf(minutes);
    PaddedFieldOf(secs);
    ParseLongClock(NatToString(hours), Pad2(minutes), Pad2(secs));
  }

  /** Different whole seconds never share a display. */
  lemma FormatTimeInjective(a: nat, b: nat)
    requires FormatTime(Num(a)) == FormatTime(Num(b))
    ensures a == b
  {
    FormatTimeRoundTrip(a);
    FormatTimeRoundTrip(b);
  }

  /** Below one hour the display holds one ':', from one hour on it
      holds two. */
  lemma FormatTimeColonCount(n: nat)
    ensures multiset(FormatTime(Num(n)))[':'] == if n < 3600 then 1 else 2
  {
    var hours, minutes, secs := n / 3600, (n % 3600) / 60, n % 60;
    Pad2ReadsBack(secs);
    if hours > 0 {
      Pad2ReadsBack(minutes);
      ColonsAfterField(NatToString(hours), Pad2(minutes));
      ColonsAfterField(NatToString(hours) + ":" + Pad2(minutes), Pad2(secs));
    } else {
      ColonsAfterField(NatToString(minutes), Pad2(secs));
    }
  }

  /** Joining with ':' before a field of digits adds exactly one ':'. */
  lemma ColonsAfterField(a: string, b: string)
    requires AllDigits(b)
    ensures multiset(a + ":" + b)[':'] == multiset(a)[':'] + 1
  {
    NonDigitAbsent(b, ':');
    assert multiset(a + ":" + b) == multiset(a) + multiset(":") + multiset(b);
  }

  /** The fallback display is the display of zero seconds. */
  lemma FallbackIsZero()
    ensures FormatTime(Num(0)) == Fallback
  {
    assert Pad2(0) == "00";
    assert NatToString(0) == "0";
  }

  /** A display fed back to `formatTime` as a string is shown unchanged. */
  lemma FormatTimeIdempotent(t: Timestamp)
    ensures FormatTime(Str(FormatTime(t))) == FormatTime(t)
  {
  }

  /** A numeric string without ':' is shown like the number it parses to. */
  lemma NumericStringAsNumber(s: string)
    requires ':' !in s && ParseSeconds(s).Some?
    ensures FormatTime(Str(s)) == FormatTime(Num(ParseSeconds(s).value))
  {
  }

  /** Text that cannot continue a decimal number: empty, or starting with
      a character that is neither a digit, a decimal point nor an exponent
      mark. */
  predicate EndsNumber(rest: string) {
    rest == "" || (!IsDigit(rest[0]) && rest[0] != '.' && rest[0] != 'e' && rest[0] != 'E')
  }

  /** `parseFloat` reads the decimal form of a whole number back when the
      text after it cannot continue the number (`"12xyz"` reads as 12). */
  lemma ParseSecondsReadsDecimal(n: nat, rest: string)
    requires EndsNumber(rest)
    ensures ParseSeconds(NatToString(n) + rest) == Some(n)
  {
    var s := NatToString(n) + rest;
    assert s[0] == NatToString(n)[0];
    assert SkipSpace(s) == s;
    DecimalThenEnd(n, rest);
  }

  /** The digit run at the start of a whole number's decimal form followed
      by other text is exactly that form, and it reads as the number. */
  lemma DecimalThenEnd(n: nat, rest: string)
    requires EndsNumber(rest)
    ensures var d := NatToString(n);
            DigitRun(d + rest) == |d| && (d + rest)[..|d|] == d
            && DigitsValue((d + rest)[..|d|]) == n
  {
    var d := NatToString(n);
    DigitRunStopsAfter(d, rest);
    assert (d + rest)[..|d|] == d;
    NatToStringRoundTrip(n);
  }

  /** The digit run of a digit string followed by a non-digit ends where
      the digits end. */
  lemma {:induction false} DigitRunStopsAfter(d: string, rest: string)
    requires AllDigits(d)
    requires rest == "" || !IsDigit(rest[0])
    ensures DigitRun(d + rest) == |d|
    decreases |d|
  {
    if d == "" {
      assert d + rest == rest;
    } else {
      assert (d + rest)[1..] == d[1..] + rest;
      DigitRunStopsAfter(d[1..], rest);
    }
  }

  /** `parseFloat` skips leading white space. */
  lemma ParseSecondsSkipsSpace(c: char, s: string)
    requires IsJsSpace(c)
    ensures ParseSeconds([c] + s) == ParseSeconds(s)
  {
    assert ([c] + s)[1..] == s;
  }

  /** An ideographic space before "90" is skipped, so the string is shown
      as 90 seconds. */
  lemma IdeographicSpaceExample()
    ensures ParseSeconds([0x3000 as char] + "90") == Some(90)
    ensures FormatTime(Str([0x3000 as char] + "90")) == "1:30"
  {
    var s := [0x3000 as char] + "90";
    ParseSecondsSkipsSpace(0x3000 as char, "90");
    assert NatToString(90) == "90" by {
      assert DigitChar(9) == '9' && DigitChar(0) == '0';
    }
    ParseSecondsReadsDecimal(90, "");
    assert "90" + "" == "90";
    assert s[1] == '9' && s[2] == '0';
    assert ':' !in s;
    NumericStringAsNumber(s);
    NinetySecondsExample();
  }

  /** 90 seconds is shown as "1:30". */
  lemma NinetySecondsExample()
    ensures FormatTime(Num(90)) == "1:30"
  {
    assert 90 / 3600 == 0 && (90 % 3600) / 60 == 1 && 90 % 60 == 30;
    assert NatToString(1) == "1" by { assert DigitChar(1) == '1'; }
    assert Pad2(30) == "30" by { assert DigitChar(3) == '3' && DigitChar(0) == '0'; }
  }

  /** A string that starts with anything but white space, a sign, '.', a
      digit or the 'I' of "Infinity" is NaN. */
  lemma ParseSecondsNaN(s: string)
    requires s != "" && !IsJsSpace(s[0]) && s[0] != '+' && s[0] != '-'
    requires s[0] != '.' && s[0] != 'I' && !IsDigit(s[0])
    ensures ParseSeconds(s).None?
  {
  }

  /** A leading '+' is skipped: "+12xyz" reads as 12. */
  lemma ParseSecondsPlusSign(n: nat, rest: string)
    requires EndsNumber(rest)
    ensures ParseSeconds("+" + (NatToString(n) + rest)) == Some(n)
  {
    var u := NatToString(n) + rest;
    assert ("+" + u)[1..] == u;
    assert SkipSpace("+" + u) == "+" + u;
    DecimalThenEnd(n, rest);
  }

  /** A number written as a bare fraction, such as ".5", is below one
      second. */
  lemma ParseSecondsBareFraction(s: string)
    requires |s| >= 2 && s[0] == '.' && IsDigit(s[1])
    ensures ParseSeconds(s) == Some(0)
  {
    assert SkipSpace(s) == s;
    assert DigitRun(s) == 0;
  }

  /** 125 seconds is shown as "2:05". */
  lemma TwoMinutesExample()
    ensures FormatTime(Num(125)) == "2:05"
  {
    assert 125 / 3600 == 0 && (125 % 3600) / 60 == 2 && 125 % 60 == 5;
    assert NatToString(2) == "2" by { assert DigitChar(2) == '2'; }
    assert Pad2(5) == "05" by { assert DigitChar(5) == '5'; }
  }

  /** 3725 seconds is shown as "1:02:05". */
  lemma OverAnHourExample()
    ensures FormatTime(Num(3725)) == "1:02:05"
  {
    assert 3725 / 3600 == 1 && (3725 % 3600) / 60 == 2 && 3725 % 60 == 5;
    assert NatToString(1) == "1" by { assert DigitChar(1) == '1'; }
    assert Pad2(2) == "02" by { assert DigitChar(2) == '2'; }
    assert Pad2(5) == "05" by { assert DigitChar(5) == '5'; }
  }

  /** "12:34" is shown as it is, and "abc" is shown as the fallback. */
  lemma StringExamples()
    ensures FormatTime(Str("12:34")) == "12:34"
    ensures FormatTime(Str("abc")) == Fallback
  {
    assert "12:34"[2] == ':';
    assert SkipSpace("abc") == "abc";
    assert DigitRun("abc") == 0;
  }
}
