/**
 * The status line shown while a bounded session counts down:
 * `_format_remaining` renders a number of seconds as "Remaining: <h>h <mm>m <ss>s".
 * ParseRemaining reads such a line back; the round trip shows that the text
 * carries exactly the hours/minutes/seconds decomposition of the count.
 */
module Format {
  import opened Wrappers

  predicate IsDigit(c: char) { '0' <= c <= '9' }

  predicate AllDigits(s: string) { forall k :: 0 <= k < |s| ==> IsDigit(s[k]) }

  function DigitChar(d: nat): (c: char)
    requires d < 10
    ensures IsDigit(c) && DigitValue(c) == d
  {
    ('0' as int + d) as char
  }

  function DigitValue(c: char): (d: nat)
    requires IsDigit(c)
    ensures d < 10
  {
    c as int - '0' as int
  }

  /** Python's `str(n)` for n >= 0: decimal digits, no sign, no leading zero. */
  function NatToString(n: nat): (s: string)
    ensures |s| >= 1 && AllDigits(s)
    ensures (|s| == 1) == (n < 10)
    ensures n < 10 ==> s == [DigitChar(n)]
    ensures (s[0] == '0') == (n == 0)
    decreases n
  {
    if n < 10 then [DigitChar(n)] else NatToString(n / 10) + [DigitChar(n % 10)]
  }

  /** The value of a string of decimal digits, most significant first. */
  function DigitsValue(s: string): (v: nat)
    requires AllDigits(s)
  {
    if s == [] then 0 else 10 * DigitsValue(s[..|s| - 1]) + DigitValue(s[|s| - 1])
  }

  /** Python's `int(s)` restricted to plain digit strings; anything else is None. */
  function ParseNat(s: string): (r: Option<nat>)
    ensures r.Some? <==> |s| >= 1 && AllDigits(s)
  {
    if |s| >= 1 && AllDigits(s) then Some(DigitsValue(s)) else None
  }

  lemma {:induction false} DigitsValueOfNatToString(n: nat)
    ensures DigitsValue(NatToString(n)) == n
    decreases n
  {
    if n >= 10 {
      var s := NatToString(n);
      assert s[..|s| - 1] == NatToString(n / 10);
      DigitsValueOfNatToString(n / 10);
    }
  }

  /** `str` is inverted by `int`: the decimal rendering of a count reads back as that count. */
  lemma ParseNatOfNatToString(n: nat)
    ensures ParseNat(NatToString(n)) == Some(n)
  {
    DigitsValueOfNatToString(n);
  }

  /** Python's `str(i)` for any integer: a '-' before the digits of a negative value. */
  function IntToString(i: int): (s: string)
    ensures |s| >= 1
    ensures i >= 0 ==> AllDigits(s)
    ensures i < 0 ==> s[0] == '-'
  {
    if i < 0 then "-" + NatToString(-i) else NatToString(i)
  }

  /** The digits of `str(i)` spell |i|, behind a '-' exactly when i is negative. */
  lemma IntToStringValue(i: int)
    ensures i >= 0 ==> AllDigits(IntToString(i)) && DigitsValue(IntToString(i)) == i
    ensures i < 0 ==> |IntToString(i)| >= 2 && AllDigits(IntToString(i)[1..])
                      && DigitsValue(IntToString(i)[1..]) == -i
  {
    if i >= 0 {
      DigitsValueOfNatToString(i);
    } else {
      assert IntToString(i)[1..] == NatToString(-i);
      DigitsValueOfNatToString(-i);
    }
  }

  /** Python's `f"{n:02d}"` for n >= 0: at least two digits, zero-filled on the left. */
  function Pad2(n: nat): (s: string)
    ensures AllDigits(s) && |s| >= 2
    ensures n < 100 ==> s == [DigitChar(n / 10), DigitChar(n % 10)]
  {
    if n < 10 then "0" + NatToString(n) else NatToString(n)
  }

  /**
   * The two `divmod` calls of `_format_remaining`: whole hours, then the minutes
   * and seconds of what is left. Python's divmod floors; Dafny's / and % are
   * Euclidean; for the positive divisors 3600 and 60 the two agree, negative
   * counts included.
   */
  function Decompose(seconds: int): (hms: (int, nat, nat))
    ensures hms.0 * 3600 + hms.1 * 60 + hms.2 == seconds
    ensures hms.1 < 60 && hms.2 < 60
    ensures (hms.0 >= 0) == (seconds >= 0)
  {
    var h, rem := seconds / 3600, seconds % 3600;
    (h, rem / 60, rem % 60)
  }

  /** The decomposition is the only one with minutes and seconds below 60. */
  lemma DecomposeUnique(seconds: int, h: int, m: int, s: int)
    requires h * 3600 + m * 60 + s == seconds
    requires 0 <= m < 60 && 0 <= s < 60
    ensures Decompose(seconds) == (h, m, s)
  {
    var hms := Decompose(seconds);
    assert 0 <= m * 60 + s < 3600;
    assert 0 <= hms.1 * 60 + hms.2 < 3600;
    assert (h - hms.0) * 3600 == (hms.1 * 60 + hms.2) - (m * 60 + s);
    assert h == hms.0;
  }

  const RemainingPrefix := "Remaining: "

  /** `_format_remaining(seconds)`. */
  function FormatRemaining(seconds: int): (text: string)
    ensures |text| >= |RemainingPrefix| + 10 && text[..|RemainingPrefix|] == RemainingPrefix
  {
    var (h, m, s) := Decompose(seconds);
    RemainingPrefix + IntToString(h) + MinutesSeconds(m, s)
  }

  /**
   * The part after the hours count: `f"h {m:02d}m {s:02d}s"`. For minutes and
   * seconds below 100 it has a fixed width and reads back as those two values.
   */
  function MinutesSeconds(m: nat, s: nat): (tail: string)
    ensures |tail| >= 9 && tail[0] == 'h' && tail[|tail| - 1] == 's'
    ensures m < 100 && s < 100 ==> |tail| == 9 && ParseTail(tail) == Some((m, s))
  {
    "h " + Pad2(m) + "m " + Pad2(s) + "s"
  }

  /** The fixed-width part "h MMm SSs" after the hours; a missing piece is None. */
  function ParseTail(tail: string): (r: Option<(nat, nat)>)
    requires |tail| == 9
    ensures r.Some? ==> r.value.0 < 100 && r.value.1 < 100
  {
    if tail[0] == 'h' && tail[1] == ' ' && IsDigit(tail[2]) && IsDigit(tail[3])
       && tail[4] == 'm' && tail[5] == ' ' && IsDigit(tail[6]) && IsDigit(tail[7]) && tail[8] == 's'
    then Some((10 * DigitValue(tail[2]) + DigitValue(tail[3]), 10 * DigitValue(tail[6]) + DigitValue(tail[7])))
    else None
  }

  /**
   * Reads a status line written by FormatRemaining for a non-negative count:
   * the prefix, the hours digits, then the fixed-width tail.
   */
  function ParseRemaining(text: string): (r: Option<int>)
    ensures r.Some? ==> r.value >= 0
  {
    var p := |RemainingPrefix|;
    if |text| < p + 10 || text[..p] != RemainingPrefix then None
    else
      var hours, ms := text[p..|text| - 9], ParseTail(text[|text| - 9..]);
      if ms.None? || !AllDigits(hours) then None
      else Some(DigitsValue(hours) * 3600 + ms.value.0 * 60 + ms.value.1)
  }

  /** ParseRemaining reads back any hours digits followed by a well-formed tail. */
  lemma ParseRemainingOf(hours: string, tail: string)
    requires |hours| >= 1 && AllDigits(hours) && |tail| == 9 && ParseTail(tail).Some?
    ensures ParseRemaining(RemainingPrefix + hours + tail).Some?
    ensures ParseRemaining(RemainingPrefix + hours + tail).value
            == DigitsValue(hours) * 3600 + ParseTail(tail).value.0 * 60 + ParseTail(tail).value.1
  {
    var text := RemainingPrefix + hours + tail;
    assert text[..|RemainingPrefix|] == RemainingPrefix;
    assert text[|RemainingPrefix|..|text| - 9] == hours;
    assert text[|text| - 9..] == tail;
  }

  /** The status line of a non-negative count reads back as that count. */
  lemma ParseFormatRemaining(seconds: nat)
    ensures ParseRemaining(FormatRemaining(seconds)) == Some(seconds)
  {
    var hms := Decompose(seconds);
    var hours, tail := NatToString(hms.0), MinutesSeconds(hms.1, hms.2);
    assert FormatRemaining(seconds) == RemainingPrefix + hours + tail;
    var r := ParseRemaining(RemainingPrefix + hours + tail);
    assert r.Some? && r.value == seconds by {
      ParseRemainingOf(hours, tail);
      DigitsValueOfNatToString(hms.0);
    }
  }

  /** Different non-negative counts never show the same status line. */
  lemma FormatRemainingInjective(a: nat, b: nat)
    requires FormatRemaining(a) == FormatRemaining(b)
    ensures a == b
  {
    ParseFormatRemaining(a);
    ParseFormatRemaining(b);
  }

  /** The text for 3661 seconds: one hour, one minute, one second. */
  lemma FormatRemainingExample()
    ensures FormatRemaining(3661) == "Remaining: 1h 01m 01s"
  {
    assert Decompose(3661) == (1, 1, 1);
    assert NatToString(1) == "1";
    assert Pad2(1) == "01";
  }
}
