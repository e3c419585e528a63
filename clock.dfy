/**
 * The arithmetic of the game's timer display (updateTimer): whole elapsed
 * seconds from two millisecond timestamps, split into minutes and seconds,
 * each written in decimal and left-padded with '0' to two characters.
 */
module Clock {
  import opened Numerals

  /** `Math.floor((now - start) / 1000)`: whole seconds elapsed, rounded down. */
  function ElapsedSeconds(startMs: int, nowMs: int): (secs: int)
    ensures secs * 1000 <= nowMs - startMs < secs * 1000 + 1000
    ensures startMs <= nowMs ==> secs >= 0
  {
    (nowMs - startMs) / 1000
  }

  /** `s.padStart(2, '0')`. */
  function PadStart2(s: string): (r: string)
    ensures |s| >= 2 ==> r == s
    ensures |s| < 2 ==> |r| == 2 && r[2 - |s|..] == s
    ensures forall k :: 0 <= k < |r| - |s| ==> r[k] == '0'
  {
    if |s| >= 2 then s else if |s| == 1 then "0" + s else "00"
  }

  /** `Number.prototype.toString()` of an integer: a '-' before the digits of a negative one. */
  function IntToString(i: int): (s: string)
    ensures |s| >= 1 && ((s[0] == '-') <==> i < 0)
    ensures i < 0 ==> |s| >= 2
    ensures i >= 0 ==> s == NatToString(i)
  {
    if i < 0 then "-" + NatToString(-i) else NatToString(i)
  }

  /**
   * JavaScript's `diff % 60`: the remainder of the division truncated toward
   * zero, so it keeps the sign of the dividend.
   */
  function JsRem60(a: int): (r: int)
    ensures a - r == 60 * (if a >= 0 then a / 60 else -((-a) / 60))
    ensures -60 < r < 60
    ensures a >= 0 ==> r >= 0
    ensures a < 0 ==> r <= 0
  {
    if a >= 0 then a % 60 else -((-a) % 60)
  }

  /**
   * The text updateTimer shows for `diff` whole seconds:
   * `Math.floor(diff / 60)` and `diff % 60`, each written with `toString`
   * and left-padded to two characters.
   */
  function ClockText(diff: int): (t: string)
    ensures |t| >= 5 && ((t[0] == '-') <==> diff < 0)
  {
    var m := IntToString(diff / 60);
    var s := IntToString(JsRem60(diff));
    assert diff < 0 ==> PadStart2(m) == m;
    assert diff >= 0 ==> m == NatToString(diff / 60) && PadStart2(m)[0] != '-';
    PadStart2(m) + ":" + PadStart2(s)
  }

  /** Shape of a timer text: at least two minute digits, a colon, two second digits. */
  predicate IsClockText(t: string)
  {
    |t| >= 5 && t[|t| - 3] == ':' && AllDigits(t[..|t| - 3]) && AllDigits(t[|t| - 2..])
  }

  /** The number of seconds a reader of a timer text sees. */
  function ParseClock(t: string): nat
    requires IsClockText(t)
  {
    DigitsValue(t[..|t| - 3]) * 60 + DigitsValue(t[|t| - 2..])
  }

  /** A padded digit string has the value of the unpadded one. */
  lemma PadStart2Value(s: string)
    requires AllDigits(s) && |s| >= 1
    ensures AllDigits(PadStart2(s)) && DigitsValue(PadStart2(s)) == DigitsValue(s)
  {
    if |s| == 1 {
      LeadingZeroValue(s);
    }
  }

  /** A number below 100 has at most two decimal digits. */
  lemma NatToStringShort(n: nat)
    requires n < 100
    ensures |NatToString(n)| <= 2
  {
    if n >= 10 {
      assert NatToString(n) == NatToString(n / 10) + [DigitChar(n % 10)];
    }
  }

  /** Joining a minutes field and a two-digit seconds field with ':' gives a timer text whose fields are those two. */
  lemma ClockFields(pm: string, ps: string)
    requires AllDigits(pm) && |pm| >= 2 && AllDigits(ps) && |ps| == 2
    ensures var t := pm + ":" + ps; IsClockText(t) && t[..|t| - 3] == pm && t[|t| - 2..] == ps
  {
    var t := pm + ":" + ps;
    assert t[..|t| - 3] == pm;
    assert t[|t| - 2..] == ps;
  }

  /** From the start time on, both fields are the plain digits of the minutes and of the remaining seconds. */
  lemma ClockTextOfNat(secs: nat)
    ensures ClockText(secs) == PadStart2(NatToString(secs / 60)) + ":" + PadStart2(NatToString(secs % 60))
  {
    assert IntToString(secs / 60) == NatToString(secs / 60);
    assert IntToString(JsRem60(secs)) == NatToString(secs % 60);
  }

  /**
   * The timer text always has the `mm:ss` shape, the seconds field is always
   * two characters, the whole text is five characters for less than 100
   * minutes, and reading it back gives the elapsed seconds.
   */
  lemma ClockTextRoundTrip(secs: nat)
    ensures IsClockText(ClockText(secs))
    ensures secs < 6000 ==> |ClockText(secs)| == 5
    ensures ParseClock(ClockText(secs)) == secs
  {
    ClockTextOfNat(secs);
    PaddedFields(secs / 60, secs % 60);
  }

  /** Padded minutes and seconds joined with ':' read back as the minutes and the seconds. */
  lemma PaddedFields(mins: nat, rem: nat)
    requires rem < 60
    ensures var t := PadStart2(NatToString(mins)) + ":" + PadStart2(NatToString(rem));
            IsClockText(t) && ParseClock(t) == mins * 60 + rem && (mins < 100 ==> |t| == 5)
  {
    var m, s := NatToString(mins), NatToString(rem);
    NatToStringShort(rem);
    PadStart2Value(m);
    PadStart2Value(s);
    NatToStringValue(mins);
    NatToStringValue(rem);
    var t := PadStart2(m) + ":" + PadStart2(s);
    ClockFields(PadStart2(m), PadStart2(s));
    assert DigitsValue(t[..|t| - 3]) == mins;
    assert DigitsValue(t[|t| - 2..]) == rem;
    assert ParseClock(t) == mins * 60 + rem;
    if mins < 100 {
      NatToStringShort(mins);
    }
  }

  /**
   * Before the start time (a clock set back) both fields are negative:
   * the minutes field is '-' and the digits of the rounded-down minutes,
   * and the seconds field is '-' and the digits of the remainder, or "00"
   * when there is none.
   */
  lemma ClockTextBeforeStart(diff: int)
    requires diff < 0
    ensures ClockText(diff) ==
            "-" + NatToString(-(diff / 60)) + ":" +
            (if (-diff) % 60 == 0 then "00" else "-" + NatToString((-diff) % 60))
  {
    var r := (-diff) % 60;
    assert JsRem60(diff) == -r;
    assert IntToString(diff / 60) == "-" + NatToString(-(diff / 60));
    if r == 0 {
      assert PadStart2(IntToString(-r)) == "00";
    } else {
      assert IntToString(-r) == "-" + NatToString(r);
    }
  }

  /** Sixty-five seconds before the start the timer shows "-2:-5". */
  lemma ClockTextSixtyFiveSecondsEarly()
    ensures ClockText(-65) == "-2:-5"
  {
    ClockTextBeforeStart(-65);
    assert NatToString(2) == "2" && NatToString(5) == "5";
  }
}
