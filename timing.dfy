/**
 * The clock display of the 24-hour wait between cycles: `formatTime` and the
 * countdown that ticks once a second until the restart.
 */
module Timing {
  import opened Text

  // Arithmetic below writes the unit sizes as literals (3600000 ms an hour,
  // 60000 ms a minute, 1000 ms a second) so that the solver sees linear terms.
  /** The wait before a restart: 24 hours in milliseconds. */
  const RESTART_DELAY_MS := 86_400_000    // 24 * 60 * 60 * 1000

  /** The quotient of `a` by `b > 0` rounded toward zero, which JavaScript's `%` pairs with. */
  function JsQuot(a: int, b: int): int
    requires b > 0
  {
    if a >= 0 then a / b else -((-a) / b)
  }

  /** JavaScript's `a % b` for `b > 0`: the remainder takes the sign of `a`. */
  function JsRem(a: int, b: int): (r: int)
    requires b > 0
    ensures a == b * JsQuot(a, b) + r
    ensures a >= 0 ==> 0 <= r < b
    ensures a < 0 ==> -b < r <= 0
  {
    if a >= 0 then a % b else -((-a) % b)
  }

  datatype Clock = Clock(hours: int, minutes: int, seconds: int)

  /**
   * The three numbers `formatTime` prints. `Math.floor(x / b)` with `b > 0` is
   * Dafny's division, which rounds down for a positive divisor.
   */
  function TimeParts(ms: int): (c: Clock)
    ensures ms >= 0 ==> c.hours >= 0 && 0 <= c.minutes < 60 && 0 <= c.seconds < 60
    ensures ms >= 0 ==>
      var whole := c.hours * 3600000 + c.minutes * 60000 + c.seconds * 1000;
      whole <= ms < whole + 1000
  {
    TimePartsSteps(ms);
    Clock(ms / 3600000, JsRem(ms, 3600000) / 60000, JsRem(ms, 60000) / 1000)
  }

  /** The quotient and remainder of `x` by `b > 0` are the one split `x == b * q + r` with `0 <= r < b`. */
  lemma DivModOf(x: int, b: int, q: int, r: int)
    requires b > 0 && x == b * q + r && 0 <= r < b
    ensures x / b == q && x % b == r
  {
    var d := x / b - q;
    assert b * d == r - x % b;
    assert -b < b * d < b;
    assert d == 0;
  }

  /**
   * The division steps behind `TimeParts`: an hour is a whole number of minutes,
   * so the milliseconds left in the minute are the same whether counted from the
   * whole time or from what is left of the hour.
   */
  lemma TimePartsSteps(ms: int)
    ensures ms >= 0 ==>
      var m, s := (ms % 3600000) / 60000, (ms % 60000) / 1000;
      var whole := (ms / 3600000) * 3600000 + m * 60000 + s * 1000;
      m < 60 && s < 60 && whole <= ms < whole + 1000
  {
    if ms >= 0 {
      var h, r1 := ms / 3600000, ms % 3600000;
      var m, r := r1 / 60000, r1 % 60000;
      DivModOf(ms, 60000, 60 * h + m, r);
    }
  }

  /** The parts of a time given in hours, minutes, seconds and spare milliseconds are those numbers. */
  lemma TimePartsOfClock(h: nat, m: nat, s: nat, extra: nat)
    requires m < 60 && s < 60 && extra < 1000
    ensures TimeParts(h * 3600000 + m * 60000 + s * 1000 + extra) == Clock(h, m, s)
  {
    var inHour, inMinute := m * 60000 + s * 1000 + extra, s * 1000 + extra;
    var ms := h * 3600000 + inHour;
    DivModOf(ms, 3600000, h, inHour);
    DivModOf(inHour, 60000, m, inMinute);
    DivModOf(ms, 60000, 60 * h + m, inMinute);
    DivModOf(inMinute, 1000, s, extra);
  }

  /** `formatTime(ms)`: hours, minutes and seconds as `"<h>h <m>m <s>s"`. */
  function FormatTime(ms: int): string {
    var c := TimeParts(ms);
    ClockText(c.hours, c.minutes, c.seconds)
  }

  /** The text `"<h>h <m>m <s>s"`, grouped from the right so that each unit letter closes its number. */
  function ClockText(h: int, m: int, s: int): string {
    IntToString(h) + "h" + (" " + (IntToString(m) + "m" + (" " + (IntToString(s) + "s"))))
  }

  /** The printed numbers can be read back from the clock text. */
  lemma ClockTextInjective(h1: nat, m1: nat, s1: nat, h2: nat, m2: nat, s2: nat)
    requires ClockText(h1, m1, s1) == ClockText(h2, m2, s2)
    ensures h1 == h2 && m1 == m2 && s1 == s2
  {
    var ha, hb := NatToString(h1), NatToString(h2);
    var ma, mb := NatToString(m1), NatToString(m2);
    var sa, sb := NatToString(s1), NatToString(s2);
    var ua, ub := " " + (sa + "s"), " " + (sb + "s");
    var ta, tb := " " + (ma + "m" + ua), " " + (mb + "m" + ub);
    SplitAtMarker(ha, ta, hb, tb, 'h');
    assert ta[1..] == ma + ['m'] + ua;
    assert tb[1..] == mb + ['m'] + ub;
    SplitAtMarker(ma, ua, mb, ub, 'm');
    assert ua[1..] == sa + "s";
    assert ub[1..] == sb + "s";
    assert (sa + "s")[..|sa|] == sa;
    assert (sb + "s")[..|sb|] == sb;
    NatToStringInjective(h1, h2);
    NatToStringInjective(m1, m2);
    NatToStringInjective(s1, s2);
  }

  /** Two times have the same clock parts exactly when they fall in the same whole second. */
  lemma TimePartsBySecond(a: nat, b: nat)
    ensures TimeParts(a) == TimeParts(b) <==> a / 1000 == b / 1000
  {
    var ca, cb := TimeParts(a), TimeParts(b);
    var ka := ca.hours * 3600 + ca.minutes * 60 + ca.seconds;
    var kb := cb.hours * 3600 + cb.minutes * 60 + cb.seconds;
    DivModOf(a, 1000, ka, a - 1000 * ka);
    DivModOf(b, 1000, kb, b - 1000 * kb);
    if a / 1000 == b / 1000 {
      TimePartsOfClock(ca.hours, ca.minutes, ca.seconds, b - 1000 * ka);
    }
  }

  /** The display depends on whole seconds only, and different whole seconds display differently. */
  lemma FormatTimeSeconds(a: nat, b: nat)
    ensures FormatTime(a) == FormatTime(b) <==> a / 1000 == b / 1000
  {
    TimePartsBySecond(a, b);
    if FormatTime(a) == FormatTime(b) {
      var ca, cb := TimeParts(a), TimeParts(b);
      ClockTextInjective(ca.hours, ca.minutes, ca.seconds, cb.hours, cb.minutes, cb.seconds);
    }
  }

  function CountdownLine(ms: int): string {
    "Time until restart: " + FormatTime(ms)
  }

  /** The value of `remainingTime` after each of the first `n` ticks, counted from `start`. */
  function CountdownTimes(start: int, n: nat): (times: seq<int>)
    ensures |times| == n
  {
    if n == 0 then [] else CountdownTimes(start, n - 1) + [start - 1000 * n]
  }

  lemma {:induction false} CountdownTimesAt(start: int, n: nat, i: nat)
    requires i < n
    ensures CountdownTimes(start, n)[i] == start - 1000 * (i + 1)
  {
    if i < n - 1 {
      CountdownTimesAt(start, n - 1, i);
    }
  }

  /**
   * The countdown: every tick takes a second off `remaining` and redraws the
   * line `CountdownLine(remaining)`; the tick that brings it to zero or below
   * is the last. The first tick always happens, as the interval fires before
   * it checks. `shown` lists the values the redrawn lines were made from.
   */
  method Countdown(start: int) returns (ticks: nat, remaining: int, shown: seq<int>)
    ensures ticks >= 1
    ensures remaining == start - 1000 * ticks
    ensures remaining <= 0
    ensures start > 0 ==> -1000 < remaining
    ensures start <= 0 ==> ticks == 1
    ensures shown == CountdownTimes(start, ticks)
  {
    remaining := start - 1000;
    ticks := 1;
    shown := [remaining];
    while remaining > 0
      invariant ticks >= 1
      invariant remaining == start - 1000 * ticks
      invariant remaining > -1000 || ticks == 1
      invariant shown == CountdownTimes(start, ticks)
      decreases remaining
    {
      remaining := remaining - 1000;
      ticks := ticks + 1;
      shown := shown + [remaining];
    }
  }

  /** The first line of the restart countdown, one second into the 24 hours. */
  lemma FirstRestartLine()
    ensures CountdownLine(RESTART_DELAY_MS - 1000) == "Time until restart: 23h 59m 59s"
  {
    TimePartsOfClock(23, 59, 59, 0);
    assert NatToString(23) == "23" && NatToString(59) == "59";
  }

  /** The last line of the restart countdown, drawn just before the restart. */
  lemma LastRestartLine()
    ensures CountdownLine(0) == "Time until restart: 0h 0m 0s"
  {
    assert NatToString(0) == "0";
  }

  /** Lines drawn for different non-negative whole seconds differ. */
  lemma CountdownLinesDiffer(a: nat, b: nat)
    requires a / 1000 != b / 1000
    ensures CountdownLine(a) != CountdownLine(b)
  {
    FormatTimeSeconds(a, b);
    var p := |"Time until restart: "|;
    assert FormatTime(a) == CountdownLine(a)[p..];
    assert FormatTime(b) == CountdownLine(b)[p..];
  }

  /** Over the restart countdown no line repeats: every tick shows a new second. */
  lemma RestartLinesDistinct(i: nat, j: nat)
    requires i < j < 86400
    ensures CountdownLine(RESTART_DELAY_MS - 1000 * (i + 1)) != CountdownLine(RESTART_DELAY_MS - 1000 * (j + 1))
  {
    var a, b := RESTART_DELAY_MS - 1000 * (i + 1), RESTART_DELAY_MS - 1000 * (j + 1);
    DivModOf(a, 1000, 86399 - i, 0);
    DivModOf(b, 1000, 86399 - j, 0);
    CountdownLinesDiffer(a, b);
  }

  /** The restart countdown lasts exactly 86 400 ticks and ends at zero; it runs through every second of the day. */
  method RestartCountdown() returns (ticks: nat, remaining: int, shown: seq<int>)
    ensures ticks == 86400 && remaining == 0
    ensures |shown| == ticks
    ensures forall i :: 0 <= i < ticks ==> shown[i] == RESTART_DELAY_MS - 1000 * (i + 1)
    ensures shown[0] == RESTART_DELAY_MS - 1000 && shown[ticks - 1] == 0
  {
    ticks, remaining, shown := Countdown(RESTART_DELAY_MS);
    forall i | 0 <= i < ticks ensures shown[i] == RESTART_DELAY_MS - 1000 * (i + 1) {
      CountdownTimesAt(RESTART_DELAY_MS, ticks, i);
    }
  }
}
