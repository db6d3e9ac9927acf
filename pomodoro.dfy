/**
 * The pomodoro timer: the configured duration, the `MM:SS` display, the
 * rounding of the focused-time statistic, and the timer's life cycle as
 * transitions of a `Clock` value.
 */
module Pomodoro {
  import opened Base
  import opened Text

  /** Twenty-five minutes, used when the configured hours and minutes give no positive time. */
  const DefaultSeconds: nat := 1500

  /**
   * `getCustomTime`: the hours and minutes inputs as seconds, or the default
   * when that is zero or negative. Never zero.
   */
  function CustomTime(h: int, m: int): (r: nat)
    ensures r > 0
    ensures h * 3600 + m * 60 > 0 ==> r == h * 3600 + m * 60
    ensures h * 3600 + m * 60 <= 0 ==> r == DefaultSeconds
  {
    var seconds := h * 3600 + m * 60;
    if seconds > 0 then seconds else DefaultSeconds
  }

  // ---------------------------------------------------------------------
  // updateTimerDisplay
  // ---------------------------------------------------------------------

  /** Whole minutes, a colon, and the seconds, each padded to two digits; there is no hours field. */
  function Display(remaining: nat): string {
    Pad2(remaining / 60) + ":" + Pad2(remaining % 60)
  }

  /** Reads a display back: minutes before the first colon, seconds after it. */
  function ParseClock(t: string): Option<nat> {
    var k := IndexOfChar(t, ':');
    if k < |t| && AllDigits(t[..k]) && AllDigits(t[k + 1..]) then
      Some(ParseDigits(t[..k]) * 60 + ParseDigits(t[k + 1..]))
    else
      None
  }

  /** A colon between two numerals reads back as minutes and seconds. */
  lemma ParseClockJoin(a: string, b: string, minutes: nat, secs: nat)
    requires AllDigits(a) && AllDigits(b)
    requires ParseDigits(a) == minutes && ParseDigits(b) == secs
    ensures ParseClock(a + ":" + b) == Some(minutes * 60 + secs)
  {
    var t := a + ":" + b;
    assert t[|a|] == ':';
    forall j | 0 <= j < |a|
      ensures t[j] != ':'
    {
      assert t[j] == a[j];
    }
    IndexOfCharAt(t, ':', |a|);
    assert t[..|a|] == a;
    assert t[|a| + 1..] == b;
  }

  /** The display loses nothing: reading it back gives the remaining seconds. */
  lemma DisplayRoundTrip(remaining: nat)
    ensures ParseClock(Display(remaining)) == Some(remaining)
  {
    var q, s := remaining / 60, remaining % 60;
    assert q * 60 + s == remaining;
    var a, b := Pad2(q), Pad2(s);
    assert Display(remaining) == a + ":" + b;
    ParseClockJoin(a, b, q, s);
  }

  /** Below 100 minutes the display is exactly `MM:SS`. */
  lemma DisplayWidth(remaining: nat)
    requires remaining < 6000
    ensures |Display(remaining)| == 5 && Display(remaining)[2] == ':'
  {
    var q, s := remaining / 60, remaining % 60;
    assert q < 100 && s < 100;
    assert |Pad2(q)| == 2 && |Pad2(s)| == 2;
  }

  /** An hour shows as sixty minutes: the display has no hours component. */
  lemma OneHourShowsSixtyMinutes()
    ensures Display(3600) == "60:00"
  {
    assert NatToString(60) == "60" by {
      assert NatToString(6) == "6";
    }
    assert NatToString(0) == "0";
  }

  // ---------------------------------------------------------------------
  // renderPomodoroStats
  // ---------------------------------------------------------------------

  /**
   * `Math.round(seconds / 60)`: the nearest whole number of minutes, a half
   * minute rounding up.
   */
  function FocusedMinutes(seconds: nat): (r: nat)
    ensures 60 * r <= seconds + 30 < 60 * r + 60
  {
    (seconds + 30) / 60
  }

  // ---------------------------------------------------------------------
  // the timer's life cycle
  // ---------------------------------------------------------------------

  /**
   * The timer's state: `totalSeconds`, `remainingSeconds`, whether an
   * interval is scheduled, and the two statistics counters.
   */
  datatype Clock = Clock(total: nat, remaining: nat, running: bool, sessions: nat, seconds: nat)

  /** A positive duration, the remaining time within it, and a running timer has time left. */
  predicate Valid(c: Clock) {
    c.total > 0 && c.remaining <= c.total && (c.running ==> c.remaining > 0)
  }

  /**
   * The start/pause button: pausing only cancels the interval; starting
   * re-reads the duration and begins again from the full total.
   */
  function Toggle(c: Clock, h: int, m: int): (r: Clock)
    ensures Valid(c) ==> Valid(r)
    ensures r.sessions == c.sessions && r.seconds == c.seconds
    ensures c.running ==> !r.running && r.remaining == c.remaining && r.total == c.total
    ensures !c.running ==> r.running && r.total == CustomTime(h, m) && r.remaining == r.total
  {
    if c.running then c.(running := false)
    else
      var t := CustomTime(h, m);
      c.(total := t, remaining := t, running := true)
  }

  /**
   * One firing of the interval: one second less; the firing that reaches 0
   * clamps it, stops the timer and commits one session of `total` seconds.
   */
  function Tick(c: Clock): (r: Clock)
    requires c.running
    ensures Valid(c) ==> Valid(r)
    ensures r.total == c.total
    ensures c.remaining > 1 ==> r == c.(remaining := c.remaining - 1)
    ensures c.remaining <= 1 ==>
      r == c.(remaining := 0, running := false, sessions := c.sessions + 1, seconds := c.seconds + c.total)
  {
    var left := c.remaining - 1;
    if left <= 0 then
      c.(remaining := 0, running := false, sessions := c.sessions + 1, seconds := c.seconds + c.total)
    else
      c.(remaining := left)
  }

  /** The reset button: cancel, re-read the duration, show it in full; the statistics stay. */
  function Reset(c: Clock, h: int, m: int): (r: Clock)
    ensures Valid(r) && !r.running
    ensures r.total == CustomTime(h, m) && r.remaining == r.total
    ensures r.sessions == c.sessions && r.seconds == c.seconds
  {
    var t := CustomTime(h, m);
    c.(total := t, remaining := t, running := false)
  }

  /** The state after the interval has had `n` chances to fire; it fires only while scheduled. */
  function Ticks(c: Clock, n: nat): Clock
    decreases n
  {
    if n == 0 || !c.running then c else Ticks(Tick(c), n - 1)
  }

  lemma {:induction false} TicksAdd(c: Clock, a: nat, b: nat)
    ensures Ticks(Ticks(c, a), b) == Ticks(c, a + b)
    decreases a
  {
    if a > 0 && c.running {
      TicksAdd(Tick(c), a - 1, b);
    }
  }

  /** While time is left each firing takes off one second and commits nothing. */
  lemma {:induction false} TicksBeforeEnd(c: Clock, n: nat)
    requires Valid(c) && c.running && n < c.remaining
    ensures Ticks(c, n) == c.(remaining := c.remaining - n)
    decreases n
  {
    if n > 0 {
      TicksBeforeEnd(Tick(c), n - 1);
    }
  }

  /**
   * A running session: fewer firings than the remaining seconds leave it
   * running with nothing committed; from then on it is stopped at 0 with
   * exactly one session of `total` seconds added, however many more firings
   * are asked for.
   */
  lemma RunOfTicks(c: Clock, n: nat)
    requires Valid(c) && c.running
    ensures n < c.remaining ==> Ticks(c, n) == c.(remaining := c.remaining - n)
    ensures n >= c.remaining ==>
      Ticks(c, n) == c.(remaining := 0, running := false, sessions := c.sessions + 1, seconds := c.seconds + c.total)
  {
    if n < c.remaining {
      TicksBeforeEnd(c, n);
    } else {
      var last := c.remaining - 1;
      TicksBeforeEnd(c, last);
      TicksAdd(c, last, n - last);
      var d := c.(remaining := 1);
      assert Ticks(d, n - last) == Ticks(Tick(d), n - last - 1);
    }
  }

  /** Pausing never commits: the statistics stay and the remaining time is kept. */
  lemma PauseCommitsNothing(c: Clock, n: nat, h: int, m: int)
    requires Valid(c) && c.running && n < c.remaining
    ensures var p := Toggle(Ticks(c, n), h, m);
      !p.running && p.remaining == c.remaining - n && p.sessions == c.sessions && p.seconds == c.seconds
  {
    RunOfTicks(c, n);
  }

  /** Starting again after a pause does not resume: it re-reads the duration and starts in full. */
  lemma StartAfterPauseRestarts(c: Clock, h: int, m: int, h2: int, m2: int)
    requires c.running
    ensures Toggle(Toggle(c, h, m), h2, m2).running
    ensures Toggle(Toggle(c, h, m), h2, m2).remaining == CustomTime(h2, m2)
  {
  }

  /** Resetting twice is resetting once. */
  lemma ResetIdempotent(c: Clock, h: int, m: int)
    ensures Reset(Reset(c, h, m), h, m) == Reset(c, h, m)
  {
  }

  /** A five-second session: five firings stop it and commit one session of five seconds. */
  lemma FiveSecondSession(sessions: nat, seconds: nat)
    ensures Ticks(Clock(5, 5, true, sessions, seconds), 5) == Clock(5, 0, false, sessions + 1, seconds + 5)
    ensures Toggle(Ticks(Clock(5, 5, true, sessions, seconds), 2), 0, 0) == Clock(5, 3, false, sessions, seconds)
  {
    RunOfTicks(Clock(5, 5, true, sessions, seconds), 5);
    RunOfTicks(Clock(5, 5, true, sessions, seconds), 2);
  }
}
