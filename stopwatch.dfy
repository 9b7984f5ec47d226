/** The stopwatch of SkillCraft-Submitted/SCT_WD_2/script.js: a counter of
    hours, minutes, seconds and milliseconds advanced 10 ms per tick, its
    zero-padded display, and the running/paused/reset machine with its laps. */
module Stopwatch {
  import opened Decimal

  /** One reading of the four counters. */
  datatype Clock = Clock(hours: nat, minutes: nat, seconds: nat, milliseconds: nat)

  /** One entry of the lap list: its number and its `HH:MM:SS.mmm` time. */
  datatype Lap = Lap(number: nat, time: string)

  /** The ranges the counters keep when they start from zero and only tick. */
  predicate InRange(c: Clock) {
    c.milliseconds < 1000 && c.milliseconds % 10 == 0 && c.seconds < 60 && c.minutes < 60
  }

  /** The time a reading stands for, in milliseconds. */
  function ElapsedMs(c: Clock): nat {
    ((c.hours * 60 + c.minutes) * 60 + c.seconds) * 1000 + c.milliseconds
  }

  /** The in-range reading of `t` milliseconds. */
  function ClockAt(t: nat): (c: Clock)
    requires t % 10 == 0
    ensures InRange(c) && ElapsedMs(c) == t
  {
    var totalSeconds, ms := t / 1000, t % 1000;
    var totalMinutes, s := totalSeconds / 60, totalSeconds % 60;
    var h, m := totalMinutes / 60, totalMinutes % 60;
    assert ms == 10 * (t / 10 - 100 * totalSeconds);
    assert h * 60 + m == totalMinutes && totalMinutes * 60 + s == totalSeconds;
    Clock(h, m, s, ms)
  }

  /** An in-range reading is determined by the time it stands for. */
  lemma ClockAtElapsed(c: Clock)
    requires InRange(c)
    ensures ElapsedMs(c) % 10 == 0 && ClockAt(ElapsedMs(c)) == c
  {
  }

  /** `formatTime`, as the text it is printed as: at least two digits,
      denoting `n`; padded with one zero below 10 and left as it is from 10 on. */
  function FormatTime(n: nat): (s: string)
    ensures AllDigits(s) && ValueOf(s) == n
    ensures |s| >= 2 && (n < 100 ==> |s| == 2)
    ensures n >= 10 ==> s[0] != '0'
  {
    DecimalWidth(n, 1);
    DecimalWidth(n, 2);
    if n < 10 then
      LeadingZero(ToDecimal(n));
      ['0'] + ToDecimal(n)
    else ToDecimal(n)
  }

  /** `formatMilliseconds`, as the text it is printed as: at least three
      digits, denoting `n`; padded with zeros below 100 and left as it is
      from 100 on. */
  function FormatMilliseconds(n: nat): (s: string)
    ensures AllDigits(s) && ValueOf(s) == n
    ensures |s| >= 3 && (n < 1000 ==> |s| == 3)
    ensures n >= 100 ==> s[0] != '0'
  {
    DecimalWidth(n, 1);
    DecimalWidth(n, 2);
    DecimalWidth(n, 3);
    if n < 10 then
      LeadingZero(ToDecimal(n));
      LeadingZero(['0'] + ToDecimal(n));
      assert ['0', '0'] + ToDecimal(n) == ['0'] + (['0'] + ToDecimal(n));
      ['0', '0'] + ToDecimal(n)
    else if n < 100 then
      LeadingZero(ToDecimal(n));
      ['0'] + ToDecimal(n)
    else ToDecimal(n)
  }

  /** The lap text `HH:MM:SS.mmm`. */
  function LapString(c: Clock): string {
    FormatTime(c.hours) + ":" + FormatTime(c.minutes) + ":" + FormatTime(c.seconds)
      + "." + FormatMilliseconds(c.milliseconds)
  }

  /** Below 100 hours a lap text is twelve characters whose fields read back
      as the four counters. */
  lemma LapStringFields(c: Clock)
    requires InRange(c) && c.hours < 100
    ensures var r := LapString(c);
      |r| == 12 && r[2] == ':' && r[5] == ':' && r[8] == '.' &&
      AllDigits(r[0..2]) && ValueOf(r[0..2]) == c.hours &&
      AllDigits(r[3..5]) && ValueOf(r[3..5]) == c.minutes &&
      AllDigits(r[6..8]) && ValueOf(r[6..8]) == c.seconds &&
      AllDigits(r[9..12]) && ValueOf(r[9..12]) == c.milliseconds
  {
    var h, m, s := FormatTime(c.hours), FormatTime(c.minutes), FormatTime(c.seconds);
    var ms := FormatMilliseconds(c.milliseconds);
    var r := LapString(c);
    assert r == h + ":" + m + ":" + s + "." + ms;
    assert r[0..2] == h && r[3..5] == m && r[6..8] == s && r[9..12] == ms;
  }

  class Stopwatch {
    var milliseconds: nat
    var seconds: nat
    var minutes: nat
    var hours: nat
    var isRunning: bool
    var lapCounter: nat
    /** The recorded laps, newest first (each is prepended to the list). */
    var laps: seq<Lap>
    /** The `disabled` properties of the four buttons. */
    var startDisabled: bool
    var pauseDisabled: bool
    var resetDisabled: bool
    var lapDisabled: bool

    function Reading(): Clock
      reads this
    {
      Clock(hours, minutes, seconds, milliseconds)
    }

    ghost predicate Valid()
      reads this
    {
      InRange(Reading()) &&
      |laps| == lapCounter &&
      (forall i :: 0 <= i < |laps| ==> laps[i].number == lapCounter - i) &&
      (isRunning ==> startDisabled && !pauseDisabled && !resetDisabled && !lapDisabled)
    }

    /** The state at page load; the buttons' initial `disabled` attributes
        belong to the page markup and are given as parameters. */
    constructor (startOff: bool, pauseOff: bool, resetOff: bool, lapOff: bool)
      ensures Valid()
      ensures Reading() == Clock(0, 0, 0, 0) && !isRunning && lapCounter == 0 && laps == []
      ensures startDisabled == startOff && pauseDisabled == pauseOff
      ensures resetDisabled == resetOff && lapDisabled == lapOff
    {
      milliseconds, seconds, minutes, hours := 0, 0, 0, 0;
      isRunning := false;
      lapCounter := 0;
      laps := [];
      startDisabled, pauseDisabled, resetDisabled, lapDisabled := startOff, pauseOff, resetOff, lapOff;
    }

    /** `incrementTime`: 10 ms more, carried into seconds, minutes and hours. */
    method Tick()
      requires Valid()
      modifies this`milliseconds, this`seconds, this`minutes, this`hours
      ensures Valid()
      ensures ElapsedMs(Reading()) == old(ElapsedMs(Reading())) + 10
    {
      ghost var before := ElapsedMs(Reading());
      milliseconds := milliseconds + 10;
      assert milliseconds == 10 * (old(milliseconds) / 10 + 1);
      if milliseconds == 1000 {
        milliseconds := 0;
        seconds := seconds + 1;
        if seconds == 60 {
          seconds := 0;
          minutes := minutes + 1;
          if minutes == 60 {
            minutes := 0;
            hours := hours + 1;
          }
        }
      }
      assert ElapsedMs(Reading()) == before + 10;
    }

    /** `startStopwatch`: takes effect only when stopped. */
    method Start()
      requires Valid()
      modifies this`isRunning, this`startDisabled, this`pauseDisabled, this`resetDisabled, this`lapDisabled
      ensures Valid() && isRunning
      ensures old(isRunning) ==> unchanged(this)
      ensures !old(isRunning) ==> startDisabled && !pauseDisabled && !resetDisabled && !lapDisabled
    {
      if !isRunning {
        isRunning := true;
        startDisabled := true;
        pauseDisabled := false;
        resetDisabled := false;
        lapDisabled := false;
      }
    }

    /** `pauseStopwatch`: takes effect only when running; the reset and lap
        buttons keep their state. */
    method Pause()
      requires Valid()
      modifies this`isRunning, this`startDisabled, this`pauseDisabled
      ensures Valid() && !isRunning
      ensures !old(isRunning) ==> unchanged(this)
      ensures old(isRunning) ==> !startDisabled && pauseDisabled
    {
      if isRunning {
        isRunning := false;
        startDisabled := false;
        pauseDisabled := true;
      }
    }

    /** `resetStopwatch`: stops, clears the counters and the laps. */
    method Reset()
      requires Valid()
      modifies this
      ensures Valid()
      ensures Reading() == Clock(0, 0, 0, 0) && !isRunning && lapCounter == 0 && laps == []
      ensures !startDisabled && pauseDisabled && resetDisabled && lapDisabled
    {
      isRunning := false;
      milliseconds, seconds, minutes, hours := 0, 0, 0, 0;
      lapCounter := 0;
      laps := [];
      startDisabled := false;
      pauseDisabled := true;
      resetDisabled := true;
      lapDisabled := true;
    }

    /** `recordLap`: while running, numbers the next lap and puts it in
        front of the list; otherwise nothing. */
    method RecordLap()
      requires Valid()
      modifies this`lapCounter, this`laps
      ensures Valid()
      ensures !old(isRunning) ==> unchanged(this)
      ensures old(isRunning) ==> lapCounter == old(lapCounter) + 1 &&
                                 laps == [Lap(lapCounter, LapString(Reading()))] + old(laps)
    {
      if isRunning {
        lapCounter := lapCounter + 1;
        var lapTime := LapString(Reading());
        laps := [Lap(lapCounter, lapTime)] + laps;
      }
    }
  }
}
