/** Correcting timestamps taken from a clock which repeats leap seconds. */
module LeapSeconds {
  import opened Octets

  const DAY: int := 86400
  const LAST_SECOND: int := DAY - 1
  const FIRST_SECOND: int := 0
  const NS: int := 1_000_000_000
  const US: int := 1_000_000
  const LEAP_INDICATOR: int := NS

  /** The states which the kernel clock can report. */
  datatype State = TimeOk | TimeIns | TimeDel | TimeOop | TimeWait | TimeError

  datatype Timespec = Timespec(sec: int, nsec: int)

  /** A time in seconds and microseconds, with the state of the clock at that time. */
  datatype Reading = Reading(sec: int, usec: int, state: State)

  /** The remainder of a division which truncates towards zero. */
  function TruncatedMod(a: int, b: int): int
    requires b > 0
  {
    if a >= 0 then a % b else -((-a) % b)
  }

  /** Convert what the kernel returns (microseconds, or nanoseconds if so flagged). */
  function FromKernel(sec: int, fraction: int, nano: bool, state: State): Reading {
    Reading(sec, if nano then (if fraction >= 0 then fraction / 1000 else -((-fraction) / 1000)) else fraction, state)
  }

  /** A timestamp marked as within a leap second. */
  function Mark(ts: Timespec): Timespec { ts.(nsec := ts.nsec + LEAP_INDICATOR) }

  /** A timestamp taken as one second earlier, and marked as within a leap second. */
  function MarkEarlier(ts: Timespec): Timespec { Timespec(ts.sec - 1, ts.nsec + LEAP_INDICATOR) }

  function Later(ts: Timespec, ref: Reading): bool {
    ts.sec > ref.sec || (ts.sec == ref.sec && ts.nsec / 1000 > ref.usec)
  }

  /** The corrected value of a timestamp, given a reading not earlier than it. */
  function Corrected(ts: Timespec, ref: Reading): Timespec {
    var secondOfDay := TruncatedMod(ts.sec, DAY);
    if secondOfDay != LAST_SECOND && secondOfDay != FIRST_SECOND then ts
    else if ref.state == TimeWait then
      if secondOfDay == LAST_SECOND then Mark(ts) else ts
    else if ref.state == TimeOop then
      if Later(ts, ref) then (if secondOfDay == LAST_SECOND then ts else MarkEarlier(ts))
      else if secondOfDay == LAST_SECOND then Mark(ts) else ts
    else if ref.state == TimeIns then
      if secondOfDay == FIRST_SECOND then MarkEarlier(ts) else ts
    else ts
  }

  /** Exactly which timestamps are changed, and how: one in the last second of a day if the leap second
      has been acted on since, and one in the first second if it had been yet to be acted on. */
  lemma ChangedExactly(ts: Timespec, ref: Reading)
    ensures var last, first := ts.sec >= 0 && ts.sec % 86400 == 86399, ts.sec % 86400 == 0;
            var later := ts.sec > ref.sec || (ts.sec == ref.sec && ts.nsec / 1000 > ref.usec);
            Corrected(ts, ref) ==
              if last && (ref.state == TimeWait || (ref.state == TimeOop && !later))
                then Timespec(ts.sec, ts.nsec + 1_000_000_000)
              else if first && (ref.state == TimeIns || (ref.state == TimeOop && later))
                then Timespec(ts.sec - 1, ts.nsec + 1_000_000_000)
              else ts
  {
  }

  // ---------------------------------------------------------------------------
  // A clock which shows true time
  // ---------------------------------------------------------------------------

  /** The states of a clock with no leap second to insert. (Deletions are not provided for.) */
  predicate IsOrdinary(state: State) { state == TimeOk || state == TimeDel || state == TimeError }

  /** With such a clock every timestamp is already correct, and is left alone whatever the second of
      the day. */
  lemma OrdinaryUnchanged(ts: Timespec, ref: Reading)
    requires IsOrdinary(ref.state)
    ensures Corrected(ts, ref) == ts
  {
  }

  // ---------------------------------------------------------------------------
  // A clock which repeats the last second of a day
  // ---------------------------------------------------------------------------

  /** An inserted leap second. Elapsed time is counted in nanoseconds, such that it is
      `midnight` seconds when the leap second starts. The kernel acts on the leap second
      (and later on its end) with some delay after it ought to. */
  datatype Leap = Leap(midnight: int, delay: int)

  ghost predicate ValidLeap(leap: Leap) {
    leap.midnight > 0 && leap.midnight % DAY == 0 && 0 <= leap.delay < NS
  }

  ghost function Start(leap: Leap): int { leap.midnight * NS }

  /** What the clock shows: it is set back one second when the leap second is acted on. */
  ghost function Clock(leap: Leap, t: int): int {
    if t < Start(leap) + leap.delay then t else t - NS
  }

  ghost function ClockState(leap: Leap, t: int): State {
    if t < Start(leap) + leap.delay then TimeIns
    else if t < Start(leap) + NS + leap.delay then TimeOop
    else TimeWait
  }

  ghost function ToTimespec(ns: int): Timespec { Timespec(ns / NS, ns % NS) }

  ghost function ReadingAt(leap: Leap, t: int): Reading {
    var c := Clock(leap, t);
    Reading(c / NS, c % NS / 1000, ClockState(leap, t))
  }

  /** The true time: the leap second is the last second of its day with a second added to
      the nanoseconds, and time after it is behind the elapsed time by one second. */
  ghost function TrueTime(leap: Leap, t: int): Timespec {
    if t < Start(leap) then ToTimespec(t)
    else if t < Start(leap) + NS then Mark(ToTimespec(t - NS))
    else ToTimespec(t - NS)
  }

  ghost predicate WithinHalfDay(leap: Leap, t: int) {
    Start(leap) - DAY / 2 * NS <= t < Start(leap) + DAY / 2 * NS
  }

  /** Which second of the day a clock value near midnight is in. */
  lemma SecondOfDay(leap: Leap, c: int)
    requires ValidLeap(leap) && Start(leap) - DAY / 2 * NS - NS <= c < Start(leap) + DAY / 2 * NS
    ensures TruncatedMod(c / NS, DAY) == LAST_SECOND <==> Start(leap) - NS <= c < Start(leap)
    ensures TruncatedMod(c / NS, DAY) == FIRST_SECOND <==> Start(leap) <= c < Start(leap) + NS
  {
    var s, m := c / NS, leap.midnight;
    assert m - DAY / 2 - 1 <= s < m + DAY / 2;
    var q := m / DAY;
    assert m == q * DAY;
    if s >= m {
      assert s == q * DAY + (s - m);
      ModOfSum(q, s - m);
    } else {
      assert s == (q - 1) * DAY + (s - m + DAY);
      ModOfSum(q - 1, s - m + DAY);
    }
    assert s == m - 1 <==> Start(leap) - NS <= c < Start(leap);
    assert s == m <==> Start(leap) <= c < Start(leap) + NS;
  }

  lemma ModOfSum(q: int, r: int)
    requires q >= 0 && 0 <= r < DAY
    ensures (q * DAY + r) % DAY == r && q * DAY + r >= 0
  {
  }

  lemma LaterMeans(c: int, d: int, ref: Reading)
    requires ref.sec == d / NS && ref.usec == d % NS / 1000
    ensures Later(ToTimespec(c), ref) <==> c / 1000 > d / 1000
  {
    Microseconds(c);
    Microseconds(d);
  }

  lemma Microseconds(c: int)
    ensures c / 1000 == c / NS * US + c % NS / 1000
    ensures 0 <= c % NS / 1000 < US
  {
    assert c == c / NS * NS + c % NS;
    assert c / NS * NS == c / NS * US * 1000;
  }

  lemma BackOneSecond(c: int)
    ensures ToTimespec(c - NS) == Timespec(c / NS - 1, c % NS)
  {
  }

  /** For a timestamp within half a day of the leap second, and a reference reading taken no earlier
      and at most a second later, the correction is right unless the clock was set back between
      the two and then shows the same microsecond again. */
  lemma CorrectionExact(leap: Leap, t: int, r: int)
    requires ValidLeap(leap) && WithinHalfDay(leap, t)
    requires t <= r <= t + NS
    ensures Corrected(ToTimespec(Clock(leap, t)), ReadingAt(leap, r)) == TrueTime(leap, t)
       <==> !SameMicrosecond(leap, t, r)
  {
    hide TruncatedMod, Later;
    var c, d := Clock(leap, t), Clock(leap, r);
    SecondOfDay(leap, c);
    LaterMeans(c, d, ReadingAt(leap, r));
    BackOneSecond(t);
  }

  /** The clock is set back between two times and shows the same microsecond at both. */
  ghost predicate SameMicrosecond(leap: Leap, t: int, r: int) {
    t < Start(leap) + leap.delay <= r && (r - NS) / 1000 == t / 1000
  }

  /** That cannot be so if the reading is taken at least a microsecond before a second has passed. */
  lemma CorrectionRecoversTrueTime(leap: Leap, t: int, r: int)
    requires ValidLeap(leap) && WithinHalfDay(leap, t)
    requires t <= r <= t + NS - 1000
    ensures Corrected(ToTimespec(Clock(leap, t)), ReadingAt(leap, r)) == TrueTime(leap, t)
  {
    hide Corrected, ReadingAt, Clock, TrueTime, WithinHalfDay;
    CorrectionExact(leap, t, r);
  }

  /** It is not enough that the reading is taken less than a second later: for the timestamp in the
      last nanosecond of the last whole microsecond before the clock is set back, one nanosecond
      more than the bound above is too late. */
  lemma BoundIsSharp(leap: Leap)
    requires ValidLeap(leap)
    ensures var t := (Start(leap) + leap.delay) / 1000 * 1000 - 1; var r := t + NS - 999;
            && WithinHalfDay(leap, t) && t <= r < t + NS
            && Corrected(ToTimespec(Clock(leap, t)), ReadingAt(leap, r)) != TrueTime(leap, t)
  {
    hide Corrected, ReadingAt, Clock, TrueTime;
    var t := (Start(leap) + leap.delay) / 1000 * 1000 - 1;
    CorrectionExact(leap, t, t + NS - 999);
  }

  // ---------------------------------------------------------------------------
  // The queue of readings
  // ---------------------------------------------------------------------------

  /** A reading recorded when the timestamps before a given index had been taken. */
  datatype ClockMeasurement = ClockMeasurement(index: nat, reading: Reading)

  /** The earliest of the readings recorded which is known not to pre-date the timestamp
      presented as number `index` (counting from one), or failing that a reading taken now. */
  function Reference(history: seq<ClockMeasurement>, index: nat, now: Reading): Reading {
    if history == [] then now
    else if history[0].index >= index then history[0].reading
    else Reference(history[1..], index, now)
  }

  lemma {:induction false} ReferenceSkips(history: seq<ClockMeasurement>, n: nat, index: nat, now: Reading)
    requires n <= |history|
    requires forall j :: 0 <= j < n ==> history[j].index < index
    ensures Reference(history, index, now) == Reference(history[n..], index, now)
    decreases n
  {
    if n == 0 {
      assert history[0..] == history;
    } else {
      ReferenceSkips(history[1..], n - 1, index, now);
      assert history[1..][n - 1..] == history[n..];
    }
  }

  /** Over any run too, if no reading was made of a clock in another state. */
  lemma {:induction false} RunOrdinaryUnchanged(history: seq<ClockMeasurement>, index: nat, ts: Timespec, now: Reading)
    requires IsOrdinary(now.state) && forall j :: 0 <= j < |history| ==> IsOrdinary(history[j].reading.state)
    ensures Corrected(ts, Reference(history, index, now)) == ts
    decreases |history|
  {
    hide Corrected;
    if history == [] {
      OrdinaryUnchanged(ts, now);
    } else {
      OrdinaryUnchanged(ts, history[0].reading);
      RunOrdinaryUnchanged(history[1..], index, ts, now);
    }
  }

  /** The reading recorded is the one supposed above, whether the kernel gives the clock in
      nanoseconds or in microseconds. */
  lemma KernelReading(leap: Leap, t: int)
    ensures var c, state := Clock(leap, t), ClockState(leap, t);
            && FromKernel(c / NS, c % NS, true, state) == ReadingAt(leap, t)
            && FromKernel(c / NS, c % NS / 1000, false, state) == ReadingAt(leap, t)
  {
  }

  class LeapSecondCorrector {
    var index: nat
    var clockStates: seq<ClockMeasurement>
    // Everything ever recorded, and how much of it has been discarded.
    ghost var history: seq<ClockMeasurement>
    ghost var discarded: nat

    ghost predicate Valid()
      reads this
    {
      && discarded <= |history|
      && clockStates == history[discarded..]
      && forall j :: 0 <= j < discarded ==> history[j].index < index
    }

    constructor ()
      ensures Valid() && index == 0 && history == []
    {
      index, clockStates := 0, [];
      history, discarded := [], 0;
    }

    /** Correct the next timestamp. The reading taken now is used only if nothing suitable
        has been recorded. */
    method Correct(ts: Timespec, now: Reading) returns (r: Timespec)
      requires Valid()
      modifies this
      ensures Valid() && index == old(index) + 1 && history == old(history)
      ensures r == Corrected(ts, Reference(history, index, now))
    {
      index := index + 1;
      while clockStates != [] && clockStates[0].index < index
        invariant discarded <= |history| && clockStates == history[discarded..]
        invariant forall j :: 0 <= j < discarded ==> history[j].index < index
        invariant index == old(index) + 1 && history == old(history)
        decreases |clockStates|
      {
        clockStates := clockStates[1..];
        discarded := discarded + 1;
      }
      ReferenceSkips(history, discarded, index, now);
      r := ts;
      var secondOfDay := TruncatedMod(ts.sec, DAY);
      if secondOfDay != LAST_SECOND && secondOfDay != FIRST_SECOND {
        return;
      }
      var ref := now;
      if clockStates != [] {
        ref := clockStates[0].reading;
      }
      if ref.state == TimeWait {
        if secondOfDay == LAST_SECOND {
          r := r.(nsec := r.nsec + LEAP_INDICATOR);
        }
      } else if ref.state == TimeOop {
        var usec := ts.nsec / 1000;
        if ts.sec > ref.sec || (ts.sec == ref.sec && usec > ref.usec) {
          if secondOfDay != LAST_SECOND {
            r := Timespec(r.sec - 1, r.nsec + LEAP_INDICATOR);
          }
        } else if secondOfDay == LAST_SECOND {
          r := r.(nsec := r.nsec + LEAP_INDICATOR);
        }
      } else if ref.state == TimeIns {
        if secondOfDay == FIRST_SECOND {
          r := Timespec(r.sec - 1, r.nsec + LEAP_INDICATOR);
        }
      }
    }

    /** Record the state of the clock, all timestamps below an index having been taken. */
    method RecordClockState(lowestUnused: nat, sec: int, fraction: int, nano: bool, state: State)
      requires Valid()
      modifies this
      ensures Valid() && index == old(index)
      ensures history == old(history) + [ClockMeasurement(lowestUnused, FromKernel(sec, fraction, nano, state))]
      ensures var r := history[|history| - 1].reading;
              && r.sec == sec && r.state == state
              && (fraction >= 0 ==> r.usec == if nano then fraction / 1000 else fraction)
    {
      var cs := ClockMeasurement(lowestUnused, FromKernel(sec, fraction, nano, state));
      clockStates := clockStates + [cs];
      history := history + [cs];
    }
  }

  /** The time at which each reading in a history was taken, in order. */
  ghost predicate TakenAt(leap: Leap, history: seq<ClockMeasurement>, times: seq<int>) {
    && |times| == |history|
    && (forall j :: 0 <= j < |history| ==> history[j].reading == ReadingAt(leap, times[j]))
    && (forall i, j :: 0 <= i < j < |times| ==> times[i] <= times[j])
  }

  /** When the reading used for a timestamp was taken. */
  ghost function ReferenceTime(history: seq<ClockMeasurement>, times: seq<int>, index: nat, now: int): int
    requires |times| == |history|
  {
    if history == [] then now
    else if history[0].index >= index then times[0]
    else ReferenceTime(history[1..], times[1..], index, now)
  }

  lemma {:induction false} ReferenceTaken(leap: Leap, history: seq<ClockMeasurement>, times: seq<int>,
                                          index: nat, now: int)
    requires TakenAt(leap, history, times)
    ensures Reference(history, index, ReadingAt(leap, now))
         == ReadingAt(leap, ReferenceTime(history, times, index, now))
    decreases |history|
  {
    hide ReadingAt;
    if history == [] {
    } else {
      ReferenceTaken(leap, history[1..], times[1..], index, now);
    }
  }

  /** It was taken no later than any other which could have been used, and it was one of those. */
  lemma {:induction false} ReferenceEarliest(leap: Leap, history: seq<ClockMeasurement>, times: seq<int>,
                                             index: nat, now: int)
    requires TakenAt(leap, history, times) && forall j :: 0 <= j < |times| ==> times[j] <= now
    ensures var u := ReferenceTime(history, times, index, now);
            && u <= now
            && (forall j :: 0 <= j < |history| && history[j].index >= index ==> u <= times[j])
            && (u == now || exists j :: 0 <= j < |history| && history[j].index >= index && times[j] == u)
    decreases |history|
  {
    hide ReadingAt;
    if history == [] {
    } else if history[0].index < index {
      ReferenceEarliest(leap, history[1..], times[1..], index, now);
      forall j | 0 <= j < |history| && history[j].index >= index
        ensures ReferenceTime(history, times, index, now) <= times[j]
      {
        assert history[1..][j - 1] == history[j] && times[1..][j - 1] == times[j];
      }
      var u := ReferenceTime(history, times, index, now);
      if u != now {
        var j :| 0 <= j < |history[1..]| && history[1..][j].index >= index && times[1..][j] == u;
        assert history[j + 1].index >= index && times[j + 1] == u;
      }
    }
  }

  /** Over any run, and with the reading used having been taken no earlier than the timestamp and
      at most a second later, the correction is right under the condition given above. */
  lemma RunCorrectsExactly(leap: Leap, history: seq<ClockMeasurement>, times: seq<int>, index: nat, t: int, now: int)
    requires ValidLeap(leap) && WithinHalfDay(leap, t) && TakenAt(leap, history, times)
    requires t <= ReferenceTime(history, times, index, now) <= t + NS
    ensures Corrected(ToTimespec(Clock(leap, t)), Reference(history, index, ReadingAt(leap, now))) == TrueTime(leap, t)
       <==> !SameMicrosecond(leap, t, ReferenceTime(history, times, index, now))
  {
    hide Corrected, ReadingAt, Clock, TrueTime, WithinHalfDay;
    ReferenceTaken(leap, history, times, index, now);
    CorrectionExact(leap, t, ReferenceTime(history, times, index, now));
  }

  /** In particular, if no reading was recorded against a timestamp taken after it, and one reading
      (or the one taken now) came at least a microsecond short of a second after the timestamp,
      then the correction is right, even if other readings in the queue came too late. */
  lemma RunRecoversTrueTime(leap: Leap, history: seq<ClockMeasurement>, times: seq<int>,
                            index: nat, t: int, now: int)
    requires ValidLeap(leap) && WithinHalfDay(leap, t) && TakenAt(leap, history, times)
    requires forall j :: 0 <= j < |history| && history[j].index >= index ==> t <= times[j]
    requires t <= now
    requires now <= t + NS - 1000 ||
             exists j :: 0 <= j < |history| && history[j].index >= index && times[j] <= t + NS - 1000
    requires forall j :: 0 <= j < |history| ==> times[j] <= now
    ensures Corrected(ToTimespec(Clock(leap, t)), Reference(history, index, ReadingAt(leap, now)))
         == TrueTime(leap, t)
  {
    hide Corrected, ReadingAt, Clock, TrueTime, WithinHalfDay, ReferenceTime;
    ReferenceEarliest(leap, history, times, index, now);
    ReferenceTaken(leap, history, times, index, now);
    CorrectionRecoversTrueTime(leap, t, ReferenceTime(history, times, index, now));
  }
}
