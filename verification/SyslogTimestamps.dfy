/** Which timestamps the syslog parser accepts, compared with section 4.1.2 of RFC 3164. */
module SyslogTimestamps {
  import opened Octets
  import opened Digits
  import opened Syslog

  const MONTHS: seq<string> :=
    ["Jan", "Feb", "Mar", "Apr", "May", "Jun", "Jul", "Aug", "Sep", "Oct", "Nov", "Dec"]

  /** A time without a year. */
  datatype Moment = Moment(month: nat, day: nat, hour: nat, minute: nat, second: nat)

  /** Thirty days have September, April, June and November; February may have 29. */
  function DaysIn(month: nat): nat {
    if month == 1 then 29 else if month == 8 || month == 3 || month == 5 || month == 10 then 30 else 31
  }

  lemma MonthLengths(month: nat)
    requires month < 12
    ensures MONTH_LENGTHS[month] == DaysIn(month)
  {
  }

  predicate IsMoment(m: Moment, lastHour: nat) {
    && m.month < 12 && 1 <= m.day <= DaysIn(m.month)
    && m.hour <= lastHour && m.minute <= 59 && m.second <= 59
  }

  /** A number in two digits. */
  function Two(n: nat): string
    requires n < 100
  {
    [DigitOf(n / 10), DigitOf(n % 10)]
  }

  /** The day of the month, with a space in front if it has one digit. */
  function DayText(n: nat): string
    requires n < 100
  {
    if n < 10 then [' ', DigitOf(n)] else Two(n)
  }

  /** A timestamp, after the name of the month. */
  function ClockText(m: Moment): (t: string)
    requires IsMoment(m, 59)
    ensures |t| == 12
  {
    " " + DayText(m.day) + " " + Two(m.hour) + ":" + Two(m.minute) + ":" + Two(m.second)
  }

  predicate IsTextOf(t: string, m: Moment) {
    IsMoment(m, 23) && t == MONTHS[m.month] + ClockText(m)
  }

  /** What RFC 3164 calls for. */
  ghost predicate IsTimestamp(t: string) {
    exists m :: IsTextOf(t, m)
  }

  /** What the parser takes to be the name of a month: its name, or with a NUL among the three
      characters, the beginning of its name but of no earlier month's. */
  predicate NamesMonth(name: string, month: nat)
    requires month < 12
  {
    && |name| == 3
    && CString(name) <= MONTHS[month]
    && forall k | 0 <= k < month :: !(CString(name) <= MONTHS[k])
  }

  // ---------------------------------------------------------------------------
  // Months
  // ---------------------------------------------------------------------------

  lemma {:induction false} StrStrMeans(haystack: string, needle: string)
    ensures match StrStr(haystack, needle)
            case None => forall k | 0 <= k <= |haystack| :: !(needle <= haystack[k..])
            case Some(n) => needle <= haystack[n..] && forall k | 0 <= k < n :: !(needle <= haystack[k..])
  {
    if needle <= haystack {
      assert haystack[0..] == haystack;
    } else if haystack == [] {
    } else {
      StrStrMeans(haystack[1..], needle);
      forall k | 1 <= k <= |haystack|
        ensures haystack[1..][k - 1..] == haystack[k..]
      {
      }
      assert haystack[0..] == haystack;
    }
  }

  lemma MonthLetters(m: nat)
    requires m < 12
    ensures |MONTH_NAMES| == 36
    ensures MONTHS[m] == [MONTH_NAMES[3 * m], MONTH_NAMES[3 * m + 1], MONTH_NAMES[3 * m + 2]]
  {
    if m < 6 {
      EarlyMonthLetters(m);
    } else {
      LateMonthLetters(m);
    }
  }

  lemma EarlyMonthLetters(m: nat)
    requires m < 6
    ensures MONTHS[m] == [MONTH_NAMES[3 * m], MONTH_NAMES[3 * m + 1], MONTH_NAMES[3 * m + 2]]
  {
  }

  lemma LateMonthLetters(m: nat)
    requires 6 <= m < 12
    ensures MONTHS[m] == [MONTH_NAMES[3 * m], MONTH_NAMES[3 * m + 1], MONTH_NAMES[3 * m + 2]]
  {
  }

  /** Only the first letters of the months are capitals. */
  lemma MonthCapitals(m: nat)
    requires m < 12
    ensures |MONTH_NAMES| == 36 && MONTH_NAMES[3 * m] <= 'Z'
    ensures MONTH_NAMES[3 * m + 1] > 'Z' && MONTH_NAMES[3 * m + 2] > 'Z'
  {
  }

  lemma ThreeOf(s: string, i: nat)
    requires i + 3 <= |s|
    ensures s[i..i + 3] == [s[i], s[i + 1], s[i + 2]]
  {
  }

  /** Names of three letters run together, of which only the first letters are capitals. */
  ghost predicate IsTable(table: string, months: seq<string>) {
    && |table| == 3 * |months|
    && forall m: nat | m < |months| ::
         && |months[m]| == 3 && months[m] == table[3 * m..3 * m + 3]
         && table[3 * m] <= 'Z' && table[3 * m + 1] > 'Z' && table[3 * m + 2] > 'Z'
  }

  lemma MonthsTabulated()
    ensures |MONTHS| == 12 && IsTable(MONTH_NAMES, MONTHS)
  {
    forall m: nat | m < 12
      ensures |MONTHS[m]| == 3 && MONTHS[m] == MONTH_NAMES[3 * m..3 * m + 3]
      ensures MONTH_NAMES[3 * m] <= 'Z' && MONTH_NAMES[3 * m + 1] > 'Z' && MONTH_NAMES[3 * m + 2] > 'Z'
    {
      MonthLetters(m);
      MonthCapitals(m);
      hide MONTHS, MONTH_NAMES;
      ThreeOf(MONTH_NAMES, 3 * m);
    }
  }

  /** Up to three characters begin a month's name if they are found where that starts. */
  lemma MonthAt(table: string, months: seq<string>, p: string, m: nat)
    requires IsTable(table, months) && m < |months| && |p| <= 3
    ensures p <= table[3 * m..] <==> p <= months[m]
  {
    assert table[3 * m..][..3] == months[m];
    assert p <= table[3 * m..] <==> p == table[3 * m..][..|p|];
    assert table[3 * m..][..|p|] == months[m][..|p|];
  }

  /** Nothing which begins a month's name is found anywhere but where a month starts. */
  lemma OnlyAtMonths(table: string, months: seq<string>, p: string, m: nat, k: nat)
    requires IsTable(table, months) && m < |months| && p != [] && p <= months[m] && k < |table| && k % 3 != 0
    ensures !(p <= table[k..])
  {
    assert p[0] == months[m][0] == table[3 * m];
    assert table[3 * (k / 3)] <= 'Z';
    assert k == 3 * (k / 3) + 1 || k == 3 * (k / 3) + 2;
    assert table[k..][0] == table[k];
  }

  lemma {:induction false} CStringMeans(t: string)
    ensures CString(t) <= t
    ensures CString(t) == t <==> '\0' !in t
  {
    if t == [] {
    } else if t[0] != '\0' {
      CStringMeans(t[1..]);
      assert t == [t[0]] + t[1..];
    }
  }

  /** The table is searched for the first place at which a name is found: that is where a month
      starts, and its number is the month's, exactly if the name begins that month and no earlier. */
  lemma FoundAt(table: string, months: seq<string>, p: string, month: nat)
    requires IsTable(table, months) && month < |months| && |p| <= 3
    ensures StrStr(table, p) == Some(3 * month) <==>
              p <= months[month] && forall k | 0 <= k < month :: !(p <= months[k])
  {
    hide StrStr;
    StrStrMeans(table, p);
    forall k: nat | k < |months|
      ensures p <= table[3 * k..] <==> p <= months[k]
    {
      hide IsTable;
      MonthAt(table, months, p, k);
    }
    if p <= months[month] && forall k | 0 <= k < month :: !(p <= months[k]) {
      var n := StrStr(table, p).value;
      if p == [] {
        assert month == 0;
      } else if n % 3 != 0 {
        OnlyAtMonths(table, months, p, month, n);
      } else {
        assert n == 3 * (n / 3);
      }
    }
  }

  lemma MonthOfMeans(name: string, month: nat)
    requires |name| == 3 && month < 12
    ensures MonthOf(name) == Some(month) <==> NamesMonth(name, month)
  {
    hide MONTHS, MONTH_NAMES, StrStr, CString, IsTable;
    MonthsTabulated();
    CStringMeans(name);
    FoundAt(MONTH_NAMES, MONTHS, CString(name), month);
  }

  // ---------------------------------------------------------------------------
  // Numbers
  // ---------------------------------------------------------------------------

  function PairValue(a: char, b: char): nat
    requires IsDigit(a) && IsDigit(b)
  {
    10 * DigitValue(a) + DigitValue(b)
  }

  lemma PairIs(a: char, b: char)
    requires IsDigit(a) && IsDigit(b)
    ensures AllDigits([a, b]) && ValueOf([a, b]) == PairValue(a, b) && ValueOf([b]) == DigitValue(b)
  {
    assert ValueOf([]) == 0;
    ValueMore([], a);
    ValueMore([], b);
    ValueMore([a], b);
    assert [] + [a] == [a] && [] + [b] == [b] && [a] + [b] == [a, b];
  }

  lemma DigitsAtStart(t: string)
    requires |t| >= 2
    ensures DigitCount(t, 2) == if !IsDigit(t[0]) then 0 else if !IsDigit(t[1]) then 1 else 2
    ensures DigitCount(t[1..], 1) == if !IsDigit(t[1]) then 0 else 1
    ensures Spaces(t, 2) == if t[0] != ' ' then 0 else if t[1] != ' ' then 1 else 2
  {
    assert t[1..][0] == t[1];
    assert Spaces(t[1..], 1) == if t[1] != ' ' then 0 else 1;
  }

  /** Two digits. */
  lemma TwoMeans(t: string, hi: nat)
    requires |t| >= 2
    ensures IsTwo(t, false, 0, hi) <==> IsDigit(t[0]) && IsDigit(t[1]) && PairValue(t[0], t[1]) <= hi
  {
    hide ValueOf, DigitCount, Spaces;
    DigitsAtStart(t);
    assert t[0..] == t && t[..2] == [t[0], t[1]];
    if IsDigit(t[0]) && IsDigit(t[1]) {
      PairIs(t[0], t[1]);
    }
  }

  /** Two digits, the first not a zero, or a space and one digit. */
  lemma DayMeans(t: string, hi: nat)
    requires |t| >= 2
    ensures IsTwo(t, true, 1, hi) <==>
              IsDigit(t[1]) && if t[0] == ' ' then 1 <= DigitValue(t[1]) <= hi
                               else IsDigit(t[0]) && t[0] != '0' && 1 <= PairValue(t[0], t[1]) <= hi
  {
    hide ValueOf, DigitCount, Spaces, AllDigits;
    DigitsAtStart(t);
    if t[0] == ' ' {
      if IsDigit(t[1]) {
        PairIs(t[1], t[1]);
        assert t[1..][..1] == [t[1]];
      }
      assert |t[2..]| == |t| - 2;
    } else {
      assert t[0..] == t && t[..2] == [t[0], t[1]];
      if IsDigit(t[0]) && IsDigit(t[1]) {
        PairIs(t[0], t[1]);
        if t[0] == '0' {
          ZeroFirst(t[1]);
        }
      }
    }
  }

  lemma ZeroFirst(b: char)
    requires IsDigit(b)
    ensures PairValue('0', b) == DigitValue(b) && (DigitValue(b) == 0 <==> b == '0')
  {
  }

  lemma TwoOfPair(a: char, b: char)
    requires IsDigit(a) && IsDigit(b)
    ensures PairValue(a, b) < 100 && Two(PairValue(a, b)) == [a, b]
  {
    var v := PairValue(a, b);
    assert v / 10 == DigitValue(a) && v % 10 == DigitValue(b);
  }

  lemma PairOfTwo(n: nat)
    requires n < 100
    ensures IsDigit(Two(n)[0]) && IsDigit(Two(n)[1]) && PairValue(Two(n)[0], Two(n)[1]) == n
  {
  }

  /** The text after the month, character by character. */
  predicate ClockShape(t: string, days: nat)
    requires |t| >= 12
  {
    && t[0] == ' ' && t[3] == ' ' && t[6] == ':' && t[9] == ':' && IsDigit(t[2])
    && (if t[1] == ' ' then 1 <= DigitValue(t[2]) <= days
        else IsDigit(t[1]) && t[1] != '0' && 1 <= PairValue(t[1], t[2]) <= days)
    && IsDigit(t[4]) && IsDigit(t[5]) && PairValue(t[4], t[5]) <= 59
    && IsDigit(t[7]) && IsDigit(t[8]) && PairValue(t[7], t[8]) <= 59
    && IsDigit(t[10]) && IsDigit(t[11]) && PairValue(t[10], t[11]) <= 59
  }

  lemma ClockShapeMeans(t: string, days: nat)
    requires |t| >= 12
    ensures IsClock(t, days) <==> ClockShape(t, days)
  {
    hide IsTwo;
    DayMeans(t[1..], days);
    TwoMeans(t[4..], 59);
    TwoMeans(t[7..], 59);
    TwoMeans(t[10..], 59);
  }

  lemma ClockSound(t: string, month: nat) returns (m: Moment)
    requires |t| == 12 && month < 12 && ClockShape(t, MONTH_LENGTHS[month])
    ensures IsMoment(m, 59) && m.month == month && m.hour == PairValue(t[4], t[5]) && t == ClockText(m)
  {
    hide Two, PairValue;
    var day := if t[1] == ' ' then DigitValue(t[2]) else PairValue(t[1], t[2]);
    m := Moment(month, day, PairValue(t[4], t[5]), PairValue(t[7], t[8]), PairValue(t[10], t[11]));
    DaySound(t[1], t[2], day);
    TwoOfPair(t[4], t[5]);
    TwoOfPair(t[7], t[8]);
    TwoOfPair(t[10], t[11]);
    hide DayText;
    assert t == [t[0], t[1], t[2], t[3], t[4], t[5], t[6], t[7], t[8], t[9], t[10], t[11]];
  }

  lemma DaySound(a: char, b: char, day: nat)
    requires IsDigit(b) && (a == ' ' || (IsDigit(a) && a != '0'))
    requires day == if a == ' ' then DigitValue(b) else PairValue(a, b)
    ensures day < 100 && DayText(day) == [a, b]
  {
    if a != ' ' {
      TwoOfPair(a, b);
    }
  }

  lemma ClockComplete(m: Moment)
    requires IsMoment(m, 59)
    ensures ClockShape(ClockText(m), MONTH_LENGTHS[m.month])
    ensures PairValue(ClockText(m)[4], ClockText(m)[5]) == m.hour
  {
    LongestMonth(m.month);
    ClockLetters(m);
    DayComplete(m.day, MONTH_LENGTHS[m.month]);
    PairOfTwo(m.hour);
    PairOfTwo(m.minute);
    PairOfTwo(m.second);
    hide Two, PairValue, DayText, ClockText, IsMoment;
  }

  lemma LongestMonth(month: nat)
    requires month < 12
    ensures MONTH_LENGTHS[month] <= 31
  {
  }

  lemma ClockLetters(m: Moment)
    requires IsMoment(m, 59)
    ensures m.day < 100 && |DayText(m.day)| == 2
    ensures var t := ClockText(m);
            && t[0] == ' ' && t[1] == DayText(m.day)[0] && t[2] == DayText(m.day)[1] && t[3] == ' '
            && t[4] == Two(m.hour)[0] && t[5] == Two(m.hour)[1] && t[6] == ':'
            && t[7] == Two(m.minute)[0] && t[8] == Two(m.minute)[1] && t[9] == ':'
            && t[10] == Two(m.second)[0] && t[11] == Two(m.second)[1]
  {
  }

  lemma DayComplete(day: nat, days: nat)
    requires 1 <= day <= days <= 31
    ensures var a, b := DayText(day)[0], DayText(day)[1];
            && IsDigit(b)
            && if a == ' ' then DigitValue(b) == day else IsDigit(a) && a != '0' && PairValue(a, b) == day
  {
    if day >= 10 {
      PairOfTwo(day);
      assert DigitValue(Two(day)[0]) >= 1;
    }
  }

  // ---------------------------------------------------------------------------
  // Timestamps
  // ---------------------------------------------------------------------------

  /** The form called for, but with an hour of up to 59, and with the name of the month perhaps cut
      short by a NUL. */
  ghost predicate States(t: string, m: Moment)
    requires |t| >= 15
  {
    IsMoment(m, 59) && NamesMonth(t[..3], m.month) && t[3..15] == ClockText(m)
  }

  /** What the parser accepts. A space or the end of the message must follow. */
  lemma TimestampExact(t: string)
    ensures ReadTimestamp(t).Some? <==>
              |t| >= 15 && (|t| == 15 || t[15] == ' ') && exists m :: States(t, m)
  {
    hide IsClock, ClockShape, MonthOf, ClockText, NamesMonth, IsMoment;
    if |t| >= 15 && exists m :: States(t, m) {
      var m :| States(t, m);
      MomentMonth(m);
      MonthOfMeans(t[..3], m.month);
      ClockComplete(m);
      ClockPrefix(t, MONTH_LENGTHS[m.month]);
    }
    if ReadTimestamp(t).Some? {
      var month := MonthOf(t[..3]).value;
      MonthOfMeans(t[..3], month);
      ClockPrefix(t, MONTH_LENGTHS[month]);
      var m := ClockSound(t[3..15], month);
      assert States(t, m);
    }
  }

  lemma MomentMonth(m: Moment)
    requires IsMoment(m, 59)
    ensures m.month < 12
  {
  }

  lemma ClockPrefix(t: string, days: nat)
    requires |t| >= 15
    ensures IsClock(t[3..], days) <==> ClockShape(t[3..15], days)
  {
    ClockShapeMeans(t[3..], days);
    assert forall i | 0 <= i < 12 :: t[3..][i] == t[3..15][i];
    hide IsClock, PairValue;
  }

  /** An hour which no day has. */
  predicate HasLateHour(t: string)
    requires |t| >= 15
  {
    IsDigit(t[7]) && IsDigit(t[8]) && PairValue(t[7], t[8]) > 23
  }

  lemma EarlyHour(m: Moment)
    requires IsMoment(m, 59) && m.hour <= 23
    ensures IsMoment(m, 23)
  {
  }

  lemma AnyHour(m: Moment)
    requires IsMoment(m, 23)
    ensures IsMoment(m, 59) && m.hour <= 23
  {
  }

  lemma NameLength(month: nat)
    requires month < 12
    ensures |MONTHS[month]| == 3
  {
  }

  /** Without a NUL, only the name itself will do. */
  lemma WholeName(name: string, month: nat)
    requires month < 12 && NamesMonth(name, month) && '\0' !in name
    ensures name == MONTHS[month]
  {
    hide CString;
    CStringMeans(name);
    NameLength(month);
    hide MONTHS;
  }

  lemma DistinctMonths(j: nat, k: nat)
    requires j < k < 12
    ensures MONTHS[j] != MONTHS[k]
  {
  }

  lemma NoNulInMonths(month: nat)
    requires month < 12
    ensures '\0' !in MONTHS[month]
  {
  }

  lemma NameIsName(month: nat)
    requires month < 12
    ensures NamesMonth(MONTHS[month], month) && '\0' !in MONTHS[month]
  {
    assert |MONTHS| == 12;
    hide MONTHS, CString;
    NameLength(month);
    NoNulInMonths(month);
    CStringMeans(MONTHS[month]);
    forall k | 0 <= k < month
      ensures !(MONTHS[month] <= MONTHS[k])
    {
      NameLength(k);
      DistinctMonths(k, month);
    }
  }

  /** The parser meets RFC 3164 except for those two: a text is accepted, and has neither an hour
      after 23 nor a NUL in the name of the month, exactly if it is a timestamp as called for,
      with a space or the end of the message after it. */
  lemma MeetsRfc3164(t: string)
    ensures |t| >= 15 && ReadTimestamp(t).Some? && !HasLateHour(t) && '\0' !in t[..3] <==>
              |t| >= 15 && IsTimestamp(t[..15]) && (|t| == 15 || t[15] == ' ')
  {
    TimestampExact(t);
    if |t| >= 15 {
      LongMeetsRfc3164(t);
    }
  }

  lemma LongMeetsRfc3164(t: string)
    requires |t| >= 15
    ensures ReadTimestamp(t).Some? && !HasLateHour(t) && '\0' !in t[..3] <==>
              IsTimestamp(t[..15]) && (|t| == 15 || t[15] == ' ')
  {
    TimestampExact(t);
    hide ReadTimestamp, ClockText, NamesMonth, IsMoment, PairValue;
    assert t[..15] == t[..3] + t[3..15];
    assert t[7] == t[3..15][4] && t[8] == t[3..15][5];
    if ReadTimestamp(t).Some? && !HasLateHour(t) && '\0' !in t[..3] {
      var m :| States(t, m);
      ClockComplete(m);
      EarlyHour(m);
      WholeName(t[..3], m.month);
      assert IsTextOf(t[..15], m);
    }
    if IsTimestamp(t[..15]) {
      var m :| IsTextOf(t[..15], m);
      AnyHour(m);
      ClockComplete(m);
      NameLength(m.month);
      assert t[..3] == MONTHS[m.month] && t[3..15] == ClockText(m);
      NameIsName(m.month);
      assert States(t, m);
    }
  }

  /** Each of the two exceptions is accepted, in every month and at every time. */
  lemma Accepted(name: string, m: Moment)
    requires IsMoment(m, 59) && NamesMonth(name, m.month)
    ensures ReadTimestamp(name + ClockText(m)).Some?
    ensures IsTimestamp(name + ClockText(m)) <==> m.hour <= 23 && '\0' !in name
  {
    var t := name + ClockText(m);
    assert t[..15] == t && t[..3] == name && t[3..15] == ClockText(m);
    assert t[7] == ClockText(m)[4] && t[8] == ClockText(m)[5];
    ClockComplete(m);
    hide ReadTimestamp, IsTimestamp, NamesMonth, ClockText, IsMoment, PairValue;
    assert States(t, m);
    TimestampExact(t);
    MeetsRfc3164(t);
  }

  /** An hour which no day has, accepted. */
  lemma LateHourAccepted()
    ensures ReadTimestamp("Jan  1 45:00:00").Some? && !IsTimestamp("Jan  1 45:00:00")
  {
    hide ReadTimestamp, IsTimestamp, NamesMonth, ClockText;
    var m := Moment(0, 1, 45, 0, 0);
    NameIsName(0);
    ClockSample(m, 45, "45");
    assert MONTHS[0] == "Jan";
    hide MONTHS;
    Accepted("Jan", m);
    assert "Jan" + ("  1 " + "45" + ":00:00") == "Jan  1 45:00:00";
  }

  lemma ClockSample(m: Moment, hour: nat, text: string)
    requires hour < 60 && m == Moment(0, 1, hour, 0, 0) && Two(hour) == text
    ensures IsMoment(m, 59) && ClockText(m) == "  1 " + text + ":00:00"
  {
    assert Two(0) == "00" && DayText(1) == " 1";
    hide Two, DayText;
  }

  /** The name of a month cut short by a NUL, accepted. */
  lemma CutNameAccepted()
    ensures ReadTimestamp("J\0x  1 00:00:00").Some? && !IsTimestamp("J\0x  1 00:00:00")
  {
    hide ReadTimestamp, IsTimestamp, NamesMonth, ClockText;
    var m := Moment(0, 1, 0, 0, 0);
    CutName("J\0x");
    ClockSample(m, 0, "00");
    Accepted("J\0x", m);
    assert "J\0x" + ("  1 " + "00" + ":00:00") == "J\0x  1 00:00:00";
  }

  lemma CutName(name: string)
    requires name == "J\0x"
    ensures NamesMonth(name, 0) && '\0' in name
  {
    assert name[1..][0] == '\0' == name[1];
    assert CString(name[1..]) == "";
    assert CString(name) == "J";
    assert MONTHS[0] == "Jan";
  }
}
