/** Weekly time windows: the extension's test, the week arithmetic it stands for, and the editor. */
module TimeWindows {
  import opened Basics

  const DAY_CODES: seq<string> := ["SU", "MO", "TU", "WE", "TH", "FR", "SA"]
  const EDITOR_DAYS: seq<string> := ["MO", "TU", "WE", "TH", "FR", "SA", "SU"]
  const RRULE_PREFIX := "FREQ=WEEKLY;BYDAY="
  const DAY := 1440
  const WEEK := 10080

  type DayCode = d: string | d in DAY_CODES witness "SU"
  type DayNumber = d: nat | d < 7
  type Minute = m: nat | m < 1440

  /** A wall-clock text `HH:MM`, the only form the validators let through. */
  predicate ValidTime(s: string) {
    && |s| == 5 && s[2] == ':'
    && IsDigit(s[0]) && IsDigit(s[1]) && IsDigit(s[3]) && IsDigit(s[4])
    && (s[0] < '2' || (s[0] == '2' && s[1] <= '3'))
    && s[3] <= '5'
  }

  type LocalTime = s: string | ValidTime(s) witness "00:00"

  datatype Window = Window(start: LocalTime, end: LocalTime, rrule: string)
  datatype Schedule = Schedule(timezone: string, windows: seq<Window>)

  /** Local weekday and minute of the day in one time zone. */
  datatype Local = Local(day: DayCode, minutes: Minute)

  function DigitValue(c: char): nat
    requires IsDigit(c)
  {
    (c as int) - ('0' as int)
  }

  function MinuteValue(t: LocalTime): (m: nat)
    ensures m < DAY
  {
    (DigitValue(t[0]) * 10 + DigitValue(t[1])) * 60 + DigitValue(t[3]) * 10 + DigitValue(t[4])
  }

  function DayIndex(day: DayCode): (d: DayNumber)
    ensures DAY_CODES[d] == day
  {
    if day == "SU" then 0 else if day == "MO" then 1 else if day == "TU" then 2
    else if day == "WE" then 3 else if day == "TH" then 4 else if day == "FR" then 5 else 6
  }

  function PreviousDay(day: DayCode): DayCode {
    DAY_CODES[(DayIndex(day) + 6) % 7]
  }

  /** The day codes of a recurrence text: what follows the fixed prefix, split at commas. */
  function WindowDays(rrule: string): seq<string> {
    SplitOn(if |rrule| >= |RRULE_PREFIX| then rrule[|RRULE_PREFIX|..] else "", ',')
  }

  predicate WindowIsActive(w: Window, local: Local) {
    var days := WindowDays(w.rrule);
    var start := MinuteValue(w.start);
    var end := MinuteValue(w.end);
    if end > start then
      local.day in days && local.minutes >= start && local.minutes < end
    else
      || (local.day in days && local.minutes >= start)
      || (PreviousDay(local.day) in days && local.minutes < end)
  }

  // ---- What a window means: intervals on the circle of 10080 week minutes ----

  function Duration(w: Window): (d: nat)
    ensures 1 <= d <= DAY
  {
    var start := MinuteValue(w.start);
    var end := MinuteValue(w.end);
    if end > start then end - start else end - start + DAY
  }

  function WeekMinute(local: Local): (t: nat)
    ensures t < WEEK
  {
    DayIndex(local.day) * DAY + local.minutes
  }

  /** The occurrence starting on day `d` covers week minute `t`, counted modulo one week. */
  predicate OccurrenceCovers(w: Window, d: DayNumber, t: int) {
    (t - (d * DAY + MinuteValue(w.start))) % WEEK < Duration(w)
  }

  predicate Listed(w: Window, d: DayNumber) {
    DAY_CODES[d] in WindowDays(w.rrule)
  }

  predicate InWeekIntervals(w: Window, t: int) {
    exists d: DayNumber :: Listed(w, d) && OccurrenceCovers(w, d, t)
  }

  lemma OccurrenceOnOneDay(w: Window, d: DayNumber, today: DayNumber, m: Minute)
    ensures OccurrenceCovers(w, d, today * DAY + m) <==>
            var start, end := MinuteValue(w.start), MinuteValue(w.end);
            if end > start then d == today && start <= m < end
            else (d == today && start <= m) || (d == (today + 6) % 7 && m < end)
  {
    var start, end := MinuteValue(w.start), MinuteValue(w.end);
    var gap := (today - d) * DAY + m - start;
    assert today * DAY + m - (d * DAY + start) == gap;
    if gap < 0 {
      assert gap % WEEK == gap + WEEK;
    } else {
      assert gap % WEEK == gap;
    }
  }

  lemma DayIndexInjective(i: DayNumber, j: DayNumber)
    requires DAY_CODES[i] == DAY_CODES[j]
    ensures i == j
  {
  }

  /** The two-branch test of the extension is membership in the modular week intervals. */
  lemma WindowMeansWeekIntervals(w: Window, local: Local)
    ensures WindowIsActive(w, local) <==> InWeekIntervals(w, WeekMinute(local))
  {
    hide OccurrenceCovers, WindowDays, MinuteValue;
    var today := DayIndex(local.day);
    var yesterday := DayIndex(PreviousDay(local.day));
    assert DAY_CODES[yesterday] == DAY_CODES[(today as int + 6) % 7];
    forall d: DayNumber | OccurrenceCovers(w, d, WeekMinute(local))
      ensures d == today || d == yesterday
    {
      OccurrenceOnOneDay(w, d, today, local.minutes);
    }
    OccurrenceOnOneDay(w, today, today, local.minutes);
    OccurrenceOnOneDay(w, yesterday, today, local.minutes);
    if WindowIsActive(w, local) {
      if local.day in WindowDays(w.rrule) && OccurrenceCovers(w, today, WeekMinute(local)) {
        assert Listed(w, today);
      } else {
        assert Listed(w, yesterday) && OccurrenceCovers(w, yesterday, WeekMinute(local));
      }
    }
    if InWeekIntervals(w, WeekMinute(local)) {
      var d: DayNumber :| Listed(w, d) && OccurrenceCovers(w, d, WeekMinute(local));
      assert d == today || d == yesterday;
    }
  }

  // ---- How long a window is active per week ----

  function ListedDays(w: Window): set<DayNumber> {
    set d: DayNumber | d < 7 && Listed(w, d)
  }

  predicate OnArc(from: nat, length: nat, t: int) {
    (t - from) % WEEK < length
  }

  function ArcMinutes(from: nat, length: nat): set<nat> {
    set t: nat | t < WEEK && OnArc(from, length, t)
  }

  predicate CoveredOn(w: Window, days: set<DayNumber>, t: int) {
    exists d :: d in days && OccurrenceCovers(w, d, t)
  }

  function CoveredBy(w: Window, days: set<DayNumber>): set<nat> {
    set t: nat | t < WEEK && CoveredOn(w, days, t)
  }

  function ActiveMinutes(w: Window): set<nat> {
    set t: nat | t < WEEK && InWeekIntervals(w, t)
  }

  lemma ArcGrows(from: nat, length: nat, t: nat)
    requires from < WEEK && 0 < length <= WEEK && t < WEEK
    ensures OnArc(from, length, t) <==> OnArc(from, length - 1, t) || t == (from + length - 1) % WEEK
  {
    var gap := (t - from) % WEEK;
    assert gap == if t >= from then t - from else t - from + WEEK;
    var end := from + length - 1;
    assert end % WEEK == if end < WEEK then end else end - WEEK;
  }

  /** The last minute of an arc is not on the arc that is one minute shorter. */
  lemma ArcEnd(from: nat, length: nat)
    requires from < WEEK && 0 < length <= WEEK
    ensures !OnArc(from, length - 1, (from + length - 1) % WEEK)
  {
    var end := from + length - 1;
    var last := end % WEEK;
    assert last == if end < WEEK then end else end - WEEK;
    assert (last - from) % WEEK == length - 1;
  }

  lemma {:induction false} ArcSize(from: nat, length: nat)
    requires from < WEEK && length <= WEEK
    ensures |ArcMinutes(from, length)| == length
  {
    if length == 0 {
      assert ArcMinutes(from, 0) == {};
    } else {
      ArcSize(from, length - 1);
      var last: nat := (from + length - 1) % WEEK;
      forall t: nat | t < WEEK
        ensures OnArc(from, length, t) <==> OnArc(from, length - 1, t) || t == last
      {
        ArcGrows(from, length, t);
      }
      assert ArcMinutes(from, length) == ArcMinutes(from, length - 1) + {last};
      ArcEnd(from, length);
    }
  }

  lemma OccurrencesDisjoint(w: Window, d: DayNumber, e: DayNumber, t: nat)
    requires t < WEEK && OccurrenceCovers(w, d, t) && OccurrenceCovers(w, e, t)
    ensures d == e
  {
    var today: DayNumber := t / DAY;
    var m: Minute := t % DAY;
    assert t == today * DAY + m;
    OccurrenceOnOneDay(w, d, today, m);
    OccurrenceOnOneDay(w, e, today, m);
  }

  /** Adding one day adds exactly its own arc, which no other listed day touches. */
  lemma CoveredGrows(w: Window, d: DayNumber, rest: set<DayNumber>)
    requires d !in rest
    ensures CoveredBy(w, rest + {d}) == CoveredBy(w, rest) + ArcMinutes(d * DAY + MinuteValue(w.start), Duration(w))
    ensures CoveredBy(w, rest) !! ArcMinutes(d * DAY + MinuteValue(w.start), Duration(w))
  {
    var from := d * DAY + MinuteValue(w.start);
    forall t: nat | t < WEEK
      ensures CoveredOn(w, rest + {d}, t) <==> CoveredOn(w, rest, t) || OnArc(from, Duration(w), t)
      ensures !(CoveredOn(w, rest, t) && OnArc(from, Duration(w), t))
    {
      assert OnArc(from, Duration(w), t) <==> OccurrenceCovers(w, d, t);
      if CoveredOn(w, rest + {d}, t) {
        var e :| e in rest + {d} && OccurrenceCovers(w, e, t);
      }
      if CoveredOn(w, rest, t) {
        var e :| e in rest && OccurrenceCovers(w, e, t);
        assert e in rest + {d};
        if OccurrenceCovers(w, d, t) { OccurrencesDisjoint(w, d, e, t); }
      }
      if OccurrenceCovers(w, d, t) { assert d in rest + {d}; }
    }
  }

  lemma CoveredGrowsBy(w: Window, d: DayNumber, rest: set<DayNumber>)
    requires d !in rest
    ensures |CoveredBy(w, rest + {d})| == |CoveredBy(w, rest)| + Duration(w)
  {
    var arc := ArcMinutes(d * DAY + MinuteValue(w.start), Duration(w));
    assert |arc| == Duration(w) by {
      ArcSize(d * DAY + MinuteValue(w.start), Duration(w));
    }
    assert CoveredBy(w, rest + {d}) == CoveredBy(w, rest) + arc && CoveredBy(w, rest) !! arc by {
      CoveredGrows(w, d, rest);
    }
    DisjointSize(CoveredBy(w, rest), arc);
  }

  lemma DisjointSize(a: set<nat>, b: set<nat>)
    requires a !! b
    ensures |a + b| == |a| + |b|
  {
  }

  lemma {:induction false} CoveredSize(w: Window, days: set<DayNumber>, duration: nat)
    requires duration == Duration(w)
    ensures |CoveredBy(w, days)| == |days| * duration
    decreases |days|
  {
    if days == {} {
      assert CoveredBy(w, days) == {};
    } else {
      var d :| d in days;
      var rest := days - {d};
      assert days == rest + {d} && |days| == |rest| + 1;
      CoveredSize(w, rest, duration);
      CoveredGrowsBy(w, d, rest);
      Distribute(|rest|, duration);
    }
  }

  lemma Distribute(k: nat, d: nat)
    ensures (k + 1) * d == k * d + d
  {
  }

  /** A window listing k distinct days is active for exactly k times its duration every week. */
  lemma ActiveTimePerWeek(w: Window)
    ensures |ActiveMinutes(w)| == |ListedDays(w)| * Duration(w)
  {
    forall t: nat | t < WEEK
      ensures t in CoveredBy(w, ListedDays(w)) <==> InWeekIntervals(w, t)
    {
      if InWeekIntervals(w, t) {
        var d: DayNumber :| Listed(w, d) && OccurrenceCovers(w, d, t);
        assert d in ListedDays(w);
      }
    }
    assert ActiveMinutes(w) == CoveredBy(w, ListedDays(w));
    CoveredSize(w, ListedDays(w), Duration(w));
  }
}
