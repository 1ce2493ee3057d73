/** The options page's schedule model: drafts to windows and recurrence texts back to days. */
module ScheduleEditor {
  import opened Basics
  import opened TimeWindows

  datatype Draft = Draft(days: seq<string>, start: string, end: string)

  datatype EditorError =
    | UnsupportedRule
    | BadDays
    | MissingTimezone
    | NoDaySelected(index: nat)
    | UnknownDay(index: nat)
    | BadTime(index: nat)
    | DuplicateWindow

  function ParseRrule(rrule: string): Result<set<string>, EditorError> {
    if !StartsWith(rrule, RRULE_PREFIX) then Err(UnsupportedRule)
    else
      var days := SplitOn(rrule[|RRULE_PREFIX|..], ',');
      if (exists i :: 0 <= i < |days| && days[i] !in EDITOR_DAYS) || |SetOf(days)| != |days| then Err(BadDays)
      else Ok(SetOf(days))
  }

  /** The selected days in the editor's order; anything else is dropped. */
  function DaysInOrder(selected: set<string>, order: seq<string>): (days: seq<string>)
    ensures forall d :: d in days <==> d in order && d in selected
    ensures |days| <= |order|
  {
    if order == [] then []
    else (if order[0] in selected then [order[0]] else []) + DaysInOrder(selected, order[1..])
  }

  function WindowFromDraft(draft: Draft, index: nat): Result<Window, EditorError> {
    var selected := SetOf(draft.days);
    var days := DaysInOrder(selected, EDITOR_DAYS);
    if days == [] then Err(NoDaySelected(index))
    else if |selected| != |days| then Err(UnknownDay(index))
    else if !ValidTime(draft.start) || !ValidTime(draft.end) then Err(BadTime(index))
    else Ok(Window(draft.start, draft.end, RRULE_PREFIX + Join(days, ",")))
  }

  /** The windows of `drafts[from..]`, or the error of the first draft that has one. */
  function WindowsFromDrafts(drafts: seq<Draft>, from: nat): Result<seq<Window>, EditorError>
    requires from <= |drafts|
    decreases |drafts| - from
  {
    if from == |drafts| then Ok([])
    else
      match WindowFromDraft(drafts[from], from)
      case Err(e) => Err(e)
      case Ok(w) =>
        match WindowsFromDrafts(drafts, from + 1)
        case Err(e) => Err(e)
        case Ok(ws) => Ok([w] + ws)
  }

  /** What `trim` removes: ECMAScript's white space and line terminators. */
  predicate IsBlank(c: char) {
    || c == ' ' || '\t' <= c <= '\r' || c == '\U{A0}' || c == '\U{1680}' || '\U{2000}' <= c <= '\U{200A}'
    || c == '\U{2028}' || c == '\U{2029}' || c == '\U{202F}' || c == '\U{205F}' || c == '\U{3000}' || c == '\U{FEFF}'
  }

  function TrimStart(s: string): string {
    if s != "" && IsBlank(s[0]) then TrimStart(s[1..]) else s
  }

  function TrimEnd(s: string): string {
    if s != "" && IsBlank(s[|s| - 1]) then TrimEnd(s[..|s| - 1]) else s
  }

  function ScheduleFromDrafts(timezone: string, drafts: seq<Draft>): Result<Option<Schedule>, EditorError> {
    if drafts == [] then Ok(None)
    else
      var zone := TrimEnd(TrimStart(timezone));
      if zone == "" then Err(MissingTimezone)
      else
        match WindowsFromDrafts(drafts, 0)
        case Err(e) => Err(e)
        case Ok(windows) =>
          if Distinct(windows) then Ok(Some(Schedule(zone, windows))) else Err(DuplicateWindow)
  }

  lemma EditorDaysClean()
    ensures forall d :: d in EDITOR_DAYS <==> d in DAY_CODES
    ensures forall d :: d in EDITOR_DAYS ==> ',' !in d
  {
  }

  lemma {:induction false} OrderedDaysDistinct(selected: set<string>, order: seq<string>)
    requires Distinct(order)
    ensures Distinct(DaysInOrder(selected, order))
  {
    if order != [] {
      OrderedDaysDistinct(selected, order[1..]);
      forall d | d in order[1..] ensures d != order[0] {
        var i :| 0 <= i < |order| - 1 && order[1..][i] == d;
        assert order[i + 1] == d;
      }
    }
  }

  /** The days written for a draft are the chosen ones, each once. */
  lemma DraftDays(draft: Draft, index: nat)
    requires WindowFromDraft(draft, index).Ok?
    ensures var days := DaysInOrder(SetOf(draft.days), EDITOR_DAYS);
            days != [] && SetOf(days) == SetOf(draft.days) && |SetOf(days)| == |days|
  {
    var selected := SetOf(draft.days);
    var days := DaysInOrder(selected, EDITOR_DAYS);
    OrderedDaysDistinct(selected, EDITOR_DAYS);
    hide DaysInOrder;
    DistinctIsSet(days);
    SubsetSize(SetOf(days), selected);
  }

  /** A recurrence text reads back as the days it was written for. */
  lemma WrittenDays(days: seq<string>, rrule: string)
    requires days != [] && |SetOf(days)| == |days| && forall i :: 0 <= i < |days| ==> days[i] in EDITOR_DAYS
    requires rrule == RRULE_PREFIX + Join(days, ",")
    ensures ParseRrule(rrule) == Ok(SetOf(days)) && WindowDays(rrule) == days
  {
    EditorDaysClean();
    hide Join, SplitOn, SetOf;
    SplitOfJoin(days, ',');
    assert rrule[|RRULE_PREFIX|..] == Join(days, ",");
    assert rrule[..|RRULE_PREFIX|] == RRULE_PREFIX;
  }

  /** The days, each once, after the prefix and between commas. */
  ghost predicate SpellsDays(rrule: string, days: seq<string>) {
    && days != [] && Distinct(days) && (forall i :: 0 <= i < |days| ==> days[i] in EDITOR_DAYS)
    && rrule == "FREQ=WEEKLY;BYDAY=" + Join(days, ",")
  }

  /** A recurrence text is read exactly when it spells a list of different known days, and then as those days. */
  lemma RruleReadsExactly(rrule: string, selected: set<string>)
    ensures ParseRrule(rrule) == Ok(selected) <==> exists days :: SpellsDays(rrule, days) && SetOf(days) == selected
  {
    hide Join, SplitOn, SetOf;
    if ParseRrule(rrule) == Ok(selected) {
      var days := SplitOn(rrule[|RRULE_PREFIX|..], ',');
      JoinOfSplit(rrule[|RRULE_PREFIX|..], ',');
      SetOfSize(days);
      assert rrule == rrule[..|RRULE_PREFIX|] + rrule[|RRULE_PREFIX|..];
      assert SpellsDays(rrule, days);
    }
    if days :| SpellsDays(rrule, days) && SetOf(days) == selected {
      DistinctIsSet(days);
      WrittenDays(days, rrule);
    }
  }

  /** The recurrence text written for a draft reads back as exactly the chosen days. */
  lemma WindowKeepsDays(draft: Draft, index: nat)
    requires WindowFromDraft(draft, index).Ok?
    ensures var w := WindowFromDraft(draft, index).value;
            && w.start == draft.start && w.end == draft.end
            && ParseRrule(w.rrule) == Ok(SetOf(draft.days))
            && (forall d :: d in WindowDays(w.rrule) <==> d in draft.days)
            && (forall d :: d in draft.days ==> d in DAY_CODES)
  {
    hide ParseRrule, WindowDays, Join, DaysInOrder;
    var days := DaysInOrder(SetOf(draft.days), EDITOR_DAYS);
    EditorDaysClean();
    DraftDays(draft, index);
    WrittenDays(days, WindowFromDraft(draft, index).value.rrule);
    forall d ensures d in days <==> d in draft.days {
      assert d in days <==> d in SetOf(days);
    }
  }

  lemma {:induction false} WindowsFollowDrafts(drafts: seq<Draft>, from: nat)
    requires from <= |drafts| && WindowsFromDrafts(drafts, from).Ok?
    ensures var ws := WindowsFromDrafts(drafts, from).value;
            && |ws| == |drafts| - from
            && forall i :: from <= i < |drafts| ==> WindowFromDraft(drafts[i], i) == Ok(ws[i - from])
    decreases |drafts| - from
  {
    if from < |drafts| {
      WindowsFollowDrafts(drafts, from + 1);
    }
  }

  predicate Faithful(w: Window, draft: Draft) {
    && w.start == draft.start && w.end == draft.end
    && ParseRrule(w.rrule) == Ok(SetOf(draft.days))
    && (forall d: DayNumber :: Listed(w, d) <==> DAY_CODES[d] in draft.days)
    && |ActiveMinutes(w)| == |SetOf(draft.days)| * Duration(w)
  }

  lemma ListedCount(w: Window, draft: Draft, index: nat)
    requires WindowFromDraft(draft, index) == Ok(w)
    ensures |ListedDays(w)| == |SetOf(draft.days)|
  {
    WindowKeepsDays(draft, index);
    var chosen := SetOf(draft.days);
    assert forall d: DayNumber :: d in ListedDays(w) <==> DAY_CODES[d] in chosen;
    SameCount(ListedDays(w), chosen);
  }

  lemma {:induction false} SameCount(numbers: set<DayNumber>, codes: set<string>)
    requires forall d :: d in codes ==> d in DAY_CODES
    requires forall d: DayNumber :: d in numbers <==> DAY_CODES[d] in codes
    ensures |numbers| == |codes|
    decreases |numbers|
  {
    if numbers == {} {
      forall c | c in DAY_CODES ensures c !in codes {
        assert DayIndex(c) !in numbers;
      }
    } else {
      var n :| n in numbers;
      forall d: DayNumber ensures d in numbers - {n} <==> DAY_CODES[d] in codes - {DAY_CODES[n]} {
        if DAY_CODES[d] == DAY_CODES[n] { DayIndexInjective(d, n); }
      }
      SameCount(numbers - {n}, codes - {DAY_CODES[n]});
    }
  }

  /** Every schedule the editor builds has one window per draft, on exactly its days and hours. */
  lemma EditorRoundTrip(timezone: string, drafts: seq<Draft>)
    ensures match ScheduleFromDrafts(timezone, drafts)
            case Ok(Some(s)) =>
              && |s.windows| == |drafts| && Distinct(s.windows)
              && forall i :: 0 <= i < |drafts| ==> Faithful(s.windows[i], drafts[i])
            case Ok(None) => drafts == []
            case Err(_) => drafts != []
  {
    var r := ScheduleFromDrafts(timezone, drafts);
    if r.Ok? && r.value.Some? {
      var s := r.value.value;
      WindowsFollowDrafts(drafts, 0);
      forall i | 0 <= i < |drafts| ensures Faithful(s.windows[i], drafts[i]) {
        WindowKeepsDays(drafts[i], i);
        ListedCount(s.windows[i], drafts[i], i);
        ActiveTimePerWeek(s.windows[i]);
      }
    }
  }

  // ---- Exactly when a schedule is built, and for which zone ----

  /** At least one day, only known ones, and two times of day. */
  predicate GoodDraft(d: Draft) {
    d.days != [] && (forall x :: x in d.days ==> x in DAY_CODES) && ValidTime(d.start) && ValidTime(d.end)
  }

  /** The same times on the same days. */
  predicate SameDraft(a: Draft, b: Draft) {
    a.start == b.start && a.end == b.end && SetOf(a.days) == SetOf(b.days)
  }

  lemma DraftAcceptedExactly(d: Draft, index: nat)
    ensures WindowFromDraft(d, index).Ok? <==> GoodDraft(d)
  {
    var selected := SetOf(d.days);
    var days := DaysInOrder(selected, EDITOR_DAYS);
    EditorDaysClean();
    OrderedDaysDistinct(selected, EDITOR_DAYS);
    DistinctIsSet(days);
    hide DaysInOrder, Join;
    assert SetOf(days) <= selected;
    if |selected| == |days| { SubsetSize(SetOf(days), selected); }
    if GoodDraft(d) {
      assert d.days[0] in selected;
      assert selected == SetOf(days);
    }
  }

  lemma {:induction false} AllAcceptedExactly(drafts: seq<Draft>, from: nat)
    requires from <= |drafts|
    ensures WindowsFromDrafts(drafts, from).Ok? <==> forall i :: from <= i < |drafts| ==> GoodDraft(drafts[i])
    decreases |drafts| - from
  {
    hide WindowFromDraft, GoodDraft;
    if from < |drafts| {
      DraftAcceptedExactly(drafts[from], from);
      AllAcceptedExactly(drafts, from + 1);
    }
  }

  lemma SameWindowExactly(a: Draft, i: nat, b: Draft, j: nat)
    requires WindowFromDraft(a, i).Ok? && WindowFromDraft(b, j).Ok?
    ensures WindowFromDraft(a, i).value == WindowFromDraft(b, j).value <==> SameDraft(a, b)
  {
    hide ParseRrule, Join, DaysInOrder, WindowDays;
    WindowKeepsDays(a, i);
    WindowKeepsDays(b, j);
  }

  predicate AllBlank(s: string) { forall i :: 0 <= i < |s| ==> IsBlank(s[i]) }

  /** The text without the blanks around it. */
  ghost predicate Trimmed(text: string, zone: string) {
    && (zone != "" ==> !IsBlank(zone[0]) && !IsBlank(zone[|zone| - 1]))
    && exists a, b :: AllBlank(a) && AllBlank(b) && text == a + zone + b
  }

  lemma {:induction false} StartTrimmed(s: string)
    ensures exists a :: AllBlank(a) && s == a + TrimStart(s)
    ensures TrimStart(s) != "" ==> !IsBlank(TrimStart(s)[0])
  {
    if s != "" && IsBlank(s[0]) {
      StartTrimmed(s[1..]);
      var a :| AllBlank(a) && s[1..] == a + TrimStart(s[1..]);
      assert s == ([s[0]] + a) + TrimStart(s) && AllBlank([s[0]] + a);
    } else {
      assert s == "" + TrimStart(s) && AllBlank("");
    }
  }

  lemma {:induction false} EndTrimmed(s: string)
    ensures exists b :: AllBlank(b) && s == TrimEnd(s) + b
    ensures TrimEnd(s) != "" ==> !IsBlank(TrimEnd(s)[|TrimEnd(s)| - 1]) && TrimEnd(s)[0] == s[0]
  {
    if s != "" && IsBlank(s[|s| - 1]) {
      EndTrimmed(s[..|s| - 1]);
      var b :| AllBlank(b) && s[..|s| - 1] == TrimEnd(s[..|s| - 1]) + b;
      assert s == TrimEnd(s) + (b + [s[|s| - 1]]) && AllBlank(b + [s[|s| - 1]]);
    } else {
      assert s == TrimEnd(s) + "" && AllBlank("");
    }
  }

  lemma TrimmedParts(text: string, a: string, zone: string, b: string)
    requires AllBlank(a) && AllBlank(b) && text == a + zone + b
    requires zone != "" ==> !IsBlank(zone[0]) && !IsBlank(zone[|zone| - 1])
    ensures Trimmed(text, zone) && (zone == "" <==> AllBlank(text))
  {
    hide IsBlank, AllBlank;
    if zone == "" {
      BlankJoined(a, b);
    } else {
      assert text[|a|] == zone[0];
      NotBlank(text, |a|);
    }
  }

  lemma ZoneTrimmed(text: string)
    ensures Trimmed(text, TrimEnd(TrimStart(text)))
    ensures TrimEnd(TrimStart(text)) == "" <==> AllBlank(text)
  {
    hide TrimStart, TrimEnd, IsBlank, AllBlank, Trimmed;
    var inner := TrimStart(text);
    var zone := TrimEnd(inner);
    StartTrimmed(text);
    EndTrimmed(inner);
    var a :| AllBlank(a) && text == a + inner;
    var b :| AllBlank(b) && inner == zone + b;
    assert a + (zone + b) == a + zone + b;
    TrimmedParts(text, a, zone, b);
  }

  lemma BlankJoined(a: string, b: string)
    requires AllBlank(a) && AllBlank(b)
    ensures AllBlank(a + "" + b)
  {
  }

  lemma NotBlank(s: string, i: nat)
    requires i < |s| && !IsBlank(s[i])
    ensures !AllBlank(s)
  {
  }

  /**
   * A schedule is built exactly when the zone is not blank, every draft is complete and no two drafts are the same; it is for
   * the zone without the blanks around it. Without drafts there is no schedule.
   */
  lemma ScheduleBuiltExactly(timezone: string, drafts: seq<Draft>)
    ensures drafts == [] ==> ScheduleFromDrafts(timezone, drafts) == Ok(None)
    ensures drafts != [] ==>
              (ScheduleFromDrafts(timezone, drafts).Ok? <==>
                && !AllBlank(timezone) && (forall i :: 0 <= i < |drafts| ==> GoodDraft(drafts[i]))
                && forall i, j :: 0 <= i < j < |drafts| ==> !SameDraft(drafts[i], drafts[j]))
    ensures drafts != [] && ScheduleFromDrafts(timezone, drafts).Ok? ==>
              && ScheduleFromDrafts(timezone, drafts).value.Some?
              && Trimmed(timezone, ScheduleFromDrafts(timezone, drafts).value.value.timezone)
  {
    hide TrimStart, TrimEnd, AllBlank, Trimmed, GoodDraft, SameDraft, WindowFromDraft;
    ZoneTrimmed(timezone);
    AllAcceptedExactly(drafts, 0);
    var r := WindowsFromDrafts(drafts, 0);
    if r.Ok? {
      WindowsFollowDrafts(drafts, 0);
      forall i, j | 0 <= i < j < |drafts| ensures r.value[i] == r.value[j] <==> SameDraft(drafts[i], drafts[j]) {
        SameWindowExactly(drafts[i], i, drafts[j], j);
      }
    }
  }
}
