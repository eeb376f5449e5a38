/** The mood and stress journal of the progress page: the log entry, the
    seed series, the page's form state and the "one log per day" upsert
    followed by a chronological sort. */
module Journal {
  import opened Wrappers
  import opened Calendar
  import StableSort

  datatype Mood = Happy | Calm | Neutral | Anxious | Sad

  /** One day's entry. The page stores the date as the `yyyy-MM-dd` string
      of that day; the model stores the date itself (see the DateFormat
      module for why the two are interchangeable). */
  datatype MoodLog = MoodLog(date: Date, stress: int, mood: Mood)

  /** The state of the progress page: the log series and the form. */
  datatype ProgressPage = ProgressPage(logs: seq<MoodLog>, stressLevel: int, mood: Mood)

  /** The stress slider runs from 0 to this value in steps of 1. */
  const MaxStress: int := 10

  /** The mood names in the order the form offers them. */
  const MoodNames: seq<string> := ["happy", "calm", "neutral", "anxious", "sad"]

  const InitialData: seq<MoodLog> := [
    MoodLog(Date(2024, 7, 15), 4, Calm),
    MoodLog(Date(2024, 7, 16), 6, Anxious),
    MoodLog(Date(2024, 7, 17), 5, Neutral),
    MoodLog(Date(2024, 7, 18), 7, Sad),
    MoodLog(Date(2024, 7, 19), 3, Happy),
    MoodLog(Date(2024, 7, 20), 2, Calm),
    MoodLog(Date(2024, 7, 21), 5, Neutral)
  ]

  /** The page as first rendered: the seed series, stress 5, mood neutral. */
  const InitialPage: ProgressPage := ProgressPage(InitialData, 5, Neutral)

  function MoodName(m: Mood): string {
    match m
    case Happy => "happy"
    case Calm => "calm"
    case Neutral => "neutral"
    case Anxious => "anxious"
    case Sad => "sad"
  }

  /** The mood a radio-button value names; None for any other string. */
  function ParseMood(s: string): (r: Option<Mood>)
    ensures r.Some? <==> s in MoodNames
  {
    if s == "happy" then Some(Happy)
    else if s == "calm" then Some(Calm)
    else if s == "neutral" then Some(Neutral)
    else if s == "anxious" then Some(Anxious)
    else if s == "sad" then Some(Sad)
    else None
  }

  /** A mood name and the mood it names determine each other. */
  lemma MoodNameRoundTrip(m: Mood, s: string)
    ensures ParseMood(MoodName(m)) == Some(m)
    ensures ParseMood(s) == Some(m) ==> MoodName(m) == s
  {
  }

  predicate ValidLog(l: MoodLog) {
    ValidDate(l.date) && 0 <= l.stress <= MaxStress
  }

  predicate AllValid(logs: seq<MoodLog>) {
    forall i :: 0 <= i < |logs| ==> ValidLog(logs[i])
  }

  function LogDate(l: MoodLog): Date {
    l.date
  }

  /** The sort key: `new Date(log.date).getTime()`. */
  function LogTime(l: MoodLog): (ms: int) {
    TimeOf(l.date)
  }

  predicate SortedByDate(logs: seq<MoodLog>) {
    StableSort.Sorted(logs, LogTime)
  }

  /** At most one log per day. */
  predicate DistinctDates(logs: seq<MoodLog>) {
    StableSort.DistinctBy(logs, LogDate)
  }

  /** `logs.findIndex(log => log.date === date)`, with None for -1. */
  function FindIndexOfDate(logs: seq<MoodLog>, date: Date): (r: Option<nat>)
    ensures r.Some? ==> r.value < |logs| && logs[r.value].date == date
    ensures r.Some? ==> forall j :: 0 <= j < r.value ==> logs[j].date != date
    ensures r.None? ==> forall j :: 0 <= j < |logs| ==> logs[j].date != date
  {
    if |logs| == 0 then None
    else if logs[0].date == date then Some(0)
    else
      match FindIndexOfDate(logs[1..], date)
      case None => None
      case Some(i) => Some(i + 1)
  }

  /** The first index of a day is the one before which no log has it. */
  lemma FindIndexOfDateIsFirst(logs: seq<MoodLog>, date: Date, i: nat)
    requires i < |logs| && logs[i].date == date
    requires forall j :: 0 <= j < i ==> logs[j].date != date
    ensures FindIndexOfDate(logs, date) == Some(i)
  {
  }

  /** The first log of the given day, if any. */
  function FirstWithDate(logs: seq<MoodLog>, date: Date): (first: Option<MoodLog>) {
    match FindIndexOfDate(logs, date)
    case None => None
    case Some(i) => Some(logs[i])
  }

  /** The upsert before sorting: replace the first log of the new log's day
      wholesale, or append the new log when that day has none. */
  function Upsert(logs: seq<MoodLog>, newLog: MoodLog): (r: seq<MoodLog>)
    ensures FirstWithDate(r, newLog.date) == Some(newLog)
  {
    match FindIndexOfDate(logs, newLog.date)
    case Some(i) =>
      FindIndexOfDateIsFirst(logs[i := newLog], newLog.date, i);
      logs[i := newLog]
    case None =>
      FindIndexOfDateIsFirst(logs + [newLog], newLog.date, |logs|);
      logs + [newLog]
  }

  /** The series in chronological order, equal days in their prior order. */
  function SortByDate(logs: seq<MoodLog>): (sorted: seq<MoodLog>)
    ensures SortedByDate(sorted)
    ensures |sorted| == |logs| && multiset(sorted) == multiset(logs)
  {
    StableSort.SortIsSorted(logs, LogTime);
    StableSort.Sort(logs, LogTime)
  }

  /** `handleAddLog` on the log series: upsert, then sort by date. */
  function AddLog(logs: seq<MoodLog>, newLog: MoodLog): (r: seq<MoodLog>)
    ensures SortedByDate(r)
    ensures FirstWithDate(r, newLog.date) == Some(newLog)
  {
    var u := Upsert(logs, newLog);
    SortKeepsFirstWithDate(u, newLog.date);
    SortByDate(u)
  }

  /** The value the stress slider reports: the slider keeps its thumb
      between 0 and its maximum, in whole steps. */
  function SliderValue(raw: int): (v: int)
    ensures 0 <= v <= MaxStress
    ensures 0 <= raw <= MaxStress ==> v == raw
    ensures raw < 0 ==> v == 0
    ensures raw > MaxStress ==> v == MaxStress
  {
    if raw < 0 then 0 else if raw > MaxStress then MaxStress else raw
  }

  function SetStressLevel(p: ProgressPage, raw: int): (next: ProgressPage) {
    p.(stressLevel := SliderValue(raw))
  }

  function SetMood(p: ProgressPage, m: Mood): (next: ProgressPage) {
    p.(mood := m)
  }

  /** `handleAddLog`: today's log from the form, upserted into the series. */
  function HandleAddLog(p: ProgressPage, today: Date): (r: ProgressPage)
    ensures r.stressLevel == p.stressLevel && r.mood == p.mood
    ensures MoodLog(today, p.stressLevel, p.mood) in r.logs
  {
    var newLog := MoodLog(today, p.stressLevel, p.mood);
    var r := p.(logs := AddLog(p.logs, newLog));
    assert newLog in multiset(Upsert(p.logs, newLog));
    r
  }

  /** What the page keeps true of its state. */
  predicate PageInvariant(p: ProgressPage) {
    && 0 <= p.stressLevel <= MaxStress
    && AllValid(p.logs)
    && SortedByDate(p.logs)
    && DistinctDates(p.logs)
  }

  // ---------------------------------------------------------------------
  // Properties of the upsert

  /** A day without a log gains one: the series grows by the new log and
      nothing else. */
  lemma AddLogCreates(logs: seq<MoodLog>, newLog: MoodLog)
    requires forall j :: 0 <= j < |logs| ==> logs[j].date != newLog.date
    ensures |AddLog(logs, newLog)| == |logs| + 1
    ensures newLog in AddLog(logs, newLog)
    ensures multiset(AddLog(logs, newLog)) == multiset(logs) + multiset{newLog}
  {
    var r := AddLog(logs, newLog);
    assert newLog in multiset(r);
  }

  /** A day with a log keeps its length: the first log of that day gives
      way to the new log, whose stress and mood replace the old ones and
      whose date is the same, and nothing else changes. */
  lemma AddLogReplaces(logs: seq<MoodLog>, newLog: MoodLog, i: nat)
    requires i < |logs| && logs[i].date == newLog.date
    requires forall j :: 0 <= j < i ==> logs[j].date != newLog.date
    ensures |AddLog(logs, newLog)| == |logs|
    ensures newLog in AddLog(logs, newLog)
    ensures multiset(AddLog(logs, newLog)) == multiset(logs) - multiset{logs[i]} + multiset{newLog}
  {
    FindIndexOfDateIsFirst(logs, newLog.date, i);
    assert Upsert(logs, newLog) == logs[i := newLog];
    UpdateMultiset(logs, i, newLog);
    assert newLog in multiset(AddLog(logs, newLog));
  }

  /** Overwriting one element swaps it for the new one in the multiset. */
  lemma UpdateMultiset<T>(s: seq<T>, i: nat, x: T)
    requires i < |s|
    ensures multiset(s[i := x]) == multiset(s) - multiset{s[i]} + multiset{x}
  {
    assert s == s[..i] + [s[i]] + s[i + 1..];
    assert s[i := x] == s[..i] + [x] + s[i + 1..];
  }

  /** The series the page shows after a log is in date order. */
  lemma AddLogSorted(logs: seq<MoodLog>, newLog: MoodLog)
    ensures SortedByDate(AddLog(logs, newLog))
  {
    StableSort.SortIsSorted(Upsert(logs, newLog), LogTime);
  }

  /** One log per day before, one log per day after. */
  lemma {:induction false} AddLogKeepsDistinctDates(logs: seq<MoodLog>, newLog: MoodLog)
    requires DistinctDates(logs)
    ensures DistinctDates(AddLog(logs, newLog))
  {
    var u := Upsert(logs, newLog);
    var found := FindIndexOfDate(logs, newLog.date);
    if found.Some? {
      assert u == logs[found.value := newLog];
      assert DistinctDates(u);
    } else {
      assert u == logs + [newLog];
      assert DistinctDates(u);
    }
    StableSort.SortKeepsDistinct(u, LogTime, LogDate);
  }

  /** Valid logs and a valid new log give valid logs. */
  lemma AddLogKeepsValid(logs: seq<MoodLog>, newLog: MoodLog)
    requires AllValid(logs) && ValidLog(newLog)
    ensures AllValid(AddLog(logs, newLog))
  {
    var u := Upsert(logs, newLog);
    assert AllValid(u);
    var r := AddLog(logs, newLog);
    forall i | 0 <= i < |r| ensures ValidLog(r[i]) {
      StableSort.InMultiset(r[i], r, u);
    }
  }

  /** Restricting to the logs that share a day's sort key does not change
      which log comes first for that day. */
  lemma {:induction false} FirstWithDateInClass(logs: seq<MoodLog>, date: Date)
    ensures FirstWithDate(StableSort.WithKey(logs, LogTime, TimeOf(date)), date)
         == FirstWithDate(logs, date)
  {
    if |logs| > 0 {
      var w := StableSort.WithKey(logs[1..], LogTime, TimeOf(date));
      FirstWithDateInClass(logs[1..], date);
      FirstWithDateCons(logs[0], logs[1..], date);
      assert [logs[0]] + logs[1..] == logs;
      if LogTime(logs[0]) == TimeOf(date) {
        assert StableSort.WithKey(logs, LogTime, TimeOf(date)) == [logs[0]] + w;
        FirstWithDateCons(logs[0], w, date);
      } else {
        assert StableSort.WithKey(logs, LogTime, TimeOf(date)) == w;
      }
    }
  }

  lemma FirstWithDateCons(x: MoodLog, rest: seq<MoodLog>, date: Date)
    ensures FirstWithDate([x] + rest, date)
         == if x.date == date then Some(x) else FirstWithDate(rest, date)
  {
    assert ([x] + rest)[0] == x && ([x] + rest)[1..] == rest;
  }

  /** The stable sort keeps the first log of every day. */
  lemma SortKeepsFirstWithDate(logs: seq<MoodLog>, date: Date)
    ensures FirstWithDate(SortByDate(logs), date) == FirstWithDate(logs, date)
  {
    FirstWithDateInClass(SortByDate(logs), date);
    StableSort.SortIsStable(logs, LogTime, TimeOf(date));
    FirstWithDateInClass(logs, date);
  }

  /** Logging the same entry twice is the same as logging it once. */
  lemma AddLogIdempotent(logs: seq<MoodLog>, newLog: MoodLog)
    ensures AddLog(AddLog(logs, newLog), newLog) == AddLog(logs, newLog)
  {
    var r := AddLog(logs, newLog);
    SortKeepsFirstWithDate(Upsert(logs, newLog), newLog.date);
    var i := FindIndexOfDate(r, newLog.date).value;
    assert r[i := newLog] == r;
    assert Upsert(r, newLog) == r;
    AddLogSorted(logs, newLog);
    StableSort.SortOfSorted(r, LogTime);
  }

  // ---------------------------------------------------------------------
  // The seed series and the page state

  /** On valid dates the sort key orders logs by calendar date. */
  lemma LogTimeOrder(a: MoodLog, b: MoodLog)
    requires ValidDate(a.date) && ValidDate(b.date)
    ensures Before(a.date, b.date) <==> LogTime(a) < LogTime(b)
  {
    BeforeIffEarlierDay(a.date, b.date);
  }

  /** The seed series: seven valid logs, strictly in date order, one per
      day, every stress level within the slider's range. */
  lemma InitialDataWellFormed()
    ensures |InitialData| == 7
    ensures AllValid(InitialData)
    ensures SortedByDate(InitialData)
    ensures DistinctDates(InitialData)
  {
    var base := TimeOf(Date(2024, 7, 15));
    assert forall k :: 0 <= k < |InitialData| ==> InitialData[k].date == Date(2024, 7, 15 + k);
    assert forall k :: 0 <= k < |InitialData| ==> LogTime(InitialData[k]) == base + k * MsPerDay;
  }

  lemma InitialPageInvariant()
    ensures PageInvariant(InitialPage)
  {
    InitialDataWellFormed();
  }

  /** Moving the slider or picking a mood keeps the invariant. */
  lemma FormEditsKeepInvariant(p: ProgressPage, raw: int, m: Mood)
    requires PageInvariant(p)
    ensures PageInvariant(SetStressLevel(p, raw))
    ensures PageInvariant(SetMood(p, m))
  {
  }

  /** Logging keeps the invariant: the stress stored is the slider's, so
      it lies in 0..10, and the series stays sorted with one log per day. */
  lemma HandleAddLogKeepsInvariant(p: ProgressPage, today: Date)
    requires PageInvariant(p) && ValidDate(today)
    ensures PageInvariant(HandleAddLog(p, today))
  {
    var newLog := MoodLog(today, p.stressLevel, p.mood);
    AddLogKeepsValid(p.logs, newLog);
    AddLogSorted(p.logs, newLog);
    AddLogKeepsDistinctDates(p.logs, newLog);
  }

  /** A new day between two logged days lands between them. */
  lemma ScenarioNewDayBetween()
    ensures AddLog([MoodLog(Date(2025, 1, 15), 4, Calm), MoodLog(Date(2025, 1, 17), 5, Neutral)],
                   MoodLog(Date(2025, 1, 16), 7, Sad))
         == [MoodLog(Date(2025, 1, 15), 4, Calm), MoodLog(Date(2025, 1, 16), 7, Sad),
             MoodLog(Date(2025, 1, 17), 5, Neutral)]
  {
    var a := MoodLog(Date(2025, 1, 15), 4, Calm);
    var b := MoodLog(Date(2025, 1, 17), 5, Neutral);
    var newLog := MoodLog(Date(2025, 1, 16), 7, Sad);
    var u := [a, b, newLog];
    assert Upsert([a, b], newLog) == u by {
      assert FindIndexOfDate([a, b], newLog.date) == None;
    }
    SortOfThree(a, b, newLog);
  }

  lemma SortOfThree(a: MoodLog, b: MoodLog, c: MoodLog)
    requires LogTime(a) < LogTime(c) < LogTime(b)
    ensures SortByDate([a, b, c]) == [a, c, b]
  {
    var u := [a, b, c];
    assert u[1..] == [b, c];
    assert [b, c][1..] == [c];
    assert StableSort.Sort([c], LogTime) == [c];
    StableSort.InsertBetween(b, [c], [], LogTime);
    assert StableSort.Sort([b, c], LogTime) == [c, b];
    StableSort.InsertBetween(a, [], [c, b], LogTime);
  }

  /** Logging again on a logged day overwrites that day's stress and mood. */
  lemma ScenarioSameDay()
    ensures AddLog([MoodLog(Date(2025, 1, 15), 4, Calm), MoodLog(Date(2025, 1, 17), 5, Neutral)],
                   MoodLog(Date(2025, 1, 15), 9, Anxious))
         == [MoodLog(Date(2025, 1, 15), 9, Anxious), MoodLog(Date(2025, 1, 17), 5, Neutral)]
  {
    var logs := [MoodLog(Date(2025, 1, 15), 4, Calm), MoodLog(Date(2025, 1, 17), 5, Neutral)];
    var r := [MoodLog(Date(2025, 1, 15), 9, Anxious), MoodLog(Date(2025, 1, 17), 5, Neutral)];
    assert FindIndexOfDate(logs, Date(2025, 1, 15)) == Some(0);
    assert Upsert(logs, r[0]) == r;
    assert SortedByDate(r);
    StableSort.SortOfSorted(r, LogTime);
  }
}
