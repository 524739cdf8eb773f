/** The in-memory store behind the app: three collections (hikes, habits,
    daily score logs) and the operations that replace them. Each operation
    is a function from the old collection to the new one, proved to do what
    the app relies on; the HabitStore class holds the collections and its
    methods apply those functions. */
module Store {
  import opened Types
  import opened Calculations

  // ---------------------------------------------------------------------------
  // The open hike
  // ---------------------------------------------------------------------------

  /** Position of the first DRAFT or ACTIVE hike, if any. */
  function FirstOpenIndex(hikes: seq<Hike>): (r: Option<nat>)
    ensures r.None? <==> forall i :: 0 <= i < |hikes| ==> !IsOpen(hikes[i].status)
    ensures r.Some? ==> r.value < |hikes| && IsOpen(hikes[r.value].status)
    ensures r.Some? ==> forall j :: 0 <= j < r.value ==> !IsOpen(hikes[j].status)
  {
    if hikes == [] then None
    else if IsOpen(hikes[0].status) then Some(0)
    else
      match FirstOpenIndex(hikes[1..])
      case None =>
        assert forall i :: 1 <= i < |hikes| ==> hikes[i] == hikes[1..][i - 1];
        None
      case Some(k) =>
        assert forall j :: 1 <= j <= k ==> hikes[j] == hikes[1..][j - 1];
        Some(k + 1)
  }

  /** The open hike: the first hike in list order that is DRAFT or ACTIVE. */
  function OpenHikeOf(hikes: seq<Hike>): (r: Option<Hike>)
    ensures r.None? <==> forall h :: h in hikes ==> !IsOpen(h.status)
    ensures r.Some? ==> r.value in hikes && IsOpen(r.value.status)
    ensures r.Some? ==> exists i :: 0 <= i < |hikes| && hikes[i] == r.value
                                   && forall j :: 0 <= j < i ==> !IsOpen(hikes[j].status)
  {
    match FirstOpenIndex(hikes)
    case None => None
    case Some(i) => Some(hikes[i])
  }

  // ---------------------------------------------------------------------------
  // Hikes: create and start
  // ---------------------------------------------------------------------------

  /** Creating a hike appends a DRAFT hike and retires nothing: the hike that
      was open stays the open one, and the new hike is open only when no
      other hike was. */
  lemma {:induction false} CreateHikeOpen(hikes: seq<Hike>, data: HikeData, newId: string)
    ensures FirstOpenIndex(hikes + [MakeHike(data, newId)])
         == if FirstOpenIndex(hikes).Some? then FirstOpenIndex(hikes) else Some(|hikes|)
  {
    var grown := hikes + [MakeHike(data, newId)];
    if hikes != [] {
      assert grown[1..] == hikes[1..] + [MakeHike(data, newId)];
      CreateHikeOpen(hikes[1..], data, newId);
    }
  }

  /** The hikes after `startHike(hikeId)`: every hike with that id becomes
      ACTIVE, whatever its status was. */
  function WithStarted(hikes: seq<Hike>, hikeId: string): (r: seq<Hike>)
    ensures |r| == |hikes|
    ensures forall i :: 0 <= i < |hikes| ==> r[i] == hikes[i].(status := r[i].status)
    ensures forall i :: 0 <= i < |hikes| && hikes[i].id == hikeId ==> r[i].status == Active
    ensures forall i :: 0 <= i < |hikes| && hikes[i].id != hikeId ==> r[i] == hikes[i]
  {
    seq(|hikes|, i requires 0 <= i < |hikes| =>
      if hikes[i].id == hikeId then hikes[i].(status := Active) else hikes[i])
  }

  /** Starting a hike that is not in the list changes nothing. */
  lemma StartUnknownHike(hikes: seq<Hike>, hikeId: string)
    requires forall h :: h in hikes ==> h.id != hikeId
    ensures WithStarted(hikes, hikeId) == hikes
  {
    var r := WithStarted(hikes, hikeId);
    forall i | 0 <= i < |hikes| ensures r[i] == hikes[i] {
      assert hikes[i] in hikes;
    }
  }

  /** After starting `hikeId`, the open hike is the first hike that was
      already open or carries that id. */
  lemma StartHikeOpen(hikes: seq<Hike>, hikeId: string)
    ensures var k := FirstOpenIndex(WithStarted(hikes, hikeId));
      && (k.None? ==> forall j :: 0 <= j < |hikes| ==> !IsOpen(hikes[j].status) && hikes[j].id != hikeId)
      && (k.Some? ==> k.value < |hikes| && (IsOpen(hikes[k.value].status) || hikes[k.value].id == hikeId))
      && (k.Some? ==> forall j :: 0 <= j < k.value ==> !IsOpen(hikes[j].status) && hikes[j].id != hikeId)
  {
    var r := WithStarted(hikes, hikeId);
    forall j | 0 <= j < |hikes| ensures IsOpen(r[j].status) <==> IsOpen(hikes[j].status) || hikes[j].id == hikeId {
    }
  }

  /** Adding a habit that has no logs yet leaves every hike's total as it
      was, whichever hike the habit joins. */
  lemma AddFreshHabitKeepsTotal(hike: Hike, habits: seq<Habit>, logs: seq<DailyScoreLog>,
                                data: HabitData, newId: string, hikeId: string)
    requires forall l :: l in logs ==> l.habitId != newId
    ensures CalculateHikeProgress(hike, habits + [MakeHabit(data, newId, hikeId)], logs).totalScore
         == CalculateHikeProgress(hike, habits, logs).totalScore
  {
    var h := MakeHabit(data, newId, hikeId);
    HikeTotalSnoc(hike, habits, h, logs);
    DetailsWithoutLogs(h, logs);
  }

  // ---------------------------------------------------------------------------
  // Habits: update and delete
  // ---------------------------------------------------------------------------

  /** The habits after `updateHabit(h)`: every habit with `h.id` is replaced
      by `h`, the others keep their place and value. */
  function WithUpdated(habits: seq<Habit>, h: Habit): (r: seq<Habit>)
    ensures |r| == |habits|
    ensures forall i :: 0 <= i < |habits| && habits[i].id == h.id ==> r[i] == h
    ensures forall i :: 0 <= i < |habits| && habits[i].id != h.id ==> r[i] == habits[i]
  {
    seq(|habits|, i requires 0 <= i < |habits| => if habits[i].id == h.id then h else habits[i])
  }

  /** Updating a habit that is not in the list is the identity. */
  lemma UpdateUnknownHabit(habits: seq<Habit>, h: Habit)
    requires forall g :: g in habits ==> g.id != h.id
    ensures WithUpdated(habits, h) == habits
  {
    var r := WithUpdated(habits, h);
    forall i | 0 <= i < |habits| ensures r[i] == habits[i] {
      assert habits[i] in habits;
    }
  }

  /** Updating twice with the same habit is updating once. */
  lemma UpdateIdempotent(habits: seq<Habit>, h: Habit)
    ensures WithUpdated(WithUpdated(habits, h), h) == WithUpdated(habits, h)
  {
    var once := WithUpdated(habits, h);
    var twice := WithUpdated(once, h);
    forall i | 0 <= i < |habits| ensures twice[i] == once[i] {
      if habits[i].id == h.id { assert once[i] == h; }
    }
  }

  /** The habits after `deleteHabit(habitId)`. */
  function WithoutHabit(habits: seq<Habit>, habitId: string): (r: seq<Habit>)
    ensures |r| <= |habits|
    ensures forall h :: h in r <==> h in habits && h.id != habitId
  {
    if habits == [] then []
    else
      assert habits == [habits[0]] + habits[1..];
      (if habits[0].id == habitId then [] else [habits[0]]) + WithoutHabit(habits[1..], habitId)
  }

  /** Deleting distributes over concatenation: the surviving habits keep
      their relative order. */
  lemma {:induction false} WithoutHabitConcat(a: seq<Habit>, b: seq<Habit>, habitId: string)
    ensures WithoutHabit(a + b, habitId) == WithoutHabit(a, habitId) + WithoutHabit(b, habitId)
  {
    if a == [] {
      assert a + b == b;
    } else {
      assert (a + b)[1..] == a[1..] + b;
      WithoutHabitConcat(a[1..], b, habitId);
    }
  }

  /** The score logs after `deleteHabit(habitId)`: the cascade. */
  function WithoutLogsOf(logs: seq<DailyScoreLog>, habitId: string): (r: seq<DailyScoreLog>)
    ensures |r| <= |logs|
    ensures forall l :: l in r <==> l in logs && l.habitId != habitId
  {
    if logs == [] then []
    else
      assert logs == [logs[0]] + logs[1..];
      (if logs[0].habitId == habitId then [] else [logs[0]]) + WithoutLogsOf(logs[1..], habitId)
  }

  /** The cascade filters each part of a log list on its own: surviving logs
      keep their relative order. */
  lemma {:induction false} WithoutLogsOfConcat(a: seq<DailyScoreLog>, b: seq<DailyScoreLog>, habitId: string)
    ensures WithoutLogsOf(a + b, habitId) == WithoutLogsOf(a, habitId) + WithoutLogsOf(b, habitId)
  {
    if a == [] {
      assert a + b == b;
    } else {
      assert (a + b)[1..] == a[1..] + b;
      WithoutLogsOfConcat(a[1..], b, habitId);
      var head := if a[0].habitId == habitId then [] else [a[0]];
      ConcatAssoc(head, WithoutLogsOf(a[1..], habitId), WithoutLogsOf(b, habitId));
    }
  }

  /** The cascade leaves every other habit's logs exactly as they were, in
      the same order. */
  lemma {:induction false} CascadeKeepsOtherLogs(logs: seq<DailyScoreLog>, habitId: string, other: string)
    requires other != habitId
    ensures LogsOf(other, WithoutLogsOf(logs, habitId)) == LogsOf(other, logs)
  {
    if logs != [] {
      CascadeKeepsOtherLogs(logs[1..], habitId, other);
      var head := if logs[0].habitId == habitId then [] else [logs[0]];
      LogsOfConcat(other, head, WithoutLogsOf(logs[1..], habitId));
      if logs[0].habitId == habitId {
        assert head + WithoutLogsOf(logs[1..], habitId) == WithoutLogsOf(logs[1..], habitId);
      } else {
        assert [logs[0]][1..] == [];
      }
    }
  }

  /** So the details of every other habit are unchanged by the cascade, and
      the deleted habit is left with no logs at all. */
  lemma CascadeKeepsDetails(habit: Habit, logs: seq<DailyScoreLog>, habitId: string)
    ensures habit.id != habitId ==>
      CalculateHabitDetails(habit, WithoutLogsOf(logs, habitId)) == CalculateHabitDetails(habit, logs)
    ensures habit.id == habitId ==> CalculateHabitDetails(habit, WithoutLogsOf(logs, habitId)).totalDays == 0
  {
    if habit.id != habitId {
      CascadeKeepsOtherLogs(logs, habitId, habit.id);
    }
  }

  /** No two logs record the same habit on the same day. */
  predicate OneLogPerHabitAndDate(logs: seq<DailyScoreLog>) {
    forall i, j :: 0 <= i < j < |logs| && logs[i].habitId == logs[j].habitId ==> logs[i].date != logs[j].date
  }

  /** Dropping the first log keeps the invariant. */
  lemma OneLogPerDayTail(logs: seq<DailyScoreLog>)
    requires logs != [] && OneLogPerHabitAndDate(logs)
    ensures OneLogPerHabitAndDate(logs[1..])
  {
    var rest := logs[1..];
    forall i, j | 0 <= i < j < |rest| && rest[i].habitId == rest[j].habitId
      ensures rest[i].date != rest[j].date
    {
      assert rest[i] == logs[i + 1] && rest[j] == logs[j + 1];
    }
  }

  /** Under the invariant the logs of one habit fall on distinct dates, so
      their newest-first order is unique and the streak is well defined. */
  lemma {:induction false} OneLogPerDayDistinctDates(logs: seq<DailyScoreLog>, habitId: string)
    requires OneLogPerHabitAndDate(logs)
    ensures DistinctDates(LogsOf(habitId, logs))
  {
    if logs != [] {
      var rest := logs[1..];
      OneLogPerDayTail(logs);
      OneLogPerDayDistinctDates(rest, habitId);
      if logs[0].habitId == habitId {
        forall y | y in rest && y.habitId == habitId ensures y.date != logs[0].date {
          var k :| 0 <= k < |rest| && rest[k] == y;
          assert logs[k + 1] == y;
        }
        DistinctDatesCons(logs[0], LogsOf(habitId, rest));
      }
    }
  }

  /** With at most one log per habit and day, every date-descending
      arrangement of a habit's logs is the one the streak walks. */
  lemma NewestFirstIsCanonical(logs: seq<DailyScoreLog>, habitId: string, arranged: seq<DailyScoreLog>)
    requires OneLogPerHabitAndDate(logs)
    requires DateDescending(arranged) && multiset(arranged) == multiset(LogsOf(habitId, logs))
    ensures arranged == NewestFirst(habitId, logs)
  {
    var sorted := NewestFirst(habitId, logs);
    OneLogPerDayDistinctDates(logs, habitId);
    SortKeepsDistinctDates(LogsOf(habitId, logs));
    NewestFirstUnique(sorted, arranged);
  }

  /** The cascade keeps the one-log-per-habit-and-date invariant. */
  lemma {:induction false} CascadeKeepsOneLogPerDay(logs: seq<DailyScoreLog>, habitId: string)
    requires OneLogPerHabitAndDate(logs)
    ensures OneLogPerHabitAndDate(WithoutLogsOf(logs, habitId))
  {
    if logs != [] {
      var rest := logs[1..];
      OneLogPerDayTail(logs);
      CascadeKeepsOneLogPerDay(rest, habitId);
      var tail := WithoutLogsOf(rest, habitId);
      if logs[0].habitId != habitId {
        var r := [logs[0]] + tail;
        forall i, j | 0 <= i < j < |r| && r[i].habitId == r[j].habitId ensures r[i].date != r[j].date {
          if i == 0 {
            assert r[j] in rest;
            var k :| 0 <= k < |rest| && rest[k] == r[j];
            assert logs[k + 1] == r[j];
          } else {
            assert r[i] == tail[i - 1] && r[j] == tail[j - 1];
          }
        }
      }
    }
  }

  // ---------------------------------------------------------------------------
  // Score logs: the upsert
  // ---------------------------------------------------------------------------

  /** `l` is the log of habit `habitId` for day `date`. */
  predicate IsLogFor(l: DailyScoreLog, habitId: string, date: int) {
    l.habitId == habitId && l.date == date
  }

  /** Position of the first log of `habitId` on `date`, or -1 when there is none. */
  function FirstLogIndex(logs: seq<DailyScoreLog>, habitId: string, date: int): (r: int)
    ensures -1 <= r < |logs|
    ensures r >= 0 ==> IsLogFor(logs[r], habitId, date)
    ensures r >= 0 ==> forall j :: 0 <= j < r ==> !IsLogFor(logs[j], habitId, date)
    ensures r == -1 <==> forall j :: 0 <= j < |logs| ==> !IsLogFor(logs[j], habitId, date)
  {
    if logs == [] then -1
    else if IsLogFor(logs[0], habitId, date) then 0
    else
      var k := FirstLogIndex(logs[1..], habitId, date);
      assert forall j :: 1 <= j < |logs| ==> logs[j] == logs[1..][j - 1];
      if k == -1 then -1 else k + 1
  }

  /** The logs after `logDailyScore(habitId, score, date)`: the first log of
      that habit and day gets the new score, or, when there is none, a new
      log with id `newId` is appended. */
  function LogScore(logs: seq<DailyScoreLog>, habitId: string, score: int, date: int, newId: string)
    : (r: seq<DailyScoreLog>)
    ensures FirstLogIndex(logs, habitId, date) >= 0 ==>
      && |r| == |logs|
      && (forall j :: 0 <= j < |logs| ==> r[j] == logs[j].(score := r[j].score))
      && (forall j :: 0 <= j < |logs| && j != FirstLogIndex(logs, habitId, date) ==> r[j] == logs[j])
    ensures FirstLogIndex(logs, habitId, date) < 0 ==>
      && |r| == |logs| + 1
      && r[..|logs|] == logs
      && r[|logs|] == DailyScoreLog(newId, habitId, date, score)
    ensures FirstLogIndex(r, habitId, date) >= 0 && r[FirstLogIndex(r, habitId, date)].score == score
  {
    var k := FirstLogIndex(logs, habitId, date);
    if k >= 0 then
      var r := logs[k := logs[k].(score := score)];
      assert forall j :: 0 <= j < k ==> r[j] == logs[j];
      r
    else
      var r := logs + [DailyScoreLog(newId, habitId, date, score)];
      assert forall j :: 0 <= j < |logs| ==> r[j] == logs[j];
      r
  }

  /** Logging keeps at most one log per habit and date; afterwards the one
      log of that habit and date carries the new score. */
  lemma LogScoreKeepsOneLogPerDay(logs: seq<DailyScoreLog>, habitId: string, score: int, date: int, newId: string)
    requires OneLogPerHabitAndDate(logs)
    ensures var r := LogScore(logs, habitId, score, date, newId);
      && OneLogPerHabitAndDate(r)
      && forall j :: 0 <= j < |r| && IsLogFor(r[j], habitId, date) ==> r[j].score == score
  {
    var r := LogScore(logs, habitId, score, date, newId);
    var k := FirstLogIndex(logs, habitId, date);
    forall i, j | 0 <= i < j < |r| && r[i].habitId == r[j].habitId ensures r[i].date != r[j].date {
      if j == |logs| {
        assert !IsLogFor(logs[i], habitId, date);
      } else {
        assert r[i].date == logs[i].date && r[j].date == logs[j].date;
      }
    }
    forall j | 0 <= j < |r| && IsLogFor(r[j], habitId, date) ensures r[j].score == score {
      if k >= 0 {
        assert IsLogFor(r[k], habitId, date);
      }
    }
  }

  /** Two successive logs for the same habit and day leave exactly one log
      for that pair, carrying the second score. */
  lemma LogTwice(logs: seq<DailyScoreLog>, habitId: string, date: int,
                 first: int, second: int, id1: string, id2: string)
    requires OneLogPerHabitAndDate(logs)
    ensures var r := LogScore(LogScore(logs, habitId, first, date, id1), habitId, second, date, id2);
      && OneLogPerHabitAndDate(r)
      && FirstLogIndex(r, habitId, date) >= 0
      && forall j :: 0 <= j < |r| && IsLogFor(r[j], habitId, date) ==>
           j == FirstLogIndex(r, habitId, date) && r[j].score == second
  {
    var once := LogScore(logs, habitId, first, date, id1);
    LogScoreKeepsOneLogPerDay(logs, habitId, first, date, id1);
    LogScoreKeepsOneLogPerDay(once, habitId, second, date, id2);
    var r := LogScore(once, habitId, second, date, id2);
    var k := FirstLogIndex(r, habitId, date);
    forall j | 0 <= j < |r| && IsLogFor(r[j], habitId, date) ensures j == k {
    }
  }

  /** Logging a score for one habit leaves every other habit's logs, and so
      its details and streak, as they were. */
  lemma LogScoreKeepsOtherLogs(logs: seq<DailyScoreLog>, habitId: string, score: int, date: int,
                               newId: string, other: string)
    requires other != habitId
    ensures LogsOf(other, LogScore(logs, habitId, score, date, newId)) == LogsOf(other, logs)
  {
    var r := LogScore(logs, habitId, score, date, newId);
    var k := FirstLogIndex(logs, habitId, date);
    if k >= 0 {
      LogsOfSkipsUpdate(other, logs, k, logs[k].(score := score));
    } else {
      LogsOfConcat(other, logs, [DailyScoreLog(newId, habitId, date, score)]);
      assert [DailyScoreLog(newId, habitId, date, score)][1..] == [];
      assert logs + [] == logs;
    }
  }

  /** Replacing one log of another habit by another log of another habit
      leaves the logs of `habitId` unchanged. */
  lemma LogsOfSkipsUpdate(habitId: string, logs: seq<DailyScoreLog>, k: nat, x: DailyScoreLog)
    requires k < |logs| && logs[k].habitId != habitId && x.habitId != habitId
    ensures LogsOf(habitId, logs[k := x]) == LogsOf(habitId, logs)
  {
    var a, b := logs[..k], logs[k + 1..];
    assert logs == a + [logs[k]] + b;
    assert logs[k := x] == a + [x] + b;
    LogsOfSkipsOthers(habitId, a, logs[k], b);
    LogsOfSkipsOthers(habitId, a, x, b);
  }

  /** Finds the first log of `habitId` on `date` by a linear scan; -1 when
      there is none. */
  method FindScoreIndex(logs: seq<DailyScoreLog>, habitId: string, date: int) returns (index: int)
    ensures index == FirstLogIndex(logs, habitId, date)
  {
    index := -1;
    var i := 0;
    while i < |logs|
      invariant 0 <= i <= |logs|
      invariant forall j :: 0 <= j < i ==> !IsLogFor(logs[j], habitId, date)
    {
      if logs[i].habitId == habitId && logs[i].date == date {
        index := i;
        return;
      }
      i := i + 1;
    }
  }

  // ---------------------------------------------------------------------------
  // Templates
  // ---------------------------------------------------------------------------

  /** The template offered for a habit: its id, name, icon, notes and
      weight, with no scores. */
  function ToTemplate(h: Habit): (r: HabitTemplate)
    ensures r.id == h.id && r.name == h.name && r.icon == h.icon
    ensures r.notes == h.notes && r.weight == h.weight
    ensures r.positiveScore == None && r.negativeScore == None
    ensures TemplateKey(r) == JoinedKey(h)
  {
    HabitTemplate(h.id, h.name, h.icon, h.notes, h.weight, None, None)
  }

  /** A template's name and icon joined by "-", as its habit's JoinedKey. */
  function TemplateKey(t: HabitTemplate): string {
    Join(t.name, t.icon)
  }

  /** The templates offered for a list of habits, one per habit. */
  function TemplatesOf(hs: seq<Habit>): (r: seq<HabitTemplate>)
    ensures |r| == |hs|
    ensures forall i :: 0 <= i < |hs| ==> r[i] == ToTemplate(hs[i])
  {
    seq(|hs|, i requires 0 <= i < |hs| => ToTemplate(hs[i]))
  }

  /** Templates keep the joined key of their habit, so pairwise distinct
      keys stay distinct. */
  lemma TemplatesOfDistinct(unique: seq<Habit>)
    requires forall i, j :: 0 <= i < j < |unique| ==> JoinedKey(unique[i]) != JoinedKey(unique[j])
    ensures var ts := TemplatesOf(unique);
      forall i, j :: 0 <= i < j < |ts| ==> TemplateKey(ts[i]) != TemplateKey(ts[j])
  {
    var ts := TemplatesOf(unique);
    forall i, j | 0 <= i < j < |ts| ensures TemplateKey(ts[i]) != TemplateKey(ts[j]) {
      assert TemplateKey(ts[i]) == JoinedKey(unique[i]);
      assert TemplateKey(ts[j]) == JoinedKey(unique[j]);
    }
  }

  /** A joined key present among the habits is present among the
      templates. */
  lemma TemplatesOfCovers(habits: seq<Habit>, unique: seq<Habit>)
    requires forall h :: h in habits ==> exists t :: t in unique && JoinedKey(t) == JoinedKey(h)
    ensures var ts := TemplatesOf(unique);
      forall h :: h in habits ==> exists i :: 0 <= i < |ts| && TemplateKey(ts[i]) == JoinedKey(h)
  {
    var ts := TemplatesOf(unique);
    forall h | h in habits ensures exists i :: 0 <= i < |ts| && TemplateKey(ts[i]) == JoinedKey(h) {
      var u :| u in unique && JoinedKey(u) == JoinedKey(h);
      var i :| 0 <= i < |unique| && unique[i] == u;
      assert ts[i] == ToTemplate(u);
    }
  }

  /** `t` is the template of one of `habits`. */
  predicate IsTemplateOfSome(t: HabitTemplate, habits: seq<Habit>) {
    exists h :: h in habits && t == ToTemplate(h)
  }

  /** Every template is the template of one of the habits. */
  lemma TemplatesOfFrom(habits: seq<Habit>, unique: seq<Habit>)
    requires forall t :: t in unique ==> t in habits
    ensures forall t :: t in TemplatesOf(unique) ==> IsTemplateOfSome(t, habits)
  {
    forall t | t in TemplatesOf(unique) ensures IsTemplateOfSome(t, habits) {
      var i :| 0 <= i < |unique| && TemplatesOf(unique)[i] == t;
      assert unique[i] in unique;
    }
  }

  /** What a habit made from a template starts with: the template's name,
      icon and notes, weight 1, reward 10 and penalty -5, whatever weight or
      scores the template carries. */
  function TemplateHabitData(template: HabitTemplate): (d: HabitData)
    ensures d.name == template.name && d.icon == template.icon && d.notes == template.notes
    ensures d.weight == 1 && d.positiveScore == 10 && d.negativeScore == -5
  {
    HabitData(template.name, template.icon, template.notes, 1, 10, -5)
  }

  /** Over any logs, a habit made from a template scores 10 per completed
      day and -5 per missed day. */
  lemma TemplateHabitTotal(template: HabitTemplate, newId: string, hikeId: string, logs: seq<DailyScoreLog>)
    ensures var d := CalculateHabitDetails(MakeHabit(TemplateHabitData(template), newId, hikeId), logs);
      d.totalScore == 10 * d.completedDays - 5 * d.missedDays
  {
    var habit := MakeHabit(TemplateHabitData(template), newId, hikeId);
    assert habit.positiveScore == 10 && habit.negativeScore == -5;
  }

  /** A habit made from a template with one completed and one missed day
      scores 10 + (-5) = 5. */
  lemma TemplateHabitScore(template: HabitTemplate, newId: string, hikeId: string,
                           done: DailyScoreLog, missed: DailyScoreLog)
    requires done.habitId == newId && done.score == 1
    requires missed.habitId == newId && missed.score == 0
    ensures var d := CalculateHabitDetails(MakeHabit(TemplateHabitData(template), newId, hikeId), [done, missed]);
      d.totalScore == 5 && d.completedDays == 1 && d.missedDays == 1 && d.completionRate == 50.0
  {
    var habit := MakeHabit(TemplateHabitData(template), newId, hikeId);
    assert [done, missed][1..] == [missed];
    assert LogsOf(newId, [done, missed]) == [done, missed];
    assert CountScore([missed], 1) == 0 && CountScore([missed], 0) == 1 by {
      assert [missed][1..] == [];
    }
  }

  // ---------------------------------------------------------------------------
  // The store
  // ---------------------------------------------------------------------------

  class HabitStore {
    var hikes: seq<Hike>
    var habits: seq<Habit>
    var dailyScores: seq<DailyScoreLog>

    /** At most one score log per habit and day. Data loaded from storage
        need not satisfy it, so no operation requires it; every operation
        that changes the store keeps it (`old(Valid()) ==> Valid()`). */
    ghost predicate Valid()
      reads this
    {
      OneLogPerHabitAndDate(dailyScores)
    }

    /** An empty store (what a failed or empty load yields). */
    constructor ()
      ensures Valid()
      ensures hikes == [] && habits == [] && dailyScores == []
    {
      hikes, habits, dailyScores := [], [], [];
    }

    /** The first DRAFT or ACTIVE hike, or None. */
    function OpenHike(): (r: Option<Hike>)
      reads this
      ensures r.None? <==> forall h :: h in hikes ==> !IsOpen(h.status)
      ensures r.Some? ==> r.value in hikes && IsOpen(r.value.status)
    {
      OpenHikeOf(hikes)
    }

    /** Appends a DRAFT hike with the given data and id. */
    method CreateHike(data: HikeData, newId: string)
      modifies this
      ensures hikes == old(hikes) + [MakeHike(data, newId)]
      ensures habits == old(habits) && dailyScores == old(dailyScores)
      ensures old(Valid()) ==> Valid()
    {
      hikes := hikes + [MakeHike(data, newId)];
    }

    /** Marks every hike with id `hikeId` ACTIVE. */
    method StartHike(hikeId: string)
      modifies this
      ensures hikes == WithStarted(old(hikes), hikeId)
      ensures habits == old(habits) && dailyScores == old(dailyScores)
      ensures old(Valid()) ==> Valid()
    {
      hikes := WithStarted(hikes, hikeId);
    }

    /** Appends a habit of hike `hikeId` with the given data and id. */
    method AddHabit(hikeId: string, data: HabitData, newId: string)
      modifies this
      ensures habits == old(habits) + [MakeHabit(data, newId, hikeId)]
      ensures hikes == old(hikes) && dailyScores == old(dailyScores)
      ensures old(Valid()) ==> Valid()
    {
      habits := habits + [MakeHabit(data, newId, hikeId)];
    }

    /** Replaces every habit with `h.id` by `h`. */
    method UpdateHabit(h: Habit)
      modifies this
      ensures habits == WithUpdated(old(habits), h)
      ensures hikes == old(hikes) && dailyScores == old(dailyScores)
      ensures old(Valid()) ==> Valid()
    {
      habits := WithUpdated(habits, h);
    }

    /** Removes the habit and, in cascade, its score logs. */
    method DeleteHabit(habitId: string)
      modifies this
      ensures habits == WithoutHabit(old(habits), habitId)
      ensures dailyScores == WithoutLogsOf(old(dailyScores), habitId)
      ensures hikes == old(hikes)
      ensures old(Valid()) ==> Valid()
    {
      if Valid() { CascadeKeepsOneLogPerDay(dailyScores, habitId); }
      habits := WithoutHabit(habits, habitId);
      dailyScores := WithoutLogsOf(dailyScores, habitId);
    }

    /** Records `score` for habit `habitId` on `date`: rewrites the score of
        the first existing log of that habit and day, or appends a new log
        with id `newId`. */
    method LogDailyScore(habitId: string, score: int, date: int, newId: string)
      requires score == 0 || score == 1
      modifies this
      ensures dailyScores == LogScore(old(dailyScores), habitId, score, date, newId)
      ensures hikes == old(hikes) && habits == old(habits)
      ensures old(Valid()) ==> Valid()
    {
      if Valid() { LogScoreKeepsOneLogPerDay(dailyScores, habitId, score, date, newId); }
      var existingScoreIndex := FindScoreIndex(dailyScores, habitId, date);
      if existingScoreIndex >= 0 {
        dailyScores := dailyScores[existingScoreIndex := dailyScores[existingScoreIndex].(score := score)];
      } else {
        dailyScores := dailyScores + [DailyScoreLog(newId, habitId, date, score)];
      }
    }

    /** One template per joined "name-icon" key of the stored habits, from
        the first habit with that key, in order of first appearance; two
        templates never share a (name, icon) pair either. */
    method GetHabitTemplates() returns (templates: seq<HabitTemplate>)
      ensures templates == TemplatesOf(FirstByKey(habits, JoinedKey))
      ensures forall i, j :: 0 <= i < j < |templates| ==> TemplateKey(templates[i]) != TemplateKey(templates[j])
      ensures forall i, j :: 0 <= i < j < |templates| ==>
                (templates[i].name, templates[i].icon) != (templates[j].name, templates[j].icon)
      ensures forall h :: h in habits ==>
                exists i :: 0 <= i < |templates| && TemplateKey(templates[i]) == JoinedKey(h)
      ensures forall t :: t in templates ==> IsTemplateOfSome(t, habits)
    {
      var unique := Calculations.GetHabitTemplatesAsWritten(habits);
      templates := TemplatesOf(unique);
      TemplatesOfDistinct(unique);
      TemplatesOfCovers(habits, unique);
      TemplatesOfFrom(habits, unique);
    }

    /** Adds to hike `hikeId` a habit made from `template`. */
    method AddHabitFromTemplate(hikeId: string, template: HabitTemplate, newId: string)
      modifies this
      ensures habits == old(habits) + [MakeHabit(TemplateHabitData(template), newId, hikeId)]
      ensures hikes == old(hikes) && dailyScores == old(dailyScores)
      ensures old(Valid()) ==> Valid()
    {
      AddHabit(hikeId, TemplateHabitData(template), newId);
    }
  }
}
