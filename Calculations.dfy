/** Progress derivation: per-habit totals and completion rate, the hike
    aggregate, habit templates and the current streak. */
module Calculations {
  import opened Types

  // ---------------------------------------------------------------------------
  // Selecting one habit's logs
  // ---------------------------------------------------------------------------

  /** The logs recorded for habit `habitId`, in their original order. */
  function LogsOf(habitId: string, logs: seq<DailyScoreLog>): (r: seq<DailyScoreLog>)
    ensures |r| <= |logs|
    ensures forall l :: l in r <==> l in logs && l.habitId == habitId
    ensures r == [] <==> forall l :: l in logs ==> l.habitId != habitId
  {
    if logs == [] then []
    else
      assert logs == [logs[0]] + logs[1..];
      (if logs[0].habitId == habitId then [logs[0]] else []) + LogsOf(habitId, logs[1..])
  }

  /** Selecting distributes over concatenation: the relative order of the
      habit's logs is kept. */
  lemma {:induction false} LogsOfConcat(habitId: string, a: seq<DailyScoreLog>, b: seq<DailyScoreLog>)
    ensures LogsOf(habitId, a + b) == LogsOf(habitId, a) + LogsOf(habitId, b)
  {
    if a == [] {
      assert a + b == b;
    } else {
      var ab := a + b;
      assert ab[0] == a[0] && ab[1..] == a[1..] + b;
      var head := if a[0].habitId == habitId then [a[0]] else [];
      assert LogsOf(habitId, ab) == head + LogsOf(habitId, ab[1..]);
      assert LogsOf(habitId, a) == head + LogsOf(habitId, a[1..]);
      LogsOfConcat(habitId, a[1..], b);
      ConcatAssoc(head, LogsOf(habitId, a[1..]), LogsOf(habitId, b));
    }
  }

  lemma ConcatAssoc<T>(x: seq<T>, y: seq<T>, z: seq<T>)
    ensures x + (y + z) == (x + y) + z
  {
  }

  /** A log of another habit, wherever it stands, does not change the selection. */
  lemma LogsOfSkipsOthers(habitId: string, a: seq<DailyScoreLog>, l: DailyScoreLog, b: seq<DailyScoreLog>)
    requires l.habitId != habitId
    ensures LogsOf(habitId, a + [l] + b) == LogsOf(habitId, a + b)
  {
    assert LogsOf(habitId, [l]) == [] by {
      assert [l][1..] == [];
    }
    LogsOfConcat(habitId, a, [l]);
    LogsOfConcat(habitId, a + [l], b);
    LogsOfConcat(habitId, a, b);
  }

  // ---------------------------------------------------------------------------
  // Habit details
  // ---------------------------------------------------------------------------

  /** Number of logs in `logs` whose score is `v`. */
  function CountScore(logs: seq<DailyScoreLog>, v: int): nat {
    if logs == [] then 0
    else (if logs[0].score == v then 1 else 0) + CountScore(logs[1..], v)
  }

  /** A log that records a completed (1) or missed (0) day. */
  predicate IsBinary(l: DailyScoreLog) {
    l.score == 0 || l.score == 1
  }

  /** Points one log earns for `habit`: the reward for a 1, the penalty for a
      0, nothing for any other score. */
  function Points(habit: Habit, l: DailyScoreLog): (r: int)
    ensures l.score == 1 ==> r == habit.positiveScore
    ensures l.score == 0 ==> r == habit.negativeScore
    ensures !IsBinary(l) ==> r == 0
  {
    if l.score == 1 then habit.positiveScore
    else if l.score == 0 then habit.negativeScore
    else 0
  }

  /** The fold the habit total is computed with; it equals reward ×
      completed days + penalty × missed days. */
  function ScoreSum(habit: Habit, logs: seq<DailyScoreLog>): (r: int)
    ensures r == habit.positiveScore * CountScore(logs, 1) + habit.negativeScore * CountScore(logs, 0)
  {
    if logs == [] then 0
    else
      var c1, c0 := CountScore(logs[1..], 1), CountScore(logs[1..], 0);
      assert habit.positiveScore * (c1 + 1) == habit.positiveScore * c1 + habit.positiveScore;
      assert habit.negativeScore * (c0 + 1) == habit.negativeScore * c0 + habit.negativeScore;
      Points(habit, logs[0]) + ScoreSum(habit, logs[1..])
  }

  /** Completed plus missed days never exceed the number of logs, and reach
      it exactly when every score is 0 or 1. */
  lemma {:induction false} CountsBound(logs: seq<DailyScoreLog>)
    ensures CountScore(logs, 1) + CountScore(logs, 0) <= |logs|
    ensures CountScore(logs, 1) + CountScore(logs, 0) == |logs|
        <==> forall i :: 0 <= i < |logs| ==> IsBinary(logs[i])
  {
    if logs != [] {
      CountsBound(logs[1..]);
      if forall i :: 0 <= i < |logs[1..]| ==> IsBinary(logs[1..][i]) {
        if IsBinary(logs[0]) {
          forall i | 0 <= i < |logs| ensures IsBinary(logs[i]) {
            if i > 0 { assert logs[i] == logs[1..][i - 1]; }
          }
        }
      } else {
        var i :| 0 <= i < |logs[1..]| && !IsBinary(logs[1..][i]);
        assert logs[i + 1] == logs[1..][i];
      }
    }
  }

  /** Dividing by a positive number: bounds of the quotient. */
  lemma QuotientBounds(p: real, w: real)
    requires w > 0.0
    ensures (p / w) * w == p
    ensures 0.0 <= p ==> 0.0 <= p / w
    ensures p <= w ==> p / w <= 1.0
    ensures w <= p ==> 1.0 <= p / w
  {
  }

  /** `part` as a percentage of `whole`; 0 when `whole` is not positive, so
      there is never a division by zero. */
  function Percentage(part: int, whole: int): (r: real)
    ensures whole <= 0 ==> r == 0.0
    ensures whole > 0 ==> r * whole as real == part as real * 100.0
    ensures 0 <= part <= whole ==> 0.0 <= r <= 100.0
    ensures 0 < whole <= part ==> r >= 100.0
  {
    if whole > 0 then
      QuotientBounds(part as real, whole as real);
      (part as real / whole as real) * 100.0
    else 0.0
  }

  /** Totals for one habit. Only the logs whose habitId is `habit.id` count;
      a completed day earns `positiveScore`, a missed day `negativeScore`,
      and a log with any other score is counted as a day but earns nothing. */
  function CalculateHabitDetails(habit: Habit, logs: seq<DailyScoreLog>): (r: HabitWithDetails)
    ensures r.habit == habit
    ensures r.totalDays == |LogsOf(habit.id, logs)|
    ensures r.completedDays == CountScore(LogsOf(habit.id, logs), 1)
    ensures r.missedDays == CountScore(LogsOf(habit.id, logs), 0)
    ensures r.totalScore == habit.positiveScore * r.completedDays + habit.negativeScore * r.missedDays
    ensures r.completedDays + r.missedDays <= r.totalDays
    ensures r.completedDays + r.missedDays == r.totalDays
        <==> forall l :: l in logs && l.habitId == habit.id ==> IsBinary(l)
    ensures 0.0 <= r.completionRate <= 100.0
    ensures r.completionRate == Percentage(r.completedDays, r.totalDays)
  {
    var mine := LogsOf(habit.id, logs);
    var completed := CountScore(mine, 1);
    var missed := CountScore(mine, 0);
    CountsBound(mine);
    AllBinaryOfLogs(habit.id, logs);
    HabitWithDetails(habit, ScoreSum(habit, mine), completed, missed, |mine|,
                     Percentage(completed, |mine|))
  }

  /** "Every score of the habit's logs is 0 or 1", read on the selection or on
      the whole log list. */
  lemma AllBinaryOfLogs(habitId: string, logs: seq<DailyScoreLog>)
    ensures (forall i :: 0 <= i < |LogsOf(habitId, logs)| ==> IsBinary(LogsOf(habitId, logs)[i]))
        ==> (forall l :: l in logs && l.habitId == habitId ==> IsBinary(l))
    ensures (forall l :: l in logs && l.habitId == habitId ==> IsBinary(l))
        ==> (forall i :: 0 <= i < |LogsOf(habitId, logs)| ==> IsBinary(LogsOf(habitId, logs)[i]))
  {
    var mine := LogsOf(habitId, logs);
    if forall i :: 0 <= i < |mine| ==> IsBinary(mine[i]) {
      forall l | l in logs && l.habitId == habitId ensures IsBinary(l) {
        assert l in mine;
      }
    } else {
      var i :| 0 <= i < |mine| && !IsBinary(mine[i]);
      assert mine[i] in mine;
      assert mine[i] in logs && mine[i].habitId == habitId;
    }
  }

  /** Logs of other habits never affect a habit's details. */
  lemma DetailsSkipOthers(habit: Habit, a: seq<DailyScoreLog>, l: DailyScoreLog, b: seq<DailyScoreLog>)
    requires l.habitId != habit.id
    ensures CalculateHabitDetails(habit, a + [l] + b) == CalculateHabitDetails(habit, a + b)
  {
    LogsOfSkipsOthers(habit.id, a, l, b);
  }

  /** A habit without logs has nothing: no score, no days, rate 0. */
  lemma DetailsWithoutLogs(habit: Habit, logs: seq<DailyScoreLog>)
    requires forall l :: l in logs ==> l.habitId != habit.id
    ensures var d := CalculateHabitDetails(habit, logs);
      d.totalScore == 0 && d.totalDays == 0 && d.completionRate == 0.0
  {
  }

  // ---------------------------------------------------------------------------
  // Hike progress
  // ---------------------------------------------------------------------------

  /** The habits owned by hike `hikeId`, in their original order. */
  function HabitsOfHike(hikeId: string, habits: seq<Habit>): (r: seq<Habit>)
    ensures |r| <= |habits|
    ensures forall h :: h in r <==> h in habits && h.hikeId == hikeId
    ensures r == [] <==> forall h :: h in habits ==> h.hikeId != hikeId
  {
    if habits == [] then []
    else
      var rest := HabitsOfHike(hikeId, habits[..|habits| - 1]);
      var last := habits[|habits| - 1];
      assert habits == habits[..|habits| - 1] + [last];
      if last.hikeId == hikeId then rest + [last] else rest
  }

  /** Details of each habit, in order. */
  function DetailsOfEach(habits: seq<Habit>, logs: seq<DailyScoreLog>): (r: seq<HabitWithDetails>)
    ensures |r| == |habits|
    ensures forall i :: 0 <= i < |habits| ==> r[i] == CalculateHabitDetails(habits[i], logs)
    ensures forall h :: h in habits ==> CalculateHabitDetails(h, logs) in r
  {
    var r := seq(|habits|, i requires 0 <= i < |habits| => CalculateHabitDetails(habits[i], logs));
    assert forall i :: 0 <= i < |habits| ==> r[i] == CalculateHabitDetails(habits[i], logs);
    r
  }

  /** Sum of the habits' totals: never negative when no total is, never
      positive when no total is. */
  function SumTotals(details: seq<HabitWithDetails>): (r: int)
    ensures (forall i :: 0 <= i < |details| ==> details[i].totalScore >= 0) ==> r >= 0
    ensures (forall i :: 0 <= i < |details| ==> details[i].totalScore <= 0) ==> r <= 0
  {
    if details == [] then 0
    else SumTotals(details[..|details| - 1]) + details[|details| - 1].totalScore
  }

  /** Aggregate of one hike over the habits it owns (the clock-based day
      count is not part of this model). */
  function CalculateHikeProgress(hike: Hike, habits: seq<Habit>, logs: seq<DailyScoreLog>): (r: HikeProgress)
    ensures r.hike == hike
    ensures forall d :: d in r.habitsWithDetails ==> d.habit in habits && d.habit.hikeId == hike.id
    ensures forall h :: h in habits && h.hikeId == hike.id ==>
              CalculateHabitDetails(h, logs) in r.habitsWithDetails
    ensures r.habitsWithDetails == DetailsOfEach(HabitsOfHike(hike.id, habits), logs)
    ensures r.totalScore == OwnedPoints(hike.id, habits, logs)
    ensures r.progressPercentage == Percentage(r.totalScore, hike.targetScore)
  {
    var owned := HabitsOfHike(hike.id, habits);
    var details := DetailsOfEach(owned, logs);
    var total := SumTotals(details);
    OwnedTotalByCounts(hike.id, habits, logs);
    HikeProgress(hike, total, Percentage(total, hike.targetScore), details)
  }

  /** Appending a habit appends it to its own hike's habits only. */
  lemma HabitsOfHikeSnoc(hikeId: string, habits: seq<Habit>, h: Habit)
    ensures HabitsOfHike(hikeId, habits + [h])
         == if h.hikeId == hikeId then HabitsOfHike(hikeId, habits) + [h] else HabitsOfHike(hikeId, habits)
  {
    var grown := habits + [h];
    assert grown[..|grown| - 1] == habits && grown[|grown| - 1] == h;
  }

  /** Appending a habit adds its total to the sum of totals. */
  lemma SumTotalsSnoc(owned: seq<Habit>, h: Habit, logs: seq<DailyScoreLog>)
    ensures SumTotals(DetailsOfEach(owned + [h], logs))
         == SumTotals(DetailsOfEach(owned, logs)) + CalculateHabitDetails(h, logs).totalScore
  {
    var d := DetailsOfEach(owned + [h], logs);
    assert d[..|d| - 1] == DetailsOfEach(owned, logs);
    assert d[|d| - 1] == CalculateHabitDetails(h, logs);
  }

  /** The hike total grows by a habit's own total exactly when that habit
      belongs to the hike: a habit of another hike changes nothing. */
  lemma HikeTotalSnoc(hike: Hike, habits: seq<Habit>, h: Habit, logs: seq<DailyScoreLog>)
    ensures CalculateHikeProgress(hike, habits + [h], logs).totalScore
         == CalculateHikeProgress(hike, habits, logs).totalScore
            + (if h.hikeId == hike.id then CalculateHabitDetails(h, logs).totalScore else 0)
  {
    HabitsOfHikeSnoc(hike.id, habits, h);
    if h.hikeId == hike.id {
      SumTotalsSnoc(HabitsOfHike(hike.id, habits), h, logs);
    }
  }

  /** A hike none of whose habits is in the list has total 0. */
  lemma {:induction false} HikeTotalWithoutHabits(hike: Hike, habits: seq<Habit>, logs: seq<DailyScoreLog>)
    requires forall h :: h in habits ==> h.hikeId != hike.id
    ensures CalculateHikeProgress(hike, habits, logs).totalScore == 0
    ensures CalculateHikeProgress(hike, habits, logs).progressPercentage == 0.0
  {
  }

  /** The sum of the owned habits' totals is the sum, over the owned habits,
      of reward × completed days + penalty × missed days. */
  lemma {:induction false} OwnedTotalByCounts(hikeId: string, habits: seq<Habit>, logs: seq<DailyScoreLog>)
    ensures SumTotals(DetailsOfEach(HabitsOfHike(hikeId, habits), logs)) == OwnedPoints(hikeId, habits, logs)
  {
    if habits != [] {
      var init, last := habits[..|habits| - 1], habits[|habits| - 1];
      assert habits == init + [last];
      OwnedTotalByCounts(hikeId, init, logs);
      HabitsOfHikeSnoc(hikeId, init, last);
      if last.hikeId == hikeId {
        SumTotalsSnoc(HabitsOfHike(hikeId, init), last, logs);
      }
    }
  }

  /** Reference sum used by OwnedTotalByCounts, read straight off the habits list. */
  function OwnedPoints(hikeId: string, habits: seq<Habit>, logs: seq<DailyScoreLog>): int {
    if habits == [] then 0
    else
      var h := habits[|habits| - 1];
      var mine := LogsOf(h.id, logs);
      OwnedPoints(hikeId, habits[..|habits| - 1], logs)
        + (if h.hikeId == hikeId
           then h.positiveScore * CountScore(mine, 1) + h.negativeScore * CountScore(mine, 0)
           else 0)
  }

  // ---------------------------------------------------------------------------
  // Habit templates
  // ---------------------------------------------------------------------------

  /** A name and an icon joined by "-". */
  function Join(name: string, icon: string): (r: string)
    ensures |r| == |name| + 1 + |icon|
    ensures r[..|name|] == name && r[|name|] == '-' && r[|name| + 1..] == icon
  {
    name + "-" + icon
  }

  /** The key the source deduplicates templates by: the habit's name and
      icon joined by "-". */
  function JoinedKey(h: Habit): (r: string)
    ensures |r| == |h.name| + 1 + |h.icon|
    ensures r[..|h.name|] == h.name && r[|h.name|] == '-' && r[|h.name| + 1..] == h.icon
  {
    Join(h.name, h.icon)
  }

  /** The (name, icon) pair itself. */
  function PairKey(h: Habit): (string, string) {
    (h.name, h.icon)
  }

  /** Keys of a sequence of habits, position by position. */
  function KeysOf<K>(hs: seq<Habit>, key: Habit -> K): (r: seq<K>)
    ensures |r| == |hs|
    ensures forall i :: 0 <= i < |hs| ==> r[i] == key(hs[i])
  {
    seq(|hs|, i requires 0 <= i < |hs| => key(hs[i]))
  }

  /** The first habit of each key, in order of first occurrence. */
  function FirstByKey<K(==)>(habits: seq<Habit>, key: Habit -> K): seq<Habit> {
    if habits == [] then []
    else
      var kept := FirstByKey(habits[..|habits| - 1], key);
      var h := habits[|habits| - 1];
      if key(h) in KeysOf(kept, key) then kept else kept + [h]
  }

  /** `i` is the position of the first habit in `habits` with its key. */
  ghost predicate IsFirstWithKey<K>(habits: seq<Habit>, key: Habit -> K, i: int) {
    0 <= i < |habits| && forall j :: 0 <= j < i ==> key(habits[j]) != key(habits[i])
  }

  /** Every kept habit comes from the input. */
  lemma {:induction false} FirstByKeyFrom<K>(habits: seq<Habit>, key: Habit -> K)
    ensures forall t :: t in FirstByKey(habits, key) ==> t in habits
  {
    if habits != [] {
      var init := habits[..|habits| - 1];
      assert habits == init + [habits[|habits| - 1]];
      FirstByKeyFrom(init, key);
    }
  }

  /** No two kept habits share a key. */
  lemma {:induction false} FirstByKeyDistinct<K>(habits: seq<Habit>, key: Habit -> K)
    ensures forall i, j :: 0 <= i < j < |FirstByKey(habits, key)| ==>
              key(FirstByKey(habits, key)[i]) != key(FirstByKey(habits, key)[j])
  {
    if habits != [] {
      var init, h := habits[..|habits| - 1], habits[|habits| - 1];
      FirstByKeyDistinct(init, key);
      var kept := FirstByKey(init, key);
      if key(h) !in KeysOf(kept, key) {
        var r := kept + [h];
        assert FirstByKey(habits, key) == r;
        forall i, j | 0 <= i < j < |r| ensures key(r[i]) != key(r[j]) {
          if j < |kept| {
            assert r[i] == kept[i] && r[j] == kept[j];
            assert key(kept[i]) != key(kept[j]);
          } else {
            assert r[i] == kept[i] && r[j] == h;
            assert KeysOf(kept, key)[i] == key(kept[i]);
            assert key(kept[i]) != key(h);
          }
        }
      }
    }
  }

  /** Every key of the input is the key of some kept habit. */
  lemma {:induction false} FirstByKeyCovers<K>(habits: seq<Habit>, key: Habit -> K)
    ensures forall h :: h in habits ==> key(h) in KeysOf(FirstByKey(habits, key), key)
  {
    if habits != [] {
      var init, h := habits[..|habits| - 1], habits[|habits| - 1];
      assert habits == init + [h];
      FirstByKeyCovers(init, key);
      var kept := FirstByKey(init, key);
      var r := FirstByKey(habits, key);
      forall g | g in habits ensures key(g) in KeysOf(r, key) {
        if g == h && key(h) !in KeysOf(kept, key) {
          assert KeysOf(r, key)[|kept|] == key(h);
        } else if g == h {
        } else {
          assert g in init;
          var m :| 0 <= m < |kept| && KeysOf(kept, key)[m] == key(g);
          assert KeysOf(r, key)[m] == key(g);
        }
      }
    }
  }

  /** A first occurrence stays one when a habit is appended. */
  lemma FirstWithKeyExtends<K>(init: seq<Habit>, h: Habit, key: Habit -> K, i: int)
    requires IsFirstWithKey(init, key, i)
    ensures IsFirstWithKey(init + [h], key, i) && (init + [h])[i] == init[i]
  {
    assert forall j :: 0 <= j <= i ==> (init + [h])[j] == init[j];
  }

  /** An appended habit whose key was not kept yet is the first of its key. */
  lemma NewKeyIsFirst<K>(init: seq<Habit>, h: Habit, key: Habit -> K)
    requires key(h) !in KeysOf(FirstByKey(init, key), key)
    ensures IsFirstWithKey(init + [h], key, |init|)
  {
    FirstByKeyCovers(init, key);
    forall j | 0 <= j < |init| ensures key((init + [h])[j]) != key(h) {
      assert (init + [h])[j] == init[j];
      assert init[j] in init;
    }
  }

  /** `idx` lists, in increasing order, first positions in `habits` of the
      keys of `r`, and `r` holds the habits at those positions. */
  ghost predicate FirstPositions<K>(habits: seq<Habit>, key: Habit -> K, r: seq<Habit>, idx: seq<nat>) {
    && |idx| == |r|
    && (forall i :: 0 <= i < |r| ==> IsFirstWithKey(habits, key, idx[i]) && habits[idx[i]] == r[i])
    && (forall i, j :: 0 <= i < j < |r| ==> idx[i] < idx[j])
  }

  /** Each kept habit is the first of its key in the input, and the kept
      habits are listed in the order of those first positions. */
  lemma {:induction false} FirstByKeyFirstOccurrences<K>(habits: seq<Habit>, key: Habit -> K)
    ensures exists idx: seq<nat> :: FirstPositions(habits, key, FirstByKey(habits, key), idx)
  {
    if habits == [] {
      assert FirstPositions(habits, key, FirstByKey(habits, key), []);
    } else {
      var init, h := habits[..|habits| - 1], habits[|habits| - 1];
      assert habits == init + [h];
      FirstByKeyFirstOccurrences(init, key);
      var kept := FirstByKey(init, key);
      var idx: seq<nat> :| FirstPositions(init, key, kept, idx);
      forall i | 0 <= i < |kept| ensures IsFirstWithKey(habits, key, idx[i]) && habits[idx[i]] == kept[i] {
        FirstWithKeyExtends(init, h, key, idx[i]);
      }
      var r := FirstByKey(habits, key);
      if key(h) !in KeysOf(kept, key) {
        NewKeyIsFirst(init, h, key);
        assert r == kept + [h];
        assert FirstPositions(habits, key, r, idx + [|init|]);
      } else {
        assert r == kept;
        assert FirstPositions(habits, key, r, idx);
      }
    }
  }

  /** Deduplicates `habits` by `key`, keeping the first habit of each key,
      in insertion order of the keys: a map filled in one pass plus the
      order in which its keys were first set. */
  method TemplatesByKey<K(==)>(habits: seq<Habit>, key: Habit -> K) returns (templates: seq<Habit>)
    ensures templates == FirstByKey(habits, key)
  {
    var unique: map<K, Habit> := map[];
    var order: seq<K> := [];
    for i := 0 to |habits|
      invariant |order| == |FirstByKey(habits[..i], key)|
      invariant order == KeysOf(FirstByKey(habits[..i], key), key)
      invariant unique.Keys == set k | k in order
      invariant forall j :: 0 <= j < |order| ==> unique[order[j]] == FirstByKey(habits[..i], key)[j]
    {
      var h := habits[i];
      assert habits[..i + 1][..i] == habits[..i];
      assert habits[..i + 1][i] == h;
      if key(h) !in unique {
        unique := unique[key(h) := h];
        order := order + [key(h)];
      }
    }
    assert habits[..|habits|] == habits;
    templates := seq(|order|, j requires 0 <= j < |order| => unique[order[j]]);
  }

  /** The source's `getHabitTemplates`, deduplicating by JoinedKey. */
  method GetHabitTemplatesAsWritten(habits: seq<Habit>) returns (templates: seq<Habit>)
    ensures templates == FirstByKey(habits, JoinedKey)
    ensures forall i, j :: 0 <= i < j < |templates| ==> JoinedKey(templates[i]) != JoinedKey(templates[j])
    ensures forall h :: h in habits ==> exists t :: t in templates && JoinedKey(t) == JoinedKey(h)
    ensures forall t :: t in templates ==> t in habits
  {
    templates := TemplatesByKey(habits, JoinedKey);
    FirstByKeyDistinct(habits, JoinedKey);
    FirstByKeyCovers(habits, JoinedKey);
    FirstByKeyFrom(habits, JoinedKey);
    forall h | h in habits ensures exists t :: t in templates && JoinedKey(t) == JoinedKey(h) {
      var m :| 0 <= m < |templates| && KeysOf(templates, JoinedKey)[m] == JoinedKey(h);
      assert templates[m] in templates;
    }
  }

  /** Two habits with different (name, icon) pairs that JoinedKey confuses:
      only the first survives deduplication. */
  lemma JoinedKeyCollides(a: Habit, b: Habit)
    requires a.name == "a-b" && a.icon == "c"
    requires b.name == "a" && b.icon == "b-c"
    ensures PairKey(a) != PairKey(b)
    ensures JoinedKey(a) == JoinedKey(b)
    ensures FirstByKey([a, b], JoinedKey) == [a]
    ensures FirstByKey([a, b], PairKey) == [a, b]
  {
    assert JoinedKey(a) == "a-b-c";
    assert JoinedKey(b) == "a-b-c";
    assert PairKey(a) != PairKey(b) by { assert |a.name| != |b.name|; }
    assert [a, b][..1] == [a];
    assert [a][..0] == [];
    assert FirstByKey([a], JoinedKey) == [a];
    assert KeysOf([a], JoinedKey) == [JoinedKey(a)];
    assert FirstByKey([a], PairKey) == [a];
    assert KeysOf([a], PairKey) == [PairKey(a)];
  }

  /** Templates keyed by the (name, icon) pair: one habit per pair. */
  method GetHabitTemplatesByPair(habits: seq<Habit>) returns (templates: seq<Habit>)
    ensures templates == FirstByKey(habits, PairKey)
    ensures forall i, j :: 0 <= i < j < |templates| ==>
              (templates[i].name, templates[i].icon) != (templates[j].name, templates[j].icon)
    ensures forall h :: h in habits ==> exists t :: t in templates && t.name == h.name && t.icon == h.icon
    ensures forall t :: t in templates ==> t in habits
  {
    templates := TemplatesByKey(habits, PairKey);
    FirstByKeyDistinct(habits, PairKey);
    FirstByKeyCovers(habits, PairKey);
    FirstByKeyFrom(habits, PairKey);
    forall h | h in habits ensures exists t :: t in templates && t.name == h.name && t.icon == h.icon {
      var m :| 0 <= m < |templates| && KeysOf(templates, PairKey)[m] == PairKey(h);
      assert templates[m] in templates;
    }
  }

  // ---------------------------------------------------------------------------
  // Current streak
  // ---------------------------------------------------------------------------

  /** Newest first: no log is older than a later one. */
  predicate DateDescending(s: seq<DailyScoreLog>) {
    forall i, j :: 0 <= i < j < |s| ==> s[i].date >= s[j].date
  }

  /** Inserts `l` into newest-first `s`, ahead of every log no newer than it. */
  function InsertByDate(l: DailyScoreLog, s: seq<DailyScoreLog>): (r: seq<DailyScoreLog>)
    requires DateDescending(s)
    ensures DateDescending(r)
    ensures multiset(r) == multiset(s) + multiset{l}
    ensures |r| == |s| + 1
    ensures r != [] && (r[0] == l || (s != [] && r[0] == s[0]))
  {
    if s == [] || s[0].date <= l.date then [l] + s
    else
      var rest := InsertByDate(l, s[1..]);
      assert s == [s[0]] + s[1..];
      [s[0]] + rest
  }

  /** The stable newest-first sort of the source's date comparator. */
  function SortByDateDesc(s: seq<DailyScoreLog>): (r: seq<DailyScoreLog>)
    ensures DateDescending(r)
    ensures multiset(r) == multiset(s)
    ensures |r| == |s|
  {
    if s == [] then []
    else
      assert s == [s[0]] + s[1..];
      InsertByDate(s[0], SortByDateDesc(s[1..]))
  }

  /** The habit's logs, newest first, as the streak walks them. */
  function NewestFirst(habitId: string, logs: seq<DailyScoreLog>): seq<DailyScoreLog> {
    SortByDateDesc(LogsOf(habitId, logs))
  }

  /** Count of the leading completed days of the habit's logs, newest first. */
  method GetCurrentStreak(habitId: string, logs: seq<DailyScoreLog>) returns (streak: nat)
    ensures streak <= |NewestFirst(habitId, logs)|
    ensures forall i :: 0 <= i < streak ==> NewestFirst(habitId, logs)[i].score == 1
    ensures streak < |NewestFirst(habitId, logs)| ==> NewestFirst(habitId, logs)[streak].score != 1
  {
    var habitScores := NewestFirst(habitId, logs);
    streak := 0;
    for i := 0 to |habitScores|
      invariant streak == i
      invariant forall k :: 0 <= k < i ==> habitScores[k].score == 1
    {
      if habitScores[i].score == 1 {
        streak := streak + 1;
      } else {
        break;
      }
    }
  }

  /** The streak is at most the number of the habit's logs; it is 0 when the
      habit has no logs or when its newest log is not a completed day. */
  lemma StreakBounds(habitId: string, logs: seq<DailyScoreLog>, streak: nat)
    requires streak <= |NewestFirst(habitId, logs)|
    requires forall i :: 0 <= i < streak ==> NewestFirst(habitId, logs)[i].score == 1
    requires streak < |NewestFirst(habitId, logs)| ==> NewestFirst(habitId, logs)[streak].score != 1
    ensures streak <= |LogsOf(habitId, logs)|
    ensures LogsOf(habitId, logs) == [] ==> streak == 0
    ensures (forall l :: l in logs && l.habitId == habitId ==> l.score != 1) ==> streak == 0
  {
    var newestFirst := NewestFirst(habitId, logs);
    if streak > 0 {
      assert newestFirst[0] in multiset(newestFirst);
      assert newestFirst[0] in LogsOf(habitId, logs);
    }
  }

  /** No two logs of the sequence fall on the same date. */
  predicate DistinctDates(s: seq<DailyScoreLog>) {
    forall i, j :: 0 <= i < j < |s| ==> s[i].date != s[j].date
  }

  /** Putting a log with a new date in front keeps the dates distinct. */
  lemma DistinctDatesCons(x: DailyScoreLog, t: seq<DailyScoreLog>)
    requires DistinctDates(t)
    requires forall y :: y in t ==> y.date != x.date
    ensures DistinctDates([x] + t)
  {
    var r := [x] + t;
    forall i, j | 0 <= i < j < |r| ensures r[i].date != r[j].date {
      assert r[j] == t[j - 1];
      if i > 0 { assert r[i] == t[i - 1]; }
    }
  }

  /** Dropping the first log keeps the dates distinct, and its date is not
      repeated later. */
  lemma DistinctDatesTail(s: seq<DailyScoreLog>)
    requires s != [] && DistinctDates(s)
    ensures DistinctDates(s[1..])
    ensures forall y :: y in s[1..] ==> y.date != s[0].date
  {
    var rest := s[1..];
    forall i, j | 0 <= i < j < |rest| ensures rest[i].date != rest[j].date {
      assert rest[i] == s[i + 1] && rest[j] == s[j + 1];
    }
    forall y | y in rest ensures y.date != s[0].date {
      var k :| 0 <= k < |rest| && rest[k] == y;
      assert s[k + 1] == y;
    }
  }

  /** Inserting a log whose date is new keeps the dates distinct. */
  lemma {:induction false} InsertKeepsDistinctDates(l: DailyScoreLog, s: seq<DailyScoreLog>)
    requires DateDescending(s) && DistinctDates(s)
    requires forall x :: x in s ==> x.date != l.date
    ensures DistinctDates(InsertByDate(l, s))
  {
    if s == [] || s[0].date <= l.date {
      DistinctDatesCons(l, s);
    } else {
      var rest := s[1..];
      DistinctDatesTail(s);
      assert forall x :: x in rest ==> x in s;
      InsertKeepsDistinctDates(l, rest);
      var ins := InsertByDate(l, rest);
      forall y | y in ins ensures y.date != s[0].date {
        assert y in multiset(ins);
      }
      DistinctDatesCons(s[0], ins);
    }
  }

  /** Sorting logs with distinct dates keeps the dates distinct. */
  lemma {:induction false} SortKeepsDistinctDates(s: seq<DailyScoreLog>)
    requires DistinctDates(s)
    ensures DistinctDates(SortByDateDesc(s))
  {
    if s != [] {
      var rest := s[1..];
      DistinctDatesTail(s);
      SortKeepsDistinctDates(rest);
      var sorted := SortByDateDesc(rest);
      forall x | x in sorted ensures x.date != s[0].date {
        assert x in multiset(rest);
      }
      InsertKeepsDistinctDates(s[0], sorted);
    }
  }

  /** The head of a newest-first sequence is at least as new as any of its logs. */
  lemma HeadIsNewest(s: seq<DailyScoreLog>, x: DailyScoreLog)
    requires DateDescending(s) && x in s
    ensures s[0].date >= x.date
  {
    var k :| 0 <= k < |s| && s[k] == x;
    if k > 0 { assert s[0].date >= s[k].date; }
  }

  /** Two newest-first arrangements of the same logs, one of them with
      distinct dates, start with the same log. */
  lemma SameNewest(a: seq<DailyScoreLog>, b: seq<DailyScoreLog>)
    requires DateDescending(a) && DateDescending(b)
    requires multiset(a) == multiset(b) && a != []
    requires DistinctDates(a)
    ensures b != [] && a[0] == b[0]
  {
    assert a[0] in multiset(b);
    assert b[0] in multiset(a);
    HeadIsNewest(a, b[0]);
    HeadIsNewest(b, a[0]);
    var j :| 0 <= j < |a| && a[j] == b[0];
  }

  /** Dropping the same first log from two arrangements of the same logs
      leaves arrangements of the same logs. */
  lemma SameRest(a: seq<DailyScoreLog>, b: seq<DailyScoreLog>)
    requires a != [] && b != [] && a[0] == b[0]
    requires multiset(a) == multiset(b)
    ensures multiset(a[1..]) == multiset(b[1..])
  {
    assert a == [a[0]] + a[1..];
    assert b == [b[0]] + b[1..];
    assert multiset(a[1..]) == multiset(a) - multiset{a[0]};
    assert multiset(b[1..]) == multiset(b) - multiset{b[0]};
  }

  /** When a habit has at most one log per date, its newest-first order is
      the only one: any date-descending arrangement of the same logs is this
      one, so the streak does not depend on how ties would be broken. */
  lemma {:induction false} NewestFirstUnique(a: seq<DailyScoreLog>, b: seq<DailyScoreLog>)
    requires DateDescending(a) && DateDescending(b)
    requires multiset(a) == multiset(b)
    requires DistinctDates(a)
    ensures a == b
  {
    if a == [] {
      assert |b| == |multiset(b)| == 0;
    } else {
      SameNewest(a, b);
      SameRest(a, b);
      assert DistinctDates(a[1..]) by {
        forall i, k | 0 <= i < k < |a[1..]| ensures a[1..][i].date != a[1..][k].date {
          assert a[1..][i] == a[i + 1] && a[1..][k] == a[k + 1];
        }
      }
      NewestFirstUnique(a[1..], b[1..]);
      assert a == [a[0]] + a[1..] && b == [b[0]] + b[1..];
    }
  }
}
