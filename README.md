# Habit trek: verified model of the habit calculations and the habit store

The app tracks *hikes*: time-boxed goals. Each hike owns *habits*. Each
habit earns a reward (`positiveScore`) on a completed day and a penalty
(`negativeScore`) on a missed day. The user records days as *daily score
logs*. A log holds a score of 1 (completed) or 0 (missed). This project
models the two files that hold the app's logic:

- `Calculations` (`Calculations.dfy`) models `useHabitCalculations.ts`:
  - a habit's details: total score, completed, missed and total days, and completion rate;
  - a hike's progress: the total over the habits it owns, and the percentage of its target;
  - deduplication of habits into templates;
  - the current streak of completed days, newest first.
- `Store` (`Store.dfy`) models the state held by `HabitContext.tsx` as the
  class `HabitStore`. Its three `seq` fields are `hikes`, `habits` and
  `dailyScores`. Each method replaces a field the way the source's
  `setState` call does, through a pure function on the old collection.
  Properties are proved about those functions:
  - the open hike;
  - creating and starting hikes;
  - adding, updating and deleting habits, with the cascade to their logs;
  - the score-log upsert;
  - templates.
- `Types` (`Types.dfy`) holds the records of `types.ts`.

Modelling choices:

- Dates are day numbers (`int`).
- Ids are strings.
- Numbers are `int`, and percentages are exact `real`s.
- A fresh id (`Date.now()` in the source) and the day being logged are parameters.

Behaviour of the code worth knowing:

- `createHike` appends a DRAFT hike and does not retire the previous open hike (`Store.CreateHikeOpen`).
- The open hike is the *first* DRAFT or ACTIVE hike in list order, not the most recently created one.
- `startHike` makes any hike with the id ACTIVE, even a COMPLETED or ABANDONED one.
- `totalDays` counts every log of the habit. It equals completed plus missed days exactly when every score is 0 or 1 (`Calculations.CalculateHabitDetails`).
- `weight` is carried along but never used in scoring.
- `HabitContext.tsx` takes `calculateHikeProgress` from the calculations hook (src/contexts/HabitContext.tsx:45) but never calls it, so the hikes it stores never carry a total; the home screen's `openHike.totalScore` (src/screens/HomeScreen.tsx:34) is never set.
- Templates are deduplicated by the string `name + "-" + icon`, so two habits with different (name, icon) pairs can collide (see "## Findings"). `Store.HabitStore.GetHabitTemplates` follows the code and keys on that string.

## Model

| member | source | states |
|---|---|---|
| Types.MakeHike | src/contexts/HabitContext.tsx:88-92 | a new hike holds exactly the caller's data under the new id, with status DRAFT, so it is open |
| Types.MakeHabit | src/contexts/HabitContext.tsx:103-107 | a new habit holds exactly the caller's data under the new id, attached to the given hike |
| Calculations.LogsOf | src/hooks/useHabitCalculations.ts:10 | a log is kept iff it belongs to the habit; the result is empty iff no log of the habit exists |
| Calculations.LogsOfConcat | src/hooks/useHabitCalculations.ts:10 | selecting a habit's logs distributes over concatenation, so their relative order is kept |
| Calculations.LogsOfSkipsOthers | src/hooks/useHabitCalculations.ts:10 | inserting another habit's log anywhere does not change a habit's selected logs |
| Calculations.Points | src/hooks/useHabitCalculations.ts:11-18 | a log scores the reward when it is 1, the penalty when it is 0, and nothing for any other score |
| Calculations.ScoreSum | src/hooks/useHabitCalculations.ts:11-18 | the reward/penalty fold equals reward × completed days + penalty × missed days |
| Calculations.CountsBound | src/hooks/useHabitCalculations.ts:20-22 | completed + missed ≤ number of logs, with equality iff every score is 0 or 1 |
| Calculations.Percentage | src/hooks/useHabitCalculations.ts:30 | 0 when the whole is not positive (no division by zero); otherwise r × whole = part × 100; within [0, 100] when 0 ≤ part ≤ whole; at least 100 when part ≥ whole > 0 |
| Calculations.CalculateHabitDetails | src/hooks/useHabitCalculations.ts:6-32 | the total is reward × completed + penalty × missed over the habit's logs only; totalDays is the number of its logs; completed + missed = totalDays iff all its scores are 0/1; the rate is completed as a percentage of totalDays and lies in [0, 100] |
| Calculations.AllBinaryOfLogs | src/hooks/useHabitCalculations.ts:20-22 | every selected log is 0/1 iff every log of that habit in the input is 0/1 |
| Calculations.DetailsSkipOthers | src/hooks/useHabitCalculations.ts:10 | a log of another habit never changes a habit's details |
| Calculations.DetailsWithoutLogs | src/hooks/useHabitCalculations.ts:22-30 | a habit without logs has total 0, no days and rate 0 |
| Calculations.HabitsOfHike | src/hooks/useHabitCalculations.ts:35 | a habit is kept iff the hike owns it; empty iff the hike owns none |
| Calculations.DetailsOfEach | src/hooks/useHabitCalculations.ts:36-38 | one detail per habit, in order: the i-th is the details of the i-th habit over the same logs |
| Calculations.SumTotals | src/hooks/useHabitCalculations.ts:40 | the sum of the totals is non-negative when every total is, and non-positive when every total is |
| Calculations.CalculateHikeProgress | src/hooks/useHabitCalculations.ts:34-51 | the details are those of exactly the hike's own habits, in order; the total is the independent sum over those habits of reward × completed + penalty × missed; the percentage is the total as a percentage of the target, 0 for a non-positive target |
| Calculations.HikeTotalSnoc | src/hooks/useHabitCalculations.ts:40 | appending a habit adds its total to the hike total iff the hike owns it |
| Calculations.HikeTotalWithoutHabits | src/hooks/useHabitCalculations.ts:35-42 | a hike owning no habit has total 0 and progress 0 |
| Calculations.OwnedTotalByCounts | src/hooks/useHabitCalculations.ts:34-40 | the sum of the owned habits' totals equals an independent sum over owned habits of reward × completed + penalty × missed |
| Calculations.Join | src/hooks/useHabitCalculations.ts:57 | a name and an icon joined by "-": the name, then "-", then the icon |
| Calculations.JoinedKey | src/hooks/useHabitCalculations.ts:57 | the key is the name, then "-", then the icon, so its length is their lengths plus one |
| Calculations.FirstByKeyFrom | src/hooks/useHabitCalculations.ts:53-64 | every template is one of the input habits |
| Calculations.FirstByKeyDistinct | src/hooks/useHabitCalculations.ts:56-61 | no two templates share a key |
| Calculations.FirstByKeyCovers | src/hooks/useHabitCalculations.ts:56-61 | every key of the input appears among the templates |
| Calculations.FirstByKeyFirstOccurrences | src/hooks/useHabitCalculations.ts:56-63 | the templates are the first habits of their keys, in order of first appearance |
| Calculations.TemplatesByKey | src/hooks/useHabitCalculations.ts:53-64 | the insertion-ordered map loop returns exactly the first habit of each key, in order of first appearance |
| Calculations.GetHabitTemplatesAsWritten | src/hooks/useHabitCalculations.ts:53-64 | the source's deduplication by the joined string name + "-" + icon: the first habit of each joined key, no two sharing a key, every habit's key covered, all drawn from the input |
| Calculations.JoinedKeyCollides | src/hooks/useHabitCalculations.ts:57 | two habits with different (name, icon) pairs share a joined key, and the joined-key version drops the second |
| Calculations.GetHabitTemplatesByPair | src/hooks/useHabitCalculations.ts:53-64 | one template per distinct (name, icon) pair, the first habit of each; every pair covered; all drawn from the input |
| Calculations.InsertByDate | src/hooks/useHabitCalculations.ts:67-69 | insertion keeps the newest-first order and adds exactly the one log |
| Calculations.SortByDateDesc | src/hooks/useHabitCalculations.ts:67-69 | the result is newest first and a permutation of the input |
| Calculations.GetCurrentStreak | src/hooks/useHabitCalculations.ts:66-80 | the streak is the length of the leading run of completed days among the habit's logs sorted newest first |
| Calculations.StreakBounds | src/hooks/useHabitCalculations.ts:66-80 | the streak is at most the number of the habit's logs, and 0 when it has no logs or no completed day |
| Calculations.InsertKeepsDistinctDates | src/hooks/useHabitCalculations.ts:67-69 | inserting a log whose date is new keeps the dates distinct |
| Calculations.SortKeepsDistinctDates | src/hooks/useHabitCalculations.ts:67-69 | sorting logs with distinct dates keeps them distinct |
| Calculations.NewestFirstUnique | src/hooks/useHabitCalculations.ts:67-69 | two newest-first arrangements of the same logs with distinct dates are equal |
| Store.FirstOpenIndex | src/contexts/HabitContext.tsx:85 | the position of the first DRAFT or ACTIVE hike, none iff there is no such hike |
| Store.OpenHikeOf | src/contexts/HabitContext.tsx:85 | the open hike is a DRAFT or ACTIVE hike of the list, with no open hike before it; none iff no hike is open |
| Store.HabitStore.OpenHike | src/contexts/HabitContext.tsx:85 | the store's open hike is a DRAFT or ACTIVE hike it holds; none iff it holds no open hike |
| Store.CreateHikeOpen | src/contexts/HabitContext.tsx:85-94 | after creating a hike the open hike is unchanged if one existed, else it is the new DRAFT hike |
| Store.WithStarted | src/contexts/HabitContext.tsx:96-100 | same length; hikes with the id become ACTIVE, nothing else about any hike changes |
| Store.StartUnknownHike | src/contexts/HabitContext.tsx:96-100 | starting an id not in the list changes nothing |
| Store.StartHikeOpen | src/contexts/HabitContext.tsx:85-100 | after starting, the open hike is the first hike that was open or carries the id |
| Store.AddFreshHabitKeepsTotal | src/contexts/HabitContext.tsx:102-109 | adding a habit that has no logs leaves every hike's total unchanged |
| Store.WithUpdated | src/contexts/HabitContext.tsx:111-115 | same length; habits with the id are replaced by the update, all others keep place and value |
| Store.UpdateUnknownHabit | src/contexts/HabitContext.tsx:111-115 | updating an id not in the list is the identity |
| Store.UpdateIdempotent | src/contexts/HabitContext.tsx:111-115 | updating twice with the same habit equals updating once |
| Store.WithoutHabit | src/contexts/HabitContext.tsx:118 | a habit survives iff its id differs from the deleted one |
| Store.WithoutHabitConcat | src/contexts/HabitContext.tsx:118 | deletion distributes over concatenation, so survivors keep their order |
| Store.WithoutLogsOf | src/contexts/HabitContext.tsx:119 | a log survives iff it belongs to another habit |
| Store.WithoutLogsOfConcat | src/contexts/HabitContext.tsx:119 | the cascade distributes over concatenation, so surviving logs keep their order |
| Store.CascadeKeepsOtherLogs | src/contexts/HabitContext.tsx:119 | every other habit's logs are exactly as before, in order |
| Store.CascadeKeepsDetails | src/contexts/HabitContext.tsx:117-120 | other habits' details are unchanged; the deleted habit is left with no logs |
| Store.CascadeKeepsOneLogPerDay | src/contexts/HabitContext.tsx:117-120 | the cascade keeps at most one log per habit and date |
| Store.OneLogPerDayDistinctDates | src/contexts/HabitContext.tsx:122-141 | with one log per habit and date, a habit's logs fall on distinct dates |
| Store.NewestFirstIsCanonical | src/contexts/HabitContext.tsx:122-141 | with one log per habit and date, any newest-first arrangement of a habit's logs is the one the streak walks |
| Store.FirstLogIndex | src/contexts/HabitContext.tsx:124-126 | the first log of the habit on the date, -1 iff there is none |
| Store.FindScoreIndex | src/contexts/HabitContext.tsx:124-126 | the linear search finds the first log of the habit on the date, or -1 |
| Store.LogScore | src/contexts/HabitContext.tsx:122-141 | an existing log of that habit and date keeps its id, habit and date and takes the new score, all other logs unchanged; otherwise exactly the new log is appended; afterwards the search finds a log carrying the new score |
| Store.LogScoreKeepsOneLogPerDay | src/contexts/HabitContext.tsx:124-139 | logging keeps at most one log per habit and date, and every log of that habit and date then carries the new score |
| Store.LogTwice | src/contexts/HabitContext.tsx:122-141 | two successive logs for the same habit and date leave exactly one log for that pair, carrying the second score |
| Store.LogScoreKeepsOtherLogs | src/contexts/HabitContext.tsx:128-140 | logging for one habit leaves every other habit's logs, and so its details and streak, unchanged |
| Store.ToTemplate | src/contexts/HabitContext.tsx:144-150 | a template carries its habit's id, name, icon, notes and weight and no scores, and has the habit's joined key |
| Store.TemplatesOf | src/contexts/HabitContext.tsx:144-150 | one template per habit, in order |
| Store.TemplatesOfDistinct | src/contexts/HabitContext.tsx:143-151 | templates keep their habit's joined key, so distinct keys stay distinct |
| Store.TemplatesOfCovers | src/contexts/HabitContext.tsx:143-151 | every joined key of the habits appears among the templates |
| Store.TemplatesOfFrom | src/contexts/HabitContext.tsx:143-151 | every template is the template of one of the habits |
| Store.TemplateHabitData | src/contexts/HabitContext.tsx:153-162 | a habit made from a template takes its name, icon and notes, with weight 1, reward 10 and penalty -5 whatever the template carries |
| Store.TemplateHabitTotal | src/contexts/HabitContext.tsx:153-162 | over any logs, a habit made from a template scores 10 × completed days − 5 × missed days |
| Store.TemplateHabitScore | src/contexts/HabitContext.tsx:153-162 | such a habit with one completed and one missed day scores 5, with a 50% rate |
| Store.HabitStore.constructor | src/contexts/HabitContext.tsx:39-41 | the store starts with three empty collections and satisfies the invariant |
| Store.HabitStore.CreateHike | src/contexts/HabitContext.tsx:87-94 | appends the new DRAFT hike; habits and logs unchanged; keeps the invariant |
| Store.HabitStore.StartHike | src/contexts/HabitContext.tsx:96-100 | hikes become WithStarted of the old hikes; habits and logs unchanged; keeps the invariant |
| Store.HabitStore.AddHabit | src/contexts/HabitContext.tsx:102-109 | appends the new habit of the hike; hikes and logs unchanged; keeps the invariant |
| Store.HabitStore.UpdateHabit | src/contexts/HabitContext.tsx:111-115 | habits become WithUpdated of the old habits; hikes and logs unchanged; keeps the invariant |
| Store.HabitStore.DeleteHabit | src/contexts/HabitContext.tsx:117-120 | removes the habit and, in cascade, its logs; keeps the one-log-per-habit-and-date invariant |
| Store.HabitStore.LogDailyScore | src/contexts/HabitContext.tsx:122-141 | the search-then-rewrite-or-append yields LogScore of the old logs; keeps the invariant |
| Store.HabitStore.GetHabitTemplates | src/contexts/HabitContext.tsx:143-151 | the templates of the first stored habit of each joined key, in order; no two share a joined key (hence nor a (name, icon) pair); every stored habit's key covered; each the template of a stored habit |
| Store.HabitStore.AddHabitFromTemplate | src/contexts/HabitContext.tsx:153-162 | appends a habit with the template's name, icon and notes and the fixed weight 1, reward 10 and penalty -5; keeps the invariant |

## Left out

- The clock-based `totalDays` of `calculateHikeProgress` (days since the hike's start) is not modelled, because it reads the current date.
- Fresh ids from `Date.now()` are passed in as `newId`. Two calls in the same millisecond would produce equal ids; the model does not capture this.
- The default date of `logDailyScore` (today, read from the clock) is not modelled: the date is always a parameter.
- Dates are day numbers. Parsing ISO strings with `new Date`, invalid dates, and the NaN they give the sort comparator are not modelled. Two logs are on the same day iff their numbers are equal, which matches string equality for well-formed `YYYY-MM-DD` dates.
- Floating point is not modelled: rates and percentages are exact rationals.
- Loading and saving through the storage hook are not modelled, nor the `isLoaded` flag or the save effects. The store starts empty, as after a failed load.
- React state updates are modelled as immediate assignments. In `logDailyScore` the search reads the current logs while the update goes through `prev`. If the two differed because updates were batched, the model would not capture it.
- The Hike record's own `habits`, `milestones` and `nextMilestone` fields (src/types/types.ts:12-14) are not modelled, nor milestone computation, since no core file computes them. Its `totalScore` (src/types/types.ts:11) is modelled as `HikeProgress.totalScore`, which `Calculations.CalculateHikeProgress` computes. UI components, navigation and the `refer/` copies are not modelled either.
- `notes || ''`: notes are always strings here, so the fallback is the identity. Undefined notes are not modelled.
- Calculations.SortByDateDesc: stability, which `Array.prototype.sort` guarantees and the insertion sort has, is not proved. `NewestFirstUnique` and `Store.NewestFirstIsCanonical` instead show that the order is unique when dates are distinct, which the store's invariant guarantees.
- Store.HabitStore.LogDailyScore: requires the score to be 0 or 1, the source's parameter type `0 | 1`. Logs read back from storage may hold other numbers. The calculations handle those scores: they add nothing and count as neither completed nor missed.

## Findings

| source | as written | input that shows it | evidently intended | confidence | as-written member | corrected member |
|---|---|---|---|---|---|---|
| src/hooks/useHabitCalculations.ts:57 | templates are deduplicated by the string name + "-" + icon | habit A with name "a-b" and icon "c", then habit B with name "a" and icon "b-c": both keys are "a-b-c", so B is dropped although its (name, icon) differs | one template per distinct (name, icon) pair | medium, not executed | Calculations.JoinedKeyCollides | Calculations.GetHabitTemplatesByPair |
