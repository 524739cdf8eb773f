/** Records of the habit tracker: hikes, habits, daily score logs and
    habit templates, with dates as day numbers and ids as strings. */
module Types {

  datatype Option<+T> = None | Some(value: T)

  /** Lifecycle of a hike. */
  datatype HikeStatus = Draft | Active | Completed | Abandoned

  /** DRAFT and ACTIVE hikes are the ones the app treats as open. */
  predicate IsOpen(s: HikeStatus) {
    s == Active || s == Draft
  }

  /** What the caller supplies when creating a hike (everything but id and status). */
  datatype HikeData = HikeData(title: string, startDate: int, targetDate: int, targetScore: int)

  datatype Hike = Hike(
    id: string,
    title: string,
    startDate: int,
    targetDate: int,
    targetScore: int,
    status: HikeStatus)

  /** What the caller supplies when adding a habit (everything but id and hikeId). */
  datatype HabitData = HabitData(
    name: string,
    icon: string,
    notes: string,
    weight: int,
    positiveScore: int,
    negativeScore: int)

  datatype Habit = Habit(
    id: string,
    hikeId: string,
    name: string,
    icon: string,
    notes: string,
    weight: int,
    positiveScore: int,
    negativeScore: int)

  /** One recorded day of one habit; `score` is 0 (missed) or 1 (completed)
      when written by the store, but the record type admits any number. */
  datatype DailyScoreLog = DailyScoreLog(id: string, habitId: string, date: int, score: int)

  /** A habit offered for reuse in another hike. */
  datatype HabitTemplate = HabitTemplate(
    id: string,
    name: string,
    icon: string,
    notes: string,
    weight: int,
    positiveScore: Option<int>,
    negativeScore: Option<int>)

  /** A habit together with the figures derived from its logs. */
  datatype HabitWithDetails = HabitWithDetails(
    habit: Habit,
    totalScore: int,
    completedDays: nat,
    missedDays: nat,
    totalDays: nat,
    completionRate: real)

  /** A hike together with its aggregate score and its habits' details. */
  datatype HikeProgress = HikeProgress(
    hike: Hike,
    totalScore: int,
    progressPercentage: real,
    habitsWithDetails: seq<HabitWithDetails>)

  /** The caller-supplied part of a hike. */
  function HikeDataOf(h: Hike): HikeData {
    HikeData(h.title, h.startDate, h.targetDate, h.targetScore)
  }

  /** The caller-supplied part of a habit. */
  function HabitDataOf(h: Habit): HabitData {
    HabitData(h.name, h.icon, h.notes, h.weight, h.positiveScore, h.negativeScore)
  }

  /** A new hike: the caller's data under the generated id, starting as a
      DRAFT (so open). */
  function MakeHike(data: HikeData, id: string): (r: Hike)
    ensures HikeDataOf(r) == data
    ensures r.id == id && r.status == Draft && IsOpen(r.status)
  {
    Hike(id, data.title, data.startDate, data.targetDate, data.targetScore, Draft)
  }

  /** A new habit: the caller's data under the generated id, attached to
      `hikeId`. */
  function MakeHabit(data: HabitData, id: string, hikeId: string): (r: Habit)
    ensures HabitDataOf(r) == data
    ensures r.id == id && r.hikeId == hikeId
  {
    Habit(id, hikeId, data.name, data.icon, data.notes, data.weight, data.positiveScore, data.negativeScore)
  }
}
