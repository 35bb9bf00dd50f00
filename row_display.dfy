/** How each row of the schedule list is shown, and which of the list, the
    "no more exams" note or nothing at all takes the schedule area. */
module RowDisplay {
  import opened Wrappers
  import opened ClockTime
  import opened ExamSchedule

  /** The four looks of a row: faded, not rendered, in the highlight colour,
      or in the normal weight. */
  datatype RowStyle = Dimmed | Hidden | Highlighted | Plain

  /** The bullet in front of a row: hollow circle, chevron or filled circle. */
  datatype RowIcon = HollowCircle | Chevron | FilledCircle

  /** A row is the current exam's when there is a current exam with the same
      id, so entries sharing an id (or both lacking one) match together. */
  predicate IsCurrentRow(e: Exam, current: Option<Exam>) {
    current.Some? && e.id == current.value.id
  }

  /** The row's look, tested in the order Just Passed, Passed, current exam:
      the classification always wins over the highlight. */
  function RowStyleOf(now: Now, e: Exam, current: Option<Exam>): (st: RowStyle)
    ensures st == Hidden <==> SecondOfDay(now) > EndSecond(e.endTime) + CLASSIFY_THRESHOLD_SECONDS
    ensures st == Dimmed <==> Classify(now, e.endTime) == JustPassed
    ensures st == Highlighted <==> Classify(now, e.endTime) == NotPassed && IsCurrentRow(e, current)
    ensures st == Plain <==> Classify(now, e.endTime) == NotPassed && !IsCurrentRow(e, current)
  {
    var passage := Classify(now, e.endTime);
    if passage == JustPassed then Dimmed
    else if passage == Passed then Hidden
    else if IsCurrentRow(e, current) then Highlighted
    else Plain
  }

  /** The row's bullet: hollow when just passed, a chevron for the current
      exam, filled otherwise. */
  function RowIconOf(now: Now, e: Exam, current: Option<Exam>): (ic: RowIcon)
    ensures ic == HollowCircle <==> Classify(now, e.endTime) == JustPassed
  {
    if Classify(now, e.endTime) == JustPassed then HollowCircle
    else if IsCurrentRow(e, current) then Chevron
    else FilledCircle
  }

  /** On every row that is rendered, bullet and look agree: hollow with
      dimmed, chevron with highlighted, filled with plain. */
  lemma IconMatchesStyle(now: Now, e: Exam, current: Option<Exam>)
    requires RowStyleOf(now, e, current) != Hidden
    ensures RowStyleOf(now, e, current) == Dimmed <==> RowIconOf(now, e, current) == HollowCircle
    ensures RowStyleOf(now, e, current) == Highlighted <==> RowIconOf(now, e, current) == Chevron
    ensures RowStyleOf(now, e, current) == Plain <==> RowIconOf(now, e, current) == FilledCircle
  {
  }

  /** The row of an active exam that stays within one day is highlighted,
      except at the exact end instant, where the Just Passed fade wins. */
  lemma ActiveSameDayRow(now: Now, s: seq<Exam>)
    requires ActiveExam(now, s).Some?
    requires !CrossesMidnight(ActiveExam(now, s).value)
    ensures var current := ActiveExam(now, s);
            RowStyleOf(now, current.value, current)
              == if SecondOfDay(now) == EndSecond(current.value.endTime) then Dimmed else Highlighted
  {
    var current := ActiveExam(now, s);
    SameDayCurrent(now, current.value);
  }

  /** The row of an active exam that crosses midnight is hidden: its end
      minute, read on the current day, is already behind now. */
  lemma ActiveCrossingRowHidden(now: Now, s: seq<Exam>)
    requires ActiveExam(now, s).Some?
    requires CrossesMidnight(ActiveExam(now, s).value)
    ensures var current := ActiveExam(now, s);
            RowStyleOf(now, current.value, current) == Hidden
  {
    var e := ActiveExam(now, s).value;
    LexLessIsClockOrder(e.endTime, e.startTime);
    CrossingCurrent(now, e);
  }

  /** What the schedule area shows: nothing while an exam runs and the
      schedule is switched off, else the list while the count is not zero,
      else the "no more exams today" note. */
  datatype ScheduleArea = NoArea | ExamList | NothingLeft

  function ScheduleAreaOf(showSchedule: bool, current: Option<Exam>, remaining: int): (area: ScheduleArea)
    ensures area == NoArea <==> !showSchedule && current.Some?
    ensures area == ExamList <==> (showSchedule || current.None?) && remaining != 0
    ensures area == NothingLeft <==> (showSchedule || current.None?) && remaining == 0
  {
    if !showSchedule && current.Some? then NoArea
    else if remaining != 0 then ExamList
    else NothingLeft
  }

  /** Switching the schedule off hides it only while an exam is current; the
      "no more exams" note appears exactly when every entry's end instant is
      behind now, even while a dimmed row would still be on show. */
  lemma ScheduleAreaMeaning(now: Now, s: seq<Exam>, showSchedule: bool)
    ensures var area := ScheduleAreaOf(showSchedule, ActiveExam(now, s), RemainingCount(now, s));
            && (area == NoArea <==> !showSchedule && exists i :: 0 <= i < |s| && IsCurrent(now, s[i]))
            && (area == NothingLeft <==>
                  (showSchedule || ActiveExam(now, s).None?)
                  && forall i :: 0 <= i < |s| ==> CountedAsPassed(now, s[i].endTime))
  {
    NoneRemaining(now, s);
  }
}
