/** The schedule-derived values the page recomputes on every tick: the
    three-way classification of an exam's end time, the count of exams still
    to come, and the exam currently in progress. */
module ExamSchedule {
  import opened Wrappers
  import opened ClockTime

  /** One exam of the day. `id` is None where the edit dialog created an entry
      past the end of the previous list (the spread of an undefined entry). */
  datatype Exam = Exam(id: Option<int>, subject: string, startTime: HHMM, endTime: HHMM)

  /** The grace window of the row classifier: an exam stays "Just Passed" up
      to this many seconds into its end minute. */
  const CLASSIFY_THRESHOLD_SECONDS := 5
  /** The remaining-exam count treats an exam as over from this many seconds
      into its end minute onwards (exclusive). */
  const COUNT_THRESHOLD_SECONDS := 0

  datatype Passage = NotPassed | JustPassed | Passed

  /** The instant an "HH:MM" time names, at second 0 of its minute. */
  function EndSecond(t: HHMM): int {
    ClockMinutes(t) * 60
  }

  /** `isTimePassed`: where the current time stands against an exam's end.
      Read on the seconds of the day: not passed before the end instant,
      just passed for the first five seconds from it, passed afterwards. */
  function Classify(now: Now, endTime: HHMM): (p: Passage)
    ensures p == NotPassed <==> SecondOfDay(now) < EndSecond(endTime)
    ensures p == JustPassed
        <==> EndSecond(endTime) <= SecondOfDay(now) <= EndSecond(endTime) + CLASSIFY_THRESHOLD_SECONDS
    ensures p == Passed <==> SecondOfDay(now) > EndSecond(endTime) + CLASSIFY_THRESHOLD_SECONDS
  {
    var nowMinute := MinuteOfDay(now);
    var exam := ClockMinutes(endTime);
    if nowMinute > exam || (nowMinute == exam && now.second > CLASSIFY_THRESHOLD_SECONDS) then Passed
    else if nowMinute == exam && now.second <= CLASSIFY_THRESHOLD_SECONDS then JustPassed
    else NotPassed
  }

  /** The order a classification moves through as the day goes on. */
  function Rank(p: Passage): nat {
    match p
    case NotPassed => 0
    case JustPassed => 1
    case Passed => 2
  }

  /** The classification of a fixed end time never moves backwards during a
      day: once Passed it stays Passed, and Not Passed only gives way to Just
      Passed or Passed. */
  lemma ClassifyMonotone(earlier: Now, later: Now, endTime: HHMM)
    requires SecondOfDay(earlier) <= SecondOfDay(later)
    ensures Rank(Classify(earlier, endTime)) <= Rank(Classify(later, endTime))
    ensures Classify(earlier, endTime) == Passed ==> Classify(later, endTime) == Passed
  {
  }

  /** The per-entry test of `getScheduleCount`: the entry's end minute is
      behind the current minute, or is the current minute and at least one
      second of it has gone. Equivalently, now is strictly after the end
      instant. */
  function CountedAsPassed(now: Now, endTime: HHMM): (b: bool)
    ensures b <==> SecondOfDay(now) > EndSecond(endTime) + COUNT_THRESHOLD_SECONDS
  {
    var nowMinute := MinuteOfDay(now);
    var examTime := ClockMinutes(endTime);
    nowMinute > examTime || (nowMinute == examTime && now.second > COUNT_THRESHOLD_SECONDS)
  }

  /** The two thresholds agree except inside the first five seconds of the
      end minute: a row classified Passed is always excluded from the count,
      a Not Passed row always included, and a Just Passed row (shown dimmed)
      is excluded exactly when at least one second of the end minute has gone. */
  lemma CountAgainstClassify(now: Now, e: Exam)
    ensures Classify(now, e.endTime) == Passed ==> CountedAsPassed(now, e.endTime)
    ensures Classify(now, e.endTime) == NotPassed ==> !CountedAsPassed(now, e.endTime)
    ensures Classify(now, e.endTime) == JustPassed
        ==> (CountedAsPassed(now, e.endTime) <==> now.second > 0)
  {
  }

  /** The number of entries the count keeps: those whose end instant has not
      yet been passed. */
  function RemainingCount(now: Now, s: seq<Exam>): (n: nat)
    ensures n <= |s|
  {
    if s == [] then 0
    else
      var last := s[|s| - 1];
      RemainingCount(now, s[..|s| - 1]) + (if CountedAsPassed(now, last.endTime) then 0 else 1)
  }

  /** The count is zero exactly when every entry's end instant is behind
      now. */
  lemma {:induction false} NoneRemaining(now: Now, s: seq<Exam>)
    ensures RemainingCount(now, s) == 0 <==> forall i :: 0 <= i < |s| ==> CountedAsPassed(now, s[i].endTime)
  {
    if s != [] {
      var init := s[..|s| - 1];
      NoneRemaining(now, init);
      assert forall i :: 0 <= i < |init| ==> init[i] == s[i];
    }
  }

  /** `getScheduleCount`: start from the length of the schedule and take one
      off for every entry whose end has passed. */
  method ScheduleCount(now: Now, examSchedule: seq<Exam>) returns (total: int)
    ensures total == RemainingCount(now, examSchedule)
    ensures 0 <= total <= |examSchedule|
  {
    var nowMinute := MinuteOfDay(now);
    total := |examSchedule|;
    var i := 0;
    while i < |examSchedule|
      invariant 0 <= i <= |examSchedule|
      invariant total == |examSchedule| - i + RemainingCount(now, examSchedule[..i])
    {
      var exam := examSchedule[i];
      var examTime := MinutesOf(exam.endTime) + HoursOf(exam.endTime) * 60;
      assert examSchedule[..i + 1][..i] == examSchedule[..i] && examSchedule[..i + 1][i] == exam;
      assert RemainingCount(now, examSchedule[..i + 1])
          == RemainingCount(now, examSchedule[..i]) + (if CountedAsPassed(now, exam.endTime) then 0 else 1);
      if nowMinute > examTime || (nowMinute == examTime && now.second > 0) {
        total := total - 1;
      }
      i := i + 1;
    }
    assert examSchedule[..i] == examSchedule;
  }

  /** How many entries of `s` are classified `p`. */
  function CountClassified(now: Now, s: seq<Exam>, p: Passage): (n: nat)
    ensures n <= |s|
  {
    if s == [] then 0
    else
      var last := s[|s| - 1];
      CountClassified(now, s[..|s| - 1], p) + (if Classify(now, last.endTime) == p then 1 else 0)
  }

  /** The remaining count against the rows the list shows: it counts every
      Not Passed row, and the Just Passed (dimmed) rows only at second 0 of
      the minute; so during seconds 1..5 of an end minute a dimmed row is
      still shown but no longer counted. */
  lemma {:induction false} RemainingAgainstRows(now: Now, s: seq<Exam>)
    ensures RemainingCount(now, s)
         == CountClassified(now, s, NotPassed)
          + (if now.second == 0 then CountClassified(now, s, JustPassed) else 0)
  {
    if s != [] {
      RemainingAgainstRows(now, s[..|s| - 1]);
      CountAgainstClassify(now, s[|s| - 1]);
    }
  }

  /** The start of an exam, anchored to today at second 0. */
  function StartInstant(e: Exam): int {
    ClockMinutes(e.startTime) * 60
  }

  /** An exam whose end time sorts before its start time is taken to end the
      next day. */
  predicate CrossesMidnight(e: Exam) {
    LexLess(e.endTime, e.startTime)
  }

  /** The end of an exam, anchored to today at second 0 and moved one day
      later when the exam crosses midnight. */
  function EndInstant(e: Exam): int {
    ClockMinutes(e.endTime) * 60 + (if CrossesMidnight(e) then SECONDS_PER_DAY else 0)
  }

  /** The predicate of the resolver's `find`: start <= now <= end. Now is
      never past the shifted end of a crossing exam, so such an exam only
      needs now to have reached its start. */
  predicate IsCurrent(now: Now, e: Exam)
    ensures IsCurrent(now, e)
        <==> StartInstant(e) <= SecondOfDay(now)
             && (CrossesMidnight(e) || SecondOfDay(now) <= ClockMinutes(e.endTime) * 60)
  {
    StartInstant(e) <= SecondOfDay(now) <= EndInstant(e)
  }

  /** The active-exam resolver: the first entry, in list order, whose
      interval holds now; None when no entry's does. */
  function ActiveExam(now: Now, s: seq<Exam>): (r: Option<Exam>)
    ensures r.None? <==> forall i :: 0 <= i < |s| ==> !IsCurrent(now, s[i])
    ensures r.Some? ==> exists i :: 0 <= i < |s| && s[i] == r.value && IsCurrent(now, s[i])
                                 && forall j :: 0 <= j < i ==> !IsCurrent(now, s[j])
  {
    if s == [] then None
    else if IsCurrent(now, s[0]) then Some(s[0])
    else
      var r := ActiveExam(now, s[1..]);
      assert forall i :: 1 <= i < |s| ==> s[i] == s[1..][i - 1];
      r
  }

  /** Whatever the resolver returns is an entry of the schedule. */
  lemma ActiveIsMember(now: Now, s: seq<Exam>)
    ensures ActiveExam(now, s).Some? ==> ActiveExam(now, s).value in s
  {
  }

  /** An exam that does not cross midnight is current exactly from its start
      instant to its end instant, both included, and its start is not after
      its end. */
  lemma SameDayCurrent(now: Now, e: Exam)
    requires !CrossesMidnight(e)
    ensures ClockMinutes(e.startTime) <= ClockMinutes(e.endTime)
    ensures IsCurrent(now, e)
        <==> ClockMinutes(e.startTime) * 60 <= SecondOfDay(now) <= ClockMinutes(e.endTime) * 60
  {
    LexLessIsClockOrder(e.endTime, e.startTime);
  }

  /** An exam that crosses midnight is current exactly when now is at or
      after its start on the current day. */
  lemma CrossingCurrent(now: Now, e: Exam)
    requires CrossesMidnight(e)
    ensures IsCurrent(now, e) <==> SecondOfDay(now) >= StartInstant(e)
  {
  }

  /** The part of a midnight-crossing exam that falls after midnight is never
      current: the start is always anchored to the current day. */
  lemma CrossingNotCurrentAfterMidnight(now: Now, e: Exam)
    requires CrossesMidnight(e)
    requires MinuteOfDay(now) <= ClockMinutes(e.endTime)
    ensures !IsCurrent(now, e)
  {
    LexLessIsClockOrder(e.endTime, e.startTime);
  }

  /** Worked cases. A 09:00-10:00 exam is current at 09:30:00 and not yet
      passed; at 10:00:03 it is dimmed yet already left out of the count. */
  lemma SameDayExample()
    ensures var math := Exam(Some(1), "Math", "09:00", "10:00");
            && ActiveExam(Now(9, 30, 0), [math]) == Some(math)
            && Classify(Now(9, 30, 0), math.endTime) == NotPassed
            && Classify(Now(10, 0, 3), math.endTime) == JustPassed
            && RemainingCount(Now(10, 0, 3), [math]) == 0
  {
    var math := Exam(Some(1), "Math", "09:00", "10:00");
    assert [math][..0] == [];
  }

  /** A 23:30-00:30 exam is current at 23:45:00 but not at 00:15:00. */
  lemma MidnightExample()
    ensures var late := Exam(Some(1), "Late", "23:30", "00:30");
            && ActiveExam(Now(23, 45, 0), [late]) == Some(late)
            && ActiveExam(Now(0, 15, 0), [late]) == None
  {
    var late := Exam(Some(1), "Late", "23:30", "00:30");
    assert CrossesMidnight(late);
  }
}
