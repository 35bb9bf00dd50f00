/** The state of the exam clock page and the handlers that change it: the
    edit and import dialogs, the stored theme preference, the attendance
    panel and the version label. */
module ExamClockPage {
  import opened Wrappers
  import opened ClockTime
  import opened ExamSchedule

  /** Expected headcount, actual headcount and the optional comma-separated
      list of absent seat numbers. Nothing ties `present` to `total`. */
  datatype Attendance = Attendance(total: int, present: int, absentSeatNumbers: Option<string>)

  /** The attendance part of what the edit dialog works on. */
  datatype AttendanceData = AttendanceData(expectedAttendance: int, actualAttendance: int, absentSeatNumbers: string)

  /** What the edit dialog is opened with and hands back on save: the
      schedule as parallel sequences, the attendance and the schedule switch. */
  datatype EditingData = EditingData(
    subjects: seq<string>,
    startTimes: seq<HHMM>,
    endTimes: seq<HHMM>,
    attendanceData: AttendanceData,
    showSchedule: bool)

  /** The three sequences of an edit run side by side. */
  predicate IsParallel(data: EditingData) {
    |data.startTimes| == |data.subjects| && |data.endTimes| == |data.subjects|
  }

  /** `formatEditingData`: the schedule projected field by field into
      parallel sequences; a missing absent-seat list becomes "". */
  function FormatEditingData(examSchedule: seq<Exam>, attendance: Attendance, showSchedule: bool): (d: EditingData)
    ensures IsParallel(d) && |d.subjects| == |examSchedule|
    ensures forall i :: 0 <= i < |examSchedule| ==>
              && d.subjects[i] == examSchedule[i].subject
              && d.startTimes[i] == examSchedule[i].startTime
              && d.endTimes[i] == examSchedule[i].endTime
    ensures d.attendanceData.expectedAttendance == attendance.total
    ensures d.attendanceData.actualAttendance == attendance.present
    ensures attendance.absentSeatNumbers.Some? ==> d.attendanceData.absentSeatNumbers == attendance.absentSeatNumbers.value
    ensures attendance.absentSeatNumbers.None? ==> d.attendanceData.absentSeatNumbers == ""
    ensures d.showSchedule == showSchedule
  {
    EditingData(
      seq(|examSchedule|, i requires 0 <= i < |examSchedule| => examSchedule[i].subject),
      seq(|examSchedule|, i requires 0 <= i < |examSchedule| => examSchedule[i].startTime),
      seq(|examSchedule|, i requires 0 <= i < |examSchedule| => examSchedule[i].endTime),
      AttendanceData(attendance.total, attendance.present, attendance.absentSeatNumbers.GetOr("")),
      showSchedule)
  }

  /** The schedule `handleDialogSave` builds: one entry per edited subject,
      taking subject and times from the dialog and everything else (the id)
      from the previous entry at the same index; past the end of the previous
      list there is no id. */
  function MergeEdited(prev: seq<Exam>, data: EditingData): (r: seq<Exam>)
    requires IsParallel(data)
    ensures |r| == |data.subjects|
    ensures forall i :: 0 <= i < |r| ==>
              && r[i].subject == data.subjects[i]
              && r[i].startTime == data.startTimes[i]
              && r[i].endTime == data.endTimes[i]
    ensures forall i :: 0 <= i < |r| && i < |prev| ==> r[i].id == prev[i].id
    ensures forall i :: |prev| <= i < |r| ==> r[i].id == None
  {
    seq(|data.subjects|, i requires 0 <= i < |data.subjects| =>
      Exam(if i < |prev| then prev[i].id else None, data.subjects[i], data.startTimes[i], data.endTimes[i]))
  }

  /** The attendance `handleDialogSave` stores: the edited headcounts, and
      the edited seat list, which shows as "all present" exactly when it is
      empty. */
  function AttendanceFromEdit(data: AttendanceData): (r: Attendance)
    ensures r.total == data.expectedAttendance && r.present == data.actualAttendance
    ensures r.absentSeatNumbers.Some?
    ensures AbsentSeatsShown(r).None? <==> data.absentSeatNumbers == ""
    ensures FormatEditingData([], r, false).attendanceData == data
  {
    Attendance(data.expectedAttendance, data.actualAttendance, Some(data.absentSeatNumbers))
  }

  /** Saving the edit dialog unmodified leaves the schedule as it was and the
      headcounts as they were; a missing absent-seat list comes back as "". */
  lemma SaveUnmodified(examSchedule: seq<Exam>, attendance: Attendance, showSchedule: bool)
    ensures var d := FormatEditingData(examSchedule, attendance, showSchedule);
            && MergeEdited(examSchedule, d) == examSchedule
            && AttendanceFromEdit(d.attendanceData)
               == Attendance(attendance.total, attendance.present, Some(attendance.absentSeatNumbers.GetOr("")))
            && d.showSchedule == showSchedule
  {
    var d := FormatEditingData(examSchedule, attendance, showSchedule);
    var merged := MergeEdited(examSchedule, d);
    assert forall i :: 0 <= i < |merged| ==> merged[i] == examSchedule[i];
  }

  /** An edit that keeps or shortens the list keeps every surviving id at its
      position. */
  lemma SaveKeepsIds(prev: seq<Exam>, data: EditingData)
    requires IsParallel(data)
    requires |data.subjects| <= |prev|
    ensures forall i :: 0 <= i < |data.subjects| ==> MergeEdited(prev, data)[i].id == prev[i].id
  {
  }

  /** `handlePrefferedThemeChange` on the stored "theme" value: absent (or
      empty) becomes "light", "light" becomes "dark", "dark" is removed, and
      any other value stays, the switch having no default branch. */
  function NextTheme(stored: Option<string>): (r: Option<string>)
    ensures r == stored <==> stored.Some? && stored.value != "" && stored.value != "light" && stored.value != "dark"
    ensures r != stored ==> r in {Some("light"), Some("dark"), None}
    ensures r == Some("light") <==> stored in {None, Some("")}
    ensures r == Some("dark") <==> stored == Some("light")
    ensures r == None <==> stored == Some("dark")
  {
    if stored.None? || stored.value == "" then Some("light")
    else if stored.value == "light" then Some("dark")
    else if stored.value == "dark" then None
    else stored
  }

  /** `setTheme`: the page is dark when the stored theme is "dark", or when
      no theme is stored and the system prefers dark. */
  predicate IsDark(stored: Option<string>, prefersDark: bool)
    ensures IsDark(stored, prefersDark) <==> if stored.None? then prefersDark else stored.value == "dark"
  {
    stored == Some("dark") || (stored.None? && prefersDark)
  }

  /** Three presses from the system setting go light, dark and back to the
      system setting, and the page follows: light, dark, then the system's
      preference. */
  lemma ThemeCycle(prefersDark: bool)
    ensures NextTheme(None) == Some("light") && !IsDark(Some("light"), prefersDark)
    ensures NextTheme(Some("light")) == Some("dark") && IsDark(Some("dark"), prefersDark)
    ensures NextTheme(Some("dark")) == None && (IsDark(None, prefersDark) <==> prefersDark)
    ensures NextTheme(NextTheme(NextTheme(None))) == None
  {
  }

  const VERSION: string := "0.3.1"

  /** The first `n` characters, or all of `s` when it is shorter (string
      slicing from the start). */
  function SliceTo(s: string, n: nat): string {
    if n <= |s| then s[..n] else s
  }

  /** Everything from index `n` on, or nothing when `s` is shorter. */
  function SliceFrom(s: string, n: nat): string {
    if n <= |s| then s[n..] else []
  }

  /** The version label: "Version " and the first three characters, then
      " Update " and the rest from index 4 unless that rest is "0". */
  function VersionString(version: string): (r: string)
    ensures |r| >= 8 && r[..8] == "Version "
    ensures SliceFrom(version, 4) == "0" <==> r == "Version " + SliceTo(version, 3)
  {
    var update := SliceFrom(version, 4);
    "Version " + SliceTo(version, 3) + (if update == "0" then "" else " Update " + update)
  }

  lemma VersionExamples()
    ensures VersionString(VERSION) == "Version 0.3 Update 1"
    ensures VersionString("0.4.0") == "Version 0.4"
  {
  }

  /** How many times `c` occurs in `s`. */
  function Occurrences(s: string, c: char): nat {
    if s == [] then 0 else (if s[0] == c then 1 else 0) + Occurrences(s[1..], c)
  }

  /** `s` with every space removed. */
  function WithoutSpaces(s: string): string {
    if s == [] then [] else (if s[0] == ' ' then [] else [s[0]]) + WithoutSpaces(s[1..])
  }

  /** The absent-seat list as displayed: every comma followed by one added
      space. */
  function ReplaceCommas(s: string): (r: string)
    ensures |r| == |s| + Occurrences(s, ',')
  {
    if s == [] then []
    else (if s[0] == ',' then ", " else [s[0]]) + ReplaceCommas(s[1..])
  }

  lemma {:induction false} WithoutSpacesAppend(a: string, b: string)
    ensures WithoutSpaces(a + b) == WithoutSpaces(a) + WithoutSpaces(b)
  {
    if a == [] {
      assert a + b == b;
    } else {
      assert (a + b)[0] == a[0] && (a + b)[1..] == a[1..] + b;
      WithoutSpacesAppend(a[1..], b);
    }
  }

  /** Apart from the spaces it adds, the replacement leaves the text as it
      was. */
  lemma {:induction false} ReplaceCommasOnlyAddsSpaces(s: string)
    ensures WithoutSpaces(ReplaceCommas(s)) == WithoutSpaces(s)
  {
    if s != [] {
      var head := if s[0] == ',' then ", " else [s[0]];
      WithoutSpacesAppend(head, ReplaceCommas(s[1..]));
      ReplaceCommasOnlyAddsSpaces(s[1..]);
      if s[0] == ',' {
        assert WithoutSpaces(head) == [','] by {
          assert head[1..] == " " && " "[1..] == [];
        }
      } else {
        assert head[1..] == [];
      }
    }
  }

  /** Every comma of `r` is followed by a space. */
  predicate CommasSpaced(r: string) {
    forall i :: 0 <= i < |r| && r[i] == ',' ==> i + 1 < |r| && r[i + 1] == ' '
  }

  /** In the result, every comma is followed by a space. */
  lemma {:induction false} ReplaceCommasSpacesCommas(s: string)
    ensures CommasSpaced(ReplaceCommas(s))
  {
    if s != [] {
      ReplaceCommasSpacesCommas(s[1..]);
      var rest := ReplaceCommas(s[1..]);
      var head := if s[0] == ',' then ", " else [s[0]];
      var r := head + rest;
      assert r == ReplaceCommas(s);
      forall i | 0 <= i < |r| && r[i] == ','
        ensures i + 1 < |r| && r[i + 1] == ' '
      {
        if i >= |head| {
          var j := i - |head|;
          assert r[i] == rest[j];
          assert j + 1 < |rest| && rest[j + 1] == ' ';
          assert r[i + 1] == rest[j + 1];
        } else {
          assert s[0] == ',' && i == 0 && r[1] == ' ';
        }
      }
    }
  }

  /** The absent-seat line: the list with a space after each comma, or None
      for "all present" when the list is missing or empty. */
  function AbsentSeatsShown(attendance: Attendance): (r: Option<string>)
    ensures r.None? <==> attendance.absentSeatNumbers in {None, Some("")}
    ensures r.Some? ==> r.value == ReplaceCommas(attendance.absentSeatNumbers.value)
    ensures r.Some? ==> WithoutSpaces(r.value) == WithoutSpaces(attendance.absentSeatNumbers.value)
    ensures r.Some? ==> CommasSpaced(r.value)
  {
    match attendance.absentSeatNumbers
    case Some(seats) =>
      if seats != "" then
        ReplaceCommasOnlyAddsSpaces(seats);
        ReplaceCommasSpacesCommas(seats);
        Some(ReplaceCommas(seats))
      else None
    case None => None
  }

  /** The red deficit beside the actual headcount: shown only when the two
      counts differ, and then the expected count less the actual one. */
  function Deficit(attendance: Attendance): (r: Option<int>)
    ensures r.Some? <==> attendance.present != attendance.total
    ensures r.Some? ==> r.value != 0 && attendance.present + r.value == attendance.total
  {
    if attendance.present != attendance.total then Some(attendance.total - attendance.present) else None
  }

  const DEFAULT_SCHEDULE: seq<Exam> := [
    Exam(Some(1), "數學", "01:00", "02:00"),
    Exam(Some(2), "國文", "03:00", "04:00"),
    Exam(Some(3), "自然", "05:00", "06:00")
  ]

  const DEFAULT_ATTENDANCE := Attendance(36, 36, None)

  /** The page component. `theme` is the stored "theme" key, `darkClass`
      whether the document carries the dark class. */
  class ExamClock {
    var examSchedule: seq<Exam>
    var attendance: Attendance
    var showSchedule: bool
    var isEditDialogOpen: bool
    var isImportDialogOpen: bool
    var currentEditingData: Option<EditingData>
    var currentTime: Now
    var currentExam: Option<Exam>
    var theme: Option<string>
    var darkClass: bool

    /** The current exam is always the one the resolver picks for the
        current time and schedule. */
    predicate Valid()
      reads this
    {
      currentExam == ActiveExam(currentTime, examSchedule)
    }

    /** The page as first rendered: the built-in schedule and attendance,
        both dialogs closed, and the stored theme applied. */
    constructor (now: Now, storedTheme: Option<string>, prefersDark: bool)
      ensures Valid()
      ensures examSchedule == DEFAULT_SCHEDULE && attendance == DEFAULT_ATTENDANCE
      ensures showSchedule && !isEditDialogOpen && !isImportDialogOpen && currentEditingData == None
      ensures currentTime == now && theme == storedTheme
      ensures darkClass == IsDark(storedTheme, prefersDark)
    {
      examSchedule := DEFAULT_SCHEDULE;
      attendance := DEFAULT_ATTENDANCE;
      showSchedule := true;
      isEditDialogOpen := false;
      isImportDialogOpen := false;
      currentEditingData := None;
      currentTime := now;
      currentExam := ActiveExam(now, DEFAULT_SCHEDULE);
      theme := storedTheme;
      darkClass := IsDark(storedTheme, prefersDark);
    }

    /** The start-up effect: a saved schedule replaces the built-in one
        unless it is empty. */
    method RestoreSaved(saved: seq<Exam>)
      requires Valid()
      modifies this
      ensures Valid()
      ensures examSchedule == if |saved| > 0 then saved else old(examSchedule)
      ensures attendance == old(attendance) && showSchedule == old(showSchedule)
      ensures isEditDialogOpen == old(isEditDialogOpen) && isImportDialogOpen == old(isImportDialogOpen)
      ensures currentEditingData == old(currentEditingData) && currentTime == old(currentTime)
      ensures theme == old(theme) && darkClass == old(darkClass)
    {
      if |saved| > 0 {
        examSchedule := saved;
        currentExam := ActiveExam(currentTime, examSchedule);
      }
    }

    /** One second of the timer: the clock moves to `now`, the re-render
        applies the stored theme against the system's current preference,
        and the current exam is resolved again. */
    method Tick(now: Now, prefersDark: bool)
      modifies this
      ensures Valid()
      ensures currentTime == now && currentExam == ActiveExam(now, examSchedule)
      ensures darkClass == IsDark(theme, prefersDark)
      ensures examSchedule == old(examSchedule) && attendance == old(attendance)
      ensures showSchedule == old(showSchedule)
      ensures isEditDialogOpen == old(isEditDialogOpen) && isImportDialogOpen == old(isImportDialogOpen)
      ensures currentEditingData == old(currentEditingData)
      ensures theme == old(theme)
    {
      currentTime := now;
      ApplyTheme(prefersDark);
      currentExam := ActiveExam(now, examSchedule);
    }

    /** `setTheme`: set or clear the dark class from the stored theme. */
    method ApplyTheme(prefersDark: bool)
      modifies this`darkClass
      ensures darkClass == IsDark(theme, prefersDark)
    {
      darkClass := IsDark(theme, prefersDark);
    }

    /** `handleEditClick`: open the edit dialog on the current data. */
    method EditClick()
      requires Valid()
      modifies this`currentEditingData, this`isEditDialogOpen
      ensures Valid()
      ensures currentEditingData == Some(FormatEditingData(examSchedule, attendance, showSchedule))
      ensures isEditDialogOpen
    {
      currentEditingData := Some(FormatEditingData(examSchedule, attendance, showSchedule));
      isEditDialogOpen := true;
    }

    /** `handleImportClick` */
    method ImportClick()
      requires Valid()
      modifies this`isImportDialogOpen
      ensures Valid() && isImportDialogOpen
    {
      isImportDialogOpen := true;
    }

    /** `handleEditDialogClose` */
    method EditDialogClose()
      requires Valid()
      modifies this`isEditDialogOpen
      ensures Valid() && !isEditDialogOpen
    {
      isEditDialogOpen := false;
    }

    /** `handleImportDialogClose` */
    method ImportDialogClose()
      requires Valid()
      modifies this`isImportDialogOpen
      ensures Valid() && !isImportDialogOpen
    {
      isImportDialogOpen := false;
    }

    /** `handleDialogSave`: the schedule is merged index by index with the
        edited fields, attendance and the schedule switch are replaced, and
        the edit dialog closes; the current exam follows the new schedule. */
    method DialogSave(data: EditingData)
      requires Valid()
      requires IsParallel(data)
      modifies this
      ensures Valid()
      ensures examSchedule == MergeEdited(old(examSchedule), data)
      ensures attendance == AttendanceFromEdit(data.attendanceData)
      ensures showSchedule == data.showSchedule && !isEditDialogOpen
      ensures isImportDialogOpen == old(isImportDialogOpen) && currentEditingData == old(currentEditingData)
      ensures currentTime == old(currentTime)
      ensures theme == old(theme) && darkClass == old(darkClass)
    {
      examSchedule := MergeEdited(examSchedule, data);
      attendance := AttendanceFromEdit(data.attendanceData);
      showSchedule := data.showSchedule;
      isEditDialogOpen := false;
      currentExam := ActiveExam(currentTime, examSchedule);
    }

    /** `handleImportData`: the imported entries replace the schedule
        wholesale and the import dialog closes. */
    method ImportData(data: seq<Exam>)
      requires Valid()
      modifies this
      ensures Valid()
      ensures examSchedule == data && !isImportDialogOpen
      ensures attendance == old(attendance) && showSchedule == old(showSchedule)
      ensures isEditDialogOpen == old(isEditDialogOpen) && currentEditingData == old(currentEditingData)
      ensures currentTime == old(currentTime)
      ensures theme == old(theme) && darkClass == old(darkClass)
    {
      examSchedule := data;
      isImportDialogOpen := false;
      currentExam := ActiveExam(currentTime, examSchedule);
    }

    /** `handlePrefferedThemeChange`: step the stored theme, then apply it. */
    method PreferredThemeChange(prefersDark: bool)
      requires Valid()
      modifies this`theme, this`darkClass
      ensures Valid()
      ensures theme == NextTheme(old(theme))
      ensures darkClass == IsDark(theme, prefersDark)
    {
      theme := NextTheme(theme);
      ApplyTheme(prefersDark);
    }
  }
}
