/**
 * The local-storage branch of the `api` object in assets/js/api.js, as pure
 * transformations of the stored `Data` record.
 *
 * Each operation there starts with `ensureData()` (modelled by `EnsureData`,
 * which guarantees at least one student) and ends by writing the record back;
 * the read and the write themselves, the remote `fetch` branch and the
 * artificial delay are not modelled. Ids and clock readings are parameters.
 */
module Store {
  import opened Options
  import opened JsNumber
  import opened Capped

  /** Each student keeps at most this many log entries (`slice(0, 80)`). */
  const StudentLogCap: nat := 80

  /** At most this many notifications are kept (`slice(0, 30)`). */
  const NotificationCap: nat := 30

  /** One entry of a student's activity log. */
  datatype StudentLog = StudentLog(kind: string, action: string, time: string, total: Num, attended: Num, percentValue: Num)

  datatype Student = Student(
    id: string,
    name: string,
    roll: string,
    className: string,
    section: string,
    email: string,
    phone: string,
    visibilityPublic: bool,
    photoDataUrl: string,
    totalClasses: Num,
    attendedClasses: Num,
    goalPercent: Num,
    logs: seq<StudentLog>)

  datatype LeaveRequest = LeaveRequest(id: string, date: string, reason: string, studentName: string, status: string)

  datatype Notification = Notification(message: string, level: string, time: string)

  /** The whole stored record. */
  datatype Data = Data(
    selectedStudentId: string,
    classAveragePercent: Num,
    qrSessionCode: string,
    leaveRequests: seq<LeaveRequest>,
    notifications: seq<Notification>,
    students: seq<Student>)

  const DefaultStudent := Student(
    "stu-1001", "Avery Johnson", "NB-2026-1042", "Grade 10", "A",
    "avery.johnson@northbridge.edu", "+1 415 555 0182", true, "",
    Finite(42.0), Finite(36.0), Finite(85.0), [])

  const DefaultData := Data(
    DefaultStudent.id, Finite(82.0), "", [], [],
    [DefaultStudent,
     DefaultStudent.(id := "stu-1002", name := "Noah Martinez", roll := "NB-2026-1060",
                     email := "noah.martinez@northbridge.edu",
                     totalClasses := Finite(40.0), attendedClasses := Finite(35.0), goalPercent := Finite(88.0))])

  /** The shape every operation relies on: at least one student. */
  predicate WellFormed(d: Data) {
    |d.students| > 0
  }

  /**
   * `ensureData`: the stored record when there is one with students, and the
   * two-student default otherwise. `None` stands for a missing or unreadable entry.
   */
  function EnsureData(stored: Option<Data>): (r: Data)
    ensures WellFormed(r)
    ensures stored.Some? && WellFormed(stored.value) ==> r == stored.value
    ensures stored.None? || !WellFormed(stored.value) ==> r == DefaultData
  {
    if stored.None? || |stored.value.students| == 0 then DefaultData else stored.value
  }

  /** What `ensureData` hands out, written back and read again, comes back unchanged. */
  lemma EnsureDataStable(stored: Option<Data>)
    ensures EnsureData(Some(EnsureData(stored))) == EnsureData(stored)
  {
  }

  /** Some student carries the id. */
  predicate HasId(students: seq<Student>, id: string) {
    exists i :: 0 <= i < |students| && students[i].id == id
  }

  /** Position of the first student with this id, or the length when there is none. */
  function IndexOfId(students: seq<Student>, id: string): (r: nat)
    ensures r <= |students|
    ensures r < |students| ==> students[r].id == id
    ensures forall j :: 0 <= j < r ==> students[j].id != id
  {
    if |students| == 0 then 0
    else if students[0].id == id then 0
    else 1 + IndexOfId(students[1..], id)
  }

  /** Position of the student `findSelectedStudent` returns. */
  function SelectedIndex(d: Data): (r: nat)
    requires WellFormed(d)
    ensures r < |d.students|
    ensures HasId(d.students, d.selectedStudentId) ==>
              d.students[r].id == d.selectedStudentId
              && forall j :: 0 <= j < r ==> d.students[j].id != d.selectedStudentId
    ensures !HasId(d.students, d.selectedStudentId) ==> r == 0
  {
    var i := IndexOfId(d.students, d.selectedStudentId);
    if i < |d.students| then i else 0
  }

  /** `findSelectedStudent`: the first student with the selected id, or else the first student. */
  function FindSelectedStudent(d: Data): (r: Student)
    requires WellFormed(d)
    ensures r in d.students
    ensures HasId(d.students, d.selectedStudentId) ==> r.id == d.selectedStudentId
    ensures HasId(d.students, d.selectedStudentId) ==> r == d.students[IndexOfId(d.students, d.selectedStudentId)]
    ensures !HasId(d.students, d.selectedStudentId) ==> r == d.students[0]
  {
    d.students[SelectedIndex(d)]
  }

  /** The selection depends only on the students' ids. */
  lemma {:induction false} IndexOfIdOnlyIds(a: seq<Student>, b: seq<Student>, id: string)
    requires |a| == |b|
    requires forall i :: 0 <= i < |a| ==> a[i].id == b[i].id
    ensures IndexOfId(a, id) == IndexOfId(b, id)
  {
    if |a| > 0 && a[0].id != id {
      IndexOfIdOnlyIds(a[1..], b[1..], id);
    }
  }

  /** The fields of the add-student form, already passed through `Number(...)`; a missing number is NaN. */
  datatype NewStudent = NewStudent(
    name: string,
    roll: string,
    className: string,
    section: string,
    email: string,
    phone: string,
    totalClasses: Num,
    attendedClasses: Num,
    goalPercent: Num)

  /**
   * `addStudent`: append one student built from the form and select it.
   * A zero or NaN counter becomes 0, a zero or NaN goal becomes 85; the two
   * counters are not checked against each other. `newId` is the generated id.
   */
  function AddStudent(d: Data, payload: NewStudent, newId: string): (r: Data)
    ensures |r.students| == |d.students| + 1
    ensures r.students[..|d.students|] == d.students
    ensures r == d.(students := r.students, selectedStudentId := newId)
    ensures var s := r.students[|d.students|];
            && s.id == newId && s.name == payload.name && s.roll == payload.roll
            && s.className == payload.className && s.section == payload.section
            && s.email == payload.email && s.phone == payload.phone
            && s.logs == [] && s.visibilityPublic && s.photoDataUrl == ""
            && (Truthy(payload.totalClasses) ==> s.totalClasses == payload.totalClasses)
            && (!Truthy(payload.totalClasses) ==> s.totalClasses == Finite(0.0))
            && (Truthy(payload.attendedClasses) ==> s.attendedClasses == payload.attendedClasses)
            && (!Truthy(payload.attendedClasses) ==> s.attendedClasses == Finite(0.0))
            && (Truthy(payload.goalPercent) ==> s.goalPercent == payload.goalPercent)
            && (!Truthy(payload.goalPercent) ==> s.goalPercent == Finite(85.0))
    ensures !HasId(d.students, newId) ==> SelectedIndex(r) == |d.students|
  {
    var student := DefaultStudent.(
      id := newId,
      name := payload.name,
      roll := payload.roll,
      className := payload.className,
      section := payload.section,
      email := payload.email,
      phone := payload.phone,
      totalClasses := Or(payload.totalClasses, Finite(0.0)),
      attendedClasses := Or(payload.attendedClasses, Finite(0.0)),
      goalPercent := Or(payload.goalPercent, Finite(85.0)),
      logs := []);
    var r := d.(students := d.students + [student], selectedStudentId := newId);
    assert r.students[..|d.students|] == d.students;
    r
  }

  /** Nothing stops a new student from having attended more classes than were held. */
  lemma AddStudentAllowsOverAttendance(d: Data, newId: string)
    ensures var r := AddStudent(d, NewStudent("N", "R", "C", "S", "E", "P", Finite(1.0), Finite(5.0), NaN), newId);
            var s := r.students[|d.students|];
            s.totalClasses == Finite(1.0) && s.attendedClasses == Finite(5.0) && s.goalPercent == Finite(85.0)
  {
  }

  /** `selectStudent`: select the given id when some student has it; otherwise change nothing. */
  function SelectStudent(d: Data, id: string): (r: Data)
    ensures HasId(d.students, id) ==> r == d.(selectedStudentId := id)
    ensures !HasId(d.students, id) ==> r == d
  {
    if HasId(d.students, id) then d.(selectedStudentId := id) else d
  }

  /** After selecting an existing id, the selected student is the first one with that id. */
  lemma SelectThenFind(d: Data, id: string)
    requires WellFormed(d)
    requires HasId(d.students, id)
    ensures FindSelectedStudent(SelectStudent(d, id)).id == id
    ensures SelectedIndex(SelectStudent(d, id)) == IndexOfId(d.students, id)
  {
  }

  /** A partial student object for `Object.assign`: `None` for a key the patch does not carry. */
  datatype StudentPatch = StudentPatch(
    id: Option<string>,
    name: Option<string>,
    roll: Option<string>,
    className: Option<string>,
    section: Option<string>,
    email: Option<string>,
    phone: Option<string>,
    visibilityPublic: Option<bool>,
    photoDataUrl: Option<string>,
    totalClasses: Option<Num>,
    attendedClasses: Option<Num>,
    goalPercent: Option<Num>,
    logs: Option<seq<StudentLog>>)

  /** The field after `Object.assign`: the patch's value when it has one, the old value otherwise. */
  predicate Assigned<T(==)>(patch: Option<T>, before: T, after: T) {
    if patch.Some? then after == patch.value else after == before
  }

  /** `Object.assign(student, patch)`. */
  function ApplyPatch(s: Student, p: StudentPatch): (r: Student)
    ensures Assigned(p.id, s.id, r.id) && Assigned(p.name, s.name, r.name)
    ensures Assigned(p.roll, s.roll, r.roll) && Assigned(p.className, s.className, r.className)
    ensures Assigned(p.section, s.section, r.section) && Assigned(p.email, s.email, r.email)
    ensures Assigned(p.phone, s.phone, r.phone)
    ensures Assigned(p.visibilityPublic, s.visibilityPublic, r.visibilityPublic)
    ensures Assigned(p.photoDataUrl, s.photoDataUrl, r.photoDataUrl)
    ensures Assigned(p.totalClasses, s.totalClasses, r.totalClasses)
    ensures Assigned(p.attendedClasses, s.attendedClasses, r.attendedClasses)
    ensures Assigned(p.goalPercent, s.goalPercent, r.goalPercent)
    ensures Assigned(p.logs, s.logs, r.logs)
  {
    Student(
      p.id.GetOr(s.id), p.name.GetOr(s.name), p.roll.GetOr(s.roll),
      p.className.GetOr(s.className), p.section.GetOr(s.section),
      p.email.GetOr(s.email), p.phone.GetOr(s.phone),
      p.visibilityPublic.GetOr(s.visibilityPublic), p.photoDataUrl.GetOr(s.photoDataUrl),
      p.totalClasses.GetOr(s.totalClasses), p.attendedClasses.GetOr(s.attendedClasses),
      p.goalPercent.GetOr(s.goalPercent), p.logs.GetOr(s.logs))
  }

  /** `updateSelectedStudent`: patch the selected student and no other. */
  function UpdateSelectedStudent(d: Data, p: StudentPatch): (r: Data)
    requires WellFormed(d)
    ensures |r.students| == |d.students|
    ensures r.students[SelectedIndex(d)] == ApplyPatch(FindSelectedStudent(d), p)
    ensures forall j :: 0 <= j < |d.students| && j != SelectedIndex(d) ==> r.students[j] == d.students[j]
    ensures r == d.(students := r.students)
  {
    var i := SelectedIndex(d);
    d.(students := d.students[i := ApplyPatch(d.students[i], p)])
  }

  /**
   * Applying the same patch twice is applying it once, as long as the patch
   * leaves the id alone (a new id can move the selection to another student).
   */
  lemma UpdateSelectedIdempotent(d: Data, p: StudentPatch)
    requires WellFormed(d)
    requires p.id.None?
    ensures UpdateSelectedStudent(UpdateSelectedStudent(d, p), p) == UpdateSelectedStudent(d, p)
  {
    var r := UpdateSelectedStudent(d, p);
    IndexOfIdOnlyIds(d.students, r.students, d.selectedStudentId);
    assert SelectedIndex(r) == SelectedIndex(d);
    var i := SelectedIndex(d);
    var s := d.students[i];
    assert ApplyPatch(ApplyPatch(s, p), p) == ApplyPatch(s, p);
  }

  /** The percentage `appendLog` stores: 0 when total is 0 or NaN, otherwise `attended / total * 100`. */
  function LogPercent(total: Num, attended: Num): (r: Num)
    ensures !Truthy(total) ==> r == Finite(0.0)
    ensures total.Finite? && total.value != 0.0 && attended.Finite? ==>
              r.Finite? && r.value * total.value == 100.0 * attended.value
  {
    if Truthy(total) then Times100(Div(attended, total)) else Finite(0.0)
  }

  /**
   * `appendLog`: put an entry for the selected student's counters in front of
   * that student's log, keeping `StudentLogCap` entries; every other student
   * and every other field is left as it was.
   */
  function AppendLog(d: Data, kind: string, action: string, time: string): (r: Data)
    requires WellFormed(d)
    ensures WellFormed(r) && |r.students| == |d.students|
    ensures SelectedIndex(r) == SelectedIndex(d)
    ensures forall j :: 0 <= j < |d.students| && j != SelectedIndex(d) ==> r.students[j] == d.students[j]
    ensures var s := d.students[SelectedIndex(d)];
            var logs := r.students[SelectedIndex(d)].logs;
            && r.students[SelectedIndex(d)] == s.(logs := logs)
            && |logs| == Min(StudentLogCap, |s.logs| + 1)
            && logs[1..] == s.logs[..|logs| - 1]
            && logs[0].kind == kind && logs[0].action == action && logs[0].time == time
            && logs[0].total == s.totalClasses && logs[0].attended == s.attendedClasses
            && logs[0].percentValue == LogPercent(s.totalClasses, s.attendedClasses)
    ensures r == d.(students := r.students)
  {
    var i := SelectedIndex(d);
    var s := d.students[i];
    var entry := StudentLog(kind, action, time, s.totalClasses, s.attendedClasses,
                            LogPercent(s.totalClasses, s.attendedClasses));
    var logs := PrependCapped(entry, s.logs, StudentLogCap);
    var r := d.(students := d.students[i := s.(logs := logs)]);
    IndexOfIdOnlyIds(d.students, r.students, d.selectedStudentId);
    r
  }

  /** True when `ensureData` has to fall back to the default record. */
  predicate Fresh(stored: Option<Data>) {
    stored.None? || !WellFormed(stored.value)
  }

  /**
   * `appendLog` as api.js:198-213 writes it, starting from what is stored.
   * When nothing usable is stored, `ensureData` hands out a clone of the
   * default record. In that record the second student was spread from the
   * first (api.js:31), so both students hold the same `logs` array, and the
   * clone keeps that sharing. `unshift` therefore puts the new entry into the
   * second student's log too; line 211 then rebinds only the selected (first)
   * student's `logs` to the capped copy, and the second student keeps the
   * shared array, entry included.
   */
  function AppendLogAsWritten(stored: Option<Data>, kind: string, action: string, time: string): (r: Data)
    ensures !Fresh(stored) ==> r == AppendLog(stored.value, kind, action, time)
    ensures Fresh(stored) ==>
              var intended := AppendLog(DefaultData, kind, action, time);
              && |r.students| == 2
              && r.students[0] == intended.students[0]
              && r.students[1] == intended.students[1].(logs := [intended.students[0].logs[0]] + DefaultStudent.logs)
              && r == intended.(students := r.students)
  {
    var d := EnsureData(stored);
    var r := AppendLog(d, kind, action, time);
    if Fresh(stored) then
      assert SelectedIndex(d) == 0 by {
        assert d.students[0].id == d.selectedStudentId;
      }
      var shared := [r.students[0].logs[0]] + DefaultStudent.logs;
      r.(students := r.students[1 := r.students[1].(logs := shared)])
    else r
  }

  /**
   * The first log entry written to a fresh store also lands in the second
   * student's log, although that student was not selected; the intended
   * `AppendLog` leaves that log empty.
   */
  lemma FreshAppendLeaksToSecondStudent(kind: string, action: string, time: string)
    ensures var written := AppendLogAsWritten(None, kind, action, time);
            var intended := AppendLog(EnsureData(None), kind, action, time);
            && written.students[1].id == "stu-1002"
            && |written.students[1].logs| == 1
            && written.students[1].logs[0] == written.students[0].logs[0]
            && written.students[1].logs[0].action == action
            && intended.students[1].logs == []
            && written != intended
  {
    var d := EnsureData(None);
    assert SelectedIndex(d) == 0 by {
      assert d.students[0].id == d.selectedStudentId;
    }
  }

  /**
   * `addNotification`: one notification in front, keeping `NotificationCap` of
   * them. `level` is `None` when the caller leaves it out, and then defaults to "info".
   */
  function AddNotification(d: Data, message: string, level: Option<string>, time: string): (r: Data)
    ensures |r.notifications| == Min(NotificationCap, |d.notifications| + 1)
    ensures r.notifications[0].message == message && r.notifications[0].time == time
    ensures level.Some? ==> r.notifications[0].level == level.value
    ensures level.None? ==> r.notifications[0].level == "info"
    ensures r.notifications[1..] == d.notifications[..|r.notifications| - 1]
    ensures r == d.(notifications := r.notifications)
  {
    var n := Notification(message, level.GetOr("info"), time);
    d.(notifications := PrependCapped(n, d.notifications, NotificationCap))
  }

  /** `addLeaveRequest`: a new pending request in front; the earlier ones are kept as they were. */
  function AddLeaveRequest(d: Data, id: string, date: string, reason: string, studentName: string): (r: Data)
    ensures |r.leaveRequests| == |d.leaveRequests| + 1
    ensures r.leaveRequests[0] == LeaveRequest(id, date, reason, studentName, "Pending")
    ensures r.leaveRequests[1..] == d.leaveRequests
    ensures r == d.(leaveRequests := r.leaveRequests)
  {
    d.(leaveRequests := [LeaveRequest(id, date, reason, studentName, "Pending")] + d.leaveRequests)
  }

  /** `i` is the position of the first request with this id. */
  predicate IsFirstMatch(requests: seq<LeaveRequest>, id: string, i: int) {
    && 0 <= i < |requests|
    && requests[i].id == id
    && forall j :: 0 <= j < i ==> requests[j].id != id
  }

  /** `updateLeaveStatus`: set the status of the first request with this id; with no such request, change nothing. */
  method UpdateLeaveStatus(d: Data, id: string, status: string) returns (r: Data)
    ensures r == d.(leaveRequests := r.leaveRequests)
    ensures |r.leaveRequests| == |d.leaveRequests|
    ensures forall i :: 0 <= i < |d.leaveRequests| ==>
              r.leaveRequests[i] == if IsFirstMatch(d.leaveRequests, id, i)
                                    then d.leaveRequests[i].(status := status)
                                    else d.leaveRequests[i]
    ensures (forall i :: 0 <= i < |d.leaveRequests| ==> d.leaveRequests[i].id != id) ==> r == d
  {
    var requests := d.leaveRequests;
    var i := 0;
    while i < |requests| && requests[i].id != id
      invariant 0 <= i <= |requests|
      invariant forall j :: 0 <= j < i ==> requests[j].id != id
    {
      i := i + 1;
    }
    if i < |requests| {
      r := d.(leaveRequests := requests[i := requests[i].(status := status)]);
      assert IsFirstMatch(requests, id, i);
      forall k | 0 <= k < |requests| && k != i
        ensures !IsFirstMatch(requests, id, k)
      {
        if k > i {
          assert requests[i].id == id;
        }
      }
    } else {
      r := d;
    }
  }
}
