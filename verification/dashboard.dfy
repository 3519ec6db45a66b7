/**
 * The attendance dashboard of assets/js/app.js as a transition system.
 *
 * The module-level `state` object becomes an immutable `State`; every event
 * handler bound in `bindEvents` becomes a pure function from the state before
 * the event to the state after it. Rendering and storage are left out.
 */
module Dashboard {
  import opened JsNumber
  import opened Engine
  import Text
  import opened Capped

  /** At most this many counter pairs are kept for undo (`slice(-20)`). */
  const UndoCap: nat := 20

  /** At most this many activity-log entries are kept (`slice(0, 40)`). */
  const LogCap: nat := 40

  /** The `type` of an activity-log entry. */
  datatype LogType = Manual | Present | Absent | Profile

  /** The `action` text of an activity-log entry, one constructor per message the code writes. */
  datatype Note =
    | InitialTotalsLoaded
    | ManualTotalsUpdated
    | MarkedPresent
    | MarkedAbsent
    | UndidLastAction
    | CountersReset
    | VisibilitySet(isPublic: bool)
    | GoalChanged(goal: real)
    | ProfileDetailsUpdated

  /** An activity-log entry: a snapshot of the counters and their percentage when it was written. */
  datatype LogEntry = LogEntry(kind: LogType, note: Note, time: string, total: nat, attended: nat, percentValue: real)

  /** The student's profile card. */
  datatype StudentProfile = StudentProfile(name: string, roll: string, className: string, section: string, email: string, phone: string)

  /** Everything the dashboard keeps between events. */
  datatype State = State(
    counters: Counters,
    visibilityPublic: bool,
    goalPercent: real,
    searchQuery: string,
    logFilter: string,
    logs: seq<LogEntry>,
    undoStack: seq<Counters>,
    profile: StudentProfile)

  const DefaultProfile := StudentProfile("Avery Johnson", "NB-2026-1042", "Grade 10", "A", "avery.johnson@northbridge.edu", "+1 415 555 0182")

  /** The state used when nothing was stored. */
  const DefaultState := State(Counters(42, 36), true, 85.0, "", "All", [], [], DefaultProfile)

  /** The state invariant: valid counters, capped log and undo stack, and only valid pairs to undo to. */
  predicate Valid(s: State) {
    && s.counters.Valid()
    && |s.logs| <= LogCap
    && |s.undoStack| <= UndoCap
    && forall i :: 0 <= i < |s.undoStack| ==> s.undoStack[i].Valid()
  }

  /** The fields no counter action touches. */
  predicate SameSettings(s: State, r: State) {
    && r.visibilityPublic == s.visibilityPublic
    && r.goalPercent == s.goalPercent
    && r.searchQuery == s.searchQuery
    && r.logFilter == s.logFilter
    && r.profile == s.profile
  }

  /** `r`'s undo stack is `s`'s with `s`'s counters on top and, past the cap, its oldest entries gone. */
  predicate Pushed(s: State, r: State) {
    && |r.undoStack| == Min(UndoCap, |s.undoStack| + 1)
    && r.undoStack[|r.undoStack| - 1] == s.counters
    && r.undoStack[..|r.undoStack| - 1] == s.undoStack[|s.undoStack| + 1 - |r.undoStack|..]
  }

  /** The entry `addLog` writes: the counters of `r` and their percentage. */
  function EntryFor(r: State, kind: LogType, note: Note, time: string): LogEntry {
    LogEntry(kind, note, time, r.counters.total, r.counters.attended,
             CalculatePercentage(r.counters.total, r.counters.attended))
  }

  /** `r`'s log is `before` with one new entry describing `r` in front, capped at `LogCap`. */
  predicate Logged(before: seq<LogEntry>, r: State, kind: LogType, note: Note, time: string) {
    && |r.logs| == Min(LogCap, |before| + 1)
    && r.logs[0] == EntryFor(r, kind, note, time)
    && r.logs[1..] == before[..|r.logs| - 1]
  }

  /** `snapshotAttendance`: push the current counters, keeping the newest `UndoCap` pairs. */
  function SnapshotAttendance(s: State): (r: State)
    ensures Pushed(s, r)
    ensures r == s.(undoStack := r.undoStack)
  {
    s.(undoStack := AppendCapped(s.undoStack, s.counters, UndoCap))
  }

  /** `addLog`: put an entry for the current counters at the front of the log, keeping `LogCap` entries. */
  function AddLog(s: State, kind: LogType, note: Note, time: string): (r: State)
    ensures Logged(s.logs, r, kind, note, time)
    ensures r == s.(logs := r.logs)
  {
    var entry := EntryFor(s, kind, note, time);
    s.(logs := PrependCapped(entry, s.logs, LogCap))
  }

  /** The attendance form: snapshot, then replace the counters by the sanitized inputs. */
  function SubmitTotals(s: State, total: Num, attended: Num, time: string): (r: State)
    ensures r.counters == SanitizeAttendance(total, attended)
    ensures Pushed(s, r) && SameSettings(s, r)
    ensures Logged(s.logs, r, Manual, ManualTotalsUpdated, time)
  {
    var s1 := SnapshotAttendance(s);
    AddLog(s1.(counters := SanitizeAttendance(total, attended)), Manual, ManualTotalsUpdated, time)
  }

  /** The present button: snapshot, then one more class held and attended. */
  function MarkPresent(s: State, time: string): (r: State)
    ensures r.counters == Counters(s.counters.total + 1, s.counters.attended + 1)
    ensures s.counters.Valid() ==> r.counters.Valid()
    ensures Pushed(s, r) && SameSettings(s, r)
    ensures Logged(s.logs, r, Present, MarkedPresent, time)
  {
    var s1 := SnapshotAttendance(s);
    var c := s.counters;
    AddLog(s1.(counters := Counters(c.total + 1, c.attended + 1)), Present, MarkedPresent, time)
  }

  /** The absent button: snapshot, then one more class held. */
  function MarkAbsent(s: State, time: string): (r: State)
    ensures r.counters == Counters(s.counters.total + 1, s.counters.attended)
    ensures s.counters.Valid() ==> r.counters.Valid()
    ensures Pushed(s, r) && SameSettings(s, r)
    ensures Logged(s.logs, r, Absent, MarkedAbsent, time)
  {
    var s1 := SnapshotAttendance(s);
    var c := s.counters;
    AddLog(s1.(counters := Counters(c.total + 1, c.attended)), Absent, MarkedAbsent, time)
  }

  /** The undo button: restore the newest saved pair and log it; with nothing saved, do nothing at all. */
  function Undo(s: State, time: string): (r: State)
    ensures |s.undoStack| == 0 ==> r == s
    ensures |s.undoStack| > 0 ==>
              && r.counters == s.undoStack[|s.undoStack| - 1]
              && r.undoStack == s.undoStack[..|s.undoStack| - 1]
              && SameSettings(s, r)
              && Logged(s.logs, r, Manual, UndidLastAction, time)
  {
    if |s.undoStack| == 0 then s
    else
      var previous := s.undoStack[|s.undoStack| - 1];
      AddLog(s.(counters := previous, undoStack := s.undoStack[..|s.undoStack| - 1]), Manual, UndidLastAction, time)
  }

  /** The reset button: snapshot, then both counters to zero. */
  function Reset(s: State, time: string): (r: State)
    ensures r.counters == Counters(0, 0)
    ensures Pushed(s, r) && SameSettings(s, r)
    ensures Logged(s.logs, r, Manual, CountersReset, time)
  {
    var s1 := SnapshotAttendance(s);
    AddLog(s1.(counters := Counters(0, 0)), Manual, CountersReset, time)
  }

  /** `out` is what the form keeps of `input`: the trimmed text, or `fallback` when the field was blank. */
  predicate FormField(input: string, fallback: string, out: string) {
    && (Text.IsBlank(input) ==> out == fallback)
    && (!Text.IsBlank(input) ==> out == Text.Trim(input))
  }

  /** The profile form: every field trimmed, or its default when left blank. */
  function ProfileFromForm(form: StudentProfile): (r: StudentProfile)
    ensures FormField(form.name, DefaultProfile.name, r.name)
    ensures FormField(form.roll, DefaultProfile.roll, r.roll)
    ensures FormField(form.className, DefaultProfile.className, r.className)
    ensures FormField(form.section, DefaultProfile.section, r.section)
    ensures FormField(form.email, DefaultProfile.email, r.email)
    ensures FormField(form.phone, DefaultProfile.phone, r.phone)
  {
    StudentProfile(
      Text.TrimOr(form.name, DefaultProfile.name),
      Text.TrimOr(form.roll, DefaultProfile.roll),
      Text.TrimOr(form.className, DefaultProfile.className),
      Text.TrimOr(form.section, DefaultProfile.section),
      Text.TrimOr(form.email, DefaultProfile.email),
      Text.TrimOr(form.phone, DefaultProfile.phone))
  }

  /** The visibility toggle: the flag follows the box, and the change is logged under Profile. */
  function SetVisibility(s: State, checked: bool, time: string): (r: State)
    ensures r.visibilityPublic == checked
    ensures r == s.(visibilityPublic := r.visibilityPublic, logs := r.logs)
    ensures Logged(s.logs, r, Profile, VisibilitySet(checked), time)
  {
    AddLog(s.(visibilityPublic := checked), Profile, VisibilitySet(checked), time)
  }

  /** Releasing the goal slider: the goal it already holds is logged, and nothing else changes. */
  function CommitGoal(s: State, time: string): (r: State)
    ensures r == s.(logs := r.logs)
    ensures Logged(s.logs, r, Manual, GoalChanged(s.goalPercent), time)
  {
    AddLog(s, Manual, GoalChanged(s.goalPercent), time)
  }

  /** The profile form: the profile is rebuilt from the form, and the update is logged under Profile. */
  function SubmitProfile(s: State, form: StudentProfile, time: string): (r: State)
    ensures r.profile == ProfileFromForm(form)
    ensures r == s.(profile := r.profile, logs := r.logs)
    ensures Logged(s.logs, r, Profile, ProfileDetailsUpdated, time)
  {
    AddLog(s.(profile := ProfileFromForm(form)), Profile, ProfileDetailsUpdated, time)
  }

  /** The events `bindEvents` listens for. */
  datatype Event =
    | TotalsSubmitted(total: Num, attended: Num)
    | PresentClicked
    | AbsentClicked
    | UndoClicked
    | ResetClicked
    | VisibilityChanged(checked: bool)
    | GoalSlid(goal: real)
    | GoalCommitted
    | ProfileSubmitted(form: StudentProfile)
    | LogFilterChanged(filter: string)
    | SearchTyped(query: string)
    | ClearLogClicked

  /** The events that snapshot the counters before changing them. */
  predicate IsCounterEvent(e: Event) {
    e.TotalsSubmitted? || e.PresentClicked? || e.AbsentClicked? || e.ResetClicked?
  }

  /** One event handler; `time` is the clock reading `addLog` would stamp. */
  function Step(s: State, e: Event, time: string): (r: State)
    ensures IsCounterEvent(e) ==> Pushed(s, r) && SameSettings(s, r)
    ensures !IsCounterEvent(e) && !e.UndoClicked? ==> r.counters == s.counters && r.undoStack == s.undoStack
  {
    match e
    case TotalsSubmitted(t, a) => SubmitTotals(s, t, a, time)
    case PresentClicked => MarkPresent(s, time)
    case AbsentClicked => MarkAbsent(s, time)
    case UndoClicked => Undo(s, time)
    case ResetClicked => Reset(s, time)
    case VisibilityChanged(checked) => SetVisibility(s, checked, time)
    case GoalSlid(goal) => s.(goalPercent := goal)
    case GoalCommitted => CommitGoal(s, time)
    case ProfileSubmitted(form) => SubmitProfile(s, form, time)
    case LogFilterChanged(filter) => s.(logFilter := filter)
    case SearchTyped(query) => s.(searchQuery := query)
    case ClearLogClicked => s.(logs := [])
  }

  /** Start-up: an empty log gets an "initial totals loaded" entry. */
  function Boot(s: State, time: string): (r: State)
    ensures |r.logs| >= 1
    ensures |s.logs| > 0 ==> r == s
    ensures |s.logs| == 0 ==> r.logs == [EntryFor(s, Manual, InitialTotalsLoaded, time)] && r == s.(logs := r.logs)
  {
    if |s.logs| == 0 then AddLog(s, Manual, InitialTotalsLoaded, time) else s
  }

  /** Events handled one after another, all stamped with the same time. */
  function Run(s: State, events: seq<Event>, time: string): State
    decreases |events|
  {
    if |events| == 0 then s else Run(Step(s, events[0], time), events[1..], time)
  }

  /** `n` presses of the undo button. */
  function Undos(n: nat): (r: seq<Event>)
    ensures |r| == n
    ensures forall i :: 0 <= i < n ==> r[i] == UndoClicked
  {
    if n == 0 then [] else Undos(n - 1) + [UndoClicked]
  }

  /** Submitting the profile form as it was filled in from the profile changes nothing more. */
  lemma ProfileFormIdempotent(form: StudentProfile)
    ensures var p := ProfileFromForm(form);
            && Text.IsTrimmed(p.name) && Text.IsTrimmed(p.roll) && Text.IsTrimmed(p.className)
            && Text.IsTrimmed(p.section) && Text.IsTrimmed(p.email) && Text.IsTrimmed(p.phone)
    ensures ProfileFromForm(ProfileFromForm(form)) == ProfileFromForm(form)
  {
    var d := DefaultProfile;
    assert Text.IsTrimmed(d.name) && Text.IsTrimmed(d.roll) && Text.IsTrimmed(d.className);
    assert Text.IsTrimmed(d.section) && Text.IsTrimmed(d.email) && Text.IsTrimmed(d.phone);
    Text.TrimOrIdempotent(form.name, d.name);
    Text.TrimOrIdempotent(form.roll, d.roll);
    Text.TrimOrIdempotent(form.className, d.className);
    Text.TrimOrIdempotent(form.section, d.section);
    Text.TrimOrIdempotent(form.email, d.email);
    Text.TrimOrIdempotent(form.phone, d.phone);
  }

  /** A counter event pushes the pre-event pair and leaves the settings alone. */
  lemma CounterEventPushes(s: State, e: Event, time: string)
    requires IsCounterEvent(e)
    ensures Pushed(s, Step(s, e, time)) && SameSettings(s, Step(s, e, time))
    ensures Logged(s.logs, Step(s, e, time), Step(s, e, time).logs[0].kind, Step(s, e, time).logs[0].note, time)
  {
  }

  /** A push of valid counters onto a stack of valid pairs leaves a capped stack of valid pairs. */
  lemma {:induction false} PushedKeepsValid(s: State, r: State)
    requires Pushed(s, r)
    requires s.counters.Valid()
    requires forall i :: 0 <= i < |s.undoStack| ==> s.undoStack[i].Valid()
    ensures |r.undoStack| <= UndoCap
    ensures forall i :: 0 <= i < |r.undoStack| ==> r.undoStack[i].Valid()
  {
    var n := |r.undoStack|;
    var off := |s.undoStack| + 1 - n;
    forall i | 0 <= i < n
      ensures r.undoStack[i].Valid()
    {
      if i < n - 1 {
        assert r.undoStack[i] == r.undoStack[..n - 1][i] == s.undoStack[off..][i];
      }
    }
  }

  /** Every event keeps the state invariant. */
  lemma StepPreservesValid(s: State, e: Event, time: string)
    requires Valid(s)
    ensures Valid(Step(s, e, time))
  {
    var r := Step(s, e, time);
    if IsCounterEvent(e) {
      CounterEventPushes(s, e, time);
      PushedKeepsValid(s, r);
    } else if e.UndoClicked? && |s.undoStack| > 0 {
      var k := |s.undoStack| - 1;
      assert r.counters == s.undoStack[k];
      forall i | 0 <= i < |r.undoStack|
        ensures r.undoStack[i].Valid()
      {
        assert r.undoStack[i] == s.undoStack[i];
      }
    }
  }

  /** With something saved, undo restores exactly the newest pair, pops it, and logs one entry. */
  lemma UndoPops(s: State, time: string)
    requires |s.undoStack| > 0
    ensures var r := Step(s, UndoClicked, time);
            && r.counters == s.undoStack[|s.undoStack| - 1]
            && r.undoStack == s.undoStack[..|s.undoStack| - 1]
            && SameSettings(s, r)
            && Logged(s.logs, r, Manual, UndidLastAction, time)
  {
  }

  /** Undo after any push from `s` restores `s`'s counters and its stack, less the oldest pair when the push overflowed. */
  lemma UndoAfterCapped(s: State, s1: State, t2: string)
    requires Pushed(s, s1) && SameSettings(s, s1)
    requires |s.undoStack| <= UndoCap && |s1.logs| >= 1
    ensures var s2 := Step(s1, UndoClicked, t2);
            && s2.counters == s.counters
            && s2.undoStack == (if |s.undoStack| < UndoCap then s.undoStack else s.undoStack[1..])
            && SameSettings(s, s2)
            && |s2.logs| >= 2
            && s2.logs[0].note == UndidLastAction
            && s2.logs[1] == s1.logs[0]
  {
    UndoPops(s1, t2);
    var s2 := Step(s1, UndoClicked, t2);
    var n := |s1.undoStack|;
    assert s2.undoStack == s.undoStack[|s.undoStack| + 1 - n..];
    assert s2.logs[1..][0] == s1.logs[..|s2.logs| - 1][0];
  }

  /**
   * Undo right after a counter event restores the pair from before it, and
   * the undo stack as it was (less its oldest pair if the push overflowed).
   * The event's log entry stays, just below the undo's own entry.
   */
  lemma UndoRoundTrip(s: State, e: Event, t1: string, t2: string)
    requires IsCounterEvent(e)
    requires |s.undoStack| <= UndoCap
    ensures var s1 := Step(s, e, t1);
            var s2 := Step(s1, UndoClicked, t2);
            && s2.counters == s.counters
            && s2.undoStack == (if |s.undoStack| < UndoCap then s.undoStack else s.undoStack[1..])
            && SameSettings(s, s2)
            && |s2.logs| >= 2
            && s2.logs[0].note == UndidLastAction
            && s2.logs[1] == s1.logs[0]
  {
    CounterEventPushes(s, e, t1);
    UndoAfterCapped(s, Step(s, e, t1), t2);
  }

  /** Reset twice leaves the counters where one reset put them. */
  lemma ResetIdempotent(s: State, t1: string, t2: string)
    ensures Step(Step(s, ResetClicked, t1), ResetClicked, t2).counters == Step(s, ResetClicked, t1).counters == Counters(0, 0)
  {
  }

  /**
   * The settings events never touch the counters or the undo stack; each of
   * them either leaves the log alone or puts one entry in front; clearing the
   * log empties it and changes nothing else.
   */
  lemma SettingsEventsFrame(s: State, e: Event, time: string)
    requires !IsCounterEvent(e) && !e.UndoClicked?
    ensures var r := Step(s, e, time);
            && r.counters == s.counters
            && r.undoStack == s.undoStack
            && (e.ClearLogClicked? ==> r == s.(logs := []))
            && (e.GoalSlid? || e.LogFilterChanged? || e.SearchTyped? ==> r.logs == s.logs)
            && (e.VisibilityChanged? || e.GoalCommitted? || e.ProfileSubmitted? ==>
                  |r.logs| == Min(LogCap, |s.logs| + 1) && r.logs[1..] == s.logs[..|r.logs| - 1])
  {
  }

  /**
   * What each counter event does: the form sets the sanitized totals, present
   * and absent add a class (attended or not), reset zeroes both, and each logs
   * its own entry for the new counters.
   */
  lemma CounterEventEffects(s: State, e: Event, time: string)
    ensures var r := Step(s, e, time);
            && (e.TotalsSubmitted? ==>
                  r.counters == SanitizeAttendance(e.total, e.attended) && Logged(s.logs, r, Manual, ManualTotalsUpdated, time))
            && (e.PresentClicked? ==>
                  r.counters == Counters(s.counters.total + 1, s.counters.attended + 1) && Logged(s.logs, r, Present, MarkedPresent, time))
            && (e.AbsentClicked? ==>
                  r.counters == Counters(s.counters.total + 1, s.counters.attended) && Logged(s.logs, r, Absent, MarkedAbsent, time))
            && (e.ResetClicked? ==>
                  r.counters == Counters(0, 0) && Logged(s.logs, r, Manual, CountersReset, time))
  {
  }

  /**
   * What each settings event does to its own field: the toggle, the goal
   * commit and the profile form log one entry each; dragging the goal slider,
   * choosing a filter and typing a search change only their own field.
   */
  lemma SettingsEventEffects(s: State, e: Event, time: string)
    ensures var r := Step(s, e, time);
            && (e.VisibilityChanged? ==>
                  && r.visibilityPublic == e.checked
                  && r == s.(visibilityPublic := e.checked, logs := r.logs)
                  && Logged(s.logs, r, Profile, VisibilitySet(e.checked), time))
            && (e.GoalSlid? ==> r == s.(goalPercent := e.goal))
            && (e.GoalCommitted? ==> r == s.(logs := r.logs) && Logged(s.logs, r, Manual, GoalChanged(s.goalPercent), time))
            && (e.ProfileSubmitted? ==>
                  && r == s.(profile := ProfileFromForm(e.form), logs := r.logs)
                  && Logged(s.logs, r, Profile, ProfileDetailsUpdated, time))
            && (e.LogFilterChanged? ==> r == s.(logFilter := e.filter))
            && (e.SearchTyped? ==> r == s.(searchQuery := e.query))
  {
  }

  /** Past log entries are never rewritten: an event other than clearing keeps the log or shifts it down by one. */
  lemma HistoryPreserved(s: State, e: Event, time: string)
    requires !e.ClearLogClicked?
    ensures var r := Step(s, e, time);
            r.logs == s.logs || (|r.logs| == Min(LogCap, |s.logs| + 1) && r.logs[1..] == s.logs[..|r.logs| - 1])
  {
    if IsCounterEvent(e) {
      CounterEventPushes(s, e, time);
    }
  }

  /** Running `xs + ys` is running `xs` and then `ys`. */
  lemma {:induction false} RunAppend(s: State, xs: seq<Event>, ys: seq<Event>, time: string)
    ensures Run(s, xs + ys, time) == Run(Run(s, xs, time), ys, time)
    decreases |xs|
  {
    if |xs| > 0 {
      assert (xs + ys)[1..] == xs[1..] + ys;
      RunAppend(Step(s, xs[0], time), xs[1..], ys, time);
    } else {
      assert xs + ys == ys;
    }
  }

  /** Below the cap, a counter event appends the pre-event pair and drops nothing. */
  lemma PushWithoutOverflow(s: State, e: Event, time: string)
    requires IsCounterEvent(e)
    requires |s.undoStack| < UndoCap
    ensures Step(s, e, time).undoStack == s.undoStack + [s.counters]
    ensures SameSettings(s, Step(s, e, time))
  {
    var s1 := Step(s, e, time);
    CounterEventPushes(s, e, time);
    var n := |s1.undoStack|;
    assert s1.undoStack == s1.undoStack[..n - 1] + [s1.undoStack[n - 1]];
    assert s.undoStack[|s.undoStack| + 1 - n..] == s.undoStack;
  }

  /** Undo cancels a push: the pushed pair comes back and the stack is as before. */
  lemma UndoAfterPush(s: State, s2: State, time: string)
    requires s2.undoStack == s.undoStack + [s.counters]
    requires SameSettings(s, s2)
    ensures var r := Step(s2, UndoClicked, time);
            r.counters == s.counters && r.undoStack == s.undoStack && SameSettings(s, r)
  {
    UndoPops(s2, time);
    assert (s.undoStack + [s.counters])[..|s.undoStack|] == s.undoStack;
  }

  /** A run starting with `e` handles `e` first. */
  lemma RunCons(s: State, e: Event, rest: seq<Event>, time: string)
    ensures Run(s, [e] + rest, time) == Run(Step(s, e, time), rest, time)
  {
    assert ([e] + rest)[1..] == rest;
  }

  /** A run of one event is one step. */
  lemma RunSingle(s: State, e: Event, time: string)
    ensures Run(s, [e], time) == Step(s, e, time)
  {
    assert [e][1..] == [];
  }

  /** `r` has `s`'s counters, undo stack and settings back; only the log may differ. */
  predicate Restored(s: State, r: State) {
    r.counters == s.counters && r.undoStack == s.undoStack && SameSettings(s, r)
  }

  /**
   * Undo is last-in first-out over any run of counter events: `n` counter
   * events followed by `n` undos bring back the counters and the undo stack,
   * as long as the stack never overflowed.
   */
  lemma {:induction false} UndoAllRestores(s: State, events: seq<Event>, time: string)
    requires forall i :: 0 <= i < |events| ==> IsCounterEvent(events[i])
    requires |s.undoStack| + |events| <= UndoCap
    ensures Restored(s, Run(s, events + Undos(|events|), time))
    decreases |events|
  {
    if |events| == 0 {
      assert events + Undos(0) == [];
    } else {
      UndoAllRestores(Step(s, events[0], time), events[1..], time);
      UndoAllStep(s, events, time);
    }
  }

  /** The inductive step of `UndoAllRestores`: the outer event and the outer undo cancel. */
  lemma UndoAllStep(s: State, events: seq<Event>, time: string)
    requires |events| > 0 && IsCounterEvent(events[0])
    requires |s.undoStack| < UndoCap
    requires var s1 := Step(s, events[0], time);
             Restored(s1, Run(s1, events[1..] + Undos(|events[1..]|), time))
    ensures Restored(s, Run(s, events + Undos(|events|), time))
  {
    var s1 := Step(s, events[0], time);
    PushWithoutOverflow(s, events[0], time);
    UnwrapOuterUndo(s, events, time);
    assert |events[1..]| == |events| - 1;
    UndoAfterPush(s, Run(s1, events[1..] + Undos(|events| - 1), time), time);
  }

  /** Peels the first event and the last undo off `events` followed by as many undos. */
  lemma UnwrapOuterUndo(s: State, events: seq<Event>, time: string)
    requires |events| > 0
    ensures Run(s, events + Undos(|events|), time)
         == Step(Run(Step(s, events[0], time), events[1..] + Undos(|events| - 1), time), UndoClicked, time)
  {
    var e := events[0];
    var middle := events[1..] + Undos(|events| - 1);
    var s1 := Step(s, e, time);
    assert events + Undos(|events|) == [e] + (middle + [UndoClicked]) by {
      assert events == [e] + events[1..];
    }
    RunCons(s, e, middle + [UndoClicked], time);
    RunAppend(s1, middle, [UndoClicked], time);
    RunSingle(Run(s1, middle, time), UndoClicked, time);
  }

  /** The "classes you can miss" tile: a spare count, or how many presents are needed. */
  datatype SafeBunk = Spare(classes: nat) | Need(classes: nat)

  /**
   * The tile shows the safe-miss count when it is not negative, otherwise
   * "Need n"; `n` is then at least 1 and is the fewest presents that restore 75%.
   */
  function SafeBunkOf(c: Counters): (r: SafeBunk)
    ensures r.Need? <==> 4 * c.attended < 3 * c.total
    ensures r.Need? ==> r.classes >= 1
                        && 4 * (c.attended + r.classes) >= 3 * (c.total + r.classes)
                        && 4 * (c.attended + r.classes - 1) < 3 * (c.total + r.classes - 1)
    ensures r.Spare? ==> 4 * c.attended >= 3 * (c.total + r.classes)
    ensures r.Spare? && c.total > 0 ==> 4 * c.attended < 3 * (c.total + r.classes + 1)
  {
    var canMiss := ClassesCanMiss(c.total, c.attended);
    if canMiss >= 0 then Spare(canMiss)
    else Need(ClassesNeededToRecover(c.total, c.attended))
  }

  /** The tracker message: target met, above the 75% minimum only, or a warning. */
  datatype Standing = MeetingTarget | AboveMinimum | BelowMinimum

  /** The tracker message for counters `c` against the goal. */
  function TrackerStanding(c: Counters, goal: real): (r: Standing)
    ensures var p := CalculatePercentage(c.total, c.attended);
            && (r == MeetingTarget <==> p >= goal)
            && (r == AboveMinimum <==> 75.0 <= p < goal)
            && (r == BelowMinimum <==> p < goal && p < 75.0)
  {
    var percent := CalculatePercentage(c.total, c.attended);
    if percent >= goal then MeetingTarget
    else if percent >= 75.0 then AboveMinimum
    else BelowMinimum
  }

  /**
   * Once classes have been held, the warning and the "Need" tile go together:
   * a warning always comes with "Need", and with a goal of at least 75% so
   * does the converse. (A goal under 75% can show "meeting your target"
   * beside "Need".)
   */
  lemma WarningMatchesSafeBunk(c: Counters, goal: real)
    requires c.total > 0
    ensures TrackerStanding(c, goal) == BelowMinimum ==> SafeBunkOf(c).Need?
    ensures SafeBunkOf(c).Need? && goal >= 75.0 ==> TrackerStanding(c, goal) == BelowMinimum
  {
  }

  /** The goal message: how far above the target, or how far away from it. */
  datatype GoalMessage = AboveTarget(margin: real) | AwayFromTarget(gap: real)

  /** The message comparing the percentage with the goal. */
  function GoalMessageOf(c: Counters, goal: real): (r: GoalMessage)
    ensures var p := CalculatePercentage(c.total, c.attended);
            && (r.AboveTarget? <==> p >= goal)
            && (r.AboveTarget? ==> r.margin >= 0.0 && p == goal + r.margin)
            && (r.AwayFromTarget? ==> r.gap > 0.0 && p + r.gap == goal)
  {
    var delta := CalculatePercentage(c.total, c.attended) - goal;
    if delta >= 0.0 then AboveTarget(delta) else AwayFromTarget(-delta)
  }

  /**
   * The stored default (42 held, 36 attended, goal 85%): marking absent gives
   * 43/36, below the goal; undo brings back 42/36.
   */
  lemma DefaultScenario(t1: string, t2: string)
    ensures Valid(DefaultState)
    ensures var s1 := Step(DefaultState, AbsentClicked, t1);
            && s1.counters == Counters(43, 36)
            && GoalMessageOf(s1.counters, s1.goalPercent).AwayFromTarget?
            && TrackerStanding(s1.counters, s1.goalPercent) == AboveMinimum
            && Step(s1, UndoClicked, t2).counters == Counters(42, 36)
  {
    DefaultIsValid();
    var s1 := Step(DefaultState, AbsentClicked, t1);
    AbsentFromDefault(t1);
    PercentAfterAbsent();
    UndoPops(s1, t2);
  }

  /** The stored default satisfies the state invariant. */
  lemma DefaultIsValid()
    ensures Valid(DefaultState)
  {
  }

  /** Marking absent from the stored default gives 43/36 with the goal still 85% and 42/36 saved for undo. */
  lemma AbsentFromDefault(t1: string)
    ensures var s1 := Step(DefaultState, AbsentClicked, t1);
            && s1.counters == Counters(43, 36) && s1.goalPercent == 85.0
            && s1.undoStack == [Counters(42, 36)]
  {
    assert Step(DefaultState, AbsentClicked, t1) == MarkAbsent(DefaultState, t1);
  }

  /** 36 of 43 is between 75% and the default goal of 85%. */
  lemma PercentAfterAbsent()
    ensures 75.0 <= CalculatePercentage(43, 36) < 85.0
  {
    var p := CalculatePercentage(43, 36);
    assert p * 43.0 == 3600.0;
  }
}
