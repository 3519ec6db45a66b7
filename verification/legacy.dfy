/**
 * The older single-page tracker of script.js: the same counter arithmetic as
 * the dashboard, but a 12-entry log without entry types, no undo, and a reset
 * that also wipes the log.
 */
module Legacy {
  import opened JsNumber
  import opened Engine
  import Dashboard
  import opened Capped

  /** At most this many activity-log entries are kept (`slice(0, 12)`). */
  const LogCap: nat := 12

  /** The `action` text of a log entry. */
  datatype Note = InitialTotalsLoaded | ManualUpdate | MarkedPresent | MarkedAbsent

  /** A log entry: the counters and their percentage when it was written. */
  datatype LogEntry = LogEntry(time: string, note: Note, total: nat, attended: nat, percent: real)

  /** The page state: the counters, the visibility flag and the log, newest first. */
  datatype State = State(counters: Counters, visibilityPublic: bool, logs: seq<LogEntry>)

  /** The invariant: valid counters and a log within its cap. */
  predicate Valid(s: State) {
    s.counters.Valid() && |s.logs| <= LogCap
  }

  /** The entry `addLog` writes for counters `c`: their values and their percentage. */
  function EntryFor(c: Counters, note: Note, time: string): LogEntry {
    LogEntry(time, note, c.total, c.attended, CalculatePercentage(c.total, c.attended))
  }

  /** `r`'s log is `before` with one entry for `r`'s counters in front, capped at `LogCap`. */
  predicate Logged(before: seq<LogEntry>, r: State, note: Note, time: string) {
    && |r.logs| == Min(LogCap, |before| + 1)
    && r.logs[0] == EntryFor(r.counters, note, time)
    && r.logs[1..] == before[..|r.logs| - 1]
  }

  /** `addLog`: an entry for the current counters in front, keeping `LogCap` entries. */
  function AddLog(s: State, note: Note, time: string): (r: State)
    ensures Logged(s.logs, r, note, time)
    ensures r == s.(logs := r.logs)
  {
    s.(logs := PrependCapped(EntryFor(s.counters, note, time), s.logs, LogCap))
  }

  /** The page as it starts: 42 classes held, 36 attended, public, and the load-time entry as its only log. */
  function Initial(time: string): (r: State)
    ensures Valid(r)
    ensures r.counters == Counters(42, 36) && r.visibilityPublic
    ensures r.logs == [EntryFor(r.counters, InitialTotalsLoaded, time)]
  {
    AddLog(State(Counters(42, 36), true, []), InitialTotalsLoaded, time)
  }

  /** The events script.js listens for. */
  datatype Event =
    | TotalsSubmitted(total: Num, attended: Num)
    | PresentClicked
    | AbsentClicked
    | ResetClicked
    | VisibilityChanged(checked: bool)

  /** The attendance form: sanitized counters, one log entry, and no snapshot. */
  function SubmitTotals(s: State, total: Num, attended: Num, time: string): (r: State)
    ensures r.counters == SanitizeAttendance(total, attended) && r.counters.Valid()
    ensures r.visibilityPublic == s.visibilityPublic
    ensures Logged(s.logs, r, ManualUpdate, time)
  {
    AddLog(s.(counters := SanitizeAttendance(total, attended)), ManualUpdate, time)
  }

  /** The present button: one more class held and attended. */
  function MarkPresent(s: State, time: string): (r: State)
    ensures r.counters == Counters(s.counters.total + 1, s.counters.attended + 1)
    ensures s.counters.Valid() ==> r.counters.Valid()
    ensures r.visibilityPublic == s.visibilityPublic
    ensures Logged(s.logs, r, MarkedPresent, time)
  {
    var c := s.counters;
    AddLog(s.(counters := Counters(c.total + 1, c.attended + 1)), MarkedPresent, time)
  }

  /** The absent button: one more class held, attended unchanged. */
  function MarkAbsent(s: State, time: string): (r: State)
    ensures r.counters == Counters(s.counters.total + 1, s.counters.attended)
    ensures s.counters.Valid() ==> r.counters.Valid()
    ensures r.visibilityPublic == s.visibilityPublic
    ensures Logged(s.logs, r, MarkedAbsent, time)
  {
    var c := s.counters;
    AddLog(s.(counters := Counters(c.total + 1, c.attended)), MarkedAbsent, time)
  }

  /** The reset button: zero counters and an empty log, with no entry written. */
  function Reset(s: State): (r: State)
    ensures r.counters == Counters(0, 0) && r.logs == []
    ensures r.visibilityPublic == s.visibilityPublic
  {
    s.(counters := Counters(0, 0), logs := [])
  }

  /** One event handler; only the form and the buttons touch the counters, and only the toggle touches the flag. */
  function Step(s: State, e: Event, time: string): (r: State)
    ensures s.counters.Valid() ==> r.counters.Valid()
    ensures e.VisibilityChanged? ==> r.counters == s.counters && r.logs == s.logs
    ensures !e.VisibilityChanged? ==> r.visibilityPublic == s.visibilityPublic
  {
    match e
    case TotalsSubmitted(t, a) => SubmitTotals(s, t, a, time)
    case PresentClicked => MarkPresent(s, time)
    case AbsentClicked => MarkAbsent(s, time)
    case ResetClicked => Reset(s)
    case VisibilityChanged(checked) => s.(visibilityPublic := checked)
  }

  /**
   * What each event does: the form sets the sanitized totals, present and
   * absent add a class (attended or not) and log it, reset zeroes the counters
   * and empties the log, and the toggle sets only the flag.
   */
  lemma StepEffects(s: State, e: Event, time: string)
    ensures var r := Step(s, e, time);
            && (e.TotalsSubmitted? ==>
                  r.counters == SanitizeAttendance(e.total, e.attended) && Logged(s.logs, r, ManualUpdate, time))
            && (e.PresentClicked? ==>
                  r.counters == Counters(s.counters.total + 1, s.counters.attended + 1) && Logged(s.logs, r, MarkedPresent, time))
            && (e.AbsentClicked? ==>
                  r.counters == Counters(s.counters.total + 1, s.counters.attended) && Logged(s.logs, r, MarkedAbsent, time))
            && (e.ResetClicked? ==> r.counters == Counters(0, 0) && r.logs == [])
            && (e.VisibilityChanged? ==> r == s.(visibilityPublic := e.checked))
  {
  }

  /** Every event keeps the counters valid and the log within its cap. */
  lemma StepPreservesValid(s: State, e: Event, time: string)
    requires Valid(s)
    ensures Valid(Step(s, e, time))
  {
  }

  /** Resetting twice is resetting once, log included. */
  lemma ResetIdempotent(s: State)
    ensures Reset(Reset(s)) == Reset(s)
  {
  }

  /** The visibility toggle changes the flag and nothing else. */
  lemma VisibilityOnlyFlag(s: State, checked: bool, time: string)
    ensures Step(s, VisibilityChanged(checked), time).counters == s.counters
    ensures Step(s, VisibilityChanged(checked), time).logs == s.logs
    ensures Step(s, VisibilityChanged(checked), time).visibilityPublic == checked
  {
  }

  /** The tracker message of this page: safe from 85%, above the minimum from 75%, else a warning. */
  datatype Comfort = SafeRange | AboveMinimum | BelowMinimum

  /** The message for counters `c`. */
  function ComfortOf(c: Counters): (r: Comfort)
    ensures var p := CalculatePercentage(c.total, c.attended);
            && (r == SafeRange <==> p >= 85.0)
            && (r == AboveMinimum <==> 75.0 <= p < 85.0)
            && (r == BelowMinimum <==> p < 75.0)
  {
    var percent := CalculatePercentage(c.total, c.attended);
    if percent >= 85.0 then SafeRange
    else if percent >= 75.0 then AboveMinimum
    else BelowMinimum
  }

  /** This page classifies exactly as the dashboard does with its goal set to 85%. */
  lemma ComfortIsDashboardAt85(c: Counters)
    ensures ComfortOf(c) == SafeRange <==> Dashboard.TrackerStanding(c, 85.0) == Dashboard.MeetingTarget
    ensures ComfortOf(c) == AboveMinimum <==> Dashboard.TrackerStanding(c, 85.0) == Dashboard.AboveMinimum
    ensures ComfortOf(c) == BelowMinimum <==> Dashboard.TrackerStanding(c, 85.0) == Dashboard.BelowMinimum
  {
  }
}
