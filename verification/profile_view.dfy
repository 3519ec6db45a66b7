/**
 * The read-only student profile page of assets/js/profile.js: the figures it
 * derives from the saved dashboard state. Reading and parsing the state and
 * writing the page are not modelled.
 */
module ProfileView {
  import opened Engine
  import Dashboard
  import Text
  import opened Capped

  /** The profile page shows at most this many recent log entries (`slice(0, 8)`). */
  const RecentCap: nat := 8

  /**
   * The saved state as this page reads it. The counters are plain integers:
   * the page does not rely on the dashboard's invariant and clamps for itself.
   */
  datatype SavedState = SavedState(
    totalClasses: int,
    attendedClasses: int,
    visibilityPublic: bool,
    goalPercent: real,
    logs: seq<Dashboard.LogEntry>,
    profile: Dashboard.StudentProfile)

  /** What the page shows, apart from the verbatim profile fields. */
  datatype Summary = Summary(
    attendance: real,
    missed: nat,
    progressWidth: real,
    avatar: string,
    recent: seq<Dashboard.LogEntry>)

  /** `Math.max(0, total - attended)`. */
  function MissedCount(total: int, attended: int): (r: nat)
    ensures r as int >= total - attended
    ensures r == 0 || r as int == total - attended
  {
    if total - attended < 0 then 0 else total - attended
  }

  /**
   * The figures profile.js derives from the saved state: the percentage, the
   * missed count, the progress-bar width, the avatar text and the recent window.
   */
  function Summarize(st: SavedState): (r: Summary)
    ensures st.totalClasses == 0 ==> r.attendance == 0.0
    ensures st.totalClasses != 0 ==> r.attendance * st.totalClasses as real == 100.0 * st.attendedClasses as real
    ensures r.missed as int >= st.totalClasses - st.attendedClasses
    ensures r.missed == 0 || r.missed as int == st.totalClasses - st.attendedClasses
    ensures r.progressWidth <= 100.0 && r.progressWidth <= r.attendance
    ensures r.progressWidth == 100.0 || r.progressWidth == r.attendance
    ensures 0 <= st.attendedClasses <= st.totalClasses ==> r.progressWidth == r.attendance
    ensures 1 <= |r.avatar| <= 2
    ensures !Text.HasNonSpace(st.profile.name) ==> r.avatar == "ST"
    ensures Text.HasNonSpace(st.profile.name) ==> r.avatar == Text.Initials(st.profile.name)
    ensures |r.recent| == Min(RecentCap, |st.logs|)
    ensures r.recent == st.logs[..|r.recent|]
  {
    var attendance := CalculatePercentage(st.totalClasses, st.attendedClasses);
    var missed := MissedCount(st.totalClasses, st.attendedClasses);
    var width := BarWidth(attendance);
    var avatar := Text.AvatarText(st.profile.name);
    var recent := st.logs[..Min(RecentCap, |st.logs|)];
    Summary(attendance, missed, width, avatar, recent)
  }
}
