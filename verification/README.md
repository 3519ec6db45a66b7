# Attendance dashboard engine — a Dafny model

The repository is a browser attendance dashboard for students. Beneath its
DOM code sits a small, pure attendance engine, written out several times over:

- `assets/js/app.js` is the dashboard. It holds the two counters (classes held,
  classes attended), a goal percentage, a newest-first activity log capped at
  40 entries and an undo stack capped at 20 pairs. It reacts to present,
  absent, manual-totals, undo, reset, visibility, goal, profile, filter,
  search and clear-log events.
- `script.js` is an older single-page tracker. It has the same arithmetic, a
  12-entry log, no undo, and a reset that also wipes the log.
- `assets/js/api.js` keeps a multi-student record (students, leave requests,
  notifications) in local storage.
- `assets/js/profile.js` is a read-only profile page over the saved dashboard state.

The model is functional. Every record is an immutable datatype. Every event
handler is a pure function from the state before the event to the state
after it. Clock readings and generated ids are parameters.

| file | module | models |
|---|---|---|
| capped.dfy | `Capped` | `unshift`+`slice(0, n)` and `push`+`slice(-n)` |
| js_number.dfy | `JsNumber` | JavaScript numbers: finite (exact real), NaN, ±Infinity; truthiness, the or-default, division, scaling by 100 |
| engine.dfy | `Engine` | `sanitizeAttendance`, `calculatePercentage`, `classesCanMiss`, `classesNeededToRecover` |
| text.dfy | `Text` | `split(" ")`, `initials`, the avatar fallback, `trim` |
| dashboard.dfy | `Dashboard` | the app.js state, its event handlers, undo, and the metric tiles |
| legacy.dfy | `Legacy` | the script.js variant |
| store.dfy | `Store` | the local-storage branch of the api.js `api` object |
| profile_view.dfy | `ProfileView` | the figures profile.js derives |
| options.dfy | `Options` | an optional value |

## Arithmetic

The functions in `Engine` follow the source formulas literally, over exact
reals: `floor(attended / 0.75 - total)` and `ceil((0.75 * total - attended) / 0.25)`.
The lemmas then prove what those formulas are for:

- the safe-miss count is `floor((4a - 3t) / 3)`. It is the largest `k` for which
  `k` more absences keep attendance at 75% or above.
- the recovery count is `max(0, 3t - 4a)`. It is the smallest `n` for which `n`
  consecutive presents bring attendance back to 75%.
- for valid counters the safe-miss count is negative exactly when the recovery
  count is positive. So the "Need n" tile always shows `n >= 1`.

0.75 and 0.25 are exact binary fractions. For counters of any realistic size,
the browser's doubles compute the same integers as these exact reals.

script.js lines 21-44 are textually identical to app.js lines 58-81, and
profile.js `percent` (lines 35-38) is identical to `calculatePercentage`.
Each is modelled once, by the `Engine` members cited below.

## Model

In app.js only the goal slider's `change` event writes a log entry; its
`input` event only sets the goal (`GoalSlid` / `GoalCommitted`).

| member | source | states |
|---|---|---|
| Engine.ClampCount | assets/js/app.js:59-60 | a finite input becomes the largest integer not above it (0 if negative); NaN and infinities become 0 |
| Engine.SanitizeAttendance | assets/js/app.js:58-65 | the result always satisfies `0 <= attended <= total`; total is the clamped input; attended is the clamped input, lowered to total when it exceeds it |
| Engine.SanitizeIdempotent | assets/js/app.js:58-65 | sanitizing already-sanitized counters returns them unchanged |
| Engine.SanitizeFixedPoints | script.js:21-28 | integer counters pass through sanitizing unchanged exactly when `attended <= total` |
| Engine.CalculatePercentage | assets/js/app.js:67-70 | 0 when total is 0, otherwise `percent * total == 100 * attended`; within [0, 100] for valid counters; at least 75 exactly when `4a >= 3t` (t > 0) |
| Engine.BarWidth | assets/js/app.js:248 | the bar width is at most 100 and at most the percentage, and is one of the two |
| Engine.ClassesCanMiss | assets/js/app.js:72-75 | 0 when total is 0; otherwise `3k <= 4a - 3t < 3k + 3` |
| Engine.CanMissClosedForm | assets/js/app.js:72-75 | for nonzero total the count equals `(4a - 3t) / 3` with floor division |
| Engine.CanMissIsLargest | assets/js/app.js:72-75 | `k` more absences keep attendance at or above 75% exactly when `k` is at most the count |
| Engine.ClassesNeededToRecover | assets/js/app.js:77-81 | never negative; 0 exactly when `4a >= 3t`; otherwise `3t - 4a` |
| Engine.RecoverClosedForm | script.js:40-44 | the recovery count is `max(0, 3t - 4a)` |
| Engine.RecoverIsSmallest | assets/js/app.js:77-81 | `n` consecutive presents reach 75% exactly when `n` is at least the count |
| Engine.RecoverMonotone | assets/js/app.js:77-81 | attending more never raises the recovery count |
| Engine.BelowFloorAgreement | assets/js/app.js:259-264 | for `0 <= a <= t` the safe-miss count is negative exactly when the recovery count is positive |
| Capped.PrependCapped | assets/js/app.js:106-115 | the new element is at index 0, earlier ones shift down by one, and the length is `min(cap, old + 1)` |
| Capped.AppendCapped | assets/js/app.js:97-101 | the new element is last, at most `cap` are kept, and the rest is the newest part of the old sequence |
| Text.Split | assets/js/app.js:89 | one more piece than there are spaces, no piece contains a space, and joining with spaces gives the input back |
| Text.NonEmpty | assets/js/app.js:90 | every kept piece is non-empty, and exactly the empty pieces are dropped (the length is the input length less the number of empty pieces) |
| Text.NonEmptyMembers | assets/js/app.js:90 | a string is kept exactly when it is one of the pieces and is not empty |
| Text.NonEmptyAppend | assets/js/app.js:90 | filtering a concatenation is concatenating the filtered parts, so the kept pieces stay in their original order |
| Text.NonEmptySingle | assets/js/app.js:90 | a single piece is kept exactly when it is not empty |
| Text.Initials | assets/js/app.js:87-94 | one initial per word, for at most the first two words |
| Text.InitialsSpec | assets/js/profile.js:40-47 | the initials are the upper-cased first letters of the first two space-separated words; there are at most two, and none exactly when the name is all spaces |
| Text.AvatarText | assets/js/profile.js:60 | always one or two characters: "ST" when the name holds only spaces, and the initials otherwise |
| Text.LeadingSpaces | assets/js/app.js:392 | the counted prefix is all whitespace and the next character is not |
| Text.TrailingSpaces | assets/js/app.js:392 | the counted suffix is all whitespace and the character before it is not |
| Text.Trim | assets/js/app.js:392 | only whitespace is removed, from both ends; the result is empty or starts and ends with non-whitespace |
| Text.TrimOr | assets/js/app.js:392 | the fallback exactly when the input is all whitespace, otherwise the non-empty trimmed input; trimmed whenever the fallback is |
| Text.TrimIdempotent | assets/js/app.js:392-397 | trimming twice is trimming once |
| Text.TrimOrIdempotent | assets/js/app.js:392-397 | trimming with a fallback for blank text with a trimmed fallback yields trimmed text, and applying it again changes nothing |
| Dashboard.SnapshotAttendance | assets/js/app.js:96-102 | the stack gains the current pair on top, keeps at most 20 pairs, and drops only its oldest pairs; nothing else changes |
| Dashboard.AddLog | assets/js/app.js:104-116 | one entry carrying the current counters and their percentage goes to index 0; older entries shift down; at most 40 kept; nothing else changes |
| Dashboard.SubmitTotals | assets/js/app.js:331-339 | the pre-event pair is pushed; the counters become the sanitized inputs; one Manual entry is logged; settings unchanged |
| Dashboard.MarkPresent | assets/js/app.js:341-347 | the pre-event pair is pushed; both counters go up by 1; validity is kept; one Present entry stamped with the new counters |
| Dashboard.MarkAbsent | assets/js/app.js:349-354 | the pre-event pair is pushed; total goes up by 1 and attended stays; validity is kept; one Absent entry |
| Dashboard.Undo | assets/js/app.js:356-363 | an empty stack changes nothing and logs nothing; otherwise the top pair is restored exactly, popped, and one Manual entry logged |
| Dashboard.Reset | assets/js/app.js:365-371 | the pre-event pair is pushed; the counters become (0, 0); one Manual entry |
| Dashboard.Boot | assets/js/app.js:439 | an empty log gets exactly one "initial totals" entry; a non-empty log is left alone |
| Dashboard.ProfileFromForm | assets/js/app.js:389-398 | each field is the default when its input was blank and the trimmed input otherwise |
| Dashboard.SetVisibility | assets/js/app.js:373-377 | the flag becomes the box's state, one Profile entry "visibility set" is logged, and nothing else changes |
| Dashboard.CommitGoal | assets/js/app.js:384-387 | one Manual entry naming the current goal is logged, and nothing else changes |
| Dashboard.SubmitProfile | assets/js/app.js:389-400 | the profile becomes the one built from the form, one Profile entry is logged, and nothing else changes |
| Dashboard.Step | assets/js/app.js:331-418 | a counter event pushes the pre-event pair and keeps the settings; events other than counter events and undo keep the counters and the undo stack |
| Dashboard.CounterEventPushes | assets/js/app.js:331-371 | each of the four counter events pushes the pre-event pair, logs one entry and keeps the settings |
| Dashboard.CounterEventEffects | assets/js/app.js:331-371 | the form sets the sanitized totals, present adds an attended class, absent adds a missed one, reset zeroes both, and each logs its own entry for the new counters |
| Dashboard.StepPreservesValid | assets/js/app.js:331-418 | every event keeps `0 <= attended <= total`, the caps and the validity of every pair on the undo stack |
| Dashboard.UndoPops | assets/js/app.js:356-363 | undo on a non-empty stack restores its top pair and pops exactly that pair |
| Dashboard.PushWithoutOverflow | assets/js/app.js:96-102 | below the cap, a counter event pushes exactly the pre-event pair onto the stack |
| Dashboard.UndoAfterPush | assets/js/app.js:356-363 | undo on a stack that has a pair pushed on top gives back that pair and the stack below it |
| Dashboard.UndoRoundTrip | assets/js/app.js:331-371 | a counter event followed by undo restores the prior counters and stack (less its oldest pair if the push overflowed); the event's entry stays, just below the undo's entry |
| Dashboard.UndoAllRestores | assets/js/app.js:96-102 | `n` counter events followed by `n` undos restore the counters and the undo stack, when the stack does not overflow (LIFO) |
| Dashboard.ResetIdempotent | assets/js/app.js:365-371 | reset twice leaves the same counters as reset once, (0, 0) |
| Dashboard.SettingsEventsFrame | assets/js/app.js:373-418 | visibility, goal, profile, filter and search events never touch the counters or the undo stack; clear-log empties the log and changes nothing else |
| Dashboard.SettingsEventEffects | assets/js/app.js:373-413 | the toggle sets the flag to the box's state, the goal commit and the profile form log their entry, and slider, filter and search each change only their own field |
| Dashboard.HistoryPreserved | assets/js/app.js:104-116 | an event other than clear-log either keeps the log or shifts it down by one below a new entry; past entries are never rewritten |
| Dashboard.ProfileFormIdempotent | assets/js/app.js:389-401 | every submitted profile field is non-empty trimmed text, and submitting the resulting profile again changes nothing |
| Dashboard.SafeBunkOf | assets/js/app.js:259-264 | shows "Need n" exactly when `4a < 3t`, and then `n >= 1` is the fewest presents that restore 75%; otherwise the spare count is the most absences that keep 75% |
| Dashboard.TrackerStanding | assets/js/app.js:250-257 | exactly one message: target met when the percentage reaches the goal, above-minimum when in [75, goal), else the warning |
| Dashboard.WarningMatchesSafeBunk | assets/js/app.js:250-264 | once classes are held, the warning always comes with "Need"; with a goal of at least 75%, "Need" always comes with the warning |
| Dashboard.GoalMessageOf | assets/js/app.js:268-273 | "above" exactly when the percentage reaches the goal, with a margin `>= 0`; otherwise a positive gap that adds up to the goal |
| Dashboard.DefaultScenario | assets/js/app.js:349-363 | from the default 42/36 with goal 85, absent gives 43/36 below the goal but above 75%, and undo gives 42/36 back |
| Legacy.AddLog | script.js:50-60 | one entry for the current counters, with its note, time and percentage, at index 0; older entries shift down; at most 12 kept; nothing else changes |
| Legacy.Initial | script.js:14-19 | the page starts valid, public, at 42/36, and its only log entry is the "initial totals loaded" one script.js line 253 writes at load |
| Legacy.SubmitTotals | script.js:204-211 | the counters become the sanitized inputs, no snapshot is taken, and one "Manual update" entry for the new counters is logged |
| Legacy.MarkPresent | script.js:213-218 | both counters go up by 1, validity is kept, and one "Marked Present" entry for the new counters is logged |
| Legacy.MarkAbsent | script.js:220-224 | total goes up by 1 and attended stays; validity is kept; one "Marked Absent" entry for the new counters is logged |
| Legacy.Reset | script.js:226-231 | the counters become (0, 0) and the log is emptied, with no entry written |
| Legacy.Step | script.js:204-236 | every event keeps the counters valid; the visibility toggle keeps the counters and the log; no other event changes the flag |
| Legacy.StepEffects | script.js:204-236 | the form sets the sanitized totals and logs "Manual update"; present and absent add a class and log their entry; reset zeroes the counters and empties the log; the toggle changes only the flag |
| Legacy.StepPreservesValid | script.js:204-236 | every event keeps `0 <= attended <= total` and the 12-entry cap |
| Legacy.ResetIdempotent | script.js:226-231 | resetting twice gives the same whole state as resetting once |
| Legacy.VisibilityOnlyFlag | script.js:233-236 | the visibility toggle sets the flag and leaves the counters and the log untouched |
| Legacy.ComfortOf | script.js:138-145 | exactly one message: safe from 85%, above-minimum in [75, 85), warning below 75% |
| Legacy.ComfortIsDashboardAt85 | script.js:138-145 | this classification coincides with the dashboard's tracker at goal 85% |
| Store.EnsureData | assets/js/api.js:65-72 | the result always has at least one student; a stored record with students is returned as is, anything else gives the two-student default |
| Store.EnsureDataStable | assets/js/api.js:65-72 | the record it hands out, written back and read again, is unchanged |
| Store.IndexOfId | assets/js/api.js:105 | the position of the first student with the id, or the length when none has it |
| Store.SelectedIndex | assets/js/api.js:104-106 | the first student with the selected id when there is one, otherwise position 0 |
| Store.FindSelectedStudent | assets/js/api.js:104-106 | the result is one of the students: the first with the selected id when there is one, otherwise the first student |
| Store.AddStudent | assets/js/api.js:152-171 | appends exactly one student from the form and selects its id; 0/NaN counters become 0 and a 0/NaN goal becomes 85; a fresh id makes it the selected student |
| Store.AddStudentAllowsOverAttendance | assets/js/api.js:162-163 | a new student may be stored with attended above total |
| Store.SelectStudent | assets/js/api.js:177-182 | the selection changes to the id exactly when some student has it; otherwise nothing changes |
| Store.SelectThenFind | assets/js/api.js:177-182 | after selecting an existing id, the selected student is the first with that id |
| Store.ApplyPatch | assets/js/api.js:193 | each field takes the patch's value when the patch has one and keeps its old value otherwise |
| Store.UpdateSelectedStudent | assets/js/api.js:191-195 | only the selected student is patched; all other students and fields are unchanged |
| Store.UpdateSelectedIdempotent | assets/js/api.js:191-195 | applying the same id-free patch twice is applying it once |
| Store.LogPercent | assets/js/api.js:201 | 0 when total is 0 or NaN; otherwise, for finite counters, `percent * total == 100 * attended` |
| Store.AppendLog | assets/js/api.js:198-214 | the selected student's log gains one entry with its counters and percentage in front, capped at 80; the selection and every other student are unchanged |
| Store.AppendLogAsWritten | assets/js/api.js:198-213 | on a stored record it is `AppendLog`; on a fresh store (the clone of lines 28-41 made at line 69, where both students share one `logs` array) the first student gets the intended entry and the second student's log becomes that same entry as well |
| Store.FreshAppendLeaksToSecondStudent | assets/js/api.js:198-213 | on a fresh store the unselected second student ends up holding the new entry, which the intended `AppendLog` does not write there |
| Store.AddNotification | assets/js/api.js:216-222 | one notification goes in front with the given level, or "info" when none is given; at most 30 are kept, and nothing else changes |
| Store.AddLeaveRequest | assets/js/api.js:231-242 | one "Pending" request goes in front and the earlier requests are kept as they were |
| Store.UpdateLeaveStatus | assets/js/api.js:244-250 | only the first request with the id gets the new status; an unknown id changes nothing |
| ProfileView.MissedCount | assets/js/profile.js:52 | never negative, at least `total - attended`, and equal to it unless that is negative (then 0) |
| ProfileView.Summarize | assets/js/profile.js:49-70 | percent is 0 for no classes, else `attended / total * 100`; missed is `max(0, total - attended)`; bar width is `min(100, percent)`; the avatar is "ST" for a blank name and the initials otherwise; at most 8 recent entries, newest first |

## Left out

- Floating point: finite numbers are exact reals. IEEE-754 rounding of `/ 0.75`, `/ 0.25` and `/ total` is not modelled, and neither is negative zero.
- Text.InitialsSpec: upper-casing is ASCII-only. JavaScript's full Unicode `toUpperCase` can turn one character into several (for example "ß" into "SS"). So for such names the source can show more than two characters, and the "at most two" bound is only proved for the ASCII mapping.
- Text.AvatarText: the "at most two characters" bound has the same ASCII-only gap. With full Unicode upper-casing an initial such as "ß" becomes "SS", so the source can show more.
- Text.Initials: strings are sequences of Unicode scalar values, not UTF-16 code units. So `part[0]` of a word that starts with a surrogate pair is the whole character here.
- All DOM access and templating is presentation code and is not modelled. This covers `render*`, `update*UI` apart from the metric decisions modelled above, the bar chart, the trend SVG and the calendar.
- `formatPercent`/`toFixed(1)` and `toLocaleString` timestamps are presentation. Log entries keep `percentValue` only, and the time is an opaque parameter.
- The goal log text `Goal changed to …%` needs number formatting. The entry carries the goal value instead (`Note.GoalChanged`).
- The log search and filter in `renderLogRows` depend on locale `toLowerCase`, so they are not modelled. Only the filter and query settings are.
- `loadState`, `saveState`, `readJSON` and `writeJSON` are storage I/O over untyped JSON. The app.js and profile.js states are taken as already well-formed.
- Store.EnsureData: `None` stands for a missing or unreadable entry. A stored object whose `students` is not an array cannot be expressed in the typed record.
- Store.ApplyPatch: the patch is typed. `Object.assign` also copies keys that are not student fields, and copies a key whose value is `undefined`. Neither can be expressed here, so an absent key and an `undefined` value are both `None`.
- Store.AddStudent: the string fields of the form are taken as present strings. An `undefined` name or roll is not modelled.
- The remote `fetch` branch (`tryRemote`), the `withDelay` timer, and `login`/`getSession`/`logout` are network, timer and session plumbing. login.js only checks for a non-empty name.
- `setQrSessionCode`, `setClassAverage`, `getDashboard` and `listStudents` are single field writes or plain reads of `ensureData()`, and have no logic beyond `EnsureData` and `FindSelectedStudent`.
- The `dailyAttendance` student field is not modelled. api.js itself only ever writes `{}` there (lines 19 and 166), and nothing modelled reads it. A patch may replace it through `Object.assign`, which the typed patch cannot express (see the Store.ApplyPatch line).
- `uid` uses `Math.random` and `Date.now`. Generated ids are parameters, so uniqueness is not assumed: `Store.AddStudent` states the selection result only for a fresh id.

## Findings

| source | as written | input that shows it | evidently intended | confidence | as-written member | corrected member |
|---|---|---|---|---|---|---|
| assets/js/api.js:198-213 | `appendLog` extends the log with `unshift`, which changes the array in place. In the record `ensureData` builds when nothing is stored, the second student was spread from the first (line 31), so both hold the same `logs` array, and `structuredClone` (line 69) keeps that sharing. Line 211 rebinds only the selected student's `logs`, so the second student keeps the shared array with the new entry in it | nothing stored, then `appendLog("Manual", "Marked present")`: stu-1002 is written back holding Avery's entry | only the selected student's log gains the entry | not executed; high, read from the code | Store.AppendLogAsWritten, with the counterexample Store.FreshAppendLeaksToSecondStudent | Store.AppendLog |
