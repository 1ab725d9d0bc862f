# Timer manager: a Dafny model

The application is a browser timer manager. Users create named countdown
timers in free-text categories. They start, pause and reset the timers one
at a time or a whole category at once. They are told when a timer reaches
its halfway point and when it completes, and each completion is kept in a
history.

This project models the logic behind that:

- **The reducer** (`TimerContext`). It is a pure function from a state and
  an action to the next state. The state holds the timers, the completion
  logs and two single-slot notices. The provider's completion hook
  (`COMPLETE_TIMER` dispatched when a tick fills the completion slot) is the
  compound step `TickThenLog`.
- **Tick runs** (`TimerRuns`). The scheduler is modelled by the intents it
  issues: a sequence of ticks, each followed by the hook.
- **The helpers** (`TimerUtils`): `formatTime` with a parse-back round trip,
  and `groupTimersByCategory` as a one-pass loop over a map accumulator.
- **The creation form** (`TimerForm`): the clamped inputs, the duration,
  the validation order, the new timer, and the category suggestions.
- **A category panel** (`CategoryGroup`): its two counters and its three
  bulk buttons.
- **A timer card** (`TimerItem`): the controls per status and the halfway
  badge.
- **A history entry** (`TimerHistoryItem`): the `"1h 1m 1s"` duration text,
  built by conditional pushes onto a list.
- **The history page** (`History`): the logs copied, sorted newest first in
  place by a stable insertion sort on an array, and the empty-history branch.

`JsBuiltins` holds what the code borrows from JavaScript, on whole numbers
and strings: `toString`, `padStart`, `trim`, `join`, and the truncating `%`.
`Wrappers` holds `Option` and `Result`.

Every quantity in the core is a whole number of seconds. `Math.floor(a / b)`
with a positive `b` is Dafny's `/`. `%` is `JsRem`, whose remainder takes
the dividend's sign. `parseInt` is modelled as an `Option<int>`, with `None`
standing for `NaN`.

Three behaviours of the code are easy to misread, and the model states them
as the code has them:

- `PAUSE_TIMER` (src/contexts/TimerContext.tsx:68-76) sets `paused` whatever
  the current status, so an idle or completed timer can be paused too.
- `START_TIMER` (59-67) runs the timer whatever its status, a completed one
  included. Its next tick then completes it again and writes a second log
  (`RestartCompletedCompletesAgain`).
- `DELETE_TIMER` removes every timer with the id. A tick finds the first
  timer with the id and replaces every timer with that id by the ticked
  copy. The two agree with a one-timer-per-id reading only when ids are
  unique (`DeleteUnique`, `TriggeredPersists`).

## Model

| member | source | states |
|---|---|---|
| JsBuiltins.NatToString | src/utils/timerUtils.ts:12-19 | `toString` of a natural number: at least one decimal digit, no leading zero unless the number is 0, one character exactly below 10 |
| JsBuiltins.IntToString | src/components/TimerHistoryItem.tsx:17-19 | `toString` of any integer: the digits of a non-negative value; a minus sign followed by the digits of the magnitude for a negative one |
| JsBuiltins.ParseNatToString | src/utils/timerUtils.ts:12-19 | the digits that `toString` writes read back as the number |
| JsBuiltins.PadStart | src/utils/timerUtils.ts:12-19 | `padStart`: the length is the larger of the input's and the target's, the input is the suffix, and every added character is the fill |
| JsBuiltins.ParseLeadingZeros | src/utils/timerUtils.ts:12-19 | zero padding does not change the value of a digit string |
| JsBuiltins.JsRem | src/components/TimerHistoryItem.tsx:13-14 | JavaScript's `%` with a positive divisor: equal to Dafny's `%` on a non-negative dividend, not positive on a non-positive one, and below the divisor in magnitude |
| JsBuiltins.TrimStart | src/components/TimerForm.tsx:33 | drops exactly the leading white space: the result is a suffix, everything removed is white space, and the result does not start with white space |
| JsBuiltins.TrimEnd | src/components/TimerForm.tsx:33 | the mirror image for trailing white space |
| JsBuiltins.Trim | src/components/TimerForm.tsx:51-53 | a non-empty trimmed string starts and ends with a non-white-space character |
| JsBuiltins.TrimEmptyIff | src/components/TimerForm.tsx:33-46 | `trim` gives the empty string exactly when every character is white space |
| JsBuiltins.JoinNonEmpty | src/components/TimerHistoryItem.tsx:21 | joining a list whose first piece is non-empty never gives the empty string |
| JsBuiltins.Join | src/components/TimerHistoryItem.tsx:21 | `join`: the pieces with the separator between neighbours; JoinNonEmpty states that a non-empty first piece gives a non-empty text (Join itself has no contract) |
| TimerContext.MapTimers | src/contexts/TimerContext.tsx:50-52 | `map` keeps the length and applies the function at every position |
| TimerContext.WithoutId | src/contexts/TimerContext.tsx:57 | `filter` by id never lengthens the list; WithoutIdKeeps, WithoutIdCount and WithoutIdAppend state which timers it keeps, how often and in what order |
| TimerContext.FirstIndexOf | src/contexts/TimerContext.tsx:92 | `find` stops at the first timer with the id, or past the end when no timer has it |
| TimerContext.Find | src/contexts/TimerContext.tsx:92 | `find` by id: the timer at FirstIndexOf, or none past the end; TickNotRunningIsNoOp and TickRunning state what a tick does in either case (Find itself has no contract) |
| TimerContext.Tick | src/contexts/TimerContext.tsx:91-136 | `TICK_TIMER`; its behaviour is stated by TickNotRunningIsNoOp, TickRunning, TickCompletion, TickHalfway and TickKeepsTriggered (Tick itself has no contract) |
| TimerContext.Reduce | src/contexts/TimerContext.tsx:40-209 | the reducer; ReducePreservesInv states the invariant it keeps and the per-action lemmas (PerTimerActions, CategoryActions, AddAppends, DeleteRemoves, CompleteAppendsLog, CloseNotices, ShowHalfwayOverwrites) state each case in full (Reduce itself has no contract) |
| TimerContext.TickThenLog | src/contexts/TimerContext.tsx:246-251 | the tick followed by the completion hook; TickThenLogLogs and TickThenLogPreservesInv state what it does (TickThenLog itself has no contract) |
| TimerContext.InitialStateValid | src/contexts/TimerContext.tsx:31-38 | the initial state is empty and satisfies the state invariant |
| TimerContext.WithoutIdValid | src/contexts/TimerContext.tsx:54-58 | deleting keeps every remaining timer valid |
| TimerContext.TickedValid | src/contexts/TimerContext.tsx:95-107 | a tick keeps `0 <= remainingTime <= duration`, "completed ⇒ no time left" and "triggered ⇒ alert wanted" |
| TimerContext.ReducePreservesInv | src/contexts/TimerContext.tsx:40-209 | every action keeps the invariant (valid timers, each notice flag matching its slot) when any timer in its payload is valid |
| TimerContext.ListActionsKeepInv | src/contexts/TimerContext.tsx:40-209 | adding, updating, deleting and reloading keep the invariant when the payload's timers are valid |
| TimerContext.StatusActionsKeepInv | src/contexts/TimerContext.tsx:59-181 | the start, pause and reset actions, for one timer or a category, keep the invariant |
| TimerContext.NoticeActionsKeepInv | src/contexts/TimerContext.tsx:91-199 | a tick, a completion log, and opening or closing either notice keep the invariant |
| TimerContext.TickThenLogPreservesInv | src/contexts/TimerContext.tsx:246-251 | the tick followed by the completion hook keeps the invariant too |
| TimerContext.TickNotRunningIsNoOp | src/contexts/TimerContext.tsx:92-93 | a tick on a missing timer, or on one that is not running, returns the state unchanged, and so does the compound step |
| TimerContext.TickRunning | src/contexts/TimerContext.tsx:95-111 | a tick on a running timer: remaining time `max(0, r - 1)`, every timer with the id replaced by the ticked one, the others, the length, the order and the logs unchanged |
| TimerContext.TickCompletion | src/contexts/TimerContext.tsx:96-121 | the status becomes completed exactly when the new remaining time is 0; a completing tick opens the completion slot with the ticked timer and leaves the halfway slot alone; any other tick leaves the completion slot alone |
| TimerContext.TickHalfway | src/contexts/TimerContext.tsx:97-131 | the flag is newly set exactly when the alert is wanted, has not fired, and `2 * next <= duration`; a set flag stays set; the halfway slot opens with the ticked timer exactly on a triggering tick that does not complete, and is left alone otherwise |
| TimerContext.TriggeredPersists | src/contexts/TimerContext.tsx:40-209 | with unique ids, a set halfway flag survives every action except a reset, an update, a reload and a deletion |
| TimerContext.TickKeepsTriggered | src/contexts/TimerContext.tsx:91-136 | with unique ids, a tick never clears a set halfway flag at any position |
| TimerContext.TriggeredNeverReopens | src/contexts/TimerContext.tsx:97-131 | a tick on a timer whose alert has fired never opens the halfway notice |
| TimerContext.PerTimerActions | src/contexts/TimerContext.tsx:59-90 | `START_TIMER` runs and `PAUSE_TIMER` pauses the timers with the id whatever their status; `RESET_TIMER` makes them idle with the full duration left and the flag cleared; every other timer, the logs and all four notice fields are unchanged |
| TimerContext.CategoryActions | src/contexts/TimerContext.tsx:150-181 | `START_CATEGORY` runs the category's timers that are not completed; `PAUSE_CATEGORY` pauses only its running ones; `RESET_CATEGORY` resets all of them; timers of other categories, the logs and all four notice fields are unchanged |
| TimerContext.AddAppends | src/contexts/TimerContext.tsx:42-46 | `ADD_TIMER` appends the timer at the end; the old timers, the logs and all four notice fields are as they were |
| TimerContext.WithoutIdKeeps | src/contexts/TimerContext.tsx:54-58 | membership: the filter keeps exactly the timers without the id, and is the identity when no timer has it |
| TimerContext.WithoutIdAppend | src/contexts/TimerContext.tsx:54-58 | the filter of a concatenation is the concatenation of the filters, so kept timers stay in order |
| TimerContext.WithoutIdCount | src/contexts/TimerContext.tsx:54-58 | count: each timer without the id is kept as often as it occurs, and every timer with it is dropped |
| TimerContext.DeleteMiddle | src/contexts/TimerContext.tsx:54-58 | with the id only on one timer between two runs, the filter leaves the two runs joined |
| TimerContext.WithoutIdNone | src/contexts/TimerContext.tsx:54-58 | a list in which no timer has the id is kept whole |
| TimerContext.WithoutIdUnique | src/contexts/TimerContext.tsx:54-58 | with unique ids, the filter removes exactly the timer at the id's index and keeps the rest in order |
| TimerContext.DeleteRemoves | src/contexts/TimerContext.tsx:54-58 | `DELETE_TIMER` removes every timer with the id and keeps every other one as often as it occurs; the logs and all four notice fields are unchanged; a no-op when the id is absent |
| TimerContext.DeleteUnique | src/contexts/TimerContext.tsx:54-58 | with unique ids, deleting a present timer removes exactly that one and keeps the others in their order |
| TimerContext.CompleteAppendsLog | src/contexts/TimerContext.tsx:137-149 | `COMPLETE_TIMER` appends one log copying the timer's id, name, category and duration with the given log id and time, and changes nothing else |
| TimerContext.CloseNotices | src/contexts/TimerContext.tsx:182-199 | each close clears its own flag and slot, leaves every other field (the other notice, the timers, the logs) as it was, and is idempotent |
| TimerContext.ShowHalfwayOverwrites | src/contexts/TimerContext.tsx:188-193 | `SHOW_HALFWAY_ALERT` opens the halfway notice on the given timer, overwriting what it showed (last writer wins), and leaves every other field as it was |
| TimerContext.TickThenLogLogs | src/contexts/TimerContext.tsx:246-251 | the hook logs the completed timer exactly once on a completing tick and never on any other tick; every field but the logs is as the tick left it |
| TimerRuns.RunTicks | src/contexts/TimerContext.tsx:246-268 | the scheduler's intents for one timer: `n` ticks, each followed by the completion hook; Countdown, FinalTick, EvenRun, FirstHalf and SecondHalf state what such runs do (RunTicks itself has no contract) |
| TimerRuns.RestartCompletedCompletesAgain | src/contexts/TimerContext.tsx:59-67 | starting a completed timer and ticking it completes it again at once, reopens the completion notice and appends a second log |
| TimerRuns.LoneTick | src/contexts/TimerContext.tsx:91-136 | a tick of a lone running timer with more than one second left counts it down, opens the halfway notice exactly when the trigger fires, and logs nothing |
| TimerRuns.CountdownStep | src/contexts/TimerContext.tsx:91-136 | one more tick extends the closed form of a countdown by one second |
| TimerRuns.Countdown | src/contexts/TimerContext.tsx:91-136 | `k` ticks with time left take `k` seconds off, set the flag and open the halfway notice once at most half the duration is left, and neither complete nor log |
| TimerRuns.FinalTick | src/contexts/TimerContext.tsx:114-121 | the tick from one second or none completes the timer, opens the completion notice on it, leaves the halfway notice alone and appends one log copying the timer |
| TimerRuns.EvenRun | src/contexts/TimerContext.tsx:91-136 | a timer of `2n` seconds with the alert, added and started: after `n` ticks it is running with `n` left, the flag set and the halfway notice open; after `n` more it is completed with the completion notice open and exactly one log of the full duration |
| TimerRuns.Launch | src/contexts/TimerContext.tsx:42-67 | adding a timer to the initial state and starting it leaves exactly that timer, running, and nothing else |
| TimerRuns.FirstHalf | src/contexts/TimerContext.tsx:91-136 | `n` ticks of a lone `2n`-second timer with the alert leave `n` seconds, the flag set, the halfway notice open, no log and no completion |
| TimerRuns.SecondHalf | src/contexts/TimerContext.tsx:91-136 | ticking a lone running timer once per remaining second completes it, opens the completion notice and appends exactly one log copying it |
| TimerRuns.Scenario120 | src/contexts/TimerContext.tsx:91-136 | the two-minute case: halfway notice after 60 ticks with 60 s left, completion and one log of 120 s after 120 ticks |
| TimerRuns.HalfwayAtFive | src/contexts/TimerContext.tsx:97-131 | a ten-second timer's flag and halfway notice become true after the fifth tick (5 s left), not before, and stay true |
| TimerRuns.OneSecondTimer | src/contexts/TimerContext.tsx:96-131 | a one-second timer completes on its first tick; the completion notice opens and the halfway notice does not |
| TimerUtils.Pad2 | src/utils/timerUtils.ts:12-19 | `padStart(2, '0')` of a number: all digits, at least two characters, exactly two below 100 |
| TimerUtils.ParsePad2 | src/utils/timerUtils.ts:12-19 | a padded field reads back as its number |
| TimerUtils.ClockFace | src/utils/timerUtils.ts:11-19 | without hours the face is five characters with the colon at index 2; with hours it is at least eight, with colons six and three from the end |
| TimerUtils.FormatTime | src/utils/timerUtils.ts:4-20 | `"00:00"` for a negative input, `MM:SS` below an hour, `HH:MM:SS` from an hour on |
| TimerUtils.Mod60Unique | src/utils/timerUtils.ts:7-9 | the remainder by 60 is the `x` of any decomposition `60q + x` with `0 <= x < 60` |
| TimerUtils.ClockArithmetic | src/utils/timerUtils.ts:7-9 | minutes and seconds are below 60, the three fields add back to the input, and the hours are positive exactly from 3600 on |
| TimerUtils.LongSlices | src/utils/timerUtils.ts:12-14 | where the hours, minutes and seconds sit in `hh:mm:ss` |
| TimerUtils.ShortSlices | src/utils/timerUtils.ts:17-19 | where the minutes and seconds sit in `mm:ss` |
| TimerUtils.ParseLongFace | src/utils/timerUtils.ts:11-15 | the long face parses back to its three fields |
| TimerUtils.ParseShortFace | src/utils/timerUtils.ts:17-19 | the short face parses back to zero hours and its two fields |
| TimerUtils.ParseClockFace | src/utils/timerUtils.ts:11-19 | every clock face parses back to the fields it was built from; a face with hours has the hours padded to at least two digits before its last six characters |
| TimerUtils.FormatTimeRoundTrip | src/utils/timerUtils.ts:4-20 | `formatTime(s)` parses back to `(h, m, sec)` with `m, sec` in `[0, 59]` and `h*3600 + m*60 + sec == s` |
| TimerUtils.FormatTimeIsFace | src/utils/timerUtils.ts:7-19 | on a non-negative input the output is the clock face of `floor(s / 3600)`, `floor((s % 3600) / 60)` and `s % 60` |
| TimerUtils.FormatTimeParses | src/utils/timerUtils.ts:4-20 | `formatTime(s)` parses back to the clock decomposition of `s` |
| TimerUtils.ParseLongFields | src/utils/timerUtils.ts:11-15 | a long face whose three fields are digit strings reads back as their values |
| TimerUtils.ParseLongDigits | src/utils/timerUtils.ts:11-15 | joining digit strings as `hh:mm:ss` and parsing gives their values back |
| TimerUtils.GroupTimersByCategory | src/utils/timerUtils.ts:23-31 | the keys are exactly the categories present, and each group is exactly that category's timers in list order |
| TimerUtils.GroupsStep | src/utils/timerUtils.ts:24-30 | one step of the reduce, opening the group if need be and appending the timer, keeps the map equal to the grouping of the longer list |
| TimerUtils.InCategoryAppend | src/utils/timerUtils.ts:24-30 | grouping distributes over concatenation |
| TimerUtils.InCategoryAbsent | src/utils/timerUtils.ts:25-27 | a category that does not occur has an empty group |
| TimerUtils.InCategoryMembers | src/utils/timerUtils.ts:23-31 | a group holds exactly the timers of its category, so each timer lands in its own group and no other |
| TimerUtils.InCategoryOrder | src/utils/timerUtils.ts:28 | a group keeps list order: each timer follows the earlier timers of its category |
| TimerUtils.GroupsNonEmpty | src/utils/timerUtils.ts:25-28 | no group of a present category is empty |
| TimerUtils.GroupSizesSum | src/utils/timerUtils.ts:24-30 | over any duplicate-free list of categories that covers the timers, the group sizes add up to the number of timers |
| TimerUtils.GroupAsWritten | src/utils/timerUtils.ts:24-30 | the reduce over a plain-object accumulator as written, with a failure where `push` would throw; GroupAsWrittenThrows and GroupAsWrittenAgrees state when it fails and that it otherwise agrees with GroupTimersByCategory (GroupAsWritten itself has no contract) |
| TimerUtils.GroupAsWrittenThrows | src/utils/timerUtils.ts:24-30 | with the plain-object accumulator, a timer whose category is `"toString"` makes the grouping throw a `TypeError` |
| TimerUtils.GroupAsWrittenAgrees | src/utils/timerUtils.ts:23-31 | when no category names an inherited property, the plain-object grouping succeeds and gives exactly the groups above |
| TimerForm.Message | src/components/TimerForm.tsx:33-46 | each validation failure has a non-empty message |
| TimerForm.Submit | src/components/TimerForm.tsx:26-59 | an accepted form gives a valid idle timer with a positive duration, all of it remaining, the flag clear, and a non-empty name and category |
| TimerForm.Duration | src/components/TimerForm.tsx:30 | `hours * 3600 + minutes * 60 + seconds`; ClampedDuration states that on clamped inputs it is non-negative, positive exactly when a field is, and splits back into the fields (Duration itself has no contract) |
| TimerForm.ValidationOrder | src/components/TimerForm.tsx:33-46 | an all-white-space name is reported first whatever else is wrong, then a non-positive duration, then an all-white-space category |
| TimerForm.SubmitAccepts | src/components/TimerForm.tsx:30-59 | accepted exactly when all three checks pass; the timer then has `duration = h*3600 + m*60 + s`, the trimmed name and category, the alert choice, the id and the time |
| TimerForm.SubmittedTrimmed | src/components/TimerForm.tsx:51-53 | an accepted timer's name and category neither start nor end with white space |
| TimerForm.SubmitEffect | src/components/TimerForm.tsx:61-62 | a rejected form leaves the state unchanged (no timer, no log); an accepted one only appends its timer; the state invariant holds after either |
| TimerForm.ClampHours | src/components/TimerForm.tsx:120 | `max(0, parseInt(v))` with `NaN` read as 0: never negative, the parsed value when it is non-negative, 0 for `NaN` or a negative value |
| TimerForm.ClampMinSec | src/components/TimerForm.tsx:134-148 | `max(0, min(59, parseInt(v)))` with `NaN` read as 0: in `[0, 59]`, the parsed value when it is in range, 59 above it, 0 for `NaN` or a non-positive value |
| TimerForm.Entered | src/components/TimerForm.tsx:120-148 | the form as its inputs leave it: hours non-negative, minutes and seconds in `[0, 59]` |
| TimerForm.ClampedDuration | src/components/TimerForm.tsx:30 | with clamped fields the duration is non-negative, positive exactly when some field is, and its clock split gives the three fields back |
| TimerForm.DivMod3600 | src/components/TimerForm.tsx:30 | the quotient and remainder by 3600 are the terms of any decomposition `3600h + q` with `0 <= q < 3600` |
| TimerForm.ZeroDurationRefused | src/components/TimerForm.tsx:38-41 | a form filled through its inputs, with a name, is refused for its duration exactly when all three number fields are 0 |
| TimerForm.Suggestions | src/components/TimerForm.tsx:19 | the suggestions have no duplicates and hold exactly the categories of the timers |
| TimerForm.SuggestionsCoverTimers | src/components/TimerForm.tsx:19 | the groups of the suggested categories hold every timer exactly once |
| TimerForm.SuggestionsFirst | src/components/TimerForm.tsx:19 | the first suggestion is the first timer's category (first-appearance order) |
| CategoryGroup.WithStatus | src/components/CategoryGroup.tsx:32-33 | the status filter never lengthens the list; WithStatusMembers, WithStatusCount and WithStatusAppend state which timers it keeps, how often and in what order |
| CategoryGroup.WithStatusMembers | src/components/CategoryGroup.tsx:32-33 | the filtered timers are exactly the members with the status |
| CategoryGroup.WithStatusCount | src/components/CategoryGroup.tsx:32-33 | each member with the status is kept as often as it occurs and every other is dropped, so `.length` counts entries, repeated ones included |
| CategoryGroup.WithStatusAppend | src/components/CategoryGroup.tsx:32-33 | the filter of a concatenation is the concatenation of the filters, in order |
| CategoryGroup.RunningCount | src/components/CategoryGroup.tsx:32 | the "Running" badge, the length of the running filter; CountsBounded, CountExtremes and the bulk-action lemmas state its values (RunningCount itself has no contract) |
| CategoryGroup.CompletedCount | src/components/CategoryGroup.tsx:33 | the "Completed" badge, the length of the completed filter; CountsBounded, CountExtremes and the bulk-action lemmas state its values (CompletedCount itself has no contract) |
| CategoryGroup.CountsBounded | src/components/CategoryGroup.tsx:32-33 | `runningCount + completedCount <= timers.length` |
| CategoryGroup.CountExtremes | src/components/CategoryGroup.tsx:32-33 | a count is 0 when no member has its status, and the whole length when every member does |
| CategoryGroup.BulkIntent | src/components/CategoryGroup.tsx:20-30 | each bulk button dispatches one category action carrying the panel's category |
| CategoryGroup.InCategoryPointwise | src/contexts/TimerContext.tsx:150-181 | a change applied to every timer that keeps each category maps a category's group to the changed group |
| CategoryGroup.StartedCounts | src/components/CategoryGroup.tsx:20-22 | starting a group keeps its completed count and runs all the others |
| CategoryGroup.PausedCounts | src/components/CategoryGroup.tsx:24-26 | pausing a group leaves none running and keeps the completed count |
| CategoryGroup.ResetCounts | src/components/CategoryGroup.tsx:28-30 | resetting a group leaves neither count positive |
| CategoryGroup.GroupMembers | src/components/CategoryGroup.tsx:12 | every timer handed to a panel has the panel's category |
| CategoryGroup.StartAllCounts | src/components/CategoryGroup.tsx:20-22 | after Start All the group has the same size and completed count, and `runningCount = length - completedCount` |
| CategoryGroup.PauseAllCounts | src/components/CategoryGroup.tsx:24-26 | after Pause All, `runningCount = 0` and the completed count is unchanged |
| CategoryGroup.ResetAllCounts | src/components/CategoryGroup.tsx:28-30 | after Reset All both counts are 0 |
| TimerItem.Controls | src/components/TimerItem.tsx:70-102 | Reset and Delete are always offered, and Start and Pause never together |
| TimerItem.ControlsByStatus | src/components/TimerItem.tsx:70-86 | a running timer offers Pause and no Start; an idle or paused one offers Start and no Pause; a completed one only Reset and Delete; Start appears exactly on idle or paused, Pause exactly on running |
| TimerItem.NoStartWhenCompleted | src/components/TimerItem.tsx:70-86 | no offered control dispatches `START_TIMER` for a completed timer or `PAUSE_TIMER` for one that is not running |
| TimerItem.ControlIntents | src/components/TimerItem.tsx:15-29 | every offered control's intent keeps the state invariant and leaves the logs alone; Start runs and Pause pauses the timers with this id and leaves every other timer as it was |
| TimerItem.Intent | src/components/TimerItem.tsx:15-29 | the action each control dispatches, with the card's id; ControlIntents and NoStartWhenCompleted state its effect (Intent itself has no contract) |
| TimerItem.BadgeLifecycle | src/components/TimerItem.tsx:51 | the badge shows exactly when the alert is wanted and not yet triggered; the triggering tick hides it; a reset brings it back exactly when the alert is wanted |
| TimerItem.ShowsHalfwayBadge | src/components/TimerItem.tsx:51 | the badge condition; BadgeLifecycle states when it holds across ticks and resets (ShowsHalfwayBadge itself has no contract) |
| TimerHistoryItem.DurationParts | src/components/TimerHistoryItem.tsx:16-19 | one to three pieces are shown |
| TimerHistoryItem.Hours | src/components/TimerHistoryItem.tsx:12 | `Math.floor(seconds / 3600)`; Decomposition states its range and how it recombines (Hours itself has no contract) |
| TimerHistoryItem.Minutes | src/components/TimerHistoryItem.tsx:13 | `Math.floor((seconds % 3600) / 60)` with JavaScript's `%`; Decomposition states it lies in `[0, 59]` on a non-negative input (Minutes itself has no contract) |
| TimerHistoryItem.Secs | src/components/TimerHistoryItem.tsx:14 | `seconds % 60` with JavaScript's `%`; Decomposition states it lies in `[0, 59]` on a non-negative input (Secs itself has no contract) |
| TimerHistoryItem.FormattedDuration | src/components/TimerHistoryItem.tsx:11-22 | the pushes build the piece list, which is joined with single spaces; the result is never empty |
| TimerHistoryItem.Decomposition | src/components/TimerHistoryItem.tsx:12-14 | for a non-negative input, minutes and seconds lie in `[0, 59]`, the hours are non-negative, and the three add back to the input |
| TimerHistoryItem.PieceUnit | src/components/TimerHistoryItem.tsx:17-19 | a piece ends with its unit letter |
| TimerHistoryItem.HoursShown | src/components/TimerHistoryItem.tsx:17 | the hours piece is shown exactly when the hours are positive |
| TimerHistoryItem.MinutesShown | src/components/TimerHistoryItem.tsx:18 | the minutes piece is shown exactly when the minutes are positive |
| TimerHistoryItem.SecondsShown | src/components/TimerHistoryItem.tsx:19 | the seconds piece is shown exactly when the seconds are positive or neither other piece is shown |
| TimerHistoryItem.HoursPiece | src/components/TimerHistoryItem.tsx:17 | for any field values, the hours piece is among the pieces exactly when the hours are positive |
| TimerHistoryItem.MinutesPiece | src/components/TimerHistoryItem.tsx:18 | for any field values, the minutes piece is among the pieces exactly when the minutes are positive |
| TimerHistoryItem.SecondsPiece | src/components/TimerHistoryItem.tsx:19 | for any field values, the seconds piece is among the pieces exactly when the seconds are positive or neither other field is |
| TimerHistoryItem.OtherUnit | src/components/TimerHistoryItem.tsx:17-19 | a piece never appears among the pieces of another unit |
| TimerHistoryItem.NumberPart | src/components/TimerHistoryItem.tsx:17-19 | a number followed by a unit is a well-formed piece worth that many units |
| TimerHistoryItem.SumPartsAppend | src/components/TimerHistoryItem.tsx:16-21 | the read-back value of a list of pieces adds over concatenation |
| TimerHistoryItem.PartsReadBack | src/components/TimerHistoryItem.tsx:11-21 | for a non-negative input every piece is digits plus a unit, and read back they add up to the input |
| TimerHistoryItem.OptionalPartValue | src/components/TimerHistoryItem.tsx:17-19 | a piece that is pushed is well formed and worth its number of units; one left out stands for a zero field |
| TimerHistoryItem.PartsSum | src/components/TimerHistoryItem.tsx:16-21 | for any field values, the pieces chosen are well formed and add up to `h*3600 + m*60 + sec` |
| TimerHistoryItem.PartsOrdered | src/components/TimerHistoryItem.tsx:16-21 | the units come in the order h, m, s, none twice |
| TimerHistoryItem.PiecesOrdered | src/components/TimerHistoryItem.tsx:16-21 | for any field values, the pieces chosen have units in the order h, m, s, none twice |
| TimerHistoryItem.PartRanks | src/components/TimerHistoryItem.tsx:17-19 | a pushed piece is ranked by its unit letter |
| TimerHistoryItem.RanksAppend | src/components/TimerHistoryItem.tsx:16-21 | pushing pieces of later units after earlier ones keeps the units in order |
| TimerHistoryItem.ZeroSeconds | src/components/TimerHistoryItem.tsx:19 | 0 reads `"0s"` |
| TimerHistoryItem.HourMinuteSecond | src/components/TimerHistoryItem.tsx:11-21 | 3661 reads `"1h 1m 1s"` |
| TimerHistoryItem.WholeHour | src/components/TimerHistoryItem.tsx:17-21 | 3600 reads `"1h"` |
| TimerHistoryItem.HourAndSecond | src/components/TimerHistoryItem.tsx:17-21 | 3601 reads `"1h 1s"`: a zero minute is left out between two shown pieces |
| TimerHistoryItem.NegativeSeconds | src/components/TimerHistoryItem.tsx:12-19 | -5 reads `"-5s"`, following JavaScript's `Math.floor` and `%` |
| History.Insert | src/pages/History.tsx:11 | each insertion step lengthens the list by one |
| History.SortByNewest | src/pages/History.tsx:11 | the stable newest-first order, one insertion per log; keeps the length, and SortedNewestFirst, SortedPermutation, SortedStable and SortUnique state that it is the one stable newest-first permutation |
| History.InsertNotAfter | src/pages/History.tsx:11 | inserting keeps a bound on the completion times |
| History.InsertNewestFirst | src/pages/History.tsx:11 | inserting into a newest-first list keeps it newest first |
| History.InsertPermutation | src/pages/History.tsx:11 | inserting adds exactly the one log |
| History.SortedNewestFirst | src/pages/History.tsx:11 | the sorted list is newest first |
| History.SortedPermutation | src/pages/History.tsx:11 | the sorted list is a permutation of the logs |
| History.CompletedAtAppend | src/pages/History.tsx:11 | the logs of one time distribute over concatenation |
| History.CompletedAtNone | src/pages/History.tsx:11 | a list without logs of a given time has none of them |
| History.InsertStable | src/pages/History.tsx:11 | an inserted log goes after the logs of its own time already present |
| History.SortedStable | src/pages/History.tsx:11 | logs with equal completion times keep their append order |
| History.CompletedAtSnoc | src/pages/History.tsx:11 | the logs of a time in a list are those before its last log, then the last log if it has that time |
| History.CompletedAtMembers | src/pages/History.tsx:11 | the logs of a time are exactly the members with that time |
| History.CompletedAtHead | src/pages/History.tsx:11 | how the logs of each time relate to the head and the tail of a list |
| History.HeadIsNewest | src/pages/History.tsx:11 | the head of a newest-first list is at least as recent as every member |
| History.SharedMember | src/pages/History.tsx:11 | lists with the same logs at every time have the same members |
| History.SameHead | src/pages/History.tsx:11 | two newest-first lists with the same logs at every time start with the same log |
| History.SameTails | src/pages/History.tsx:11 | dropping that common head keeps them equal at every time |
| History.StableOrderUnique | src/pages/History.tsx:11 | two newest-first lists with the same logs, in the same order, at every time are equal |
| History.SortUnique | src/pages/History.tsx:11 | any newest-first order that keeps equal times in append order is the modelled sort, whatever stable algorithm produces it |
| History.InsertAt | src/pages/History.tsx:11 | placing the log behind every log at least as recent and ahead of every older one is the insertion |
| History.PassingStep | src/pages/History.tsx:11 | swapping the carried log with an older one before it moves it one cell left and keeps the pass's layout |
| History.PassResult | src/pages/History.tsx:11 | the cells left by an insertion pass spell the insertion |
| History.SortPrefixStep | src/pages/History.tsx:11 | sorting one more log of the prefix inserts it into the sorted prefix |
| History.InsertStep | src/pages/History.tsx:11 | one in-place pass inserts the next log into the sorted prefix and leaves the cells after it alone |
| History.SortedLogs | src/pages/History.tsx:11 | the copy sorted in place is the stable newest-first order of the logs, newest first, and a permutation of them |
| History.HistoryPage | src/pages/History.tsx:11-25 | the empty-history notice exactly when there are no logs; otherwise every log, newest first |

## Left out

- Persistence (src/utils/storage.ts and the save effects at src/contexts/TimerContext.tsx:222-244). The localStorage reads and writes and the JSON parsing are I/O. Saves are also skipped while a list is empty, so deleting the last timer is never written. The model records no saves, so this is not stated in it.
- The tick scheduler (src/contexts/TimerContext.tsx:254-268): an interval and React lifecycle. Only the intents it issues are modelled, as `RunTicks`. How React batches two completions within one interval is not claimed.
- The auto-dismiss delays of the two notices (5 s and 3 s) are wall-clock timing. The close actions they dispatch are modelled.
- `calculateProgress` and the progress bar compute floating-point percentages.
- `generateId`, `formatDate` and the `log-` id read the clock, randomness and the locale. Ids and timestamps are parameters of the model.
- The display order of groups (`Object.keys` order) is not modelled. Groups are a map.
- Every piece of JSX, the navigation, and the form's expand/collapse, error text and resets after a submit.
- `UPDATE_TIMER` and `INIT_TIMERS` take any payload. The invariant lemmas cover them only through `PayloadValid`, which asks that their timers be valid.
- `TriggeredPersists` omits update, reload and delete together with the two resets, because each of them can replace or drop the timer at that position. It also assumes unique ids, as the id generator intends.
- `Array.prototype.sort` is not a particular algorithm in JavaScript. Its comparator `b.completedAt - a.completedAt` and its stability are modelled by a stable insertion sort, and `SortUnique` shows that every stable sort gives the same list.
- FormatTime and FormattedDuration: JavaScript numbers are modelled as unbounded integers, so two edges of the real functions are lost: `toString` writes exponent notation from 1e21 on, and integers above 2^53 are no longer exact. The model's output is the plain decimal text for every whole number.
- The tick compares with `duration / 2` in floating point. On whole seconds this is `2 * next <= duration`, which the model uses.

## Findings

| source | as written | input that shows it | evidently intended | confidence | as-written member | corrected member |
|---|---|---|---|---|---|---|
| src/utils/timerUtils.ts:24-30 | The accumulator is a plain `{}`. For a category such as `"toString"`, `acc[c]` finds the inherited method, which is truthy, so no array is created, and `acc[c].push` throws a `TypeError`. The timer list can then not be grouped. | One timer with category `"toString"` | Every category gets its own array, however it is named | not executed | TimerUtils.GroupAsWrittenThrows | TimerUtils.GroupTimersByCategory |
