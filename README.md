# Hay-steamer controller, modelled in Dafny

The hay steamer heats a batch of hay with steam. It holds the hay above a minimum temperature for a set time, then reports it done. The controller is a small C++ program for an Arduino that runs a handful of cooperative components. This project models those components and proves what they promise:

- **Scheduler.** A cooperative scheduler (`TaskScheduler.h`) runs four cyclic tasks: slow input, fast input, logic and output. Each task has a clamped interval and catches up on missed deadlines.
- **State machine.** The process status moves through idle → ready → heating → holding → done, plus error. It changes only along an allow-list of transitions, and each transition runs a callback (`StateMachine.h`).
- **Process logic.** `HaySteamerLogic` takes one step of the process per update, then runs a fault pass that can move the process to error (`HaySteamerTemperatureControl/HaySteamerLogic.h`).
- **Parameter editor.** A keypad-driven editor sets the start time, the minimum temperature and the holding span (`ParameterEditor.cpp/.h`). It validates each digit, commits only ranged values, and formats the fourth display line with a blinking cursor.
- **Condition registries.** Start conditions are combined with OR. Fault conditions return the message of the first one that holds, in two variants.
- **Clock.**
  - `TimeReader` splits a Unix time into clock and calendar fields with a year loop and a month loop.
  - The NTP client of `NTPClock.h` builds the request packet, decodes the transmit timestamp and applies the EU summer-time rule.
- **Small stateful parts.**
  - The two display writers keep four lines, each with a content provider.
  - The diagram buffer holds 180 samples.
  - The temperature reader caches a value and formats it.
  - The older `Keypad` enters a start time two digits at a time.

## How the model is built

Code that changes state step by step is modelled as Dafny classes. Their methods carry `modifies` clauses, and each method is proved against a specification function on values, which is where the lemmas live:

- `CyclicTask.IsRunScheduled` is proved against `CatchUp`.
- `HaySteamerLogic.Update` is proved against `UpdateSpec`.
- `ManualEditor.ProcessDigit` is proved against `AfterDigit`.
- `TimeReader.BreakTime` is proved against `BrokenDown`.
- `NtpClock.GetNtpTime` is proved against `NtpResult`, which applies the summer-time rule as written.

Loops of the source stay loops with invariants:

- the catch-up loops;
- the registry loops;
- the year and month loops of `breakTime`;
- the accumulation loop of `commitEdit`;
- the formatter loops;
- the display refresh loops.

Machine arithmetic is explicit:

- `unsigned long` is 32 bits and wraps (`CInt.AddU`, `CInt.SubU`).
- C's `/` and `%` truncate toward zero (`CInt.CDiv`, `CInt.CRem`).
- `x << k` on `unsigned long` loses high bits (`CInt.Shl`).
- `|` is defined bit by bit (`CInt.BitOr`).

Injected `std::function`s are modelled as follows:

- They are Dafny functions of an abstract `World`: the state of the plant and its inputs at one moment.
- An empty `std::function` is `None`.
- A callback of the state machine is an identifier, and running it appends a `Fired(id, from, to)` record to a log.

`millis()`, the sensors and the clock are parameters of the operations that read them.

The constructor's allow-list (StateMachine.h:36-46) lacks idle → heating and done → idle, yet the process logic and its tests (Sandbox/SandboxTests/Test_HaySteamerLogic.cpp:43-51, 159-180) need both; the model follows the code:

- The logic is modelled over any transition table. `Logic.ProcessTable` is the constructor's table with those two pairs added, and every scenario states the pairs it needs.
- With the constructor's table alone, meeting the start conditions in idle leaves the status idle and fires nothing, but records the start time and the minimum temperature and sets the message "heating" (`Logic.IdleStartWithInitialTable`).

## Model

| member | source | states |
|---|---|---|
| CInt.AddU | TaskScheduler.h:47-49 | `unsigned long` addition wraps modulo 2^32: the exact sum when it fits, the sum less 2^32 otherwise |
| CInt.SubU | HaySteamerTemperatureControl/HaySteamerLogic.h:58 | unsigned subtraction wraps: a − b when b ≤ a, a − b + 2^32 when a < b |
| CInt.CRemBounds | Arduino/libraries/1_1_Communication/NTPClock.h:54-57 | C's `%` has the dividend's sign and is smaller than the divisor in magnitude; for a non-negative dividend `%` and `/` agree with the mathematical ones; quotient times divisor plus remainder is the dividend |
| CInt.BitOrDisjoint | Arduino/libraries/1_1_Communication/NTPClock.h:150-153 | OR-ing a value shifted left by k bits with a value below 2^k is their sum |
| CInt.BitOrScaled | Arduino/libraries/1_1_Communication/NTPClock.h:150-153 | shifting both operands left by k bits shifts their OR left by k bits |
| Services.StatusValue | Services.h:13-21 | the status enumerators have the values 0..5, idle exactly 0 and error exactly 5 |
| Services.StatusValueRoundTrip | Services.h:13-21 | the value map and its inverse are mutual inverses on 0..5: one value per status, in declaration order |
| Services.InputModeValue | Services.h:4-11 | the input-mode enumerators have the values 0..4, none exactly 0 |
| Services.ConvertRoundTrip | Services.h:23-31 | for every int, `convert_to_hour(t)*60 + convert_to_minutes(t) == t`; for t ≥ 0 the minutes lie in 0..59 and the hour is t/60; for t < 0 (C `%`) the minutes lie in −59..0 |
| Registry.AnyHoldsIffSome | StartConditions.h:36-43 | the OR accumulated with `\|=` is true exactly when some result is true, and false for no conditions |
| Registry.FirstMatchIsFirst | FaultConditions.h:46-51 | the first match is true with only false results before it; there is no match exactly when no result is true |
| Start.StartConditions.constructor | StartConditions.h:19 | a new registry has no conditions |
| Start.StartConditions.AddCondition | StartConditions.h:25-31 | an empty function is ignored; otherwise the condition is appended |
| Start.StartConditions.CheckAllConditions | StartConditions.h:36-43 | the result is the OR of all results, true iff some condition holds; every condition is evaluated once, in order, with no short-circuit |
| Faults.FaultConditions.constructor | FaultConditions.h:54-55 | no conditions, and the default message is "" |
| Faults.FaultConditions.AddDefaultMessage | FaultConditions.h:27-30 | an empty function is ignored; otherwise it replaces the default message |
| Faults.FaultConditions.AddCondition | FaultConditions.h:37-40 | an empty condition is ignored; otherwise (condition, message) is appended |
| Faults.FaultConditions.CheckConditions | FaultConditions.h:46-51 | the message of the first condition that holds, with exactly the conditions up to it evaluated; the default message when none holds, after evaluating all |
| Faults.FirstTrueWins | FaultConditions.h:46-51 | with (false, F1), (true, F2), (true, F3) registered the result is F2 and the third condition is never evaluated |
| StatusFaults.FaultConditions.constructor | HaySteamerTemperatureControl/FaultConditions.h:48 | a new registry has no conditions |
| StatusFaults.FaultConditions.AddCondition | HaySteamerTemperatureControl/FaultConditions.h:28-31 | an empty condition is ignored; otherwise (condition, message) is appended |
| StatusFaults.FaultConditions.CheckConditions | HaySteamerTemperatureControl/FaultConditions.h:37-45 | the message of the first condition true for the status, "" when none holds; a non-empty result is the message of a registered condition that holds; the registry is not changed |
| StatusFaults.FirstAt | HaySteamerTemperatureControl/FaultConditions.h:38-42 | a true result with only false results before it is the first match |
| StateMachine.InitialTableIsAllowList | StateMachine.h:36-46 | the constructor's table holds exactly idle→ready, ready→heating, heating→holding, holding→done, every non-error status → error and error → idle, all with the empty callback |
| StateMachine.StepCases | StateMachine.h:54-66 | a change to the current status does nothing and fires nothing; a registered pair moves and fires its callback once with (old, new); an unregistered pair is ignored; a callback fires exactly when the status changes |
| StateMachine.InitialTableConsequences | StateMachine.h:36-46 | with the constructor's table: ready → done, idle → heating and done → idle are ignored; every status can go to error; error can go only to idle |
| StateMachine.HaySteamerStateMachine.constructor | StateMachine.h:32-47 | starts in idle with the constructor's table and no callback run |
| StateMachine.HaySteamerStateMachine.RegisterCallback | StateMachine.h:49-52 | sets the callback of (from, to), replacing one already there, which makes the pair legal |
| StateMachine.HaySteamerStateMachine.ChangeStatus | StateMachine.h:54-66 | the status and the callback log move as `Step`/`Fires` say, which `StepCases` characterises |
| StateMachine.HaySteamerStateMachine.GetCurrentStatus | StateMachine.h:68 | the current status, which is idle before any callback has run and afterwards the target of the last callback run |
| TaskScheduler.ClampInterval | TaskScheduler.h:38-44 | the interval lies in 10..10000: 10 for requests up to 10, 10000 above 10000, the request itself in between |
| TaskScheduler.ClampIntervalExamples | TaskScheduler.h:38-44 | 0 and 1 give 10, 500 stays, 20000 and 2^32−1 give 10000 |
| TaskScheduler.AttachedConcat | TaskScheduler.h:60-69 | the modules updated by a cycle over a concatenated list are those of the first part, then those of the second |
| TaskScheduler.AttachedSingle | TaskScheduler.h:62-63 | a null module is skipped and a non-null one is updated once |
| TaskScheduler.CatchUpIsLeastMultiple | TaskScheduler.h:55-57 | the deadline after catching up is the old deadline plus a whole number of intervals, lies after `now`, and one interval earlier it would not; a deadline still in the future is kept |
| TaskScheduler.CatchUpAsWrittenWraps | TaskScheduler.h:55-57 | the loop as written: with `now` = 2^32 − 1 the guard holds after every lap; a deadline of 2^32 − 10 wraps to 0 in one lap of 10, where the least later deadline is 2^32 |
| TaskScheduler.CatchUpExamples | TaskScheduler.h:55-57 | interval 100, deadline 1100: now 1350 gives 1400, now 1050 keeps 1100, now 1100 gives 1200 |
| TaskScheduler.CyclicTask.constructor | TaskScheduler.h:38-44 | the interval is the clamped request, the next run is 0 and no module is attached |
| TaskScheduler.CyclicTask.InitializeTaskTimer | TaskScheduler.h:47-49 | the next run is `now + interval` (wrapping) |
| TaskScheduler.CyclicTask.IsRunScheduled | TaskScheduler.h:51-59 | due exactly when `now >=` the old next run; the new next run is the caught-up deadline; not due leaves it unchanged |
| TaskScheduler.CyclicTask.CycleTask | TaskScheduler.h:60-65 | updates every non-null module once, in attachment order |
| TaskScheduler.CyclicTask.AddModule | TaskScheduler.h:67-69 | appends the module, a null one too |
| TaskScheduler.FastInputTask.constructor | TaskScheduler.h:83-95 | the base task as constructed, disabled |
| TaskScheduler.FastInputTask.Enable | TaskScheduler.h:86 | sets only the enabled flag |
| TaskScheduler.FastInputTask.Disable | TaskScheduler.h:87 | clears only the enabled flag |
| TaskScheduler.FastInputTask.CycleTask | TaskScheduler.h:89-93 | updates the attached modules when enabled, nothing otherwise |
| TaskScheduler.OutputTask.constructor | TaskScheduler.h:99-104 | the base interval is the clamped slow interval; both intervals are stored unclamped; last run 0, fast mode off |
| TaskScheduler.OutputTask.InitializeTaskTimer | TaskScheduler.h:106-109 | the next run is `now + interval` and the last run is `now` |
| TaskScheduler.OutputTask.EnableFast | TaskScheduler.h:111-116 | turns fast mode on and pulls the next run forward to last run + fast interval when that is earlier |
| TaskScheduler.OutputTask.DisableFast | TaskScheduler.h:117 | turns fast mode off and nothing else |
| TaskScheduler.OutputTask.IsRunScheduled | TaskScheduler.h:119-136 | due exactly when `now >=` the old next run; the last run becomes `now` only when due; the next run catches up in steps of the fast or the slow interval |
| TaskScheduler.OutputTask.CycleTask | TaskScheduler.h:60-65 | updates every non-null attached module once, in order |
| TaskScheduler.Position | TaskScheduler.h:220 | each task has one position in the sweep order slow input, fast input, logic, output |
| TaskScheduler.DueTasksMembers | TaskScheduler.h:202-210 | the tasks run by a sweep are exactly the due ones, each once, in sweep order |
| TaskScheduler.CyclicCaller.constructor | TaskScheduler.h:154-164 | the four tasks have the intervals 1000, 100 (fast input), 2000 (logic) and 1000/100 (output) |
| TaskScheduler.CyclicCaller.CheckTask | TaskScheduler.h:206-208 | one task of the sweep: due exactly when its deadline has passed, only its deadline moves (to the caught-up one), the output task's last run follows, and a due task updates its modules |
| TaskScheduler.CyclicCaller.ExecuteCyclicTasks | TaskScheduler.h:202-210 | the tasks run are exactly the due ones in sweep order, the modules updated are theirs in that order, and every deadline is caught up |
| TaskScheduler.SweepCatchesUp | TaskScheduler.h:55-57 | after a sweep every deadline lies after `now`, and a deadline that was already in the future is unchanged |
| Logic.AdvanceMoves | HaySteamerTemperatureControl/HaySteamerLogic.h:23-74 | the per-status step either stays and fires nothing, or takes one forward edge of the process that the table allows, firing that edge's callback once |
| Logic.UpdateMoves | HaySteamerTemperatureControl/HaySteamerLogic.h:21-77 | one update keeps the status, takes an allowed forward edge, or ends in error; the start, reached and done times change only to the update's time |
| Logic.ErrorIsAbsorbing | HaySteamerTemperatureControl/HaySteamerLogic.h:164-173 | in error the logic stays in error and fires nothing; only the message may change, to a non-empty external fault text |
| Logic.IdleStartsHeating | HaySteamerTemperatureControl/HaySteamerLogic.h:24-31 | idle with start conditions (and idle → heating allowed) starts heating at the update's time with the configured minimum temperature and the message "heating" |
| Logic.IdleStartWithInitialTable | HaySteamerTemperatureControl/HaySteamerLogic.h:24-31 | with the constructor's table the same update leaves the status idle and fires nothing, but records the start time and the minimum temperature and sets the message "heating" |
| Logic.IdleBecomesReady | HaySteamerTemperatureControl/HaySteamerLogic.h:32-36 | idle without start conditions but with the start timer moves to ready with the message "ready", firing the idle → ready callback once |
| Logic.IdleWaits | HaySteamerTemperatureControl/HaySteamerLogic.h:24-38 | idle without start conditions, start timer or fault changes nothing, so the status stays idle and the message stays |
| Logic.ReadyStartsHeating | HaySteamerTemperatureControl/HaySteamerLogic.h:39-47 | ready with the run timer and ready → heating registered moves to heating, fires that callback once, records the start time and the minimum temperature and sets the message "heating" |
| Logic.ReadyWaits | HaySteamerTemperatureControl/HaySteamerLogic.h:39-47 | ready without the run timer and without a fault changes nothing |
| Logic.HeatingReachesTemperature | HaySteamerTemperatureControl/HaySteamerLogic.h:48-56 | reaching the minimum temperature starts holding, recording the time and the configured wait, keeping the start time |
| Logic.HeatingTimesOut | HaySteamerTemperatureControl/HaySteamerLogic.h:148-153 | heating for more than 60 minutes is the fault "heating timeout" |
| Logic.HeatingAcrossMidnight | HaySteamerTemperatureControl/HaySteamerLogic.h:149 | heating that started at minute 1439 is a timeout at minute 0, because the difference is unsigned |
| Logic.HeatingWaits | HaySteamerTemperatureControl/HaySteamerLogic.h:48-56 | heating below the minimum, within the timeout and without a fault changes nothing |
| Logic.HoldingThenDone | HaySteamerTemperatureControl/HaySteamerLogic.h:57-73 | holding for the wait time moves to done at the update's time; done for 60 minutes returns to idle; before that, done is unchanged |
| Logic.HoldingTemperatureDrops | HaySteamerTemperatureControl/HaySteamerLogic.h:155-160 | while holding, a temperature more than 5 degrees under the minimum is the fault "temperature drop" |
| Logic.HoldingWaits | HaySteamerTemperatureControl/HaySteamerLogic.h:57-64 | holding before the wait time, at most 5 degrees under the minimum and without a fault changes nothing |
| Logic.ExternalFault | HaySteamerTemperatureControl/HaySteamerLogic.h:164-173 | without a built-in fault, a non-empty external fault text for the status reached becomes the message and moves to error (always possible with the constructor's table); an empty one changes nothing |
| Logic.MessageOrigin | HaySteamerTemperatureControl/HaySteamerLogic.h:23-173 | after an update the message is the old one, a process word, a built-in fault text or a non-empty external fault text |
| Logic.ProcessTable | StateMachine.h:36-46 | the constructor's pairs together with idle → heating and done → idle |
| Logic.WholeRun | HaySteamerTemperatureControl/HaySteamerLogic.h:21-77 | a run through heating, holding and done back to idle, with the times of every step |
| Logic.HaySteamerLogic.constructor | HaySteamerTemperatureControl/HaySteamerLogic.h:179-193 | a new state machine in idle, message "idle", times 0, no getters except the defaults 60 °C and 30 minutes |
| Logic.HaySteamerLogic.Update | HaySteamerTemperatureControl/HaySteamerLogic.h:21-77 | the new state is `UpdateSpec` of the old state, the machine's table and the getters' values |
| Logic.HaySteamerLogic.StepStatus | HaySteamerTemperatureControl/HaySteamerLogic.h:23-74 | the new state is the per-status step `Advance` |
| Logic.HaySteamerLogic.BeginHeating | HaySteamerTemperatureControl/HaySteamerLogic.h:27-45 | records the start time, moves to heating, sets the message and the minimum temperature |
| Logic.HaySteamerLogic.BeginHolding | HaySteamerTemperatureControl/HaySteamerLogic.h:51-54 | records the time, moves to holding, sets the message and the wait time |
| Logic.HaySteamerLogic.EnterStatus | HaySteamerTemperatureControl/HaySteamerLogic.h:34-35 | a status change followed by its message |
| Logic.HaySteamerLogic.CheckFaults | HaySteamerTemperatureControl/HaySteamerLogic.h:144-175 | the new state is the fault pass `FaultPass` |
| Logic.HaySteamerLogic.SetStartConditions | HaySteamerTemperatureControl/HaySteamerLogic.h:79-85 | an empty function is ignored; otherwise it is installed |
| Logic.HaySteamerLogic.SetStartTimer | HaySteamerTemperatureControl/HaySteamerLogic.h:86-92 | an empty function is ignored; otherwise it is installed |
| Logic.HaySteamerLogic.SetRunTimer | HaySteamerTemperatureControl/HaySteamerLogic.h:93-99 | an empty function is ignored; otherwise it is installed |
| Logic.HaySteamerLogic.SetHasFault | HaySteamerTemperatureControl/HaySteamerLogic.h:100-106 | an empty function is ignored; otherwise it is installed |
| Logic.HaySteamerLogic.SetGetTimeOfDayInMinutes | HaySteamerTemperatureControl/HaySteamerLogic.h:107-113 | an empty function is ignored; otherwise it is installed |
| Logic.HaySteamerLogic.SetGetTemperature | HaySteamerTemperatureControl/HaySteamerLogic.h:114-120 | an empty function is ignored; otherwise it is installed |
| Logic.HaySteamerLogic.SetGetMinimumTemperature | HaySteamerTemperatureControl/HaySteamerLogic.h:121-127 | an empty function is ignored, so the default stays; otherwise it is installed |
| Logic.HaySteamerLogic.SetGetWaitTime | HaySteamerTemperatureControl/HaySteamerLogic.h:128-134 | an empty function is ignored, so the default stays; otherwise it is installed |
| Logic.HaySteamerLogic.GetMessage | HaySteamerTemperatureControl/HaySteamerLogic.h:136 | the message of the modelled state |
| Logic.HaySteamerLogic.GetCurrentStatus | HaySteamerTemperatureControl/HaySteamerLogic.h:137 | the status of the modelled state, which is the state machine's |
| Editor.EntryLength | ParameterEditor.cpp:176-181 | an edit completes after at most 4 digits, and only "no edit" has length 0 |
| Editor.ValidatorRules | ParameterEditor.cpp:134-174 | for digits: hours' first digit ≤ 2, second ≤ 3 after a '2', minutes' first digit ≤ 5, the last any digit; temperature any two digits; span's second digit must be 0 after a '6'; no position beyond the mode's length is valid |
| Editor.AfterDigitCases | ParameterEditor.cpp:44-77 | in no edit a digit is refused and changes nothing; otherwise a digit valid at its position is appended while the entry is not full; the result says whether the entry is now complete |
| Editor.AfterDigitAccepted | ParameterEditor.cpp:50-74 | every stored character passed its position's validator |
| Editor.AcceptedTimeCommits | ParameterEditor.cpp:84-93 | every complete, validated digit time is stored: hours from the first two digits, minutes from the last two, within 23 and 59 |
| Editor.TempCommits | ParameterEditor.cpp:95-105 | two digits always store as the temperature |
| Editor.SpanCommitsIff | ParameterEditor.cpp:107-117 | a complete span is stored exactly when it is at most 60, and no other parameter changes |
| Editor.SpanOverLimitIsDropped | ParameterEditor.cpp:107-174 | "75" passes the span validators, completes the edit, and is then dropped by the commit |
| Editor.NonDigitReachesCommit | ParameterEditor.cpp:134-146 | the time validators only bound digits from above, so a character below '0' passes and commits negative hours |
| Editor.CommitKeepsRange | ParameterEditor.cpp:79-125 | committing a well-formed entry keeps hours 0..23, minutes 0..59, temperature 0..99 and span 0..60 |
| Editor.AfterKeyKeepsRange | ParameterEditor.cpp:307-325 | one key keeps the ranges and a well-formed entry; a key other than 'A'–'C', '*' or a digit changes nothing |
| Editor.AfterKeysKeepsRange | ParameterEditor.h:93-96 | whatever keys are pressed, the parameters stay within their documented ranges |
| Editor.TimeKeysStore | ParameterEditor.cpp:307-325 | from any entry and any parameters, 'A' and the four digits of any time 00:00..23:59 store exactly that time and end the edit |
| Editor.TimeEntryStores | ParameterEditor.cpp:307-325 | "A1530" stores 15:30 and ends the edit |
| Editor.LatestTimeStores | ParameterEditor.cpp:134-146 | "A2359" stores 23:59 |
| Editor.RefusedTimeDigits | ParameterEditor.cpp:138-140 | in a time edit '3' is refused as the first digit and '4' after a '2' |
| Editor.AbortAndSwitch | ParameterEditor.cpp:307-325 | '*' abandons an edit; a mode key in mid-edit starts the new mode with an empty buffer; no parameter changes |
| Editor.SpanSixty | ParameterEditor.cpp:168-171 | after '6' only '0' is accepted, and "C60" stores 60 |
| Editor.EarlyTimeStores | ParameterEditor.cpp:84-93 | "A0815" stores 08:15 |
| Editor.TemperatureStores | ParameterEditor.cpp:95-105 | "B22" stores 22 °C |
| Editor.SpanStores | ParameterEditor.cpp:107-117 | "C45" stores 45 minutes |
| Editor.WorkflowStores | ParameterEditor.cpp:307-325 | "A0815", "B22", "C45" pressed in a row give 08:15, 22 °C, 45 minutes from any parameters |
| Editor.PaddedTwoDigits | ParameterEditor.cpp:201-202 | a value below 100 with the "0" prefix below 10 is two digits that read back to the value |
| Editor.TimeTextReadsBack | ParameterEditor.cpp:201-202 | the idle time text is "HH:MM", five characters whose fields read back to hours and minutes |
| Editor.IdleDisplayExamples | ParameterEditor.cpp:199-207 | the idle line of the defaults, of 9:05/7/3 ("09:05, 7°C, 3min") and of 8:15/22/45 |
| Editor.SlotsShowTyped | ParameterEditor.cpp:243-275 | the field shows the typed characters, then the cursor (`_` or space by blink state), then `_`; it depends only on the typed prefix, and the blink state affects only the cursor slot |
| Editor.EditDisplayExamples | ParameterEditor.cpp:209-237 | the edit lines of empty and partial time, temperature and span edits |
| Editor.ManualEditor.constructor | ParameterEditor.cpp:3-7 | no edit and an empty buffer of six slots |
| Editor.ManualEditor.SelectMode | ParameterEditor.cpp:24-42 | the entry becomes `Selected`: buffer emptied, mode by key, an unknown key keeps the mode |
| Editor.ManualEditor.IsEditingComplete | ParameterEditor.cpp:176-181 | true exactly when an edit is active and has its mode's number of digits |
| Editor.ManualEditor.ProcessDigit | ParameterEditor.cpp:44-77 | entry and result are `AfterDigit`; the position never exceeds 4, so the digit and terminator writes stay inside the six-slot buffer |
| Editor.ManualEditor.TypedValue | ParameterEditor.cpp:97-100 | the accumulation loop gives the decimal value of the typed characters |
| Editor.ManualEditor.CommitEdit | ParameterEditor.cpp:79-125 | the parameters become `Committed` (stored only when complete and within limits) and the edit is cleared |
| Editor.ManualEditor.AbortEdit | ParameterEditor.cpp:127-132 | no edit and an empty buffer |
| Editor.ManualEditor.GetCurrentMode | ParameterEditor.cpp:9-12 | the mode of the current entry |
| Editor.ManualEditor.GetInputBuffer | ParameterEditor.cpp:14-17 | the six-slot buffer: the typed characters, then the terminator |
| Editor.ManualEditor.GetInputPos | ParameterEditor.cpp:19-22 | the number of characters typed, at most the mode's entry length |
| Editor.DisplayFormatter.constructor | ParameterEditor.cpp:185-188 | last blink time 0 and cursor off |
| Editor.DisplayFormatter.UpdateBlink | ParameterEditor.cpp:190-197 | toggles the cursor and records `now` exactly when at least 1000 ms have passed (unsigned difference); otherwise nothing changes |
| Editor.DisplayFormatter.FormatTimeEdit | ParameterEditor.cpp:239-258 | the loop builds `TimeField` |
| Editor.DisplayFormatter.FormatTwoDigitEdit | ParameterEditor.cpp:260-278 | the loop builds the two-slot field |
| Editor.DisplayFormatter.FormatTempEdit | ParameterEditor.cpp:260-278 | the two-slot field |
| Editor.DisplayFormatter.FormatSpanEdit | ParameterEditor.cpp:280-298 | the two-slot field |
| Editor.DisplayFormatter.FormatEditDisplay | ParameterEditor.cpp:209-237 | the edited field between the two others, as on the idle line |
| Editor.ParameterEditor.constructor | ParameterEditor.cpp:301-305 | defaults 12:00, 20 °C, 30 minutes, no edit |
| Editor.ParameterEditor.ProcessKey | ParameterEditor.cpp:307-325 | updates the blink, then entry and parameters become `AfterKey`, keeping the ranges |
| Editor.ParameterEditor.GetDisplayString | ParameterEditor.cpp:327-338 | updates the blink, then shows the idle line without an edit and the edit line during one |
| Editor.ParameterEditor.GetTimeHours | ParameterEditor.cpp:340-343 | the stored hour, 0..23 while the editor is valid |
| Editor.ParameterEditor.GetTimeMinutes | ParameterEditor.cpp:345-348 | the stored minute, 0..59 while the editor is valid |
| Editor.ParameterEditor.GetTemperature | ParameterEditor.cpp:355-358 | the stored temperature, 0..99 while the editor is valid |
| Editor.ParameterEditor.GetTimeSpan | ParameterEditor.cpp:360-363 | the stored span, 0..60 while the editor is valid |
| Editor.ParameterEditor.GetTimeInMinutes | ParameterEditor.cpp:350-353 | in range, the start time in minutes is below a day and splits back into hours and minutes |
| Editor.ParameterEditor.SetTime | ParameterEditor.cpp:365-371 | stores both values only when both are in range, otherwise neither |
| Editor.ParameterEditor.SetTemperature | ParameterEditor.cpp:373-378 | stores a temperature in 0..99, otherwise keeps the old one |
| Editor.ParameterEditor.SetTimeSpan | ParameterEditor.cpp:380-385 | stores a span in 0..60, otherwise keeps the old one |
| Editor.RunKeys | ParameterEditor.cpp:301-338 | a fresh editor fed any keys ends with the parameters of `AfterKeys`, in range, and shows the matching line |
| Calendar.LeapYearExamples | TimeReader.h:53-56 | 1972 and 2000 are leap years; 1970, 2001 and 2100 are not |
| Calendar.LeapIffFourth | TimeReader.h:53-56 | from 1970 to 2099 the leap years are those with offset ≡ 2 mod 4 |
| Calendar.MonthsMakeYear | TimeReader.h:57 | the twelve month lengths sum to the year length, each 28..31 |
| Calendar.DaysBeforeYearClosedForm | TimeReader.cpp:43-51 | up to 2100 the days before a year are 365 per year plus one per leap year |
| Calendar.SplitYearsSpec | TimeReader.cpp:43-51 | the year loop finds the year holding the day, with the remaining days below that year's length |
| Calendar.SplitMonthsSpec | TimeReader.cpp:53-77 | the month loop finds the month holding the day, with the day below that month's length |
| Calendar.ClockFields | TimeReader.cpp:34-41 | second, minute and hour are in range and reassemble the seconds of the day; weekday in 1..7, Thursday 1970-01-01 being 4 |
| Calendar.DateFields | TimeReader.cpp:43-77 | month 1..12, day 1..month length (29 for a leap February); year lengths plus preceding months plus day − 1 reproduce the day count |
| Calendar.DayNumberBound | TimeReader.cpp:34-40 | a 32-bit reading spans at most 49710 days, so the year offset fits in `uint8_t` |
| Calendar.CalendarUnique | TimeReader.cpp:43-77 | conversely, any year, month and day satisfying the calendar relation are the ones the loops find |
| Calendar.DateOfDay | TimeReader.cpp:43-77 | a date satisfying the relation is found by the loops from the start of the epoch |
| Calendar.DisplayTextReadsBack | TimeReader.cpp:15-21 | the display line is "hh:mm dd.mm.yyyy", 16 characters whose fields read back to the broken-down fields |
| Calendar.TimeOfDayAgreesWithClock | TimeReader.cpp:11-13 | minutes of the day are 0..1439 from 1970 on (−1439..0 before), and equal hour·60 + minute of `breakTime` |
| Calendar.Epoch | TimeReader.cpp:23-80 | reading 0 breaks into 1970-01-01 00:00:00, a Thursday |
| Calendar.LeapDay2000 | TimeReader.cpp:23-80 | 951827696 breaks into 2000-02-29 12:34:56, a Tuesday |
| Calendar.NewYearsEve2020 | TimeReader.cpp:23-80 | 1609459199 breaks into 2020-12-31 23:59:59, a Thursday |
| Calendar.KnownDisplays | TimeReader.cpp:15-21 | the three readings show "00:00 01.01.1970", "12:34 29.02.2000" and "23:59 31.12.2020" |
| Calendar.TimeReader.constructor | TimeReader.cpp:3-5 | the cached reading is 0 |
| Calendar.TimeReader.Update | TimeReader.cpp:7-9 | caches the clock's reading |
| Calendar.TimeReader.GetTimeOfDayInMinutes | TimeReader.cpp:11-13 | 0..1439 for readings from 1970, equal to hour·60 + minute of the broken-down reading |
| Calendar.TimeReader.GetDisplayString | TimeReader.cpp:15-21 | the display line of the broken-down reading, 16 characters |
| Calendar.TimeReader.FindYear | TimeReader.cpp:43-51 | the year loop computes `SplitYears`, with the days before the year found |
| Calendar.TimeReader.FindMonth | TimeReader.cpp:53-75 | the month loop computes `SplitMonths` |
| Calendar.TimeReader.BreakTime | TimeReader.cpp:23-80 | computes `BrokenDown` |
| Temperature.NumberWidth | TempReader.h:54 | the number takes at most three characters exactly for −99..999 |
| Temperature.DisplayTextShape | TempReader.h:48-56 | six bytes exactly for −99..999 (three number characters, "°", "C"); a four-character number gives seven; a wider one is cut and loses the 'C' |
| Temperature.DisplayTextExamples | TempReader.h:52-56 | 0, 23 and −5 show as "  0°C", " 23°C" and " -5°C" |
| Temperature.TempReader.constructor | TempReader.h:27-29 | the cached value is 0 |
| Temperature.TempReader.Update | TempReader.h:35-37 | caches the sensor's reading |
| Temperature.TempReader.GetLatestValue | TempReader.h:43-45 | the cached reading |
| Temperature.TempReader.GetDisplayString | TempReader.h:52-56 | the formatted value; six bytes ending in "°C" for −99..999 |
| Temperature.ReadBack | TempReader.h:27-45 | before any update the line is "  0°C"; the value read back is the one stored last |
| Diagram.Stored | DiagramDataSet.h:24-26 | the sample is in its slot and every other slot is kept |
| Diagram.StoredAppends | DiagramDataSet.h:19-29 | an accepted sample extends the recorded ones by itself; the slots after it, the last included, are kept |
| Diagram.DiagramArray.constructor | DiagramDataSet.h:6-32 | index 0 and 180 zero samples |
| Diagram.DiagramArray.AddDataPoint | DiagramDataSet.h:19-29 | refused exactly at index 179 with nothing changed; otherwise the sample is written at the index, which moves on; slot 179 is never written |
| Diagram.FillUp | DiagramDataSet.h:19-29 | from a fresh array, the first 179 samples are accepted in order and any later one is refused |
| DisplayLines.RefreshedLines | DisplayWriter.cpp:25-34 | each refreshed line is its provider's text, or "" without one |
| DisplayLines.ReplaceOneLine | DisplayWriter.cpp:14-23 | replacing one provider changes only that line of the next refresh; an ignored call changes no line |
| ArduinoDisplayWriter.DisplayWriter.constructor | Arduino/HaySteamerTemperatureControl/DisplayWriter.cpp:3-7 | four empty lines written once, no provider |
| ArduinoDisplayWriter.DisplayWriter.SetAllProvider | Arduino/HaySteamerTemperatureControl/DisplayWriter.cpp:12-19 | the four providers in line order |
| ArduinoDisplayWriter.DisplayWriter.SetLineProvider | Arduino/HaySteamerTemperatureControl/DisplayWriter.cpp:21-30 | an invalid line number or an empty provider is ignored; otherwise that one provider is replaced |
| ArduinoDisplayWriter.DisplayWriter.UpdateLine | Arduino/HaySteamerTemperatureControl/DisplayWriter.cpp:32-41 | a valid line becomes its provider's text or ""; an invalid number changes nothing |
| ArduinoDisplayWriter.DisplayWriter.Update | Arduino/HaySteamerTemperatureControl/DisplayWriter.cpp:43-48 | the content is the refresh of all four providers, written once as a frame |
| ArduinoDisplayWriter.DisplayWriter.ClearAllLines | Arduino/HaySteamerTemperatureControl/DisplayWriter.cpp:50-56 | four empty lines written once |
| ArduinoDisplayWriter.DisplayWriter.ClearLine | Arduino/HaySteamerTemperatureControl/DisplayWriter.cpp:58-60 | empties one line |
| ArduinoDisplayWriter.ReplaceLineScenario | Arduino/HaySteamerTemperatureControl/DisplayWriter.cpp:12-48 | after replacing line 1's provider the next frame differs from the previous one in line 1 only |
| ProviderDisplayWriter.DisplayWriter.constructor | DisplayWriter.cpp:3-9 | installs the four providers and writes four empty lines once |
| ProviderDisplayWriter.DisplayWriter.SetLineProvider | DisplayWriter.cpp:14-23 | an invalid line number or an empty provider is ignored; otherwise that one provider is replaced |
| ProviderDisplayWriter.DisplayWriter.UpdateLine | DisplayWriter.cpp:25-34 | a valid line becomes its provider's text, or "" when it has none; an invalid number changes nothing |
| ProviderDisplayWriter.DisplayWriter.UpdateAllLines | DisplayWriter.cpp:36-41 | the content is the refresh of all four providers, written once as a frame |
| ProviderDisplayWriter.DisplayWriter.ClearAllLines | DisplayWriter.cpp:43-49 | four empty lines written once |
| ProviderDisplayWriter.DisplayWriter.ClearLine | DisplayWriter.cpp:51-53 | empties one line |
| KeypadEntry.DigitsMatchKeys | Keypad.h:163 | the digit table gives each digit key's digit and 0 elsewhere; the indices the entry modes accept are exactly the ten digit keys |
| KeypadEntry.AfterKeyInRange | Keypad.h:61-117 | any key keeps both start-time fields within 0..99, with a half-typed field holding only its tens |
| KeypadEntry.AfterKeysInRange | Keypad.h:61-117 | the same for any sequence of keys |
| KeypadEntry.IgnoredKeysChangeNothing | Keypad.h:67-99 | in the two entry modes the letter keys, '*' and the indices from 14 on change nothing |
| KeypadEntry.StartTimeEntry | Keypad.h:32-117 | 'A' followed by four digit keys enters the start time h1h2:m1m2 and ends in no entry |
| KeypadEntry.Keypad.constructor | Keypad.h:13-17 | no key change pending |
| KeypadEntry.Keypad.SetupKeypad | Keypad.h:19-30 | the mode becomes none |
| KeypadEntry.Keypad.ProcessKeyPendingNone | Keypad.h:32-59 | clears the pending flag; the entry becomes `AfterNoneKey` and the mode is returned |
| KeypadEntry.Keypad.ProcessKeyPendingStartHour | Keypad.h:61-89 | clears the pending flag; the entry becomes `AfterHourKey` and the mode is returned |
| KeypadEntry.Keypad.ProcessKeyPendingStartMinute | Keypad.h:91-117 | clears the pending flag; the entry becomes `AfterMinuteKey` and the mode is returned |
| KeypadEntry.Keypad.KeyChanged | Keypad.h:119-122 | sets the pending flag |
| KeypadEntry.Keypad.IsKeyPending | Keypad.h:124-127 | whether a key change is pending |
| KeypadEntry.Keypad.GetInputMode | Keypad.h:129-132 | the mode of the entry |
| KeypadEntry.Keypad.GetStartHour | Keypad.h:140-143 | the hour entered, within 0..99 while the entry is in range |
| KeypadEntry.Keypad.GetStartMinute | Keypad.h:145-148 | the minute entered, within 0..99 while the entry is in range |
| KeypadEntry.Keypad.SetStartTime | Keypad.h:134-138 | hour and minute split the start time and recombine to it; a time of day 0..1439 gives 0..23 and 0..59 |
| KeypadEntry.EnterStartTime | Keypad.h:32-117 | the keys A, 1, 2, 3, 4 on a set-up keypad give 12:34 and mode none |
| NtpTime.LeapYearAgrees | Arduino/libraries/1_1_Communication/NTPClock.h:43-45 | with C's `%` the rule is the Gregorian one for every year, and from 1970 it agrees with the time reader's leap years |
| NtpTime.DaysInMonthAgrees | Arduino/libraries/1_1_Communication/NTPClock.h:65-72 | the month lengths agree with the time reader's |
| NtpTime.WeekdayCountsDays | Arduino/libraries/1_1_Communication/NTPClock.h:47-61 | from 1970 the corrected weekday is the day count since 1970-01-01 plus 4, modulo 7 |
| NtpTime.WeekdayMatchesTimeReader | Arduino/libraries/1_1_Communication/NTPClock.h:47-61 | for any reading, the corrected weekday of the date `breakTime` gives equals its `Wday` modulo 7 |
| NtpTime.WeekdayEarlier | Arduino/libraries/1_1_Communication/NTPClock.h:57 | a date n days earlier in the month is n weekdays earlier |
| NtpTime.DayOfWeekAsWrittenIsMondayBased | Arduino/libraries/1_1_Communication/NTPClock.h:57-60 | `getDayOfWeek` as written lies in −6..6 and is one less than the Sunday-based weekday modulo 7, i.e. Monday = 0 |
| NtpTime.LastSundayIsLastSunday | Arduino/libraries/1_1_Communication/NTPClock.h:63-81 | the corrected result is a Sunday among the month's last seven days, and the only one |
| NtpTime.LastSundayAsWrittenIsLastMonday | Arduino/libraries/1_1_Communication/NTPClock.h:63-81 | for years 1..2199 and every month, `getLastSundayOfMonth` as written returns a Monday among the month's last seven days |
| NtpTime.LastSundayOfMonthAsWritten | Arduino/libraries/1_1_Communication/NTPClock.h:63-81 | for any year, within six days of the month's end and one day after the last Sunday in the weekly cycle |
| NtpTime.March2024 | Arduino/libraries/1_1_Communication/NTPClock.h:63-81 | March 2024: as written 25 (a Monday), corrected 31 (a Sunday) |
| NtpTime.SummerTimeRule | Arduino/libraries/1_1_Communication/NTPClock.h:83-135 | the corrected adjustment adds exactly one hour in summer time (last Sunday of March 02:00 to last Sunday of October 02:00) and nothing otherwise |
| NtpTime.SummerTimeShiftByMonth | Arduino/libraries/1_1_Communication/NTPClock.h:83-135 | whatever the switch days, the shift is nothing or one hour; nothing from November to February, one hour from April to September |
| NtpTime.AddDaylightSavingTimeAsWritten | Arduino/libraries/1_1_Communication/NTPClock.h:83-135 | the adjustment as written adds nothing or exactly one hour |
| NtpTime.AsWrittenSummerTimeByMonth | Arduino/libraries/1_1_Communication/NTPClock.h:83-135 | the rule as written keeps the month-level promises and agrees with the corrected rule outside March and October |
| NtpTime.SwitchDaysAreSundays | Arduino/libraries/1_1_Communication/NTPClock.h:108-132 | the corrected switch days are Sundays between the 25th and the 31st |
| NtpTime.EarlySummerTime2024 | Arduino/libraries/1_1_Communication/NTPClock.h:108-119 | on 2024-03-26 the code as written already adds the summer hour; the corrected rule does not |
| NtpTime.RequestHeader | Arduino/libraries/1_1_Communication/NTPClock.h:21-29 | leap indicator 3, version 4, mode 3 (client), stratum 0, poll 6, precision 0xEC, zero root delay and dispersion, reference id "1N14", everything else zero |
| NtpTime.BigEndianRoundTrip | Arduino/libraries/1_1_Communication/NTPClock.h:150-153 | big-endian decoding and encoding of four bytes are mutual inverses |
| NtpTime.Assemble | Arduino/libraries/1_1_Communication/NTPClock.h:150-153 | the shifts and ORs on `unsigned long` give the big-endian value of the four bytes |
| NtpTime.LocalSecondsInRange | Arduino/libraries/1_1_Communication/NTPClock.h:154 | from 1970 up to an hour before the 32-bit end, the local time is Unix time plus one hour; before 1970 the result wraps by 2^32 |
| NtpTime.ResponseDecodes | Arduino/libraries/1_1_Communication/NTPClock.h:145-154 | a response carrying transmit time `secs` yields its local time under the summer-time rule as written: unchanged or one hour later, and the corrected rule's value outside March and October |
| NtpTime.NtpClock.constructor | Arduino/libraries/1_1_Communication/NTPClock.h:8-9 | a 48-byte buffer and nothing sent |
| NtpTime.NtpClock.SendNtpPacket | Arduino/libraries/1_1_Communication/NTPClock.h:14-41 | the buffer holds the request, which is sent once |
| NtpTime.NtpClock.GetNtpTime | Arduino/libraries/1_1_Communication/NTPClock.h:137-159 | sends the request; returns `NtpResult`: 0 without a 48-byte response, otherwise the decoded local time under the rule as written; a response is read into the buffer, otherwise the buffer keeps the request |

## Left out

- Hardware and the Arduino runtime are outside the model: Serial output, I2C, interrupts, pin setup, the LCD, the relay, LEDs and Wi-Fi. The `CyclicCaller` wiring of modules and providers (`initializeTasks`) is left out too.
- `millis()`, the temperature sensor, the clock reading and the keypad's `getKey()` are parameters: `now`, `reading` and `index`.
- `CyclicCaller::executeCyclicTasks` is modelled for its ordering and catch-up only. The modules a task updates are identifiers, not the other components.
- The scheduler's catch-up loop may wrap past 2^32, and then may run many laps or never end (see Findings). The model excludes every due call with `now` + interval ≥ 2^32: `IsRunScheduled` requires `CatchUpFits`.
- `OutputTask` stores its intervals unclamped, so its `IsRunScheduled` requires the step in use to be positive.
- The state machine's callbacks are identifiers. Running one appends a record to a log instead of calling a function.
- The logic's getters, and the providers and conditions of the other components, are Dafny functions of an abstract world. The model cannot express a getter that returns different values within one update.
- `HaySteamerLogic::update` calls the getters on its path, and an empty one throws. The model requires all of them installed (`Wired`), as every caller does.
- The header variant of the state machine that the logic actually includes is not part of this model. The logic is stated over any transition table.
- `Keypad` leaves `mode`, `digit_position` and the start-time fields uninitialised. The model's constructor sets only `keyChangePending`, so those fields start arbitrary; `SetupKeypad` sets the mode to none.
- `Keypad`: the minimum-temperature and minimum-time modes that `process_key_pending_none` selects have no handler in `Keypad.h`. In those modes the model's `AfterKey` changes nothing.
- `DiagramArray::reset` is declared without a definition.
- The UDP polling loops of `getNtpTime` are collapsed into the one response they deliver:
  - the discard of stale packets;
  - the 1500 ms wait for a packet of at least 48 bytes.
- `setup_ntp_clock` and the sync-provider registration are not modelled.
- `gmtime` is a parameter of `GetNtpTime`. `add_daylight_saving_time` takes the calendar fields it would return.
- `sendNTPpacket` is declared to return `unsigned long` but has no return statement. Its result is never used, and the model's `SendNtpPacket` returns nothing.
- `NtpTime.NtpClock.GetNtpTime` returns the time under the summer-time rule as written, like the program. The corrected rule is stated beside it as the reference, and the two are proved equal outside March and October (see Findings).
- `NtpTime.LastSundayAsWrittenIsLastMonday`: proved for years 1..2199 only. For larger years Zeller's sum can go negative, the C remainder with it, and the result is a different day.

## Findings

| source | as written | input that shows it | evidently intended | confidence | as-written member | corrected member |
|---|---|---|---|---|---|---|
| Arduino/libraries/1_1_Communication/NTPClock.h:60 | `getDayOfWeek` returns `(h + 5) % 7`. Zeller's h is 0 for Saturday, so this maps Monday to 0 and Sunday to 6. `getLastSundayOfMonth` then subtracts that value from the last day and lands on the last Monday, so summer time starts and ends a day after the last Sunday, or six days before it when the month ends on a Sunday | March 2024: the last day, the 31st, is a Sunday. The code returns 25, a Monday, so `add_daylight_saving_time` adds the summer hour from 2024-03-25 02:00 instead of 2024-03-31 02:00 | Sunday = 0, as the comment on the line says, so that the switch days are the last Sundays of March and October | not executed | NtpTime.LastSundayOfMonthAsWritten, with NtpTime.March2024 and NtpTime.LastSundayAsWrittenIsLastMonday | NtpTime.LastSundayOfMonth, with NtpTime.LastSundayIsLastSunday and NtpTime.SummerTimeRule; `GetNtpTime` keeps the as-written rule, as the program does |
| TaskScheduler.h:55-57 | `while (currentTimeStamp >= nextRun) nextRun += interval;` adds on `unsigned long`, which wraps modulo 2^32, so a deadline near 2^32 wraps to a small value that is still due | `now` = 2^32 − 1: every `unsigned long` is at most `now`, so the loop never ends; deadline 2^32 − 10, `now` 2^32 − 5, interval 10: the first lap wraps to 0 and the loop runs about 2^32/10 more laps | the loop stops at the first deadline after `now` | not executed | TaskScheduler.LapsAsWritten, with TaskScheduler.CatchUpAsWrittenWraps | TaskScheduler.CatchUp, with TaskScheduler.CatchUpIsLeastMultiple |
