# FocusFrame session core in Dafny

FocusFrame watches a desk through a webcam during a focus session. Per
camera frame it keeps a presence score with hysteresis and logs the user
leaving and returning. It logs a phone in view or a distracting
foreground window, with a shared 2-second cooldown. A phone opens a
confirmation gate that only the typed phrase "Im back at working" closes.
In Pomodoro mode, the work timer runs only while the user is present, no
phone is seen and the gate is closed, and N work periods alternate with
N - 1 breaks.

This project models that per-session state machine, as found in
`focus_frame.py`, and proves its properties.

Files and modules:

- `strings.dfy`: `Wrappers` (Option) and `Strings`. `Strings` holds the parts of Python's `str` the core uses: `lower()`, `strip()`, the substring `in`, and the `str()` of integers.
- `presence.dfy`: `Presence`. This is `PresenceDetector`: pure steps `Update` and `Check` over a `PresenceState` value, and the class `PresenceDetector`, whose methods are proved to follow them.
- `distraction.dfy`: `Distraction`. The keyword list and `check_distractions`, which is pure.
- `popup.dfy`: `Popup`. The unlock-phrase test, and the class `PhonePopup` with its `active` flag.
- `event_log.dfy`: `EventLog`. Log entries, the class `EventLogger`, and two views of a log: its presence transitions and its System messages.
- `session.dfy`: `SessionSpec`. The engine as functions on values:
  - one frame (`Tick`);
  - one step of a frame loop (`LoopStep`) and the loop itself (`RunLoop`);
  - `_run_monitoring`, `_run_work_period`, the break and `_run_pomodoro`;
  - `start_session` and `stop_session`;
  - lemmas proving the session invariant, the cooldown, the work-timer properties and the Pomodoro sequence.
- `engine.dfy`: `Engine`. The class `FocusFrameEngine`. Each method, loops included, is proved to change `Snapshot()` exactly as the matching `SessionSpec` function says. So everything proved in `SessionSpec` holds of the engine.

Modelling choices:

- **Time.** Times are integer milliseconds on the same clock as `time.time()`. `DECREMENT_INTERVAL` is 250, `ABSENCE_TIME` is 5000 and the log cooldown is 2000. Work durations are `pomodoro_work_min * 60000`.
- **Steps.** The other threads act between frames: the hotkey listener calls `stop_session`, and the popup's entry field calls `check_and_close` on every change. A frame loop therefore consumes a sequence of `Step`s:
  - `Capture(frame)` is a frame that `cap.read()` returned: the clock, the detector's person and phone signals, whether motion was seen, and the foreground window title, if any;
  - `Typed(text)` means the entry field now holds `text`;
  - `StopRequest(now)` is a call to `stop_session`.
  The sequence running out is `cap.read()` failing. Whether the camera opened is an input. A Pomodoro cycle's `CycleInput` reads the clock separately for the WORK entry (`workStart`) and for the first `last_frame_time` after the camera opens (`loopStart`), so the time the camera takes to open is not counted against the timer.
- **Log entries.** The log stores `Message` values rather than strings. `EventLog.Text` gives the wording the program logs for each one. Timestamps are the integer times.
- **Three behaviours of focus_frame.py worth knowing.** The model keeps each of them as the code has it:
  - `check_distractions` returns the lower-cased window title, not the keyword that matched (focus_frame.py:142-147);
  - `stop_session` clears `is_monitoring` but leaves the phone gate (`phone_popup.active`) open (focus_frame.py:354-361);
  - `work_remaining` is decremented by `frame_delta` with no clamp at zero; only its display is clamped (focus_frame.py:484-499).

The session invariant `SessionSpec.Invariant` has three parts: the score stays within 0..MAX, monitoring implies a start time, and the log's presence transitions alternate Away, Returned, Away, ..., ending at the current `is_away` flag. Every operation keeps it.

## Model

| member | source | states |
|---|---|---|
| Strings.LowerSpec | focus_frame.py:138 | `lower()` maps each character on its own, and no upper-case ASCII letter is left |
| Strings.LowerIdempotent | focus_frame.py:196 | lower-casing twice is lower-casing once |
| Strings.LowerAppend | focus_frame.py:196 | lower-casing distributes over concatenation |
| Strings.StripLeftSpec | focus_frame.py:196 | `lstrip` leaves a suffix that does not start with whitespace, having cut only whitespace |
| Strings.StripRightSpec | focus_frame.py:196 | `rstrip` leaves a prefix that does not end with whitespace, having cut only whitespace |
| Strings.StripSpec | focus_frame.py:196 | `strip` returns the slice between a whitespace prefix and a whitespace suffix; the slice neither starts nor ends with whitespace |
| Strings.StripIsTheTrimmedSlice | focus_frame.py:196 | any cut of a string into whitespace, a word with non-space ends, and whitespace is the cut `strip` makes |
| Strings.ContainsSpec | focus_frame.py:145 | `k in s` holds exactly when `k` occurs at some position of `s` |
| Presence.Initial | focus_frame.py:54-59 | the reset state: score at MAX, not away, both timestamps at now |
| Presence.Update | focus_frame.py:77-89 | a signal raises the score to min(score+INC, MAX) and sets last_seen; without one, once the interval has passed, the score drops to max(score-DEC, 0) and last_decrement is set; otherwise nothing changes; the range is kept and is_away is untouched |
| Presence.Check | focus_frame.py:91-102 | "returned" exactly under its three conditions, and it clears is_away; "away" exactly under its three conditions, and it sets is_away; is_away flips exactly when something is reported; nothing else changes |
| Presence.ObserveFlips | focus_frame.py:77-102 | one frame keeps the score in range; an absence is reported only while present, a return only while away |
| Presence.ReturnNeedsSignal | focus_frame.py:80-95 | a return is reported only on a frame with a person or motion signal |
| Presence.AwayNeedsSilence | focus_frame.py:80-100 | an absence is reported only on a silent frame, at least ABSENCE_TIME after the last signal, from a score of at most DEC |
| Presence.NoAwayBeforeDwell | focus_frame.py:98 | with the default settings, in the 5 s after a sighting no frame reports an absence |
| Presence.PresenceDetector.constructor | focus_frame.py:46-52 | the new detector is in the initial state |
| Presence.PresenceDetector.Reset | focus_frame.py:54-59 | the fields are set to the initial state at now |
| Presence.PresenceDetector.UpdateScore | focus_frame.py:77-89 | returns the score before the update; the fields change as `Update` says |
| Presence.PresenceDetector.CheckPresenceChange | focus_frame.py:91-102 | the result and the new fields are `Check`'s |
| EventLog.WorkText | focus_frame.py:419 | the WORK message reads as the f-string writes it, numbers in decimal: "Pomodoro Cycle 1/4 - WORK (25 min)" |
| EventLog.BreakText | focus_frame.py:505 | the BREAK message reads as the f-string writes it, numbers in decimal: "Pomodoro Cycle 1 - BREAK (5 min)" |
| EventLog.PresenceEventsAppend | focus_frame.py:234-238 | the presence transitions of a concatenated log are those of its parts, in order |
| EventLog.SystemMessagesAppend | focus_frame.py:234-238 | the System messages of a concatenated log are those of its parts, in order |
| EventLog.AlternatesNoRepeat | focus_frame.py:91-102 | an alternating transition sequence has no two equal neighbours, and its first element is fixed by the starting flag |
| EventLog.EventLogger.constructor | focus_frame.py:225-226 | the log starts empty |
| EventLog.EventLogger.Log | focus_frame.py:228-238 | exactly one entry is appended, at the end |
| EventLog.EventLogger.Clear | focus_frame.py:240-241 | the log becomes empty |
| Distraction.CheckDistractionsSpec | focus_frame.py:142-147 | the result is the title itself exactly when some keyword is a substring of it, and None otherwise |
| Distraction.EmptyTitleNeverMatches | focus_frame.py:135-147 | with no empty keyword, an unavailable or empty title yields None |
| Distraction.DefaultIgnoresMissingWindow | focus_frame.py:37-40 | the configured keyword list never matches an unavailable window |
| Distraction.NetflixWindowMatches | focus_frame.py:142-147 | matching ignores case: the window "Netflix - Chrome" is reported as "netflix - chrome" |
| Distraction.CaseOfTitleIrrelevant | focus_frame.py:138-147 | the verdict for a window title and for its lower-cased form is the same, because the title is lower-cased before the keywords are tested |
| Distraction.OrderIrrelevant | focus_frame.py:144-146 | the result depends only on which keywords are listed, not on their order or repetitions |
| Popup.UnlockPhraseIff | focus_frame.py:196 | an entry unlocks exactly when it is the phrase, in any letter case, with any whitespace around it |
| Popup.PromptWordingUnlocks | focus_frame.py:181-196 | the wording the prompt shows, "Im back at working", unlocks as typed |
| Popup.PaddedPromptUnlocks | focus_frame.py:196 | spaces before it and a newline after it do not matter |
| Popup.TruncatedPhraseKeepsLocked | focus_frame.py:196 | "im back at work" does not unlock |
| Popup.PhonePopup.constructor | focus_frame.py:153-154 | the gate starts closed |
| Popup.PhonePopup.Show | focus_frame.py:156-160 | the gate is open afterwards; a new window is launched exactly when it was closed, and an open gate is left as it is |
| Popup.PhonePopup.Submit | focus_frame.py:195-197 | the gate closes exactly when the entry is the unlock phrase, and nothing else opens or closes it |
| SessionSpec.Start | focus_frame.py:340-347 | a no-op while monitoring; otherwise monitoring with a start time, an empty log and presence reset; the invariant is kept |
| SessionSpec.StopSpec | focus_frame.py:354-359 | a no-op when not monitoring; otherwise monitoring ends at now; the gate, presence and log are left as they are |
| SessionSpec.TypeSpec | focus_frame.py:195-209 | typing changes only the gate, and closes it exactly on the unlock phrase |
| SessionSpec.AppTitleSpec | focus_frame.py:405-406 | a window is logged only when its lower-cased title is non-empty and contains a keyword, and then under that title |
| SessionSpec.PresenceEntrySpec | focus_frame.py:392-396 | a presence transition is logged as one entry recording exactly that transition, a return under Camera and an absence under Distraction; it is not cooldown-limited |
| SessionSpec.CooldownLogsSpec | focus_frame.py:399-408 | phone and window are logged only when more than 2000 ms have passed since the last log; at most one of them per frame, the phone first; the clock moves to now exactly when one is logged |
| SessionSpec.SpacedAppend | focus_frame.py:399-408 | cooldown spacing of two log segments, the second measured from the last log of the first, composes |
| SessionSpec.TickEffects | focus_frame.py:389-408 | one frame: the new presence state; the entries in order (the transition first, a return under Camera and an absence under Distraction, then at most one cooldown-limited log, the phone taking precedence); the new cooldown clock; the gate opened by a logged phone and never closed |
| SessionSpec.AdvanceEffects | focus_frame.py:484-499 | after a frame of a work period the timer pauses, keeping its value, or runs down by the frame delta; last_frame_time becomes now |
| SessionSpec.LoopStepEffects | focus_frame.py:450-499 | a loop step only appends to the log, keeps the cooldown spacing and logs nothing in the System category; only a stop ends monitoring; only the phrase closes the gate; the timer moves only on frames of a work period |
| SessionSpec.StepKeepsInvariant | focus_frame.py:389-396 | a frame, a typed text or a stop keeps the session invariant |
| SessionSpec.RunLoopKeepsInvariant | focus_frame.py:372-408 | a whole frame loop keeps the session invariant |
| SessionSpec.MonitoringKeepsInvariant | focus_frame.py:363-412 | `_run_monitoring` keeps the session invariant |
| SessionSpec.WorkPeriodKeepsInvariant | focus_frame.py:439-502 | `_run_work_period` keeps the session invariant |
| SessionSpec.CycleKeepsInvariant | focus_frame.py:419-430 | one Pomodoro cycle keeps the session invariant |
| SessionSpec.CyclesKeepInvariant | focus_frame.py:415-430 | the cycle loop keeps the session invariant |
| SessionSpec.PomodoroKeepsInvariant | focus_frame.py:414-437 | `_run_pomodoro` keeps the session invariant |
| SessionSpec.NoDoubleAway | focus_frame.py:91-102 | in every state satisfying the session invariant (which the engine constructor establishes and every operation keeps), the log never has two absences (or two returns) without the other in between, and its first transition is an absence |
| SessionSpec.RunLoopCooldown | focus_frame.py:399-408 | over a whole frame loop, every phone or app entry comes more than 2000 ms after the previous one; the loop only appends to the log |
| SessionSpec.GateHoldsTimer | focus_frame.py:484-487 | while the gate is open and nobody types the phrase, the work timer does not move at all and the gate stays open |
| SessionSpec.TimerNeverRunsUp | focus_frame.py:455-487 | with a clock that does not go backwards, the work timer never increases |
| SessionSpec.WorkFrameAccounting | focus_frame.py:484-495 | the timer drops by exactly the frame delta when the user is present, no phone is seen and the gate is closed, and stays put otherwise; `timer_paused` changes only on a pause or resume edge |
| SessionSpec.CountAppend | focus_frame.py:415-437 | WORK and BREAK counts add up over concatenation |
| SessionSpec.ScheduleShape | focus_frame.py:415-430 | cycles c..N produce N-c+1 WORK entries and N-c BREAK entries, ending with WORK N |
| SessionSpec.RunLoopSplit | focus_frame.py:372-408 | a frame loop over two step streams one after the other ends where the loop over their concatenation ends |
| SessionSpec.LoopEndIsFinal | focus_frame.py:450-453 | once monitoring is off or, in a work period, the timer is used up, the loop processes no further frame, whatever follows (the monitoring loop at line 372 is the untimed case) |
| SessionSpec.RunLoopNoSystem | focus_frame.py:372-408 | a frame loop, stopped or not, logs nothing in the System category |
| SessionSpec.MonitoringSystemLog | focus_frame.py:363-412 | when the camera opens, `_run_monitoring` logs exactly "Camera Active. Monitoring started." then "Monitoring stopped." in the System category, however the loop ends; when it does not open, nothing |
| SessionSpec.UnstoppedLoop | focus_frame.py:450-481 | a frame loop that nobody stops stays monitoring and logs nothing in the System category |
| SessionSpec.UnstoppedWorkPeriod | focus_frame.py:439-502 | an unstopped work period keeps monitoring and adds no System message |
| SessionSpec.UnstoppedCycle | focus_frame.py:419-430 | an unstopped cycle logs its WORK entry, then a BREAK entry unless it is the last |
| SessionSpec.UnstoppedCycles | focus_frame.py:415-430 | unstopped cycles c..N log exactly the schedule of those cycles |
| SessionSpec.FullPomodoroRun | focus_frame.py:414-437 | an unstopped run of N cycles logs, in the System category, WORK 1, BREAK 1, ..., WORK N and then "Pomodoro session completed!", and ends the session |
| Engine.FocusFrameEngine.constructor | focus_frame.py:299-320 | idle, no start or end time, presence in its initial state, gate closed, empty log; Pomodoro off with 25/5/4; the session invariant holds |
| Engine.FocusFrameEngine.ConfigurePomodoro | focus_frame.py:554-563 | the three settings take the given values and Pomodoro mode is on; the session state is untouched |
| Engine.FocusFrameEngine.StartSession | focus_frame.py:340-352 | the state changes as `Start` says; the launched thread is the Pomodoro one in Pomodoro mode, the monitoring one otherwise, and none while monitoring |
| Engine.FocusFrameEngine.StopSession | focus_frame.py:354-361 | the state changes as `Stop` says; a report is due exactly when a session was running |
| Engine.FocusFrameEngine.TypeText | focus_frame.py:195-197 | the state changes as `Type` says |
| Engine.FocusFrameEngine.ObserveFrame | focus_frame.py:389-396 | presence and log change as one `Observe` and its transition entry say |
| Engine.FocusFrameEngine.CheckDistractionsOnFrame | focus_frame.py:399-408 | log, gate and cooldown clock change as `CooldownLogs` says |
| Engine.FocusFrameEngine.TickFrame | focus_frame.py:389-408 | presence, gate, log and cooldown clock change as `Tick` says |
| Engine.FocusFrameEngine.HandleStep | focus_frame.py:455-499 | the state and the loop's locals change as `LoopStep` says |
| Engine.FocusFrameEngine.RunFrameLoop | focus_frame.py:450-499 | the loop ends in the state `RunLoop` gives |
| Engine.FocusFrameEngine.RunMonitoring | focus_frame.py:363-412 | the state changes as `Monitoring` says |
| Engine.FocusFrameEngine.RunWorkPeriod | focus_frame.py:439-502 | the state, remaining time and paused flag are `WorkPeriod`'s |
| Engine.FocusFrameEngine.RunBreakPeriod | focus_frame.py:504-513 | the state changes as `BreakPeriod` says |
| Engine.FocusFrameEngine.RunCycle | focus_frame.py:419-430 | the state changes as `Cycle` says |
| Engine.FocusFrameEngine.RunCycles | focus_frame.py:415-430 | the state changes as `Cycles` says for cycles 1..N |
| Engine.FocusFrameEngine.RunPomodoro | focus_frame.py:414-437 | the state changes as `Pomodoro` says |

## Left out

- Camera capture, grayscale frame differencing and all display (`detect_motion`, `imshow`, `putText`): pixel I/O. Motion is an input boolean of each frame, so the detector's `prev_gray` field, which only motion detection reads, is not part of the model.
- YOLO loading and inference: a foreign library with floating-point confidences. The person and phone signals are input booleans.
- The Tk popup window and the foreground-window lookup: UI and OS calls. Only the gate flag and the phrase test are modelled; the window title is an input. `on_enter` clearing a wrong entry amounts to a `Typed("")` step, which changes nothing.
- Report generation, the file write, `webbrowser.open` and `os._exit` (`_generate_report`): output plumbing. `StopSession` returns whether a report is due. The model does not terminate the process after a stop, so the frame loop that notices the stop still logs "Monitoring stopped.", as it does during the program's one-second sleep.
- Threads, `time.sleep` and the hotkey listener: concurrency. Their actions are interleaved with frames as `Step`s of the frame loops. `StartSession` returns which thread it launches rather than starting it.
- The break's wait loop: it is modelled as the BREAK entry plus an optional stop during the break. The clock and the console countdown are left out.
- Floating-point wall-clock time and `datetime` formatting: replaced by integer milliseconds. `reset` reads the clock twice; the model gives both timestamps the same reading.
- argparse, the interactive Pomodoro setup's input parsing, banners and console prints. `ConfigurePomodoro` covers only the assignments of a setup that succeeds. The parsing, and the ValueError path that turns Pomodoro mode off, are left out.
- Infinite frame streams: each loop consumes a finite sequence of steps.
- Strings.Lower: only ASCII letters are lower-cased, and `strip` knows only the whitespace characters below 128. Python's Unicode tables are not modelled.
- A camera that cannot be opened: `_run_monitoring` returns without logging, and monitoring stays on. A Pomodoro work period returns at once, so such a run still goes through its cycles and logs completion. The model keeps both behaviours as written.
