/**
 * The object `FocusFrameEngine`: the session flag and times, the Pomodoro
 * settings and the detector, gate and log it owns. Each method is proved to
 * change the engine exactly as the matching function of `SessionSpec` says,
 * so every property proved there holds of the engine.
 *
 * What the other threads do (the camera frames, the text typed into the
 * popup, a stop from the hotkey listener) reaches the frame loops as one
 * sequence of `Step`s, in the order it happens.
 */
module Engine {
  import opened Wrappers
  import opened Presence
  import opened EventLog
  import opened SessionSpec
  import Distraction
  import Popup

  /** The thread `start_session` launches. */
  datatype Runner = NoRunner | MonitoringThread | PomodoroThread

  class FocusFrameEngine {
    const config: Config
    const keywords: seq<string>
    var isMonitoring: bool
    var startTime: Option<int>
    var endTime: Option<int>
    const presence: PresenceDetector
    const popup: Popup.PhonePopup
    const logger: EventLogger
    var pomodoroEnabled: bool
    var pomodoroWorkMin: int
    var pomodoroBreakMin: int
    var pomodoroCycles: int

    /** The detector works with the engine's configuration. */
    predicate Valid() {
      presence.config == config
    }

    /** The engine state a session changes, as a value. */
    function Snapshot(): Session
      reads this, presence, popup, logger
    {
      Session(isMonitoring, startTime, endTime, presence.State(), popup.active, logger.logData)
    }

    /** The Pomodoro settings. */
    function Settings(): Plan
      reads this
    {
      Plan(pomodoroWorkMin, pomodoroBreakMin, pomodoroCycles)
    }

    /** `__init__`, with the clock reading `now`: idle, an empty log, Pomodoro off with 25/5/4. */
    constructor (config: Config, keywords: seq<string>, now: int)
      ensures this.config == config && this.keywords == keywords && Valid()
      ensures Snapshot() == Session(false, None, None, Initial(config, now), false, [])
      ensures !pomodoroEnabled && Settings() == Plan(25, 5, 4)
      ensures Invariant(config, Snapshot())
    {
      this.config := config;
      this.keywords := keywords;
      isMonitoring := false;
      startTime := None;
      endTime := None;
      presence := new PresenceDetector(config, now);
      popup := new Popup.PhonePopup();
      logger := new EventLogger();
      pomodoroEnabled := false;
      pomodoroWorkMin := 25;
      pomodoroBreakMin := 5;
      pomodoroCycles := 4;
    }

    /** What a completed Pomodoro setup assigns: the three settings, and Pomodoro mode on. */
    method ConfigurePomodoro(plan: Plan)
      modifies this
      ensures Settings() == plan && pomodoroEnabled
      ensures Snapshot() == old(Snapshot())
    {
      pomodoroWorkMin := plan.workMin;
      pomodoroBreakMin := plan.breakMin;
      pomodoroCycles := plan.cycles;
      pomodoroEnabled := true;
    }

    /** `start_session`: a no-op while monitoring; `runner` is the thread it launches. */
    method StartSession(now: int) returns (runner: Runner)
      requires Valid()
      modifies this, presence, logger
      ensures Snapshot() == Start(config, old(Snapshot()), now)
      ensures runner == if old(isMonitoring) then NoRunner
                        else if pomodoroEnabled then PomodoroThread else MonitoringThread
      ensures Settings() == old(Settings()) && pomodoroEnabled == old(pomodoroEnabled)
    {
      if isMonitoring {
        return NoRunner;
      }
      isMonitoring := true;
      startTime := Some(now);
      logger.Clear();
      presence.Reset(now);
      runner := if pomodoroEnabled then PomodoroThread else MonitoringThread;
    }

    /** `stop_session`: a no-op when not monitoring; `reportDue` says whether the report is generated. */
    method StopSession(now: int) returns (reportDue: bool)
      modifies this
      ensures Snapshot() == Stop(old(Snapshot()), now)
      ensures reportDue == old(isMonitoring)
      ensures Settings() == old(Settings()) && pomodoroEnabled == old(pomodoroEnabled)
    {
      if !isMonitoring {
        return false;
      }
      isMonitoring := false;
      endTime := Some(now);
      reportDue := true;
    }

    /** The popup's `check_and_close` on the text the user has typed. */
    method TypeText(text: string)
      modifies popup
      ensures Snapshot() == Type(old(Snapshot()), text)
    {
      var _ := popup.Submit(text);
    }

    /** The first part of a frame: the presence update and the log of any transition. */
    method ObserveFrame(f: Frame)
      requires Valid()
      modifies presence, logger
      ensures var o := Observe(config, old(presence.State()), f.person, f.motion, f.now);
        presence.State() == o.state && logger.logData == old(logger.logData) + PresenceEntry(f.now, o.change)
    {
      var prevScore := presence.UpdateScore(f.person, f.motion, f.now);
      var change := presence.CheckPresenceChange(prevScore, f.now);
      if change == Some(Returned) {
        logger.Log(f.now, Camera, UserReturned);
      } else if change == Some(Away) {
        logger.Log(f.now, Distraction, UserAway);
      } else {
        assert logger.logData + [] == logger.logData;
      }
    }

    /** The second part of a frame: the phone and window checks under the shared cooldown. */
    method CheckDistractionsOnFrame(f: Frame, lastLog: int) returns (newLastLog: int)
      modifies popup, logger
      ensures var l := CooldownLogs(f.now, lastLog, f.phone, AppTitle(keywords, f.window));
        logger.logData == old(logger.logData) + l.entries && newLastLog == l.lastLog &&
        popup.active == (old(popup.active) || l.phoneLogged)
    {
      newLastLog := lastLog;
      if f.phone && f.now - newLastLog > LOG_COOLDOWN {
        logger.Log(f.now, Distraction, PhoneDetected);
        var _ := popup.Show();
        newLastLog := f.now;
      }
      var distraction := Distraction.CheckDistractions(keywords, Distraction.ActiveWindowTitle(f.window));
      if distraction.Some? && distraction.value != "" && f.now - newLastLog > LOG_COOLDOWN {
        logger.Log(f.now, Distraction, App(distraction.value));
        newLastLog := f.now;
      }
    }

    /** The body shared by both frame loops. */
    method TickFrame(f: Frame, lastLog: int) returns (newLastLog: int)
      requires Valid()
      modifies presence, popup, logger
      ensures var t := Tick(config, keywords, old(presence.State()), old(popup.active), lastLog, f);
        presence.State() == t.presence && popup.active == t.gateActive &&
        logger.logData == old(logger.logData) + t.entries && newLastLog == t.lastLog
    {
      ghost var log0 := logger.logData;
      ObserveFrame(f);
      newLastLog := CheckDistractionsOnFrame(f, lastLog);
      ghost var o := Observe(config, old(presence.State()), f.person, f.motion, f.now);
      ghost var l := CooldownLogs(f.now, lastLog, f.phone, AppTitle(keywords, f.window));
      AppendAssoc(log0, PresenceEntry(f.now, o.change), l.entries);
    }

    /**
     * One step of a frame loop. A frame of a work period (`timed`) also runs
     * the timer down by the time since the previous frame, unless the user is
     * away, a phone is seen or the gate is open; `paused` changes only on edges.
     */
    method HandleStep(timed: bool, step: Step, lastLog: int, remaining: int, paused: bool, lastFrame: int)
      returns (lastLog': int, remaining': int, paused': bool, lastFrame': int)
      requires Valid()
      modifies this, presence, popup, logger
      ensures Loop(Snapshot(), lastLog', remaining', paused', lastFrame') ==
              LoopStep(config, keywords, timed, Loop(old(Snapshot()), lastLog, remaining, paused, lastFrame), step)
      ensures Settings() == old(Settings()) && pomodoroEnabled == old(pomodoroEnabled)
    {
      lastLog', remaining', paused', lastFrame' := lastLog, remaining, paused, lastFrame;
      match step
      case Typed(text) =>
        TypeText(text);
      case StopRequest(now) =>
        var _ := StopSession(now);
      case Capture(f) =>
        var frameDelta := f.now - lastFrame;
        lastLog' := TickFrame(f, lastLog);
        if timed {
          var shouldPause := presence.isAway || f.phone || popup.active;
          if !shouldPause {
            remaining' := remaining - frameDelta;
            if paused' {
              paused' := false;
            }
          } else {
            if !paused' {
              paused' := true;
            }
          }
          lastFrame' := f.now;
        }
    }

    /** One more round of a frame loop that goes on: the step at `i`, after which the loop resumes at `i + 1`. */
    method LoopRound(timed: bool, steps: seq<Step>, i: int, lastLog: int, remaining: int, paused: bool,
                     lastFrame: int)
      returns (lastLog': int, remaining': int, paused': bool, lastFrame': int)
      requires Valid() && 0 <= i < |steps|
      requires Continues(timed, Loop(Snapshot(), lastLog, remaining, paused, lastFrame))
      modifies this, presence, popup, logger
      ensures RunLoop(config, keywords, timed, Loop(Snapshot(), lastLog', remaining', paused', lastFrame'), steps[i + 1..])
           == RunLoop(config, keywords, timed, Loop(old(Snapshot()), lastLog, remaining, paused, lastFrame), steps[i..])
      ensures Settings() == old(Settings()) && pomodoroEnabled == old(pomodoroEnabled)
    {
      RunLoopStep(config, keywords, timed, Loop(Snapshot(), lastLog, remaining, paused, lastFrame), steps, i);
      lastLog', remaining', paused', lastFrame' := HandleStep(timed, steps[i], lastLog, remaining, paused, lastFrame);
    }

    /**
     * The `while` loop of `_run_monitoring` (untimed) and of `_run_work_period`
     * (`timed`): it goes round while monitoring and, when timed, while time is
     * left, and it leaves the loop when the frames run out.
     */
    method RunFrameLoop(timed: bool, steps: seq<Step>, lastLog0: int, remaining0: int, paused0: bool,
                        lastFrame0: int)
      returns (lastLog: int, remaining: int, paused: bool, lastFrame: int)
      requires Valid()
      modifies this, presence, popup, logger
      ensures Loop(Snapshot(), lastLog, remaining, paused, lastFrame)
           == RunLoop(config, keywords, timed, Loop(old(Snapshot()), lastLog0, remaining0, paused0, lastFrame0), steps)
      ensures Settings() == old(Settings()) && pomodoroEnabled == old(pomodoroEnabled)
    {
      lastLog, remaining, paused, lastFrame := lastLog0, remaining0, paused0, lastFrame0;
      ghost var w0 := Loop(Snapshot(), lastLog, remaining, paused, lastFrame);
      var i := 0;
      while isMonitoring && (!timed || remaining > 0) && i < |steps|
        invariant 0 <= i <= |steps|
        invariant RunLoop(config, keywords, timed, Loop(Snapshot(), lastLog, remaining, paused, lastFrame), steps[i..])
               == RunLoop(config, keywords, timed, w0, steps)
        invariant Settings() == old(Settings()) && pomodoroEnabled == old(pomodoroEnabled)
        decreases |steps| - i
      {
        lastLog, remaining, paused, lastFrame := LoopRound(timed, steps, i, lastLog, remaining, paused, lastFrame);
        i := i + 1;
      }
      RunLoopDone(config, keywords, timed, Loop(Snapshot(), lastLog, remaining, paused, lastFrame), steps, i);
    }

    /**
     * `_run_monitoring`: nothing when the camera cannot be opened; otherwise
     * "Camera Active", the frame loop with the cooldown clock at 0, then
     * "Monitoring stopped." at `endNow`.
     */
    method RunMonitoring(cameraOpened: bool, startNow: int, steps: seq<Step>, endNow: int)
      requires Valid()
      modifies this, presence, popup, logger
      ensures Snapshot() == Monitoring(config, keywords, old(Snapshot()), cameraOpened, startNow, steps, endNow)
      ensures Settings() == old(Settings()) && pomodoroEnabled == old(pomodoroEnabled)
    {
      if !cameraOpened {
        return;
      }
      logger.Log(startNow, System, CameraActive);
      var _, _, _, _ := RunFrameLoop(false, steps, 0, 0, false, startNow);
      logger.Log(endNow, System, MonitoringStopped);
    }

    /**
     * `_run_work_period` of `duration` ms: nothing when the camera cannot be
     * opened; otherwise the frame loop with the full duration and the
     * cooldown clock at 0. The timer and the paused flag are returned as they
     * are when the loop ends.
     */
    method RunWorkPeriod(duration: int, startNow: int, cameraOpened: bool, steps: seq<Step>)
      returns (remaining: int, paused: bool)
      requires Valid()
      modifies this, presence, popup, logger
      ensures var w := WorkPeriod(config, keywords, old(Snapshot()), duration, startNow, cameraOpened, steps);
        Snapshot() == w.session && remaining == w.remaining && paused == w.paused
      ensures Settings() == old(Settings()) && pomodoroEnabled == old(pomodoroEnabled)
    {
      remaining, paused := duration, false;
      if !cameraOpened {
        return;
      }
      var lastLog, lastFrame;
      lastLog, remaining, paused, lastFrame := RunFrameLoop(true, steps, 0, duration, false, startNow);
    }

    /** `_run_break_period`: the BREAK entry, then a wait that only a stop at `breakStop` cuts short. */
    method RunBreakPeriod(cycle: int, breakStart: int, breakStop: Option<int>)
      modifies this, logger
      ensures Snapshot() == BreakPeriod(old(Snapshot()), cycle, Settings(), breakStart, breakStop)
      ensures Settings() == old(Settings()) && pomodoroEnabled == old(pomodoroEnabled)
    {
      logger.Log(breakStart, System, PomodoroBreak(cycle, pomodoroBreakMin));
      if breakStop.Some? {
        var _ := StopSession(breakStop.value);
      }
    }

    /**
     * The body of `_run_pomodoro`'s loop for cycle `cycle`, once the
     * monitoring check has passed: the WORK entry and the work period, then,
     * unless stopped or in the last cycle, the break.
     */
    method RunCycle(cycle: int, input: CycleInput)
      requires Valid()
      modifies this, presence, popup, logger
      ensures Snapshot() == Cycle(config, keywords, Settings(), old(Snapshot()), cycle, input)
      ensures Settings() == old(Settings()) && pomodoroEnabled == old(pomodoroEnabled)
    {
      logger.Log(input.workStart, System, PomodoroWork(cycle, pomodoroCycles, pomodoroWorkMin));
      var _, _ := RunWorkPeriod(pomodoroWorkMin * 60000, input.loopStart, input.cameraOpened, input.steps);
      if !isMonitoring {
        return;
      }
      if cycle < pomodoroCycles {
        RunBreakPeriod(cycle, input.breakStart, input.breakStop);
      }
    }

    /** The loop of `_run_pomodoro`: cycles 1 to N, leaving the loop once monitoring is off. */
    method RunCycles(inputs: seq<CycleInput>)
      requires Valid() && pomodoroCycles <= |inputs|
      modifies this, presence, popup, logger
      ensures Settings() == old(Settings()) && pomodoroEnabled == old(pomodoroEnabled)
      ensures Snapshot() == Cycles(config, keywords, Settings(), old(Snapshot()), 1, inputs)
    {
      ghost var s0 := Snapshot();
      var cycle := 1;
      while cycle <= pomodoroCycles
        invariant 1 <= cycle && (cycle <= pomodoroCycles + 1 || cycle == 1)
        invariant Settings() == old(Settings()) && pomodoroEnabled == old(pomodoroEnabled)
        invariant Cycles(config, keywords, Settings(), Snapshot(), cycle, inputs)
               == Cycles(config, keywords, Settings(), s0, 1, inputs)
        decreases pomodoroCycles + 1 - cycle
      {
        if !isMonitoring {
          CyclesDone(config, keywords, Settings(), Snapshot(), cycle, inputs);
          return;
        }
        CyclesStep(config, keywords, Settings(), Snapshot(), cycle, inputs);
        RunCycle(cycle, inputs[cycle - 1]);
        cycle := cycle + 1;
      }
      CyclesDone(config, keywords, Settings(), Snapshot(), cycle, inputs);
    }

    /**
     * `_run_pomodoro`: the cycles, then, if still monitoring, the completion
     * entry and the end of the session.
     */
    method RunPomodoro(inputs: seq<CycleInput>, endNow: int)
      requires Valid() && pomodoroCycles <= |inputs|
      modifies this, presence, popup, logger
      ensures Snapshot() == Pomodoro(config, keywords, old(Settings()), old(Snapshot()), inputs, endNow)
      ensures Settings() == old(Settings()) && pomodoroEnabled == old(pomodoroEnabled)
    {
      RunCycles(inputs);
      if isMonitoring {
        logger.Log(endNow, System, PomodoroCompleted);
        isMonitoring := false;
        endTime := Some(endNow);
      }
    }
  }
}
