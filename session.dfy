/**
 * The session engine as functions on values: what one camera frame does
 * (the tick shared by `_run_monitoring` and `_run_work_period`), the two
 * frame loops, the break, the Pomodoro sequence and `start_session` /
 * `stop_session`. The class `FocusFrameEngine` (engine.dfy) is proved to
 * change its state exactly as these functions say.
 *
 * The other threads of the program (the hotkey listener that stops the
 * session, the popup where the user types) are modelled by interleaving their
 * actions with the frames: a loop consumes a sequence of `Step`s, and the
 * sequence ending means that `cap.read()` failed.
 */
module SessionSpec {
  import opened Wrappers
  import opened Presence
  import opened EventLog
  import Distraction
  import Popup

  /** Phone and app logs share one cooldown: strictly more than 2.0 s since the last one. */
  const LOG_COOLDOWN: int := 2000

  /** What one frame yields: the clock, the detector's person and phone signals, motion, the active window. */
  datatype Frame = Frame(now: int, person: bool, motion: bool, phone: bool, window: Option<string>)

  /** One event seen by a frame loop, in the order it happens. */
  datatype Step =
    | Capture(frame: Frame)     // `cap.read()` returned a frame
    | Typed(text: string)       // the popup's entry field now holds `text`
    | StopRequest(now: int)     // `stop_session` was called at `now`

  /** The engine state a session changes: its flag and times, the presence detector, the gate, the log. */
  datatype Session = Session(
    monitoring: bool,
    startTime: Option<int>,
    endTime: Option<int>,
    presence: PresenceState,
    gateActive: bool,
    log: seq<Entry>)

  /**
   * What every operation keeps: the score in range, a start time while
   * monitoring, and the log's presence transitions alternating from "present"
   * to the current `isAway` flag.
   */
  predicate Invariant(cfg: Config, s: Session) {
    InRange(cfg, s.presence) &&
    (s.monitoring ==> s.startTime.Some?) &&
    Alternates(PresenceEvents(s.log), false, s.presence.isAway)
  }

  /** `start_session` at `now`: a no-op while monitoring. */
  function Start(cfg: Config, s: Session, now: int): (r: Session)
    ensures s.monitoring ==> r == s
    ensures !s.monitoring ==>
      r.monitoring && r.startTime == Some(now) && r.log == [] && r.presence == Initial(cfg, now) &&
      r.endTime == s.endTime && r.gateActive == s.gateActive
    ensures Invariant(cfg, s) ==> Invariant(cfg, r)
  {
    if s.monitoring then s
    else s.(monitoring := true, startTime := Some(now), log := [], presence := Initial(cfg, now))
  }

  /** `stop_session` at `now`. */
  function Stop(s: Session, now: int): Session {
    if s.monitoring then s.(monitoring := false, endTime := Some(now)) else s
  }

  /**
   * Stopping is a no-op when not monitoring; otherwise it ends monitoring and
   * records the end time, and it leaves the gate, the presence state and the
   * log as they are.
   */
  lemma StopSpec(s: Session, now: int)
    ensures var r := Stop(s, now);
      (!s.monitoring ==> r == s) &&
      (s.monitoring ==> !r.monitoring && r.endTime == Some(now)) &&
      r.startTime == s.startTime && r.presence == s.presence && r.gateActive == s.gateActive && r.log == s.log
  {
  }

  /** The popup's `check_and_close` on `text`. */
  function Type(s: Session, text: string): Session {
    s.(gateActive := s.gateActive && !Popup.IsUnlockPhrase(text))
  }

  /** Typing changes only the gate, and closes it exactly on the unlock phrase. */
  lemma TypeSpec(s: Session, text: string)
    ensures var r := Type(s, text);
      (r.gateActive <==> s.gateActive && !Popup.IsUnlockPhrase(text)) &&
      r.monitoring == s.monitoring && r.startTime == s.startTime && r.endTime == s.endTime &&
      r.presence == s.presence && r.log == s.log
  {
  }

  /** Appends one entry to the session's log. */
  function Log(s: Session, time: int, source: Source, message: Message): Session {
    s.(log := s.log + [Entry(time, source, message)])
  }

  /** The entry a presence transition is logged as. */
  function PresenceEntry(now: int, c: Option<Change>): seq<Entry> {
    match c
    case None => []
    case Some(Returned) => [Entry(now, Camera, UserReturned)]
    case Some(Away) => [Entry(now, Distraction, UserAway)]
  }

  /** The entries subject to the shared cooldown. */
  predicate RateLimited(e: Entry) {
    e.message == PhoneDetected || e.message.App?
  }

  /** What `if distraction` lets through: a matching, non-empty window title. */
  function AppTitle(keywords: seq<string>, window: Option<string>): Option<string> {
    var d := Distraction.CheckDistractions(keywords, Distraction.ActiveWindowTitle(window));
    if d.Some? && d.value != "" then d else None
  }

  /** The window is reported exactly when its lower-cased title is non-empty and contains a keyword. */
  lemma AppTitleSpec(keywords: seq<string>, window: Option<string>)
    ensures var t := AppTitle(keywords, window);
      var title := Distraction.ActiveWindowTitle(window);
      (t.Some? <==> title != "" && exists k :: k in keywords && Strings.Contains(title, k)) &&
      (t.Some? ==> t.value == title)
  {
    Distraction.CheckDistractionsSpec(keywords, Distraction.ActiveWindowTitle(window));
  }

  /** The time of the last cooldown-limited entry of `es`, or `last` if there is none. */
  function LastLimited(es: seq<Entry>, last: int): int
    decreases |es|
  {
    if es == [] then last else LastLimited(es[1..], if RateLimited(es[0]) then es[0].time else last)
  }

  /** Each cooldown-limited entry of `es` comes more than the cooldown after the one before (the first after `last`). */
  predicate Spaced(es: seq<Entry>, last: int)
    decreases |es|
  {
    if es == [] then true
    else if RateLimited(es[0]) then es[0].time - last > LOG_COOLDOWN && Spaced(es[1..], es[0].time)
    else Spaced(es[1..], last)
  }

  lemma {:induction false} SpacedAppend(a: seq<Entry>, b: seq<Entry>, last: int)
    requires Spaced(a, last) && Spaced(b, LastLimited(a, last))
    ensures Spaced(a + b, last)
    ensures LastLimited(a + b, last) == LastLimited(b, LastLimited(a, last))
    decreases |a|
  {
    if a == [] {
      assert a + b == b;
    } else {
      assert (a + b)[0] == a[0] && (a + b)[1..] == a[1..] + b;
      SpacedAppend(a[1..], b, if RateLimited(a[0]) then a[0].time else last);
    }
  }

  lemma SpacedOne(e: Entry, last: int)
    ensures Spaced([e], last) == (RateLimited(e) ==> e.time - last > LOG_COOLDOWN)
    ensures LastLimited([e], last) == if RateLimited(e) then e.time else last
  {
    assert [e][1..] == [];
  }

  /** A presence entry is neither cooldown-limited nor a System entry, and records exactly the change. */
  lemma PresenceEntrySpec(now: int, c: Option<Change>, lastLog: int)
    ensures var es := PresenceEntry(now, c);
      PresenceEvents(es) == (if c.Some? then [c.value] else []) && SystemMessages(es) == [] &&
      |es| <= 1 && (forall i | 0 <= i < |es| :: es[i].time == now && !RateLimited(es[i])) &&
      Spaced(es, lastLog) && LastLimited(es, lastLog) == lastLog &&
      // a return is logged under Camera, an absence under Distraction
      (c == Some(Returned) <==> es == [Entry(now, Camera, UserReturned)]) &&
      (c == Some(Away) <==> es == [Entry(now, Distraction, UserAway)])
  {
    var es := PresenceEntry(now, c);
    if c.Some? {
      PresenceEventsOne(es[0]);
      SystemMessagesOne(es[0]);
      SpacedOne(es[0], lastLog);
    }
  }

  /** What one frame changes: presence, gate, the entries it logs and the cooldown clock. */
  datatype Ticked = Ticked(presence: PresenceState, gateActive: bool, entries: seq<Entry>, lastLog: int)

  /** The phone and app logs of one frame, which share the cooldown clock `lastLog`. */
  datatype Limited = Limited(entries: seq<Entry>, lastLog: int, phoneLogged: bool)

  /**
   * The phone check, then the window check against the clock the phone check
   * may just have reset: the phone takes precedence, and at most one of the
   * two is logged per frame.
   */
  function CooldownLogs(now: int, lastLog: int, phone: bool, app: Option<string>): Limited {
    var phoneLogged := phone && now - lastLog > LOG_COOLDOWN;
    var last1 := if phoneLogged then now else lastLog;
    if app.Some? && now - last1 > LOG_COOLDOWN then
      Limited([Entry(now, Distraction, App(app.value))], now, false)
    else if phoneLogged then
      Limited([Entry(now, Distraction, PhoneDetected)], now, true)
    else
      Limited([], lastLog, false)
  }

  lemma CooldownLogsSpec(now: int, lastLog: int, phone: bool, app: Option<string>)
    ensures var r := CooldownLogs(now, lastLog, phone, app);
      (r.phoneLogged <==> phone && now - lastLog > LOG_COOLDOWN) &&
      |r.entries| <= 1 &&
      (|r.entries| == 1 <==> now - lastLog > LOG_COOLDOWN && (phone || app.Some?)) &&
      (r.phoneLogged ==> r.entries == [Entry(now, Distraction, PhoneDetected)]) &&
      (|r.entries| == 1 && !r.phoneLogged ==> r.entries == [Entry(now, Distraction, App(app.value))]) &&
      r.lastLog == (if |r.entries| == 1 then now else lastLog) &&
      Spaced(r.entries, lastLog) && r.lastLog == LastLimited(r.entries, lastLog) &&
      PresenceEvents(r.entries) == [] && SystemMessages(r.entries) == [] &&
      (forall i | 0 <= i < |r.entries| :: r.entries[i].time == now && RateLimited(r.entries[i]))
  {
    var r := CooldownLogs(now, lastLog, phone, app);
    if |r.entries| == 1 {
      PresenceEventsOne(r.entries[0]);
      SystemMessagesOne(r.entries[0]);
      SpacedOne(r.entries[0], lastLog);
    }
  }

  /**
   * The body of both frame loops: presence update and transition log, then
   * the cooldown-limited phone and window logs; a logged phone opens the gate.
   */
  function Tick(cfg: Config, keywords: seq<string>, p: PresenceState, gate: bool, lastLog: int, f: Frame)
    : Ticked
  {
    var o := Observe(cfg, p, f.person, f.motion, f.now);
    var l := CooldownLogs(f.now, lastLog, f.phone, AppTitle(keywords, f.window));
    Ticked(o.state, gate || l.phoneLogged, PresenceEntry(f.now, o.change) + l.entries, l.lastLog)
  }

  /** A presence entry followed by a cooldown-limited one: what the log's projections see. */
  lemma EntriesCombine(e1: seq<Entry>, e2: seq<Entry>, lastLog: int, last2: int, ev: seq<Change>)
    requires PresenceEvents(e1) == ev && SystemMessages(e1) == []
    requires Spaced(e1, lastLog) && LastLimited(e1, lastLog) == lastLog
    requires PresenceEvents(e2) == [] && SystemMessages(e2) == []
    requires Spaced(e2, lastLog) && last2 == LastLimited(e2, lastLog)
    ensures PresenceEvents(e1 + e2) == ev && SystemMessages(e1 + e2) == []
    ensures Spaced(e1 + e2, lastLog) && last2 == LastLimited(e1 + e2, lastLog)
  {
    PresenceEventsAppend(e1, e2);
    SystemMessagesAppend(e1, e2);
    SpacedAppend(e1, e2, lastLog);
  }

  /** A presence entry followed by a cooldown-limited one, both at `now`: where the limited one sits. */
  lemma EntriesShape(e1: seq<Entry>, e2: seq<Entry>, now: int)
    requires |e1| <= 1 && forall i | 0 <= i < |e1| :: e1[i].time == now && !RateLimited(e1[i])
    requires |e2| <= 1 && forall i | 0 <= i < |e2| :: e2[i].time == now && RateLimited(e2[i])
    ensures var es := e1 + e2;
      (forall i | 0 <= i < |es| :: es[i].time == now) &&
      |es| <= 2 && (|es| == 2 ==> !RateLimited(es[0])) &&
      ((|es| > 0 && RateLimited(es[|es| - 1])) <==> |e2| == 1) &&
      (|e2| == 1 ==> es[|es| - 1] == e2[0])
  {
    var es := e1 + e2;
    if |e2| == 1 {
      assert es[|es| - 1] == e2[0];
    } else if |e1| == 1 {
      assert es[|es| - 1] == e1[0];
    }
  }

  /** The logging half of a frame, over its presence result `st`, `c` and its window result `app`. */
  lemma TickCore(t: Ticked, st: PresenceState, c: Option<Change>, now: int, lastLog: int, phone: bool,
                 app: Option<string>, gate: bool)
    requires var l := CooldownLogs(now, lastLog, phone, app);
      t == Ticked(st, gate || l.phoneLogged, PresenceEntry(now, c) + l.entries, l.lastLog)
    ensures var logged := now - lastLog > LOG_COOLDOWN && (phone || app.Some?);
      PresenceEvents(t.entries) == (if c.Some? then [c.value] else []) &&
      SystemMessages(t.entries) == [] &&
      (forall i | 0 <= i < |t.entries| :: t.entries[i].time == now) &&
      |t.entries| <= 2 && (|t.entries| == 2 ==> !RateLimited(t.entries[0])) &&
      ((|t.entries| > 0 && RateLimited(t.entries[|t.entries| - 1])) <==> logged) &&
      (phone && now - lastLog > LOG_COOLDOWN ==> t.entries[|t.entries| - 1].message == PhoneDetected) &&
      Spaced(t.entries, lastLog) && t.lastLog == LastLimited(t.entries, lastLog) &&
      t.lastLog == (if logged then now else lastLog) &&
      t.gateActive == (gate || (phone && now - lastLog > LOG_COOLDOWN))
  {
    var l := CooldownLogs(now, lastLog, phone, app);
    PresenceEntrySpec(now, c, lastLog);
    CooldownLogsSpec(now, lastLog, phone, app);
    EntriesCombine(PresenceEntry(now, c), l.entries, lastLog, l.lastLog, if c.Some? then [c.value] else []);
    EntriesShape(PresenceEntry(now, c), l.entries, now);
  }

  /** What a frame does: its presence transition, its cooldown-limited logs, the gate and the cooldown clock. */
  lemma TickEffects(cfg: Config, keywords: seq<string>, p: PresenceState, gate: bool, lastLog: int, f: Frame)
    ensures var r := Tick(cfg, keywords, p, gate, lastLog, f);
      var o := Observe(cfg, p, f.person, f.motion, f.now);
      var logged := f.now - lastLog > LOG_COOLDOWN && (f.phone || AppTitle(keywords, f.window).Some?);
      r.presence == o.state &&
      PresenceEvents(r.entries) == (if o.change.Some? then [o.change.value] else []) &&
      SystemMessages(r.entries) == [] &&
      (forall i | 0 <= i < |r.entries| :: r.entries[i].time == f.now) &&
      // only the last entry can be cooldown-limited, and it is there exactly when the cooldown allowed a log
      |r.entries| <= 2 && (|r.entries| == 2 ==> !RateLimited(r.entries[0])) &&
      ((|r.entries| > 0 && RateLimited(r.entries[|r.entries| - 1])) <==> logged) &&
      // the phone takes precedence over the window
      (f.phone && f.now - lastLog > LOG_COOLDOWN ==> r.entries[|r.entries| - 1].message == PhoneDetected) &&
      Spaced(r.entries, lastLog) && r.lastLog == LastLimited(r.entries, lastLog) &&
      r.lastLog == (if logged then f.now else lastLog) &&
      // the gate opens on a logged phone and never closes here
      r.gateActive == (gate || (f.phone && f.now - lastLog > LOG_COOLDOWN)) &&
      // the transition, if any, comes first: a return under Camera, an absence under Distraction
      (o.change == Some(Returned) ==> [Entry(f.now, Camera, UserReturned)] <= r.entries) &&
      (o.change == Some(Away) ==> [Entry(f.now, Distraction, UserAway)] <= r.entries)
  {
    var o := Observe(cfg, p, f.person, f.motion, f.now);
    var l := CooldownLogs(f.now, lastLog, f.phone, AppTitle(keywords, f.window));
    TickCore(Tick(cfg, keywords, p, gate, lastLog, f), o.state, o.change, f.now, lastLog, f.phone,
             AppTitle(keywords, f.window), gate);
    PresenceEntryFirst(f.now, o.change, l.entries);
  }

  /** The presence entry heads whatever follows it in the frame's entries. */
  lemma PresenceEntryFirst(now: int, c: Option<Change>, rest: seq<Entry>)
    ensures c == Some(Returned) ==> [Entry(now, Camera, UserReturned)] <= PresenceEntry(now, c) + rest
    ensures c == Some(Away) ==> [Entry(now, Distraction, UserAway)] <= PresenceEntry(now, c) + rest
  {
  }

  /** The state of a frame loop: the session plus the loop's locals. */
  datatype Loop = Loop(session: Session, lastLog: int, remaining: int, paused: bool, lastFrame: int)

  /** The pause condition of the work timer. */
  predicate ShouldPause(isAway: bool, phone: bool, gateActive: bool) {
    isAway || phone || gateActive
  }

  /** What one step of a frame loop appends to the log: a frame's entries, or nothing. */
  function StepEntries(cfg: Config, keywords: seq<string>, w: Loop, step: Step): seq<Entry> {
    if step.Capture? then Tick(cfg, keywords, w.session.presence, w.session.gateActive, w.lastLog, step.frame).entries
    else []
  }

  /**
   * One step of a frame loop. On a frame of a work period (`timed`) the timer
   * then runs down by the time since the previous frame unless it pauses.
   */
  function LoopStep(cfg: Config, keywords: seq<string>, timed: bool, w: Loop, step: Step): Loop {
    match step
    case Typed(text) => w.(session := Type(w.session, text))
    case StopRequest(now) => w.(session := Stop(w.session, now))
    case Capture(f) => Advance(timed, w, f, Tick(cfg, keywords, w.session.presence, w.session.gateActive, w.lastLog, f))
  }

  /** A frame's effects `t` applied to the loop state, and the work timer's step. */
  function Advance(timed: bool, w: Loop, f: Frame, t: Ticked): Loop {
    var s' := w.session.(presence := t.presence, gateActive := t.gateActive, log := w.session.log + t.entries);
    if !timed then w.(session := s', lastLog := t.lastLog)
    else if !ShouldPause(t.presence.isAway, f.phone, t.gateActive) then
      Loop(s', t.lastLog, w.remaining - (f.now - w.lastFrame), false, f.now)
    else
      Loop(s', t.lastLog, w.remaining, true, f.now)
  }

  /** Applying a frame's effects: the log grows by its entries and the timer runs unless it pauses. */
  lemma AdvanceEffects(timed: bool, w: Loop, f: Frame, t: Ticked)
    ensures var r := Advance(timed, w, f, t);
      r.session == w.session.(presence := t.presence, gateActive := t.gateActive, log := w.session.log + t.entries) &&
      r.lastLog == t.lastLog &&
      (timed ==>
        var pause := ShouldPause(t.presence.isAway, f.phone, t.gateActive);
        r.paused == pause && r.lastFrame == f.now &&
        r.remaining == (if pause then w.remaining else w.remaining - (f.now - w.lastFrame))) &&
      (!timed ==> r.remaining == w.remaining && r.paused == w.paused && r.lastFrame == w.lastFrame)
  {
  }

  /**
   * A step only appends to the log, keeps the cooldown spacing, and logs
   * nothing in the System category; only a stop request ends monitoring; on a
   * frame of a work period the timer pauses or runs by the frame delta.
   */
  lemma LoopStepEffects(cfg: Config, keywords: seq<string>, timed: bool, w: Loop, step: Step)
    ensures var r := LoopStep(cfg, keywords, timed, w, step);
      var es := StepEntries(cfg, keywords, w, step);
      r.session.log == w.session.log + es &&
      Spaced(es, w.lastLog) && r.lastLog == LastLimited(es, w.lastLog) && SystemMessages(es) == [] &&
      (step.Capture? && timed ==>
        var pause := ShouldPause(r.session.presence.isAway, step.frame.phone, r.session.gateActive);
        r.paused == pause && r.lastFrame == step.frame.now &&
        r.remaining == (if pause then w.remaining else w.remaining - (step.frame.now - w.lastFrame))) &&
      (!(step.Capture? && timed) ==>
        r.remaining == w.remaining && r.paused == w.paused && r.lastFrame == w.lastFrame) &&
      (!step.StopRequest? ==>
        r.session.monitoring == w.session.monitoring && r.session.endTime == w.session.endTime) &&
      // only typing the phrase closes the gate
      (step.Typed? ==> r.session.gateActive == (w.session.gateActive && !Popup.IsUnlockPhrase(step.text))) &&
      (!step.Typed? && w.session.gateActive ==> r.session.gateActive)
  {
    if step.Capture? {
      TickEffects(cfg, keywords, w.session.presence, w.session.gateActive, w.lastLog, step.frame);
      AdvanceEffects(timed, w, step.frame,
                     Tick(cfg, keywords, w.session.presence, w.session.gateActive, w.lastLog, step.frame));
    } else {
      assert w.session.log + [] == w.session.log;
    }
  }

  /** Whether a frame loop goes round again: while monitoring and, for a work period, time is left. */
  predicate Continues(timed: bool, w: Loop) {
    w.session.monitoring && (!timed || w.remaining > 0)
  }

  /** A frame loop run over `steps`: it stops when `Continues` fails or the frames run out. */
  function RunLoop(cfg: Config, keywords: seq<string>, timed: bool, w: Loop, steps: seq<Step>): Loop
    decreases |steps|
  {
    if !Continues(timed, w) || steps == [] then w
    else RunLoop(cfg, keywords, timed, LoopStep(cfg, keywords, timed, w, steps[0]), steps[1..])
  }

  /** A frame loop that goes round again takes the step at `i` and carries on from `i + 1`. */
  lemma RunLoopStep(cfg: Config, keywords: seq<string>, timed: bool, w: Loop, steps: seq<Step>, i: int)
    requires 0 <= i < |steps| && Continues(timed, w)
    ensures RunLoop(cfg, keywords, timed, w, steps[i..]) ==
            RunLoop(cfg, keywords, timed, LoopStep(cfg, keywords, timed, w, steps[i]), steps[i + 1..])
  {
    assert steps[i..][0] == steps[i] && steps[i..][1..] == steps[i + 1..];
  }

  /** A frame loop that has stopped, or has no frame left, stays where it is. */
  lemma RunLoopDone(cfg: Config, keywords: seq<string>, timed: bool, w: Loop, steps: seq<Step>, i: int)
    requires 0 <= i <= |steps| && (!Continues(timed, w) || i == |steps|)
    ensures RunLoop(cfg, keywords, timed, w, steps[i..]) == w
  {
  }

  /** `_run_monitoring`: a log on each side of the loop, unless the camera could not be opened. */
  function Monitoring(cfg: Config, keywords: seq<string>, s: Session, cameraOpened: bool,
                      startNow: int, steps: seq<Step>, endNow: int): Session
  {
    if !cameraOpened then s
    else
      var s1 := Log(s, startNow, System, CameraActive);
      var s2 := RunLoop(cfg, keywords, false, Loop(s1, 0, 0, false, startNow), steps).session;
      Log(s2, endNow, System, MonitoringStopped)
  }

  /** `_run_work_period` of `duration` ms, started at `startNow`. */
  function WorkPeriod(cfg: Config, keywords: seq<string>, s: Session, duration: int, startNow: int,
                      cameraOpened: bool, steps: seq<Step>): Loop
  {
    var w := Loop(s, 0, duration, false, startNow);
    if !cameraOpened then w else RunLoop(cfg, keywords, true, w, steps)
  }

  /** The Pomodoro settings: minutes of work, minutes of break, number of cycles. */
  datatype Plan = Plan(workMin: int, breakMin: int, cycles: int)

  /**
   * What happens during one cycle: the clock at the WORK entry, whether the
   * camera opened, the clock once it has (the first `last_frame_time`), the
   * work period's steps, then the break's start and any stop during it.
   */
  datatype CycleInput = CycleInput(
    workStart: int,
    cameraOpened: bool,
    loopStart: int,
    steps: seq<Step>,
    breakStart: int,
    breakStop: Option<int>)

  /** `_run_break_period`: a log entry, then a wait that only a stop cuts short. */
  function BreakPeriod(s: Session, cycle: int, plan: Plan, breakStart: int, breakStop: Option<int>): Session {
    var s1 := Log(s, breakStart, System, PomodoroBreak(cycle, plan.breakMin));
    match breakStop
    case None => s1
    case Some(now) => Stop(s1, now)
  }

  /** One pass of the cycle loop's body, once the monitoring check has passed. */
  function Cycle(cfg: Config, keywords: seq<string>, plan: Plan, s: Session, cycle: int, input: CycleInput)
    : Session
  {
    var s1 := Log(s, input.workStart, System, PomodoroWork(cycle, plan.cycles, plan.workMin));
    AfterWork(plan, WorkPeriod(cfg, keywords, s1, plan.workMin * 60000, input.loopStart,
                               input.cameraOpened, input.steps).session, cycle, input)
  }

  /** The rest of the cycle body after the work period: a break unless stopped or in the last cycle. */
  function AfterWork(plan: Plan, s: Session, cycle: int, input: CycleInput): Session {
    if !s.monitoring then s
    else if cycle < plan.cycles then BreakPeriod(s, cycle, plan, input.breakStart, input.breakStop)
    else s
  }

  /** Cycles `cycle` to `plan.cycles` of `_run_pomodoro`'s loop. */
  function Cycles(cfg: Config, keywords: seq<string>, plan: Plan, s: Session, cycle: int,
                  inputs: seq<CycleInput>): Session
    requires 1 <= cycle && plan.cycles <= |inputs|
    decreases plan.cycles + 1 - cycle
  {
    if cycle > plan.cycles || !s.monitoring then s
    else Cycles(cfg, keywords, plan, Cycle(cfg, keywords, plan, s, cycle, inputs[cycle - 1]), cycle + 1, inputs)
  }

  /** One round of the cycle loop: the cycle, then the cycles after it. */
  lemma CyclesStep(cfg: Config, keywords: seq<string>, plan: Plan, s: Session, cycle: int, inputs: seq<CycleInput>)
    requires 1 <= cycle <= plan.cycles <= |inputs| && s.monitoring
    ensures Cycles(cfg, keywords, plan, s, cycle, inputs) ==
            Cycles(cfg, keywords, plan, Cycle(cfg, keywords, plan, s, cycle, inputs[cycle - 1]), cycle + 1, inputs)
  {
  }

  /** The cycle loop ends once monitoring is off or every cycle has run. */
  lemma CyclesDone(cfg: Config, keywords: seq<string>, plan: Plan, s: Session, cycle: int, inputs: seq<CycleInput>)
    requires 1 <= cycle && plan.cycles <= |inputs| && (!s.monitoring || cycle > plan.cycles)
    ensures Cycles(cfg, keywords, plan, s, cycle, inputs) == s
  {
  }

  /** `_run_pomodoro`: the cycles, then, if still monitoring, the completion log and the end of the session. */
  function Pomodoro(cfg: Config, keywords: seq<string>, plan: Plan, s: Session, inputs: seq<CycleInput>,
                    endNow: int): Session
    requires plan.cycles <= |inputs|
  {
    var s1 := Cycles(cfg, keywords, plan, s, 1, inputs);
    if s1.monitoring then Log(s1, endNow, System, PomodoroCompleted).(monitoring := false, endTime := Some(endNow))
    else s1
  }

  // ---------------------------------------------------------------------------
  // The invariant is kept by every operation.

  lemma {:induction false} AlternatesStep(ev: seq<Change>, c: Option<Change>, away: bool, away': bool)
    requires Alternates(ev, false, away)
    requires c == Some(Away) ==> !away && away'
    requires c == Some(Returned) ==> away && !away'
    requires c.None? ==> away' == away
    ensures Alternates(ev + (if c.Some? then [c.value] else []), false, away')
  {
    if c.Some? {
      var ev' := ev + [c.value];
      assert ev'[..|ev'| - 1] == ev;
    } else {
      assert ev + [] == ev;
    }
  }

  lemma LogKeepsInvariant(cfg: Config, s: Session, time: int, source: Source, m: Message)
    requires Invariant(cfg, s)
    requires m != UserAway && m != UserReturned
    ensures Invariant(cfg, Log(s, time, source, m))
  {
    PresenceEventsAppend(s.log, [Entry(time, source, m)]);
    assert PresenceEvents([Entry(time, source, m)]) == [];
    assert PresenceEvents(s.log + [Entry(time, source, m)]) == PresenceEvents(s.log);
  }

  /** A frame's new presence state and entries keep the invariant when the state flips exactly as reported. */
  lemma FrameKeepsInvariant(cfg: Config, s: Session, o: Checked, entries: seq<Entry>, gate: bool)
    requires Invariant(cfg, s) && InRange(cfg, o.state)
    requires o.change == Some(Away) ==> !s.presence.isAway && o.state.isAway
    requires o.change == Some(Returned) ==> s.presence.isAway && !o.state.isAway
    requires o.change.None? ==> o.state.isAway == s.presence.isAway
    requires PresenceEvents(entries) == (if o.change.Some? then [o.change.value] else [])
    ensures Invariant(cfg, s.(presence := o.state, gateActive := gate, log := s.log + entries))
  {
    PresenceEventsAppend(s.log, entries);
    AlternatesStep(PresenceEvents(s.log), o.change, s.presence.isAway, o.state.isAway);
  }

  lemma StepKeepsInvariant(cfg: Config, keywords: seq<string>, timed: bool, w: Loop, step: Step)
    requires Invariant(cfg, w.session)
    ensures Invariant(cfg, LoopStep(cfg, keywords, timed, w, step).session)
  {
    if step.Capture? {
      var s, f := w.session, step.frame;
      var t := Tick(cfg, keywords, s.presence, s.gateActive, w.lastLog, f);
      TickEffects(cfg, keywords, s.presence, s.gateActive, w.lastLog, f);
      ObserveFlips(cfg, s.presence, f.person, f.motion, f.now);
      FrameKeepsInvariant(cfg, s, Observe(cfg, s.presence, f.person, f.motion, f.now), t.entries, t.gateActive);
    }
  }

  lemma {:induction false} RunLoopKeepsInvariant(cfg: Config, keywords: seq<string>, timed: bool, w: Loop,
                                                 steps: seq<Step>)
    requires Invariant(cfg, w.session)
    ensures Invariant(cfg, RunLoop(cfg, keywords, timed, w, steps).session)
    decreases |steps|
  {
    if Continues(timed, w) && steps != [] {
      StepKeepsInvariant(cfg, keywords, timed, w, steps[0]);
      RunLoopKeepsInvariant(cfg, keywords, timed, LoopStep(cfg, keywords, timed, w, steps[0]), steps[1..]);
    }
  }

  lemma MonitoringKeepsInvariant(cfg: Config, keywords: seq<string>, s: Session, cameraOpened: bool,
                                 startNow: int, steps: seq<Step>, endNow: int)
    requires Invariant(cfg, s)
    ensures Invariant(cfg, Monitoring(cfg, keywords, s, cameraOpened, startNow, steps, endNow))
  {
    if cameraOpened {
      var s1 := Log(s, startNow, System, CameraActive);
      LogKeepsInvariant(cfg, s, startNow, System, CameraActive);
      var s2 := RunLoop(cfg, keywords, false, Loop(s1, 0, 0, false, startNow), steps).session;
      RunLoopKeepsInvariant(cfg, keywords, false, Loop(s1, 0, 0, false, startNow), steps);
      LogKeepsInvariant(cfg, s2, endNow, System, MonitoringStopped);
    }
  }

  lemma WorkPeriodKeepsInvariant(cfg: Config, keywords: seq<string>, s: Session, duration: int, startNow: int,
                                 cameraOpened: bool, steps: seq<Step>)
    requires Invariant(cfg, s)
    ensures Invariant(cfg, WorkPeriod(cfg, keywords, s, duration, startNow, cameraOpened, steps).session)
  {
    RunLoopKeepsInvariant(cfg, keywords, true, Loop(s, 0, duration, false, startNow), steps);
  }

  lemma CycleKeepsInvariant(cfg: Config, keywords: seq<string>, plan: Plan, s: Session, cycle: int,
                            input: CycleInput)
    requires Invariant(cfg, s)
    ensures Invariant(cfg, Cycle(cfg, keywords, plan, s, cycle, input))
  {
    var s1 := Log(s, input.workStart, System, PomodoroWork(cycle, plan.cycles, plan.workMin));
    LogKeepsInvariant(cfg, s, input.workStart, System, PomodoroWork(cycle, plan.cycles, plan.workMin));
    WorkPeriodKeepsInvariant(cfg, keywords, s1, plan.workMin * 60000, input.loopStart,
                             input.cameraOpened, input.steps);
    var s2 := WorkPeriod(cfg, keywords, s1, plan.workMin * 60000, input.loopStart,
                         input.cameraOpened, input.steps).session;
    LogKeepsInvariant(cfg, s2, input.breakStart, System, PomodoroBreak(cycle, plan.breakMin));
  }

  lemma {:induction false} CyclesKeepInvariant(cfg: Config, keywords: seq<string>, plan: Plan, s: Session,
                                               cycle: int, inputs: seq<CycleInput>)
    requires 1 <= cycle && plan.cycles <= |inputs|
    requires Invariant(cfg, s)
    ensures Invariant(cfg, Cycles(cfg, keywords, plan, s, cycle, inputs))
    decreases plan.cycles + 1 - cycle
  {
    if cycle <= plan.cycles && s.monitoring {
      CycleKeepsInvariant(cfg, keywords, plan, s, cycle, inputs[cycle - 1]);
      CyclesKeepInvariant(cfg, keywords, plan, Cycle(cfg, keywords, plan, s, cycle, inputs[cycle - 1]),
                          cycle + 1, inputs);
    }
  }

  lemma PomodoroKeepsInvariant(cfg: Config, keywords: seq<string>, plan: Plan, s: Session,
                               inputs: seq<CycleInput>, endNow: int)
    requires plan.cycles <= |inputs|
    requires Invariant(cfg, s)
    ensures Invariant(cfg, Pomodoro(cfg, keywords, plan, s, inputs, endNow))
  {
    CyclesKeepInvariant(cfg, keywords, plan, s, 1, inputs);
    var s1 := Cycles(cfg, keywords, plan, s, 1, inputs);
    LogKeepsInvariant(cfg, s1, endNow, System, PomodoroCompleted);
  }

  /**
   * Edge triggering over a whole session: in any state the operations reach,
   * the log never records two absences (or two returns) without the other
   * between them, and the first transition it records is an absence.
   */
  lemma NoDoubleAway(cfg: Config, s: Session)
    requires Invariant(cfg, s)
    ensures var ev := PresenceEvents(s.log);
      (forall i | 0 <= i < |ev| - 1 :: ev[i] != ev[i + 1]) && (|ev| > 0 ==> ev[0] == Away)
  {
    AlternatesNoRepeat(PresenceEvents(s.log), false, s.presence.isAway);
  }

  lemma PrefixSplit<T>(l: seq<T>, a: seq<T>, e: seq<T>)
    requires |a| + |e| <= |l| && l[..|a| + |e|] == a + e
    ensures l[..|a|] == a && l[|a|..] == e + l[|a| + |e|..]
  {
    assert l[..|a|] == l[..|a| + |e|][..|a|];
    assert l[|a|..|a| + |e|] == l[..|a| + |e|][|a|..];
    assert l[|a|..] == l[|a|..|a| + |e|] + l[|a| + |e|..];
  }

  /** A spaced step `e` followed by a spaced remainder is spaced as a whole. */
  lemma CooldownCompose(l0: seq<Entry>, e: seq<Entry>, l1: seq<Entry>, l: seq<Entry>,
                        last0: int, last1: int, last: int)
    requires l1 == l0 + e && Spaced(e, last0) && last1 == LastLimited(e, last0)
    requires |l1| <= |l| && l[..|l1|] == l1 && Spaced(l[|l1|..], last1) && last == LastLimited(l[|l1|..], last1)
    ensures |l0| <= |l| && l[..|l0|] == l0 && Spaced(l[|l0|..], last0) && last == LastLimited(l[|l0|..], last0)
  {
    PrefixSplit(l, l0, e);
    SpacedAppend(e, l[|l1|..], last0);
  }

  // ---------------------------------------------------------------------------
  // The shared cooldown holds across a whole frame loop.

  /**
   * Every phone or app entry a frame loop logs comes more than 2 s after the
   * previous one (the first more than 2 s after the loop's initial `lastLog`),
   * whatever the clock does; the loop only appends to the log.
   */
  lemma {:induction false} RunLoopCooldown(cfg: Config, keywords: seq<string>, timed: bool, w: Loop,
                                           steps: seq<Step>)
    ensures var r := RunLoop(cfg, keywords, timed, w, steps);
      |w.session.log| <= |r.session.log| && r.session.log[..|w.session.log|] == w.session.log &&
      Spaced(r.session.log[|w.session.log|..], w.lastLog) &&
      r.lastLog == LastLimited(r.session.log[|w.session.log|..], w.lastLog)
    decreases |steps|
  {
    var r := RunLoop(cfg, keywords, timed, w, steps);
    if !Continues(timed, w) || steps == [] {
      assert r.session.log[|w.session.log|..] == [];
    } else {
      var w' := LoopStep(cfg, keywords, timed, w, steps[0]);
      LoopStepEffects(cfg, keywords, timed, w, steps[0]);
      RunLoopCooldown(cfg, keywords, timed, w', steps[1..]);
      CooldownCompose(w.session.log, StepEntries(cfg, keywords, w, steps[0]), w'.session.log, r.session.log,
                      w.lastLog, w'.lastLog, r.lastLog);
    }
  }

  /** Running a frame loop over `a + b` is running it over `a`, then over `b` from where it stopped. */
  lemma {:induction false} RunLoopSplit(cfg: Config, keywords: seq<string>, timed: bool, w: Loop,
                                        a: seq<Step>, b: seq<Step>)
    ensures RunLoop(cfg, keywords, timed, w, a + b) ==
            RunLoop(cfg, keywords, timed, RunLoop(cfg, keywords, timed, w, a), b)
    decreases |a|
  {
    if a == [] {
      assert a + b == b;
    } else if Continues(timed, w) {
      assert (a + b)[0] == a[0] && (a + b)[1..] == a[1..] + b;
      RunLoopSplit(cfg, keywords, timed, LoopStep(cfg, keywords, timed, w, a[0]), a[1..], b);
    }
  }

  /**
   * The loop condition is final: once monitoring is off or, in a work
   * period, the timer has reached zero, no later step is processed.
   */
  lemma LoopEndIsFinal(cfg: Config, keywords: seq<string>, timed: bool, w: Loop, a: seq<Step>, b: seq<Step>)
    requires !Continues(timed, RunLoop(cfg, keywords, timed, w, a))
    ensures RunLoop(cfg, keywords, timed, w, a + b) == RunLoop(cfg, keywords, timed, w, a)
  {
    RunLoopSplit(cfg, keywords, timed, w, a, b);
  }

  /** A frame loop, stopped or not, logs nothing in the System category. */
  lemma {:induction false} RunLoopNoSystem(cfg: Config, keywords: seq<string>, timed: bool, w: Loop,
                                           steps: seq<Step>)
    ensures SystemMessages(RunLoop(cfg, keywords, timed, w, steps).session.log) == SystemMessages(w.session.log)
    decreases |steps|
  {
    if Continues(timed, w) && steps != [] {
      LoopStepEffects(cfg, keywords, timed, w, steps[0]);
      SystemMessagesAppend(w.session.log, StepEntries(cfg, keywords, w, steps[0]));
      RunLoopNoSystem(cfg, keywords, timed, LoopStep(cfg, keywords, timed, w, steps[0]), steps[1..]);
    }
  }

  /**
   * `_run_monitoring` logs exactly "Camera Active. Monitoring started." and
   * "Monitoring stopped." in the System category when the camera opens,
   * however the loop ends, and nothing when it does not.
   */
  lemma MonitoringSystemLog(cfg: Config, keywords: seq<string>, s: Session, cameraOpened: bool,
                            startNow: int, steps: seq<Step>, endNow: int)
    ensures SystemMessages(Monitoring(cfg, keywords, s, cameraOpened, startNow, steps, endNow).log) ==
            SystemMessages(s.log) + (if cameraOpened then [CameraActive, MonitoringStopped] else [])
  {
    if cameraOpened {
      var w0 := Loop(Log(s, startNow, System, CameraActive), 0, 0, false, startNow);
      RunLoopNoSystem(cfg, keywords, false, w0, steps);
      BracketedBy(s, RunLoop(cfg, keywords, false, w0, steps).session, startNow, endNow);
    }
  }

  /** Logging "Camera Active" before and "Monitoring stopped." after a run that logs no System entry. */
  lemma BracketedBy(s: Session, s2: Session, startNow: int, endNow: int)
    requires SystemMessages(s2.log) == SystemMessages(Log(s, startNow, System, CameraActive).log)
    ensures SystemMessages(Log(s2, endNow, System, MonitoringStopped).log) ==
            SystemMessages(s.log) + [CameraActive, MonitoringStopped]
  {
    LogSystem(s, startNow, CameraActive);
    LogSystem(s2, endNow, MonitoringStopped);
    assert SystemMessages(s.log) + [CameraActive] + [MonitoringStopped] ==
           SystemMessages(s.log) + [CameraActive, MonitoringStopped];
  }

  // ---------------------------------------------------------------------------
  // The work timer.

  /** The text typed in `steps`, none of which unlocks the gate. */
  predicate NoUnlock(steps: seq<Step>) {
    forall i | 0 <= i < |steps| :: steps[i].Typed? ==> !Popup.IsUnlockPhrase(steps[i].text)
  }

  /**
   * While the phone gate is open and nobody types the phrase, a work period's
   * timer does not run at all, whatever the frames show; the gate stays open.
   */
  lemma {:induction false} GateHoldsTimer(cfg: Config, keywords: seq<string>, w: Loop, steps: seq<Step>)
    requires w.session.gateActive && NoUnlock(steps)
    ensures var r := RunLoop(cfg, keywords, true, w, steps);
      r.remaining == w.remaining && r.session.gateActive
    decreases |steps|
  {
    if Continues(true, w) && steps != [] {
      var w' := LoopStep(cfg, keywords, true, w, steps[0]);
      LoopStepEffects(cfg, keywords, true, w, steps[0]);
      GateHoldsTimer(cfg, keywords, w', steps[1..]);
    }
  }

  /** The frame times are never before `t` and never go backwards. */
  predicate ClockForward(steps: seq<Step>, t: int)
    decreases |steps|
  {
    steps == [] ||
    (if steps[0].Capture? then steps[0].frame.now >= t && ClockForward(steps[1..], steps[0].frame.now)
     else ClockForward(steps[1..], t))
  }

  /**
   * With a clock that does not go backwards the timer never runs up. (It can
   * end below zero: `work_remaining` is not clamped, only its display is.)
   */
  lemma {:induction false} TimerNeverRunsUp(cfg: Config, keywords: seq<string>, w: Loop, steps: seq<Step>)
    requires ClockForward(steps, w.lastFrame)
    ensures RunLoop(cfg, keywords, true, w, steps).remaining <= w.remaining
    decreases |steps|
  {
    if Continues(true, w) && steps != [] {
      var w' := LoopStep(cfg, keywords, true, w, steps[0]);
      LoopStepEffects(cfg, keywords, true, w, steps[0]);
      TimerNeverRunsUp(cfg, keywords, w', steps[1..]);
    }
  }

  /**
   * On each frame the timer runs down by exactly the time since the previous
   * frame when the user is present, no phone is seen and the gate is closed,
   * and stands still otherwise; the paused flag always shows which of the two
   * happened, so it changes only on a pause or a resume.
   */
  lemma WorkFrameAccounting(cfg: Config, keywords: seq<string>, w: Loop, f: Frame)
    ensures var r := LoopStep(cfg, keywords, true, w, Capture(f));
      var running := !r.session.presence.isAway && !f.phone && !r.session.gateActive;
      (running ==> r.remaining == w.remaining - (f.now - w.lastFrame) && !r.paused) &&
      (!running ==> r.remaining == w.remaining && r.paused) &&
      (r.paused != w.paused <==> running == w.paused)
  {
    LoopStepEffects(cfg, keywords, true, w, Capture(f));
  }

  // ---------------------------------------------------------------------------
  // Pomodoro sequencing.

  /** The System entries of cycle `cycle`: its WORK entry, then a BREAK entry unless it is the last. */
  function CycleSchedule(plan: Plan, cycle: int): seq<Message> {
    [PomodoroWork(cycle, plan.cycles, plan.workMin)] +
    (if cycle < plan.cycles then [PomodoroBreak(cycle, plan.breakMin)] else [])
  }

  /** The System entries of cycles `cycle`..`n`. */
  function Schedule(plan: Plan, cycle: int): seq<Message>
    decreases plan.cycles + 1 - cycle
  {
    if cycle > plan.cycles then [] else CycleSchedule(plan, cycle) + Schedule(plan, cycle + 1)
  }

  function CountWork(ms: seq<Message>): nat
    decreases |ms|
  {
    if ms == [] then 0 else (if ms[0].PomodoroWork? then 1 else 0) + CountWork(ms[1..])
  }

  function CountBreak(ms: seq<Message>): nat
    decreases |ms|
  {
    if ms == [] then 0 else (if ms[0].PomodoroBreak? then 1 else 0) + CountBreak(ms[1..])
  }

  lemma {:induction false} CountAppend(a: seq<Message>, b: seq<Message>)
    ensures CountWork(a + b) == CountWork(a) + CountWork(b)
    ensures CountBreak(a + b) == CountBreak(a) + CountBreak(b)
    decreases |a|
  {
    if a == [] {
      assert a + b == b;
    } else {
      assert (a + b)[1..] == a[1..] + b;
      CountAppend(a[1..], b);
    }
  }

  /**
   * A run of `n` cycles logs `n` WORK entries and `n - 1` BREAK entries,
   * and the last of them is the WORK entry of cycle `n`: no break follows it.
   */
  lemma {:induction false} ScheduleShape(plan: Plan, cycle: int)
    requires 1 <= cycle <= plan.cycles
    ensures var ms := Schedule(plan, cycle);
      CountWork(ms) == plan.cycles - cycle + 1 &&
      CountBreak(ms) == plan.cycles - cycle &&
      ms[|ms| - 1] == PomodoroWork(plan.cycles, plan.cycles, plan.workMin)
    decreases plan.cycles + 1 - cycle
  {
    var head := CycleSchedule(plan, cycle);
    var tail := Schedule(plan, cycle + 1);
    CountAppend(head, tail);
    assert CountWork(head) == 1 by {
      assert head[1..] == (if cycle < plan.cycles then [PomodoroBreak(cycle, plan.breakMin)] else []);
    }
    assert CountBreak(head) == (if cycle < plan.cycles then 1 else 0) by {
      assert head[1..] == (if cycle < plan.cycles then [PomodoroBreak(cycle, plan.breakMin)] else []);
    }
    if cycle < plan.cycles {
      ScheduleShape(plan, cycle + 1);
    } else {
      assert tail == [];
    }
  }

  /** A frame loop never stopped from outside stays monitoring and logs nothing in the System category. */
  predicate NoStop(steps: seq<Step>) {
    forall i | 0 <= i < |steps| :: !steps[i].StopRequest?
  }

  lemma {:induction false} UnstoppedLoop(cfg: Config, keywords: seq<string>, timed: bool, w: Loop,
                                         steps: seq<Step>)
    requires w.session.monitoring && NoStop(steps)
    ensures var r := RunLoop(cfg, keywords, timed, w, steps);
      r.session.monitoring && SystemMessages(r.session.log) == SystemMessages(w.session.log) &&
      r.session.endTime == w.session.endTime
    decreases |steps|
  {
    RunLoopNoSystem(cfg, keywords, timed, w, steps);
    if Continues(timed, w) && steps != [] {
      var w' := LoopStep(cfg, keywords, timed, w, steps[0]);
      LoopStepEffects(cfg, keywords, timed, w, steps[0]);
      assert !steps[0].StopRequest?;
      assert NoStop(steps[1..]) by {
        forall i | 0 <= i < |steps| - 1 ensures !steps[1..][i].StopRequest? {
          assert steps[1..][i] == steps[i + 1];
        }
      }
      UnstoppedLoop(cfg, keywords, timed, w', steps[1..]);
    }
  }

  /** The cycle input has no stop during its work period or its break. */
  predicate Unstopped(input: CycleInput) {
    NoStop(input.steps) && input.breakStop.None?
  }

  lemma AppendAssoc<T>(a: seq<T>, b: seq<T>, c: seq<T>)
    ensures a + b + c == a + (b + c)
  {
  }

  lemma UnstoppedWorkPeriod(cfg: Config, keywords: seq<string>, s: Session, duration: int, startNow: int,
                            cameraOpened: bool, steps: seq<Step>)
    requires s.monitoring && NoStop(steps)
    ensures var r := WorkPeriod(cfg, keywords, s, duration, startNow, cameraOpened, steps).session;
      r.monitoring && SystemMessages(r.log) == SystemMessages(s.log)
  {
    if cameraOpened {
      UnstoppedLoop(cfg, keywords, true, Loop(s, 0, duration, false, startNow), steps);
    }
  }

  /** A System entry adds its message to the System messages and leaves the flag as it is. */
  lemma LogSystem(s: Session, time: int, m: Message)
    ensures var r := Log(s, time, System, m);
      SystemMessages(r.log) == SystemMessages(s.log) + [m] && r.monitoring == s.monitoring
  {
    SystemMessagesAppend(s.log, [Entry(time, System, m)]);
    SystemMessagesOne(Entry(time, System, m));
  }

  lemma UnstoppedAfterWork(plan: Plan, s: Session, cycle: int, input: CycleInput)
    requires s.monitoring && input.breakStop.None?
    ensures var r := AfterWork(plan, s, cycle, input);
      r.monitoring &&
      SystemMessages(r.log) == SystemMessages(s.log) + CycleSchedule(plan, cycle)[1..]
  {
    if cycle < plan.cycles {
      LogSystem(s, input.breakStart, PomodoroBreak(cycle, plan.breakMin));
    } else {
      assert SystemMessages(s.log) + [] == SystemMessages(s.log);
    }
  }

  lemma UnstoppedCycle(cfg: Config, keywords: seq<string>, plan: Plan, s: Session, cycle: int,
                       input: CycleInput)
    requires s.monitoring && Unstopped(input)
    ensures var r := Cycle(cfg, keywords, plan, s, cycle, input);
      r.monitoring && SystemMessages(r.log) == SystemMessages(s.log) + CycleSchedule(plan, cycle)
  {
    var work := PomodoroWork(cycle, plan.cycles, plan.workMin);
    var s1 := Log(s, input.workStart, System, work);
    LogSystem(s, input.workStart, work);
    UnstoppedWorkPeriod(cfg, keywords, s1, plan.workMin * 60000, input.loopStart, input.cameraOpened, input.steps);
    var s2 := WorkPeriod(cfg, keywords, s1, plan.workMin * 60000, input.loopStart,
                         input.cameraOpened, input.steps).session;
    UnstoppedAfterWork(plan, s2, cycle, input);
    var cs := CycleSchedule(plan, cycle);
    assert cs == [work] + cs[1..];
    AppendAssoc(SystemMessages(s.log), [work], cs[1..]);
  }

  lemma ScheduleCompose(a: seq<Message>, plan: Plan, cycle: int, m: seq<Message>, r: seq<Message>)
    requires cycle <= plan.cycles
    requires m == a + CycleSchedule(plan, cycle) && r == m + Schedule(plan, cycle + 1)
    ensures r == a + Schedule(plan, cycle)
  {
    AppendAssoc(a, CycleSchedule(plan, cycle), Schedule(plan, cycle + 1));
  }

  lemma {:induction false} UnstoppedCycles(cfg: Config, keywords: seq<string>, plan: Plan, s: Session,
                                           cycle: int, inputs: seq<CycleInput>, r: Session)
    requires 1 <= cycle && plan.cycles <= |inputs|
    requires s.monitoring && forall i | 0 <= i < |inputs| :: Unstopped(inputs[i])
    requires r == Cycles(cfg, keywords, plan, s, cycle, inputs)
    ensures r.monitoring && SystemMessages(r.log) == SystemMessages(s.log) + Schedule(plan, cycle)
    decreases plan.cycles + 1 - cycle
  {
    if cycle <= plan.cycles {
      var s3 := Cycle(cfg, keywords, plan, s, cycle, inputs[cycle - 1]);
      UnstoppedCycle(cfg, keywords, plan, s, cycle, inputs[cycle - 1]);
      UnstoppedCycles(cfg, keywords, plan, s3, cycle + 1, inputs, r);
      ScheduleCompose(SystemMessages(s.log), plan, cycle, SystemMessages(s3.log), SystemMessages(r.log));
    } else {
      assert Schedule(plan, cycle) == [];
    }
  }

  /**
   * A Pomodoro run that nobody stops logs, in the System category, exactly
   * WORK 1, BREAK 1, ..., WORK n and then "Pomodoro session completed!", and
   * ends the session at `endNow`. This holds even when the camera cannot be
   * opened: a work period without a camera returns at once.
   */
  lemma FullPomodoroRun(cfg: Config, keywords: seq<string>, plan: Plan, s: Session,
                        inputs: seq<CycleInput>, endNow: int)
    requires plan.cycles <= |inputs|
    requires s.monitoring && forall i | 0 <= i < |inputs| :: Unstopped(inputs[i])
    ensures var r := Pomodoro(cfg, keywords, plan, s, inputs, endNow);
      SystemMessages(r.log) == SystemMessages(s.log) + Schedule(plan, 1) + [PomodoroCompleted] &&
      !r.monitoring && r.endTime == Some(endNow)
  {
    var s1 := Cycles(cfg, keywords, plan, s, 1, inputs);
    UnstoppedCycles(cfg, keywords, plan, s, 1, inputs, s1);
    var c := Entry(endNow, System, PomodoroCompleted);
    SystemMessagesAppend(s1.log, [c]);
    assert SystemMessages([c]) == [PomodoroCompleted];
  }
}
