/**
 * The presence score with hysteresis (`PresenceDetector` in focus_frame.py).
 * A bounded score rises on a person or motion signal and decays at a limited
 * rate without one; a latched `isAway` flag reports each transition once.
 * Times are integer milliseconds.
 */
module Presence {
  import opened Wrappers

  /** The presence constants of `Config`; three of them can be overridden on the command line. */
  datatype Config = Config(
    scoreMax: nat,
    threshold: int,
    increment: nat,
    decrement: nat,
    decrementInterval: int,
    absenceTime: int)

  /** PRESENCE_SCORE_MAX 5, PRESENCE_THRESHOLD 2, increments of 1, 0.25 s and 5.0 s. */
  const DEFAULT: Config := Config(5, 2, 1, 1, 250, 5000)

  /** The fields of a `PresenceDetector` that presence decisions read (`prev_gray` belongs to motion detection). */
  datatype PresenceState = PresenceState(
    score: int,
    lastDecrement: int,
    lastSeen: int,
    isAway: bool)

  /** What `check_presence_change` reports besides `None`. */
  datatype Change = Returned | Away

  predicate InRange(cfg: Config, p: PresenceState) {
    0 <= p.score <= cfg.scoreMax
  }

  /** The state `__init__` and `reset` install at time `now`. */
  function Initial(cfg: Config, now: int): (p: PresenceState)
    ensures InRange(cfg, p) && p.score == cfg.scoreMax
    ensures !p.isAway
    ensures p.lastSeen == now && p.lastDecrement == now
  {
    PresenceState(cfg.scoreMax, now, now, false)
  }

  /** The new state after `update_score(person, motion, now)`; the call returns `p.score`. */
  function Update(cfg: Config, p: PresenceState, person: bool, motion: bool, now: int): (r: PresenceState)
    // a signal raises the score, capped at the maximum, and records the sighting
    ensures person || motion ==>
      r == p.(score := if p.score + cfg.increment < cfg.scoreMax then p.score + cfg.increment else cfg.scoreMax,
              lastSeen := now)
    // without a signal the score decays only once the interval has elapsed, never below zero
    ensures !(person || motion) && now - p.lastDecrement >= cfg.decrementInterval ==>
      r == p.(score := if p.score - cfg.decrement > 0 then p.score - cfg.decrement else 0,
              lastDecrement := now)
    ensures !(person || motion) && now - p.lastDecrement < cfg.decrementInterval ==> r == p
    ensures InRange(cfg, p) ==> InRange(cfg, r)
    ensures InRange(cfg, p) ==> p.score - cfg.decrement <= r.score <= p.score + cfg.increment
    ensures r.isAway == p.isAway
  {
    if person || motion then
      var raised := p.score + cfg.increment;
      p.(score := if raised < cfg.scoreMax then raised else cfg.scoreMax, lastSeen := now)
    else if now - p.lastDecrement >= cfg.decrementInterval then
      var lowered := p.score - cfg.decrement;
      p.(score := if lowered > 0 then lowered else 0, lastDecrement := now)
    else
      p
  }

  /** The result of `check_presence_change`: the new state and the reported change. */
  datatype Checked = Checked(state: PresenceState, change: Option<Change>)

  predicate ReturnCondition(cfg: Config, p: PresenceState, prevScore: int) {
    p.isAway && prevScore < cfg.threshold && p.score >= cfg.threshold
  }

  predicate AwayCondition(cfg: Config, p: PresenceState, now: int) {
    !p.isAway && p.score <= 0 && now - p.lastSeen >= cfg.absenceTime
  }

  /** `check_presence_change(prevScore, now)`: edge-triggered, it flips `isAway` exactly when it reports. */
  function Check(cfg: Config, p: PresenceState, prevScore: int, now: int): (r: Checked)
    ensures r.change == Some(Returned) <==> ReturnCondition(cfg, p, prevScore)
    ensures r.change == Some(Away) <==> AwayCondition(cfg, p, now)
    ensures r.change == Some(Returned) ==> !r.state.isAway
    ensures r.change == Some(Away) ==> r.state.isAway
    ensures r.state.isAway != p.isAway <==> r.change.Some?
    ensures r.state == p.(isAway := r.state.isAway)
  {
    if ReturnCondition(cfg, p, prevScore) then Checked(p.(isAway := false), Some(Returned))
    else if AwayCondition(cfg, p, now) then Checked(p.(isAway := true), Some(Away))
    else Checked(p, None)
  }

  /** One frame's presence work: `update_score` followed by `check_presence_change`. */
  function Observe(cfg: Config, p: PresenceState, person: bool, motion: bool, now: int): Checked {
    Check(cfg, Update(cfg, p, person, motion, now), p.score, now)
  }

  /**
   * One frame keeps the score in range and flips `isAway` exactly when it
   * reports: an absence only while present, a return only while away.
   */
  lemma ObserveFlips(cfg: Config, p: PresenceState, person: bool, motion: bool, now: int)
    requires InRange(cfg, p)
    ensures var o := Observe(cfg, p, person, motion, now);
      InRange(cfg, o.state) &&
      (o.change == Some(Away) ==> !p.isAway && o.state.isAway) &&
      (o.change == Some(Returned) ==> p.isAway && !o.state.isAway) &&
      (o.change.None? ==> o.state.isAway == p.isAway)
  {
  }

  /** A return is only ever reported on a frame that had a person or motion signal. */
  lemma ReturnNeedsSignal(cfg: Config, p: PresenceState, person: bool, motion: bool, now: int)
    requires InRange(cfg, p)
    requires Observe(cfg, p, person, motion, now).change == Some(Returned)
    ensures person || motion
  {
  }

  /**
   * An absence is only ever reported on a silent frame, at least `absenceTime`
   * after the last signal and with the score at zero.
   */
  lemma AwayNeedsSilence(cfg: Config, p: PresenceState, person: bool, motion: bool, now: int)
    requires cfg.absenceTime > 0
    requires Observe(cfg, p, person, motion, now).change == Some(Away)
    ensures !person && !motion
    ensures now - p.lastSeen >= cfg.absenceTime
    ensures InRange(cfg, p) ==> p.score <= cfg.decrement
  {
  }

  /**
   * The dwell guard of the default settings: after `reset` at `t0`, no frame
   * earlier than 5 seconds later can report the user away, whatever the score does.
   */
  lemma NoAwayBeforeDwell(p: PresenceState, person: bool, motion: bool, now: int, t0: int)
    requires p.lastSeen >= t0 && now < t0 + 5000
    ensures Observe(DEFAULT, p, person, motion, now).change != Some(Away)
  {
  }

  /** The object `PresenceDetector`, with its fields updated in place. */
  class PresenceDetector {
    const config: Config
    var score: int
    var lastDecrement: int
    var lastSeen: int
    var isAway: bool

    function State(): PresenceState
      reads this
    {
      PresenceState(score, lastDecrement, lastSeen, isAway)
    }

    /** `__init__`, with the clock reading `now`. */
    constructor (config: Config, now: int)
      ensures this.config == config
      ensures State() == Initial(config, now)
    {
      this.config := config;
      score := config.scoreMax;
      lastDecrement := now;
      lastSeen := now;
      isAway := false;
    }

    method Reset(now: int)
      modifies this
      ensures State() == Initial(config, now)
    {
      score := config.scoreMax;
      lastDecrement := now;
      lastSeen := now;
      isAway := false;
    }

    /** `update_score`: returns the score as it was before the update. */
    method UpdateScore(person: bool, motion: bool, now: int) returns (prevScore: int)
      modifies this
      ensures prevScore == old(score)
      ensures State() == Update(config, old(State()), person, motion, now)
    {
      prevScore := score;
      if person || motion {
        score := if score + config.increment < config.scoreMax then score + config.increment else config.scoreMax;
        lastSeen := now;
      } else if now - lastDecrement >= config.decrementInterval {
        score := if score - config.decrement > 0 then score - config.decrement else 0;
        lastDecrement := now;
      }
    }

    /** `check_presence_change`. */
    method CheckPresenceChange(prevScore: int, now: int) returns (change: Option<Change>)
      modifies this
      ensures Checked(State(), change) == Check(config, old(State()), prevScore, now)
    {
      if isAway && prevScore < config.threshold && score >= config.threshold {
        isAway := false;
        return Some(Returned);
      }
      if !isAway && score <= 0 && now - lastSeen >= config.absenceTime {
        isAway := true;
        return Some(Away);
      }
      return None;
    }
  }
}
