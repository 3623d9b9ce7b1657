/**
 * The session's event log (`EventLogger` in focus_frame.py): an append-only
 * list of (time, source, message) entries. Times are integer milliseconds;
 * the `%H:%M:%S` formatting and the coloured console echo are outside the model.
 */
module EventLog {
  import opened Presence
  import opened Strings

  /** The categories the engine logs under. */
  datatype Source = System | Camera | Distraction

  /** Every message the engine logs. */
  datatype Message =
    | CameraActive
    | MonitoringStopped
    | UserReturned
    | UserAway
    | PhoneDetected
    | App(title: string)
    | PomodoroWork(cycle: int, cycles: int, minutes: int)
    | PomodoroBreak(cycle: int, minutes: int)
    | PomodoroCompleted

  datatype Entry = Entry(time: int, source: Source, message: Message)

  /** The text of a message as the report shows it. */
  function Text(m: Message): string {
    match m
    case CameraActive => "Camera Active. Monitoring started."
    case MonitoringStopped => "Monitoring stopped."
    case UserReturned => "User returned"
    case UserAway => "User Away from Desk"
    case PhoneDetected => "Cell Phone Detected"
    case App(title) => "App: " + title
    case PomodoroWork(c, n, w) =>
      "Pomodoro Cycle " + IntToString(c) + "/" + IntToString(n) + " - WORK (" + IntToString(w) + " min)"
    case PomodoroBreak(c, b) => "Pomodoro Cycle " + IntToString(c) + " - BREAK (" + IntToString(b) + " min)"
    case PomodoroCompleted => "Pomodoro session completed!"
  }

  /** The WORK message reads as the program words it, numbers in decimal. */
  lemma WorkText()
    ensures Text(PomodoroWork(1, 4, 25)) == "Pomodoro Cycle 1/4 - WORK (25 min)"
  {
    assert IntToString(25) == "25" by { assert NatToString(2) == "2"; }
    assert IntToString(1) == "1" && IntToString(4) == "4";
    assert Text(PomodoroWork(1, 4, 25)) == "Pomodoro Cycle " + "1" + "/" + "4" + " - WORK (" + "25" + " min)";
  }

  /** The BREAK message reads as the program words it, numbers in decimal. */
  lemma BreakText()
    ensures Text(PomodoroBreak(1, 5)) == "Pomodoro Cycle 1 - BREAK (5 min)"
  {
    assert IntToString(1) == "1" && IntToString(5) == "5";
  }

  /** The presence transition an entry records, if any. */
  function ChangeOf(e: Entry): seq<Change> {
    if e.message.UserAway? then [Away] else if e.message.UserReturned? then [Returned] else []
  }

  /** The presence transitions recorded in `log`, in order. */
  function PresenceEvents(log: seq<Entry>): (ev: seq<Change>)
    ensures |ev| <= |log|
    decreases |log|
  {
    if log == [] then [] else PresenceEvents(log[..|log| - 1]) + ChangeOf(log[|log| - 1])
  }

  lemma {:induction false} PresenceEventsAppend(a: seq<Entry>, b: seq<Entry>)
    ensures PresenceEvents(a + b) == PresenceEvents(a) + PresenceEvents(b)
    decreases |b|
  {
    if b == [] {
      assert a + b == a;
    } else {
      var b', ab := b[..|b| - 1], a + b;
      assert ab[..|ab| - 1] == a + b';
      var c := ChangeOf(b[|b| - 1]);
      assert PresenceEvents(ab) == PresenceEvents(a + b') + c;
      PresenceEventsAppend(a, b');
      assert PresenceEvents(b) == PresenceEvents(b') + c;
    }
  }

  lemma PresenceEventsOne(e: Entry)
    ensures PresenceEvents([e]) == ChangeOf(e)
  {
    assert [e][..0] == [];
  }

  function SystemOf(e: Entry): seq<Message> {
    if e.source == System then [e.message] else []
  }

  /** The System-category messages of `log`, in order. */
  function SystemMessages(log: seq<Entry>): (ms: seq<Message>)
    ensures |ms| <= |log|
    decreases |log|
  {
    if log == [] then [] else SystemMessages(log[..|log| - 1]) + SystemOf(log[|log| - 1])
  }

  lemma {:induction false} SystemMessagesAppend(a: seq<Entry>, b: seq<Entry>)
    ensures SystemMessages(a + b) == SystemMessages(a) + SystemMessages(b)
    decreases |b|
  {
    if b == [] {
      assert a + b == a;
    } else {
      var b' := b[..|b| - 1];
      assert (a + b)[..|a + b| - 1] == a + b';
      SystemMessagesAppend(a, b');
    }
  }

  lemma SystemMessagesOne(e: Entry)
    ensures SystemMessages([e]) == SystemOf(e)
  {
    assert [e][..0] == [];
  }

  /**
   * Presence transitions alternate: starting from the away flag `start`, each
   * one flips the flag (an Away only while present, a Returned only while
   * away), and after all of them the flag is `final`.
   */
  predicate Alternates(ev: seq<Change>, start: bool, final: bool)
    decreases |ev|
  {
    if ev == [] then final == start
    else (ev[|ev| - 1] == Away <==> final) && Alternates(ev[..|ev| - 1], start, !final)
  }

  /** Alternation forbids two Aways (or two Returneds) in a row, and fixes the first one. */
  lemma {:induction false} AlternatesNoRepeat(ev: seq<Change>, start: bool, final: bool)
    requires Alternates(ev, start, final)
    ensures forall i | 0 <= i < |ev| - 1 :: ev[i] != ev[i + 1]
    ensures |ev| > 0 ==> ev[0] == (if start then Returned else Away)
    decreases |ev|
  {
    if ev != [] {
      var ev' := ev[..|ev| - 1];
      AlternatesNoRepeat(ev', start, !final);
      if |ev| >= 2 {
        assert ev'[|ev'| - 1] == Away <==> !final;
        assert ev[|ev| - 2] == ev'[|ev'| - 1];
      }
      if |ev| == 1 {
        assert ev' == [];
      } else {
        assert ev[0] == ev'[0];
      }
    }
  }

  /** The object `EventLogger`. */
  class EventLogger {
    var logData: seq<Entry>

    constructor ()
      ensures logData == []
    {
      logData := [];
    }

    /** `log`: appends exactly one entry at the end. */
    method Log(time: int, source: Source, message: Message)
      modifies this
      ensures logData == old(logData) + [Entry(time, source, message)]
    {
      logData := logData + [Entry(time, source, message)];
    }

    method Clear()
      modifies this
      ensures logData == []
    {
      logData := [];
    }
  }
}
