/** The run timer shown beside the Run button: a two-state machine (idle, running)
    driven by the host's execution events, an `MM:SS` label, and a rolling history
    of the last five outcomes, newest first. DOM nodes become fields of immutable
    records; `Date.now()` and `toLocaleTimeString()` become parameters. */
module RunTimer {
  import opened Optional
  import opened Strings

  const TimerIcon := "\U{23F1}"
  const SuccessMark := "\U{2705}"
  const FailureMark := "\U{274C}"
  const InterruptedMark := "\U{1F6AB}"
  const EmDash := "\U{2014}"

  /** The text of a fresh or reset display. */
  const IdleLabel := TimerIcon + " 00:00"

  /** How many outcomes the history panel keeps. */
  const HistoryCapacity := 5

  /** JavaScript's `a % b`: the remainder of division truncated toward zero. It
      differs from `a` by a multiple of `b`, is smaller than `b` in magnitude and
      carries the sign of `a` (Dafny's `%` never yields a negative value). */
  function JsRemainder(a: int, b: int): (r: int)
    requires b > 0
    ensures exists q: int :: a == q * b + r
    ensures a >= 0 ==> 0 <= r < b
    ensures a < 0 ==> -b < r <= 0
  {
    if a >= 0 then
      assert a == (a / b) * b + a % b;
      a % b
    else
      assert a == (-((-a) / b)) * b + -((-a) % b);
      -((-a) % b)
  }

  /** `x.toString().padStart(2, "0")`. */
  function Pad2(i: int): string {
    PadStart(IntToString(i), 2, '0')
  }

  /** `formatTime`: whole minutes (`Math.floor(s/60)`, which Dafny's `/` matches for
      a positive divisor) and the JavaScript remainder `s % 60`, each padded to at
      least two characters and joined by ':'. */
  function FormatTime(s: int): string {
    Pad2(s / 60) + ":" + Pad2(JsRemainder(s, 60))
  }

  lemma ShortNat(n: nat)
    requires n < 100
    ensures |NatToString(n)| <= 2
  {
  }

  /** Reads an `MM:SS` label back into seconds: at least two minute digits, exactly
      two second digits below 60. */
  function ParseClock(t: string): Option<nat> {
    match IndexOf(t, ':')
    case None => None
    case Some(i) =>
      var mm := t[..i];
      var ss := t[i + 1..];
      if |mm| >= 2 && AllDigits(mm) && |ss| == 2 && AllDigits(ss) && ParseDigits(ss) < 60
      then Some(ParseDigits(mm) * 60 + ParseDigits(ss))
      else None
  }

  /** A padded natural number is all digits, at least two of them, with its value. */
  lemma Pad2Reads(n: nat)
    ensures AllDigits(Pad2(n)) && |Pad2(n)| >= 2
    ensures ParseDigits(Pad2(n)) == n
    ensures n < 100 ==> |Pad2(n)| == 2
  {
    var d := NatToString(n);
    ParseNatToString(n);
    if |d| < 2 {
      assert Pad2(n) == "0" + d;
      LeadingZeroIgnored(d);
    } else {
      assert Pad2(n) == d;
    }
    if n < 100 {
      ShortNat(n);
    }
  }

  /** Digits contain no colon, so the first colon of `mm:ss` is the one after `mm`. */
  lemma ColonAfterDigits(mm: string, ss: string)
    requires AllDigits(mm)
    ensures IndexOf(mm + ":" + ss, ':') == Some(|mm|)
    ensures (mm + ":" + ss)[..|mm|] == mm && (mm + ":" + ss)[|mm| + 1..] == ss
  {
    assert ':' !in mm by {
      forall i | 0 <= i < |mm| ensures mm[i] != ':' {
        assert IsDigit(mm[i]);
      }
    }
    assert mm + ":" + ss == mm + [':'] + ss;
    IndexOfAfter(mm, ':', ss);
  }

  /** A well-formed `MM:SS` label reads back to minutes times sixty plus seconds. */
  lemma ParseClockOf(mm: string, ss: string, m: nat, sec: nat, total: nat)
    requires AllDigits(mm) && |mm| >= 2 && ParseDigits(mm) == m
    requires AllDigits(ss) && |ss| == 2 && ParseDigits(ss) == sec && sec < 60
    requires total == m * 60 + sec
    ensures ParseClock(mm + ":" + ss) == Some(total)
  {
    ColonAfterDigits(mm, ss);
  }

  /** Padded minutes and seconds read back to their total. */
  lemma ClockOf(m: nat, sec: nat, total: nat)
    requires sec < 60 && total == m * 60 + sec
    ensures ParseClock(Pad2(m) + ":" + Pad2(sec)) == Some(total)
  {
    Pad2Reads(m);
    Pad2Reads(sec);
    ParseClockOf(Pad2(m), Pad2(sec), m, sec, total);
  }

  lemma FormatTimeParts(s: nat, m: nat, sec: nat)
    requires m == s / 60 && sec == s % 60
    ensures FormatTime(s) == Pad2(m) + ":" + Pad2(sec)
  {
    assert JsRemainder(s, 60) == sec;
  }

  lemma MinutesAndSeconds(s: nat, m: nat, sec: nat)
    requires m == s / 60 && sec == s % 60
    ensures m * 60 + sec == s && sec < 60
  {
  }

  /** `formatTime` loses nothing for a non-negative count: the label reads back to
      the same number of seconds, so minutes of 100 or more are not truncated. */
  lemma FormatTimeRoundTrip(s: nat)
    ensures ParseClock(FormatTime(s)) == Some(s)
  {
    var m, sec := s / 60, s % 60;
    MinutesAndSeconds(s, m, sec);
    FormatTimeParts(s, m, sec);
    ClockOf(m, sec, s);
  }

  /** Below 100 minutes the label is exactly `MM:SS`; from 100 minutes on it grows
      instead of dropping digits. */
  lemma FormatTimeLength(s: nat)
    ensures s < 6000 ==> |FormatTime(s)| == 5
    ensures |FormatTime(s)| == |Pad2(s / 60)| + 3
  {
    assert JsRemainder(s, 60) == s % 60;
    Pad2Reads(s / 60);
    Pad2Reads(s % 60);
  }

  /** Different non-negative durations never share a label. */
  lemma FormatTimeInjective(a: nat, b: nat)
    requires FormatTime(a) == FormatTime(b)
    ensures a == b
  {
    FormatTimeRoundTrip(a);
    FormatTimeRoundTrip(b);
  }

  /** Whole seconds elapsed: `Math.floor((now - start) / 1000)`. */
  function ElapsedSeconds(start: int, now: int): (r: int)
    ensures r * 1000 <= now - start < r * 1000 + 1000
  {
    (now - start) / 1000
  }

  function OutcomeMark(success: bool): string {
    if success then SuccessMark else FailureMark
  }

  /** CSS classes of the timer display this feature sets. */
  datatype DisplayClass = Running | Done | Error

  /** One history line: the locale clock time of the completion, its outcome, and
      its duration in seconds. */
  datatype HistoryEntry = HistoryEntry(clock: string, success: bool, seconds: int)

  /** The text of a history line. An interruption is recorded as a failure, so it
      shows the failure mark, not the interruption mark. */
  function EntryText(e: HistoryEntry): string {
    e.clock + " " + EmDash + " " + OutcomeMark(e.success) + " " + FormatTime(e.seconds)
  }

  /** The class names of a history line. */
  function EntryClass(e: HistoryEntry): string {
    if e.success then "history-entry success" else "history-entry fail"
  }

  /** `updateHistory`: `unshift` the new entry, then `pop` once if over capacity. */
  function Record(h: seq<HistoryEntry>, e: HistoryEntry): (r: seq<HistoryEntry>)
    ensures |r| >= 1 && r[0] == e
    ensures |h| < HistoryCapacity ==> r == [e] + h
    ensures |h| >= HistoryCapacity ==> |r| == |h| && r[1..] == h[..|h| - 1]
  {
    var u := [e] + h;
    if |u| > HistoryCapacity then u[..|u| - 1] else u
  }

  /** Records entries in order, as consecutive completions do. */
  function RecordAll(h: seq<HistoryEntry>, es: seq<HistoryEntry>): seq<HistoryEntry>
    decreases |es|
  {
    if es == [] then h else RecordAll(Record(h, es[0]), es[1..])
  }

  function Reverse<T>(s: seq<T>): (r: seq<T>)
    ensures |r| == |s|
    ensures forall i :: 0 <= i < |s| ==> r[i] == s[|s| - 1 - i]
  {
    if s == [] then [] else Reverse(s[1..]) + [s[0]]
  }

  function Min(a: int, b: int): int {
    if a <= b then a else b
  }

  /** Recording is prepending and then keeping at most the capacity. */
  lemma RecordIsTake(h: seq<HistoryEntry>, e: HistoryEntry)
    requires |h| <= HistoryCapacity
    ensures Record(h, e) == ([e] + h)[..Min(|h| + 1, HistoryCapacity)]
  {
  }

  lemma TakeOfAppendTake<T>(a: seq<T>, b: seq<T>, k: nat, j: nat)
    requires k <= |b| && j <= |a| + k
    ensures (a + b[..k])[..j] == (a + b)[..j]
  {
    assert forall i :: 0 <= i < j ==> (a + b[..k])[i] == (a + b)[i];
  }

  /** The history after any number of completions holds the newest ones first, cut
      to the capacity, with the older history behind them. */
  lemma {:induction false} RecordAllKeepsNewest(h: seq<HistoryEntry>, es: seq<HistoryEntry>)
    requires |h| <= HistoryCapacity
    ensures RecordAll(h, es) == (Reverse(es) + h)[..Min(|es| + |h|, HistoryCapacity)]
    decreases |es|
  {
    if es != [] {
      var k := Min(|h| + 1, HistoryCapacity);
      var h' := Record(h, es[0]);
      RecordIsTake(h, es[0]);
      RecordAllKeepsNewest(h', es[1..]);
      var a := Reverse(es[1..]);
      assert Reverse(es) == a + [es[0]];
      assert Reverse(es) + h == a + ([es[0]] + h);
      TakeOfAppendTake(a, [es[0]] + h, k, Min(|es| + |h|, HistoryCapacity));
    }
  }

  /** Six consecutive completions on an empty history keep the five newest,
      newest first; the oldest is dropped. */
  lemma SixCompletions(e1: HistoryEntry, e2: HistoryEntry, e3: HistoryEntry,
                       e4: HistoryEntry, e5: HistoryEntry, e6: HistoryEntry)
    ensures RecordAll([], [e1, e2, e3, e4, e5, e6]) == [e6, e5, e4, e3, e2]
  {
    RecordAllKeepsNewest([], [e1, e2, e3, e4, e5, e6]);
  }

  /** The closure state of one attached timer: the display's text and classes, the
      start time, whether the one-second interval is set, the running flag, the
      history entries in panel order, and whether the panel is shown. */
  datatype Session = Session(
    text: string,
    classes: set<DisplayClass>,
    startTime: Option<int>,
    ticking: bool,
    isRunning: bool,
    history: seq<HistoryEntry>,
    historyVisible: bool)

  /** The state right after `createTimerDisplay` and `attachEventListeners`. */
  const Fresh := Session(IdleLabel, {}, None, false, false, [], false)

  /** The interval runs exactly while a run is tracked, a tracked run has a start
      time and only the `running` class, and the history is within capacity. */
  predicate Valid(s: Session) {
    && |s.history| <= HistoryCapacity
    && s.ticking == s.isRunning
    && (s.isRunning ==> s.startTime.Some? && s.classes == {Running})
  }

  /** `Date.now() - startTime` with a null start time reads as `Date.now() - 0`. */
  function StartOf(s: Session): int {
    s.startTime.GetOr(0)
  }

  /** `execution_start`: ignored while running; otherwise `resetTimerDisplay`, then
      the `running` class, the start time, the running flag and a new interval. */
  function Start(s: Session, now: int): (r: Session)
    ensures s.isRunning ==> r == s
    ensures !s.isRunning ==>
      && r.isRunning && r.ticking
      && r.startTime == Some(now)
      && r.text == IdleLabel
      && r.classes == {Running}
      && r.history == s.history && r.historyVisible == s.historyVisible
  {
    if s.isRunning then s
    else
      var reset := s.(text := IdleLabel, classes := {}, startTime := None, ticking := false, isRunning := false);
      reset.(classes := reset.classes + {Running}, startTime := Some(now), isRunning := true, ticking := true)
  }

  /** The interval callback: while the interval is set, shows the elapsed time. */
  function Tick(s: Session, now: int): (r: Session)
    ensures !s.ticking ==> r == s
    ensures s.ticking ==> r == s.(text := TimerIcon + " " + FormatTime(ElapsedSeconds(StartOf(s), now)))
  {
    if s.ticking then s.(text := TimerIcon + " " + FormatTime(ElapsedSeconds(StartOf(s), now))) else s
  }

  /** `execution_stop(success)`: ignored while idle; otherwise clears the interval,
      shows the outcome mark and duration, swaps `running` for `done` or `error`,
      records the outcome and leaves the running state. */
  function Stop(s: Session, success: bool, now: int, clock: string): (r: Session)
    ensures !s.isRunning ==> r == s
    ensures s.isRunning ==>
      var total := ElapsedSeconds(StartOf(s), now);
      && !r.isRunning && !r.ticking
      && r.text == OutcomeMark(success) + " " + FormatTime(total)
      && Running !in r.classes
      && (if success then Done in r.classes else Error in r.classes)
      && r.classes == s.classes - {Running} + {if success then Done else Error}
      && r.history == Record(s.history, HistoryEntry(clock, success, total))
      && r.startTime == s.startTime && r.historyVisible == s.historyVisible
  {
    if !s.isRunning then s
    else
      var total := ElapsedSeconds(StartOf(s), now);
      s.(ticking := false,
         text := OutcomeMark(success) + " " + FormatTime(total),
         classes := s.classes - {Running} + {if success then Done else Error},
         history := Record(s.history, HistoryEntry(clock, success, total)),
         isRunning := false)
  }

  /** `execution_interrupted`: like a failed stop, but the display shows the
      interruption mark; the history records a failure. */
  function Interrupt(s: Session, now: int, clock: string): (r: Session)
    ensures !s.isRunning ==> r == s
    ensures s.isRunning ==>
      r == Stop(s, false, now, clock).(text := InterruptedMark + " " + FormatTime(ElapsedSeconds(StartOf(s), now)))
  {
    if !s.isRunning then s
    else
      var total := ElapsedSeconds(StartOf(s), now);
      s.(ticking := false,
         text := InterruptedMark + " " + FormatTime(total),
         classes := s.classes - {Running} + {Error},
         history := Record(s.history, HistoryEntry(clock, false, total)),
         isRunning := false)
  }

  /** `display_click`: shows or hides the history panel. */
  function ToggleHistory(s: Session): (r: Session)
    ensures r.historyVisible != s.historyVisible
    ensures r.(historyVisible := s.historyVisible) == s
  {
    s.(historyVisible := !s.historyVisible)
  }

  /** Two clicks on the display leave it as it was. */
  lemma ToggleTwice(s: Session)
    ensures ToggleHistory(ToggleHistory(s)) == s
  {
  }

  /** A second stop, whatever its outcome, changes nothing: once the first has
      ended the run, the guard turns every further stop away. */
  lemma StopOnce(s: Session, a: bool, t1: int, c1: string, b: bool, t2: int, c2: string)
    ensures Stop(Stop(s, a, t1, c1), b, t2, c2) == Stop(s, a, t1, c1)
  {
  }

  /** A start followed by a stop shows the outcome and the whole seconds between
      the two timestamps, and records exactly that as the newest history entry. */
  lemma StartThenStop(s: Session, t0: int, success: bool, t1: int, clock: string)
    requires Valid(s) && !s.isRunning
    ensures var r := Stop(Start(s, t0), success, t1, clock);
      && !r.isRunning && !r.ticking
      && r.text == OutcomeMark(success) + " " + FormatTime(ElapsedSeconds(t0, t1))
      && r.classes == {if success then Done else Error}
      && r.history[0] == HistoryEntry(clock, success, ElapsedSeconds(t0, t1))
      && r.history[1..] == s.history[..Min(|s.history|, HistoryCapacity - 1)]
  {
    var s1 := Start(s, t0);
    assert s1.isRunning && StartOf(s1) == t0 && s1.classes == {Running} && s1.history == s.history;
    var e := HistoryEntry(clock, success, ElapsedSeconds(t0, t1));
    var r := Stop(s1, success, t1, clock);
    assert r.history == Record(s.history, e);
    assert {Running} - {Running} + {if success then Done else Error} == {if success then Done else Error};
    if |s.history| < HistoryCapacity {
      assert r.history == [e] + s.history;
      assert r.history[1..] == s.history;
    }
  }

  /** A run of 65 seconds that succeeds ends on `✅ 01:05`, and its history line
      reports success and `01:05`. */
  lemma SixtyFiveSeconds(t0: int, clock: string)
    ensures var r := Stop(Start(Fresh, t0), true, t0 + 65000, clock);
      && r.text == SuccessMark + " " + "01:05"
      && r.history == [HistoryEntry(clock, true, 65)]
      && EntryText(r.history[0]) == clock + " " + EmDash + " " + SuccessMark + " " + "01:05"
  {
    var s1 := Start(Fresh, t0);
    assert s1.isRunning && StartOf(s1) == t0 && s1.history == [];
    ElapsedSixtyFive(t0);
    FormatSixtyFive();
    var e := HistoryEntry(clock, true, 65);
    var r := Stop(s1, true, t0 + 65000, clock);
    assert r.text == SuccessMark + " " + FormatTime(65);
    assert r.history == [e];
    assert EntryText(e) == clock + " " + EmDash + " " + SuccessMark + " " + FormatTime(65);
  }

  lemma ElapsedSixtyFive(t0: int)
    ensures ElapsedSeconds(t0, t0 + 65000) == 65
  {
  }

  lemma FormatSixtyFive()
    ensures FormatTime(65) == "01:05"
  {
    PadDigit(1);
    PadDigit(5);
    assert JsRemainder(65, 60) == 5;
  }

  lemma PadDigit(d: nat)
    requires d < 10
    ensures Pad2(d) == ['0', DigitChar(d)]
  {
    assert IntToString(d) == [DigitChar(d)];
  }

  /** An interrupted run shows the interruption mark on the display, but its
      history line is a failure: the `fail` class and the failure mark. */
  lemma InterruptRecordsFailure(s: Session, now: int, clock: string)
    requires Valid(s) && s.isRunning
    ensures var r := Interrupt(s, now, clock);
      var total := ElapsedSeconds(StartOf(s), now);
      && r.text == InterruptedMark + " " + FormatTime(total)
      && r.classes == {Error}
      && r.history[0] == HistoryEntry(clock, false, total)
      && EntryClass(r.history[0]) == "history-entry fail"
      && EntryText(r.history[0]) == clock + " " + EmDash + " " + FailureMark + " " + FormatTime(total)
  {
    var r := Interrupt(s, now, clock);
    assert {Running} - {Running} + {Error} == {Error};
    assert r.history[0] == HistoryEntry(clock, false, ElapsedSeconds(StartOf(s), now));
  }

  /** Events the host's API delivers, each with the `Date.now()` and locale clock
      time at which its listener runs. */
  datatype ApiEvent =
    | ExecutionStart(now: int)
    | ExecutionSuccess(now: int, clock: string)
    | ExecutionComplete(now: int, clock: string)
    | ExecutionError(now: int, clock: string)
    | ExecutionInterrupted(now: int, clock: string)

  /** One listener call per event: success and complete stop with success, error
      stops with failure. */
  function Step(s: Session, ev: ApiEvent): Session {
    match ev
    case ExecutionStart(now) => Start(s, now)
    case ExecutionSuccess(now, clock) => Stop(s, true, now, clock)
    case ExecutionComplete(now, clock) => Stop(s, true, now, clock)
    case ExecutionError(now, clock) => Stop(s, false, now, clock)
    case ExecutionInterrupted(now, clock) => Interrupt(s, now, clock)
  }

  /** Every event, interval tick and click keeps the session valid. */
  lemma StepKeepsValid(s: Session, ev: ApiEvent, now: int)
    requires Valid(s)
    ensures Valid(Step(s, ev))
    ensures Valid(Tick(s, now))
    ensures Valid(ToggleHistory(s))
  {
  }

  function Replay(s: Session, evs: seq<ApiEvent>): Session
    decreases |evs|
  {
    if evs == [] then s else Replay(Step(s, evs[0]), evs[1..])
  }

  /** Any sequence of events keeps the session valid: in particular the history
      never exceeds five entries and no interval outlives its run. */
  lemma {:induction false} ReplayKeepsValid(s: Session, evs: seq<ApiEvent>)
    requires Valid(s)
    ensures Valid(Replay(s, evs))
    decreases |evs|
  {
    if evs != [] {
      StepKeepsValid(s, evs[0], 0);
      ReplayKeepsValid(Step(s, evs[0]), evs[1..]);
    }
  }

  /** The whole feature: the `isInitialized` flag, the `#run-timer-style` element in
      the document and whether this feature holds it, the mounted display with its
      listeners, how many sets of anonymous stop wrappers are registered with the
      host, and the start times of the intervals still set by unmounted displays.
      `detachEventListeners` removes the start, interrupt and click listeners but
      not the anonymous wrappers for success, complete and error, so those
      accumulate, one set per mount. */
  datatype Timer = Timer(
    initialized: bool,
    styleInDocument: bool,
    ownsStyle: bool,
    session: Option<Session>,
    stopWrappers: nat,
    leakedStarts: seq<int>)

  const Unloaded := Timer(false, false, false, None, 0, [])

  predicate TimerValid(t: Timer) {
    && (t.ownsStyle ==> t.styleInDocument && t.initialized)
    && (t.session.Some? ==> t.initialized && t.stopWrappers >= 1 && Valid(t.session.value))
  }

  /** `cleanup` as written: unconditional; unmounts the display, removes the style
      element if this feature created it, and forgets every reference. The running
      interval lives in the listeners' closure, which nothing clears, so a display
      unmounted mid-run leaves its interval set, still counting from its start. */
  function CleanupAsWritten(t: Timer): (r: Timer)
    ensures !r.initialized && r.session.None? && !r.ownsStyle
    ensures r.styleInDocument == (t.styleInDocument && !t.ownsStyle)
    ensures r.stopWrappers == t.stopWrappers
    ensures t.session.Some? && t.session.value.ticking ==>
      r.leakedStarts == t.leakedStarts + [StartOf(t.session.value)]
    ensures t.session.None? || !t.session.value.ticking ==> r.leakedStarts == t.leakedStarts
  {
    var leak := if t.session.Some? && t.session.value.ticking then [StartOf(t.session.value)] else [];
    Timer(false, t.styleInDocument && !t.ownsStyle, false, None, t.stopWrappers, t.leakedStarts + leak)
  }

  /** `cleanup` as intended (see the findings): as written, but the interval is
      cleared with the listeners, so no interval outlives its display. */
  function Cleanup(t: Timer): (r: Timer)
    ensures !r.initialized && r.session.None? && !r.ownsStyle
    ensures r.styleInDocument == (t.styleInDocument && !t.ownsStyle)
    ensures r.stopWrappers == t.stopWrappers && r.leakedStarts == t.leakedStarts
  {
    Timer(false, t.styleInDocument && !t.ownsStyle, false, None, t.stopWrappers, t.leakedStarts)
  }

  /** The two cleanups differ exactly when a run is being timed. */
  lemma CleanupsAgreeWhenIdle(t: Timer)
    ensures CleanupAsWritten(t) == Cleanup(t) <==> t.session.None? || !t.session.value.ticking
  {
    if t.session.Some? && t.session.value.ticking {
      assert |CleanupAsWritten(t).leakedStarts| == |t.leakedStarts| + 1;
    }
  }

  /** A leaked interval firing: its callback writes `⏱` and the time since its own
      start into whichever display is mounted now; with none mounted it throws and
      nothing changes. */
  function LeakedTick(t: Timer, k: nat, now: int): (r: Timer)
    requires k < |t.leakedStarts|
    ensures t.session.None? ==> r == t
    ensures t.session.Some? ==>
      r.session == Some(t.session.value.(text := TimerIcon + " " + FormatTime(ElapsedSeconds(t.leakedStarts[k], now))))
    ensures r.(session := t.session) == t
  {
    match t.session
    case None => t
    case Some(s) => t.(session := Some(s.(text := TimerIcon + " " + FormatTime(ElapsedSeconds(t.leakedStarts[k], now)))))
  }

  /** `setup`, once the run button exists (`waitForRunButton` has resolved):
      ignored when initialized; otherwise marks the feature initialized, injects
      the style unless one is already in the document, and either mounts a fresh
      display or, when no action bar encloses the run button, cleans up. */
  function Setup(t: Timer, actionBarFound: bool): (r: Timer)
    ensures t.initialized ==> r == t
    ensures r.leakedStarts == t.leakedStarts
    ensures !t.initialized && actionBarFound ==>
      && r.initialized && r.styleInDocument
      && r.session == Some(Fresh) && r.stopWrappers == t.stopWrappers + 1
      && r.ownsStyle == (t.ownsStyle || !t.styleInDocument)
    ensures !t.initialized && !actionBarFound ==>
      && !r.initialized && r.session.None? && !r.ownsStyle
      && r.stopWrappers == t.stopWrappers
      && (!t.ownsStyle ==> r.styleInDocument == t.styleInDocument)
  {
    if t.initialized then t
    else
      var styled := if t.styleInDocument then t.(initialized := true)
                    else t.(initialized := true, styleInDocument := true, ownsStyle := true);
      if !actionBarFound then Cleanup(styled)
      else styled.(session := Some(Fresh), stopWrappers := t.stopWrappers + 1)
  }

  /** Applies one stop `n` times, as `n` registered wrappers do. */
  function StopTimes(s: Session, success: bool, now: int, clock: string, n: nat): Session
    decreases n
  {
    if n == 0 then s else StopTimes(Stop(s, success, now, clock), success, now, clock, n - 1)
  }

  /** However many stale wrappers deliver a stop, the effect is that of one. */
  lemma {:induction false} StopTimesOnce(s: Session, success: bool, now: int, clock: string, n: nat)
    requires n >= 1
    ensures StopTimes(s, success, now, clock, n) == Stop(s, success, now, clock)
    decreases n
  {
    if n > 1 {
      var s1 := Stop(s, success, now, clock);
      StopTimesOnce(s1, success, now, clock, n - 1);
      StopOnce(s, success, now, clock, success, now, clock);
    }
  }

  /** Delivery of a host event to the feature: with nothing mounted the stale
      wrappers find no listener and nothing changes; otherwise start and interrupt
      reach their one listener and each stop event reaches every wrapper set. */
  function Dispatch(t: Timer, ev: ApiEvent): Timer {
    match t.session
    case None => t
    case Some(s) =>
      var s' := match ev
        case ExecutionStart(now) => Start(s, now)
        case ExecutionSuccess(now, clock) => StopTimes(s, true, now, clock, t.stopWrappers)
        case ExecutionComplete(now, clock) => StopTimes(s, true, now, clock, t.stopWrappers)
        case ExecutionError(now, clock) => StopTimes(s, false, now, clock, t.stopWrappers)
        case ExecutionInterrupted(now, clock) => Interrupt(s, now, clock);
      t.(session := Some(s'))
  }

  /** The accumulated wrappers are harmless: on a valid feature every event has
      exactly the effect of its single listener. */
  lemma DispatchIsStep(t: Timer, ev: ApiEvent)
    requires TimerValid(t) && t.session.Some?
    ensures Dispatch(t, ev) == t.(session := Some(Step(t.session.value, ev)))
    ensures TimerValid(Dispatch(t, ev))
  {
    var s := t.session.value;
    match ev
    case ExecutionStart(_) =>
    case ExecutionSuccess(now, clock) => StopTimesOnce(s, true, now, clock, t.stopWrappers);
    case ExecutionComplete(now, clock) => StopTimesOnce(s, true, now, clock, t.stopWrappers);
    case ExecutionError(now, clock) => StopTimesOnce(s, false, now, clock, t.stopWrappers);
    case ExecutionInterrupted(_, _) =>
    StepKeepsValid(s, ev, 0);
  }

  /** Setup and cleanup keep the feature valid. */
  lemma LifecycleKeepsValid(t: Timer, actionBarFound: bool)
    requires TimerValid(t)
    ensures TimerValid(Setup(t, actionBarFound))
    ensures TimerValid(Cleanup(t)) && TimerValid(CleanupAsWritten(t))
  {
  }

  /** Enabling then disabling a disabled timer restores it, except for the stop
      wrappers a successful mount leaves registered with the host. */
  lemma SetupThenCleanup(t: Timer, actionBarFound: bool)
    requires TimerValid(t) && !t.initialized
    ensures Cleanup(Setup(t, actionBarFound))
            == t.(stopWrappers := t.stopWrappers + if actionBarFound then 1 else 0)
    ensures CleanupAsWritten(Setup(t, actionBarFound))
            == t.(stopWrappers := t.stopWrappers + if actionBarFound then 1 else 0)
  {
  }

  /** Cleanup is idempotent. */
  lemma CleanupTwice(t: Timer)
    ensures Cleanup(Cleanup(t)) == Cleanup(t)
    ensures CleanupAsWritten(CleanupAsWritten(t)) == CleanupAsWritten(t)
  {
  }

  /** Mount, start a run, switch the feature off and on again: the first display's
      interval is still set. A minute and five seconds after the first start it
      overwrites the idle new display with `⏱ 01:05`, though nothing is running.
      The corrected cleanup leaves no interval behind. */
  lemma LeakedIntervalOverwrites(t0: int)
    ensures var running := Dispatch(Setup(Unloaded, true), ExecutionStart(t0));
      var remounted := Setup(CleanupAsWritten(running), true);
      var r := LeakedTick(remounted, 0, t0 + 65000);
      && remounted.session == Some(Fresh)
      && remounted.leakedStarts == [t0]
      && r.session.value.text == TimerIcon + " " + "01:05"
      && !r.session.value.isRunning
      && Setup(Cleanup(running), true).leakedStarts == []
  {
    var running := Dispatch(Setup(Unloaded, true), ExecutionStart(t0));
    assert running.session.value.ticking && StartOf(running.session.value) == t0;
    ElapsedSixtyFive(t0);
    FormatSixtyFive();
  }

  /** With the corrected cleanup, no sequence of setups, cleanups and host events
      leaves an interval behind on a feature loaded clean. */
  lemma {:induction false} CorrectedLifecycleNoLeak(t: Timer, ops: seq<TimerOp>)
    requires t.leakedStarts == []
    ensures Run(t, ops).leakedStarts == []
    decreases |ops|
  {
    if ops != [] {
      var t' := Apply(t, ops[0]);
      assert t'.leakedStarts == [];
      CorrectedLifecycleNoLeak(t', ops[1..]);
    }
  }

  /** The feature's operations: a setup, a cleanup, or a host event. */
  datatype TimerOp = SetupOp(actionBarFound: bool) | CleanupOp | EventOp(ev: ApiEvent)

  function Apply(t: Timer, op: TimerOp): (r: Timer)
    ensures r.leakedStarts == t.leakedStarts
  {
    match op
    case SetupOp(found) => Setup(t, found)
    case CleanupOp => Cleanup(t)
    case EventOp(ev) => Dispatch(t, ev)
  }

  function Run(t: Timer, ops: seq<TimerOp>): Timer
    decreases |ops|
  {
    if ops == [] then t else Run(Apply(t, ops[0]), ops[1..])
  }
}
