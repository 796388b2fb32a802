/** Waiting for a scan: the polling loop with its timeout as a transition system, and the
severity breakpoints that end it early. */
module Polling {
  // ---------------------------------------------------------------- severities

  datatype Severity = Low | Medium | High | Critical

  datatype Status = Running | Pending | Stopped | Failed | Done | Disrupted | Scheduled | Queued

  datatype ScanState = ScanState(status: Status, low: int, medium: int, high: int, critical: int)

  function Issues(s: ScanState, severity: Severity): int {
    match severity
    case Low => s.low
    case Medium => s.medium
    case High => s.high
    case Critical => s.critical
  }

  /** The table of severities a breakpoint listens to. */
  function SeverityRange(severity: Severity): seq<Severity> {
    match severity
    case Critical => [Critical]
    case High => [High, Critical]
    case Medium => [Medium, High, Critical]
    case Low => [Medium, High, Low, Critical]
  }

  predicate IsExcepted(breakpoint: Severity, s: ScanState) {
    exists i | 0 <= i < |SeverityRange(breakpoint)| :: Issues(s, SeverityRange(breakpoint)[i]) > 0
  }

  function Rank(severity: Severity): nat {
    match severity
    case Low => 0
    case Medium => 1
    case High => 2
    case Critical => 3
  }

  /** The table holds exactly the severities at or above the chosen one. */
  lemma RangeIsUpwards(breakpoint: Severity, severity: Severity)
    ensures severity in SeverityRange(breakpoint) <==> Rank(severity) >= Rank(breakpoint)
  {
    match breakpoint
    case Critical => assert SeverityRange(breakpoint)[0] == Critical;
    case High => assert SeverityRange(breakpoint)[0] == High && SeverityRange(breakpoint)[1] == Critical;
    case Medium =>
      assert SeverityRange(breakpoint)[0] == Medium && SeverityRange(breakpoint)[1] == High;
      assert SeverityRange(breakpoint)[2] == Critical;
    case Low =>
      assert SeverityRange(breakpoint)[0] == Medium && SeverityRange(breakpoint)[1] == High;
      assert SeverityRange(breakpoint)[2] == Low && SeverityRange(breakpoint)[3] == Critical;
  }

  /** A breakpoint trips exactly on an issue at or above its severity. */
  lemma ExceptedExactly(breakpoint: Severity, s: ScanState)
    ensures IsExcepted(breakpoint, s) <==> exists severity :: Rank(severity) >= Rank(breakpoint) && Issues(s, severity) > 0
    ensures IsExcepted(breakpoint, s) <==>
              || s.critical > 0
              || (s.high > 0 && breakpoint != Critical)
              || (s.medium > 0 && (breakpoint == Low || breakpoint == Medium))
              || (s.low > 0 && breakpoint == Low)
  {
    var range := SeverityRange(breakpoint);
    if IsExcepted(breakpoint, s) {
      var i :| 0 <= i < |range| && Issues(s, range[i]) > 0;
      RangeIsUpwards(breakpoint, range[i]);
    }
    forall severity | Rank(severity) >= Rank(breakpoint) && Issues(s, severity) > 0 ensures IsExcepted(breakpoint, s) {
      RangeIsUpwards(breakpoint, severity);
      var i :| 0 <= i < |range| && range[i] == severity;
    }
    assert Rank(Critical) >= Rank(breakpoint) && Issues(s, Critical) == s.critical;
    assert (Rank(High) >= Rank(breakpoint) <==> breakpoint != Critical) && Issues(s, High) == s.high;
    assert (Rank(Medium) >= Rank(breakpoint) <==> breakpoint == Low || breakpoint == Medium) && Issues(s, Medium) == s.medium;
    assert (Rank(Low) >= Rank(breakpoint) <==> breakpoint == Low) && Issues(s, Low) == s.low;
  }

  /** Whatever trips a breakpoint trips every lower one. */
  lemma LowerTripsToo(lower: Severity, higher: Severity, s: ScanState)
    requires Rank(lower) <= Rank(higher) && IsExcepted(higher, s)
    ensures IsExcepted(lower, s)
  {
    ExceptedExactly(lower, s);
    ExceptedExactly(higher, s);
  }

  // ---------------------------------------------------------------- the loop

  predicate IsRedundant(status: Status) {
    status == Done || status == Stopped || status == Disrupted || status == Failed
  }

  /** A scan that is not over. */
  predicate InProgress(status: Status) {
    status == Running || status == Pending || status == Scheduled || status == Queued
  }

  /** How a poll ends: a terminal scan, a cleared flag, a tripped breakpoint, a failed status call. */
  datatype Ending = Finished | Inactive | Tripped | Broken(error: string)

  datatype Phase = AtHead | Delaying | Fetching | Yielded(state: ScanState) | Ended(how: Ending)

  /** `fetched` and `checked` log the states received and the states handed to the breakpoint;
      `late` counts the states received after the timeout. */
  datatype State = State(
    active: bool,
    timer: bool,
    timedOut: bool,
    phase: Phase,
    fetched: seq<ScanState>,
    checked: seq<ScanState>,
    late: nat)

  datatype Event = Head | DelayOver | StatusIs(state: ScanState) | StatusFails(error: string) | Check | Timeout

  function Initial(withTimeout: bool): State {
    State(true, withTimeout, false, AtHead, [], [], 0)
  }

  predicate Enabled(s: State, e: Event) {
    match e
    case Head => s.phase.AtHead?
    case DelayOver => s.phase.Delaying?
    case StatusIs(_) => s.phase.Fetching?
    case StatusFails(_) => s.phase.Fetching?
    case Check => s.phase.Yielded?
    case Timeout => s.timer
  }

  /** The `finally` block: stop clears the flag and the timer. */
  function End(s: State, how: Ending): State {
    s.(phase := Ended(how), active := false, timer := false)
  }

  function Step(breakpoint: Severity, s: State, e: Event): State
    requires Enabled(s, e)
  {
    match e
    case Head => if s.active then s.(phase := Delaying) else End(s, Inactive)
    case DelayOver => s.(phase := Fetching)
    case StatusIs(state) =>
      var t := s.(fetched := s.fetched + [state], late := if s.timedOut then s.late + 1 else s.late);
      if IsRedundant(state.status) then End(t, Finished) else t.(phase := Yielded(state))
    case StatusFails(error) => End(s, Broken(error))
    case Check =>
      var t := s.(checked := s.checked + [s.phase.state]);
      if IsExcepted(breakpoint, s.phase.state) then End(t, Tripped) else t.(phase := AtHead)
    case Timeout => s.(active := false, timer := false, timedOut := true)
  }

  ghost predicate History(breakpoint: Severity, withTimeout: bool, events: seq<Event>, states: seq<State>) {
    && |states| == |events| + 1
    && states[0] == Initial(withTimeout)
    && forall n :: 0 <= n < |events| ==>
         Enabled(states[n], events[n]) && states[n + 1] == Step(breakpoint, states[n], events[n])
  }

  // ---------------------------------------------------------------- the invariant

  /** Received states not yet handed to the breakpoint. */
  function InHand(s: State): seq<ScanState> {
    if s.phase.Yielded? then [s.phase.state] else []
  }

  ghost predicate Quiet(breakpoint: Severity, states: seq<ScanState>) {
    forall i :: 0 <= i < |states| ==> !IsExcepted(breakpoint, states[i])
  }

  ghost predicate LogsAgree(breakpoint: Severity, s: State) {
    && (forall i :: 0 <= i < |s.checked| ==> !IsRedundant(s.checked[i].status))
    && (s.phase.Yielded? ==> !IsRedundant(s.phase.state.status))
    && (if s.phase == Ended(Finished)
        then |s.fetched| == |s.checked| + 1 && s.fetched[..|s.checked|] == s.checked
             && IsRedundant(s.fetched[|s.checked|].status)
        else s.fetched == s.checked + InHand(s))
    && (if s.phase == Ended(Tripped)
        then s.checked != [] && IsExcepted(breakpoint, s.checked[|s.checked| - 1])
             && Quiet(breakpoint, s.checked[..|s.checked| - 1])
        else Quiet(breakpoint, s.checked))
  }

  ghost predicate FlagsAgree(s: State) {
    && (s.phase.Ended? ==> !s.active && !s.timer)
    && (s.timedOut ==> !s.active)
    && (!s.timedOut ==> s.late == 0)
    && (!s.phase.Ended? ==> s.active == !s.timedOut)
    && s.late <= 1
    && (s.late == 1 ==> s.phase.Yielded? || s.phase.AtHead? || s.phase.Ended?)
    && (s.phase == Ended(Inactive) ==> s.timedOut)
  }

  lemma StatusKeepsLogs(breakpoint: Severity, s: State, state: ScanState)
    requires LogsAgree(breakpoint, s) && s.phase.Fetching?
    ensures LogsAgree(breakpoint, Step(breakpoint, s, StatusIs(state)))
  {
    assert s.checked + [] == s.checked;
    assert (s.checked + [state])[..|s.checked|] == s.checked;
  }

  lemma CheckKeepsLogs(breakpoint: Severity, s: State)
    requires LogsAgree(breakpoint, s) && s.phase.Yielded?
    ensures LogsAgree(breakpoint, Step(breakpoint, s, Check))
  {
    var checked := s.checked + [s.phase.state];
    assert checked[..|checked| - 1] == s.checked;
    assert checked + [] == checked;
  }

  lemma StepKeepsLogs(breakpoint: Severity, s: State, e: Event)
    requires LogsAgree(breakpoint, s) && Enabled(s, e) && FlagsAgree(s)
    ensures LogsAgree(breakpoint, Step(breakpoint, s, e))
  {
    match e
    case StatusIs(state) => StatusKeepsLogs(breakpoint, s, state);
    case Check => CheckKeepsLogs(breakpoint, s);
    case Head =>
    case DelayOver =>
    case StatusFails(_) =>
    case Timeout =>
  }

  lemma {:induction false} HistoryKeeps(breakpoint: Severity, withTimeout: bool, events: seq<Event>, states: seq<State>, n: nat)
    requires History(breakpoint, withTimeout, events, states) && n <= |events|
    ensures LogsAgree(breakpoint, states[n]) && FlagsAgree(states[n])
  {
    if n > 0 {
      HistoryKeeps(breakpoint, withTimeout, events, states, n - 1);
      StepKeepsLogs(breakpoint, states[n - 1], events[n - 1]);
    }
  }

  // ---------------------------------------------------------------- main results

  /** The breakpoint sees exactly the received non-terminal states, in order; the poll ends on
      the first terminal state or the first state that trips, and on no other state. */
  lemma ChecksExactly(breakpoint: Severity, withTimeout: bool, events: seq<Event>, states: seq<State>, n: nat)
    requires History(breakpoint, withTimeout, events, states) && n <= |events|
    ensures var s := states[n];
            && |s.checked| <= |s.fetched| <= |s.checked| + 1
            && s.fetched[..|s.checked|] == s.checked
            && (forall i :: 0 <= i < |s.checked| ==> InProgress(s.checked[i].status))
            && (s.phase == Ended(Finished) <==>
                  |s.fetched| == |s.checked| + 1 && !InProgress(s.fetched[|s.checked|].status))
            && (s.phase == Ended(Tripped) <==>
                  s.checked != [] && IsExcepted(breakpoint, s.checked[|s.checked| - 1]))
            && (forall i :: 0 <= i < |s.checked| - 1 ==> !IsExcepted(breakpoint, s.checked[i]))
  {
    HistoryKeeps(breakpoint, withTimeout, events, states, n);
    var s := states[n];
    if s.phase == Ended(Tripped) {
      assert forall i :: 0 <= i < |s.checked| - 1 ==> s.checked[i] == s.checked[..|s.checked| - 1][i];
    }
  }

  /** However it ends, the poll is inactive and its timer is cleared; it ends without a verdict
      only after its timeout, and hands on the error of a failed status call. */
  lemma EndsInactive(breakpoint: Severity, withTimeout: bool, events: seq<Event>, states: seq<State>, n: nat)
    requires History(breakpoint, withTimeout, events, states) && n <= |events| && states[n].phase.Ended?
    ensures !states[n].active && !states[n].timer
    ensures states[n].phase.how == Inactive ==> states[n].timedOut
    ensures n == |events|
    ensures n > 0 && (events[n - 1].StatusFails? <==> states[n].phase.how.Broken?)
    ensures events[n - 1].StatusFails? ==> states[n].phase.how == Broken(events[n - 1].error)
  {
    HistoryKeeps(breakpoint, withTimeout, events, states, n);
    HistoryKeeps(breakpoint, withTimeout, events, states, n - 1);
    assert Enabled(states[n - 1], events[n - 1]) && states[n] == Step(breakpoint, states[n - 1], events[n - 1]);
  }

  /** Until it ends, the poll can go on, and its timer runs exactly when it was given a timeout
      that has not passed. */
  lemma {:induction false} NeverStuck(breakpoint: Severity, withTimeout: bool, events: seq<Event>, states: seq<State>, n: nat)
    requires History(breakpoint, withTimeout, events, states) && n <= |events| && !states[n].phase.Ended?
    ensures exists e: Event :: !e.Timeout? && Enabled(states[n], e)
    ensures states[n].timer <==> withTimeout && !states[n].timedOut
    ensures states[n].active <==> !states[n].timedOut
    ensures states[n].timedOut <==> exists m :: 0 <= m < n && events[m] == Timeout
  {
    HistoryKeeps(breakpoint, withTimeout, events, states, n);
    if n > 0 {
      assert Enabled(states[n - 1], events[n - 1]) && states[n] == Step(breakpoint, states[n - 1], events[n - 1]);
      NeverStuck(breakpoint, withTimeout, events, states, n - 1);
    }
    var s := states[n];
    var state := ScanState(Running, 0, 0, 0, 0);
    assert Enabled(s, Head) || Enabled(s, DelayOver) || Enabled(s, StatusIs(state)) || Enabled(s, Check);
  }

  /** After the timeout at most one more state is received. */
  lemma AtMostOneLate(breakpoint: Severity, withTimeout: bool, events: seq<Event>, states: seq<State>, n: nat, m: nat)
    requires History(breakpoint, withTimeout, events, states) && n <= m <= |events| && states[n].timedOut
    ensures |states[m].fetched| - |states[n].fetched| <= 1
  {
    LateCounts(breakpoint, withTimeout, events, states, n, m);
    HistoryKeeps(breakpoint, withTimeout, events, states, m);
  }

  lemma {:induction false} LateCounts(breakpoint: Severity, withTimeout: bool, events: seq<Event>, states: seq<State>, n: nat, m: nat)
    requires History(breakpoint, withTimeout, events, states) && n <= m <= |events| && states[n].timedOut
    ensures states[m].timedOut && |states[m].fetched| - |states[n].fetched| == states[m].late - states[n].late
    decreases m - n
  {
    if n < m {
      LateCounts(breakpoint, withTimeout, events, states, n, m - 1);
      assert Enabled(states[m - 1], events[m - 1]) && states[m] == Step(breakpoint, states[m - 1], events[m - 1]);
    }
  }

  /** The states received are the first ones of the stream. */
  ghost predicate ReadsFrom(stream: nat -> ScanState, s: State) {
    forall i :: 0 <= i < |s.fetched| ==> s.fetched[i] == stream(i)
  }

  /** A lower breakpoint fires no later: when a run of the higher one ended by tripping on its
      last checked state, no run of the lower one over the same stream, whatever its timing,
      checks more states, and one that checks as many has tripped. */
  lemma LowerFiresNoLater(lower: Severity, higher: Severity, stream: nat -> ScanState,
                          withTimeout: bool, events: seq<Event>, states: seq<State>,
                          alsoTimeout: bool, others: seq<Event>, runs: seq<State>)
    requires Rank(lower) <= Rank(higher)
    requires History(higher, withTimeout, events, states) && ReadsFrom(stream, states[|events|])
    requires History(lower, alsoTimeout, others, runs) && ReadsFrom(stream, runs[|others|])
    requires states[|events|].phase == Ended(Tripped)
    ensures var a, b := states[|events|].checked, runs[|others|].checked;
            |b| <= |a| && (|b| == |a| ==> runs[|others|].phase == Ended(Tripped))
  {
    ChecksExactly(higher, withTimeout, events, states, |events|);
    ChecksExactly(lower, alsoTimeout, others, runs, |others|);
    var s, t := states[|events|], runs[|others|];
    if |t.checked| >= |s.checked| {
      var i := |s.checked| - 1;
      assert s.checked[i] == s.fetched[..|s.checked|][i] == stream(i);
      assert t.checked[i] == t.fetched[..|t.checked|][i] == stream(i);
      LowerTripsToo(lower, higher, stream(i));
    }
  }
}
