/** The registry of repeater child processes: one event per handler, timer or call.

A process entry is a row of `entries`; its index stands for the object's identity. */
module Registry {
  import opened Text
  import Redaction
  import ShellEscape

  /** How the awaited start of an entry stands. `Cleaned` is a failed start whose catch block ran. */
  datatype Wait = Waiting | Started | FailedStart | Cleaned

  /** A signal by its name. */
  type Signal = string
  const SIGTERM: Signal := "SIGTERM"
  const SIGKILL: Signal := "SIGKILL"

  datatype Entry = Entry(
    id: string,
    token: string,
    hostname: Option<string>,
    exited: bool,
    exitCode: Option<int>,
    lastError: Option<string>,
    wait: Wait)

  datatype State = State(
    entries: seq<Entry>,
    processes: map<string, nat>,
    stopping: multiset<nat>,
    kills: seq<(nat, Signal)>)

  datatype Event =
    | Run(id: string, token: Option<string>, hostname: Option<string>)
    | Exit(k: nat, code: Option<int>)
    | Error(k: nat, message: string)
    | Grace(k: nat)
    | Cleanup(k: nat)
    | Stop(id: string, signal: Option<Signal>)
    | StopTimeout(k: nat)

  datatype Refusal = IdRequired | AlreadyRunning | TokenRequired

  // ---------------------------------------------------------------- steps

  predicate Live(s: State, k: int) {
    0 <= k < |s.entries| && !s.entries[k].exited
  }

  /** `this.processes.get(id) === entry` for the entry at `k` */
  predicate Stored(s: State, id: string, k: int) {
    id in s.processes && s.processes[id] == k
  }

  /** Why a run is refused, checked in the order of the code. */
  function RunRefused(s: State, id: string, token: Option<string>): Option<Refusal> {
    if id == "" then Some(IdRequired)
    else if id in s.processes && Live(s, s.processes[id]) then Some(AlreadyRunning)
    else if token.None? || token.value == "" then Some(TokenRequired)
    else None
  }

  /** Which events the runtime can deliver: handlers fire once, a catch block follows a
      failed start, a stop timer follows a stop. */
  predicate Enabled(s: State, e: Event) {
    match e
    case Run(_, _, _) => true
    case Exit(k, _) => k < |s.entries| && !s.entries[k].exited
    case Error(k, _) => k < |s.entries| && s.entries[k].lastError.None?
    case Grace(k) => k < |s.entries| && s.entries[k].wait.Waiting?
    case Cleanup(k) => k < |s.entries| && s.entries[k].wait.FailedStart?
    case Stop(_, _) => true
    case StopTimeout(k) => k < |s.entries| && k in s.stopping
  }

  /** A settled start stays settled. */
  function Fail(w: Wait): Wait {
    if w.Waiting? then FailedStart else w
  }

  /** The caller's signal, or SIGTERM. */
  function FirstSignal(signal: Option<Signal>): Signal {
    if signal.None? then SIGTERM else signal.value
  }

  function RedactedFor(entry: Entry, message: string): string {
    Redaction.RedactWith(Redaction.Secrets(entry.token, entry.id, entry.hostname), message)
  }

  function Step(s: State, e: Event): State
    requires Enabled(s, e)
  {
    match e
    case Run(id, token, hostname) =>
      if RunRefused(s, id, token).Some? then s
      else s.(entries := s.entries + [Entry(id, token.value, hostname, false, None, None, Waiting)],
              processes := s.processes[id := |s.entries|])
    case Exit(k, code) =>
      var entry := s.entries[k];
      s.(entries := s.entries[k := entry.(exited := true, exitCode := code, wait := Fail(entry.wait))])
    case Error(k, message) =>
      var entry := s.entries[k];
      s.(entries := s.entries[k := entry.(lastError := Some(RedactedFor(entry, message)), wait := Fail(entry.wait))])
    case Grace(k) => s.(entries := s.entries[k := s.entries[k].(wait := Started)])
    case Cleanup(k) =>
      var entry := s.entries[k];
      var kept := if Stored(s, entry.id, k) && entry.exited then s.processes - {entry.id} else s.processes;
      s.(entries := s.entries[k := entry.(wait := Cleaned)], processes := kept)
    case Stop(id, signal) =>
      if id in s.processes && Live(s, s.processes[id])
      then s.(stopping := s.stopping + multiset{s.processes[id]}, kills := s.kills + [(s.processes[id], FirstSignal(signal))])
      else s
    case StopTimeout(k) =>
      var rest := s.stopping - multiset{k};
      if Live(s, k) then s.(stopping := rest, kills := s.kills + [(k, SIGKILL)]) else s.(stopping := rest)
  }

  function Initial(): State {
    State([], map[], multiset{}, [])
  }

  ghost predicate History(events: seq<Event>, states: seq<State>) {
    && |states| == |events| + 1
    && states[0] == Initial()
    && forall n :: 0 <= n < |events| ==> Enabled(states[n], events[n]) && states[n + 1] == Step(states[n], events[n])
  }

  // ---------------------------------------------------------------- the invariant

  ghost predicate KeysMatch(s: State) {
    forall id :: id in s.processes ==> s.processes[id] < |s.entries| && s.entries[s.processes[id]].id == id
  }

  ghost predicate LiveAreStored(s: State) {
    forall k :: 0 <= k < |s.entries| && !s.entries[k].exited ==> Stored(s, s.entries[k].id, k)
  }

  /** Every recorded error message went through the masking of its own entry. */
  ghost predicate ErrorsAreRedacted(s: State) {
    forall k :: 0 <= k < |s.entries| && s.entries[k].lastError.Some? ==> ErrorRedacted(s.entries[k])
  }

  ghost predicate ErrorRedacted(entry: Entry)
    requires entry.lastError.Some?
  {
    exists message :: entry.lastError.value == RedactedFor(entry, message)
  }

  ghost predicate Inv(s: State) {
    KeysMatch(s) && LiveAreStored(s)
  }

  lemma RunKeeps(s: State, e: Event)
    requires Inv(s) && e.Run?
    ensures Inv(Step(s, e))
  {
    var t := Step(s, e);
    forall k | 0 <= k < |t.entries| && !t.entries[k].exited ensures Stored(t, t.entries[k].id, k) {
      if k < |s.entries| {
        assert s.entries[k] == t.entries[k];
        assert Stored(s, s.entries[k].id, k);
      }
    }
  }

  lemma HandlerKeeps(s: State, e: Event)
    requires Inv(s) && Enabled(s, e) && (e.Exit? || e.Error? || e.Grace?)
    ensures Inv(Step(s, e))
  {
  }

  lemma CleanupKeeps(s: State, k: nat)
    requires Inv(s) && Enabled(s, Cleanup(k))
    ensures Inv(Step(s, Cleanup(k)))
  {
  }

  lemma StepKeeps(s: State, e: Event)
    requires Inv(s) && Enabled(s, e)
    ensures Inv(Step(s, e))
  {
    match e
    case Run(_, _, _) => RunKeeps(s, e);
    case Exit(_, _) => HandlerKeeps(s, e);
    case Error(_, _) => HandlerKeeps(s, e);
    case Grace(_) => HandlerKeeps(s, e);
    case Cleanup(k) => CleanupKeeps(s, k);
    case Stop(_, _) =>
    case StopTimeout(_) =>
  }

  /** What a step does to one entry: its id stays, only its exit ends it, and a settled start
      stays settled. */
  lemma StepEntry(s: State, e: Event, k: nat)
    requires Enabled(s, e) && k < |s.entries|
    ensures var t := Step(s, e);
            && k < |t.entries|
            && t.entries[k].id == s.entries[k].id
            && t.entries[k].exited == (s.entries[k].exited || (e.Exit? && e.k == k))
            && (s.entries[k].wait.Started? ==> t.entries[k].wait.Started?)
  {
  }

  lemma StepRedacts(s: State, e: Event)
    requires ErrorsAreRedacted(s) && Enabled(s, e)
    ensures ErrorsAreRedacted(Step(s, e))
  {
    var t := Step(s, e);
    forall k | 0 <= k < |t.entries| && t.entries[k].lastError.Some? ensures ErrorRedacted(t.entries[k]) {
      if k < |s.entries| {
        StepRedactsEntry(s, e, k);
      }
    }
  }

  lemma StepRedactsEntry(s: State, e: Event, k: nat)
    requires ErrorsAreRedacted(s) && Enabled(s, e) && k < |s.entries|
    requires Step(s, e).entries[k].lastError.Some?
    ensures ErrorRedacted(Step(s, e).entries[k])
  {
    var was, now := s.entries[k], Step(s, e).entries[k];
    if e.Error? && e.k == k {
      assert now.lastError.value == RedactedFor(now, e.message);
    } else {
      assert now.lastError == was.lastError;
      var message :| was.lastError.value == RedactedFor(was, message);
      assert now.lastError.value == RedactedFor(now, message);
    }
  }

  lemma {:induction false} HistoryKeeps(events: seq<Event>, states: seq<State>, n: nat)
    requires History(events, states) && n <= |events|
    ensures Inv(states[n]) && ErrorsAreRedacted(states[n])
  {
    if n > 0 {
      HistoryKeeps(events, states, n - 1);
      StepKeeps(states[n - 1], events[n - 1]);
      StepRedacts(states[n - 1], events[n - 1]);
    }
  }

  // ---------------------------------------------------------------- main results

  /** In every history each child that has not exited is the stored one, so an id never has
      two live children. */
  lemma LiveChildIsStored(events: seq<Event>, states: seq<State>, n: nat)
    requires History(events, states) && n <= |events|
    ensures forall k :: Live(states[n], k) ==> Stored(states[n], states[n].entries[k].id, k)
    ensures forall j, k :: Live(states[n], j) && Live(states[n], k) ==>
              states[n].entries[j].id != states[n].entries[k].id || j == k
  {
    HistoryKeeps(events, states, n);
    var s := states[n];
    forall j, k | Live(s, j) && Live(s, k) && s.entries[j].id == s.entries[k].id ensures j == k {
      assert Stored(s, s.entries[j].id, j) && Stored(s, s.entries[k].id, k);
    }
  }

  /** The late cleanup of a failed start takes away at most its own, exited entry: any other
      entry stored by then, newer ones of the same id included, stays. */
  lemma CleanupSparesOthers(events: seq<Event>, states: seq<State>, n: nat)
    requires History(events, states) && n < |events| && events[n].Cleanup?
    ensures var s, t := states[n], states[n + 1];
            && (forall id :: id in s.processes && s.processes[id] != events[n].k ==> Stored(t, id, s.processes[id]))
            && (forall k :: Live(s, k) ==> Stored(t, s.entries[k].id, k))
            && (forall id :: id in t.processes ==> Stored(s, id, t.processes[id]))
            && (forall id :: id in s.processes ==>
                  (id !in t.processes <==> s.processes[id] == events[n].k && s.entries[events[n].k].exited))
  {
    HistoryKeeps(events, states, n);
    var s := states[n];
    forall k | Live(s, k) ensures Stored(states[n + 1], s.entries[k].id, k) {
      assert Stored(s, s.entries[k].id, k);
    }
  }

  /** Why a run is refused, for every id and token: a run with both is let in exactly when every
      child ever started under that id has exited. */
  lemma RunLetInExactly(events: seq<Event>, states: seq<State>, n: nat, id: string, token: Option<string>)
    requires History(events, states) && n <= |events|
    ensures RunRefused(states[n], id, token) ==
              if id == "" then Some(IdRequired)
              else if exists k :: 0 <= k < |states[n].entries| && states[n].entries[k].id == id && !states[n].entries[k].exited
              then Some(AlreadyRunning)
              else if token.None? || token.value == "" then Some(TokenRequired)
              else None
  {
    HistoryKeeps(events, states, n);
    var s := states[n];
    if exists k :: 0 <= k < |s.entries| && s.entries[k].id == id && !s.entries[k].exited {
      var k :| 0 <= k < |s.entries| && s.entries[k].id == id && !s.entries[k].exited;
      assert Stored(s, s.entries[k].id, k);
    } else if id in s.processes {
      assert s.entries[s.processes[id]].id == id;
    }
  }

  /** A failed start does not always free its id: a child that could not be spawned reports an
      error and no exit, and then every later run of that id is refused until an exit comes. */
  lemma {:induction false} SpawnErrorBlocksId(events: seq<Event>, states: seq<State>, n: nat, m: nat, k: nat, token: string)
    requires History(events, states) && n <= m <= |events|
    requires k < |states[n].entries| && Live(states[n], k) && states[n].entries[k].id != ""
    requires forall i :: n <= i < m ==> !(events[i].Exit? && events[i].k == k)
    ensures RunRefused(states[m], states[n].entries[k].id, Some(token)) == Some(AlreadyRunning)
  {
    StaysLive(events, states, n, m, k);
    HistoryKeeps(events, states, m);
    assert Stored(states[m], states[m].entries[k].id, k);
  }

  lemma {:induction false} StaysLive(events: seq<Event>, states: seq<State>, n: nat, m: nat, k: nat)
    requires History(events, states) && n <= m <= |events| && k < |states[n].entries| && Live(states[n], k)
    requires forall i :: n <= i < m ==> !(events[i].Exit? && events[i].k == k)
    ensures k < |states[m].entries| && Live(states[m], k) && states[m].entries[k].id == states[n].entries[k].id
    decreases m - n
  {
    if n < m {
      StaysLive(events, states, n, m - 1, k);
      StepEntry(states[m - 1], events[m - 1], k);
    }
  }

  /** The shortest history that does it, for any id. */
  lemma SpawnErrorExample(id: string, token: string, message: string) returns (states: seq<State>)
    requires id != "" && token != ""
    ensures History([Run(id, Some(token), None), Error(0, message), Cleanup(0)], states)
    ensures |states[3].entries| == 1 && states[3].entries[0].wait.Cleaned?
    ensures RunRefused(states[3], id, Some(token)) == Some(AlreadyRunning)
  {
    var events := [Run(id, Some(token), None), Error(0, message), Cleanup(0)];
    var s0 := Initial();
    var s1 := Step(s0, events[0]);
    assert s1.entries == [Entry(id, token, None, false, None, None, Waiting)];
    var s2 := Step(s1, events[1]);
    assert |s2.entries| == 1 && s2.processes == map[id := 0] && s2.entries[0].wait.FailedStart?;
    var s3 := Step(s2, events[2]);
    assert s3.processes == map[id := 0] && !s3.entries[0].exited;
    states := [s0, s1, s2, s3];
  }

  /** A start once reported as running is never reported as failed, nor cleaned up. */
  lemma {:induction false} StartedStays(events: seq<Event>, states: seq<State>, n: nat, m: nat, k: nat)
    requires History(events, states) && n <= m <= |events|
    requires k < |states[n].entries| && states[n].entries[k].wait.Started?
    ensures k < |states[m].entries| && states[m].entries[k].wait.Started?
    ensures m < |events| ==> events[m] != Cleanup(k)
    decreases m - n
  {
    if n < m {
      StartedStays(events, states, n, m - 1, k);
      StepEntry(states[m - 1], events[m - 1], k);
    }
  }

  /** Signals only ever go to the live child stored for its id, also the delayed SIGKILL. */
  lemma KillsHitStoredChild(events: seq<Event>, states: seq<State>, n: nat)
    requires History(events, states) && n < |events|
    ensures var s, t := states[n], states[n + 1];
            && s.kills <= t.kills
            && forall i :: |s.kills| <= i < |t.kills| ==>
                 Live(s, t.kills[i].0) && Stored(s, s.entries[t.kills[i].0].id, t.kills[i].0)
  {
    HistoryKeeps(events, states, n);
    assert Enabled(states[n], events[n]) && states[n + 1] == Step(states[n], events[n]);
  }

  /** Which signals are sent: a stop signals the live child of its id, if there is one, and arms a
      timer for it; a timer kills its child exactly when it still runs; nothing else signals. */
  lemma SignalsExactly(events: seq<Event>, states: seq<State>, n: nat)
    requires History(events, states) && n < |events|
    ensures var s, t := states[n], states[n + 1];
            match events[n]
            case Stop(id, signal) =>
              && (forall k: nat :: Live(s, k) && s.entries[k].id == id ==>
                    && t.kills == s.kills + [(k, if signal.Some? then signal.value else "SIGTERM")]
                    && t.stopping == s.stopping + multiset{k})
              && ((forall k: nat :: Live(s, k) ==> s.entries[k].id != id) ==> t == s)
            case StopTimeout(k) =>
              && t.kills == s.kills + (if s.entries[k].exited then [] else [(k, "SIGKILL")])
              && t.stopping == s.stopping - multiset{k}
            case _ => t.kills == s.kills && t.stopping == s.stopping
  {
    HistoryKeeps(events, states, n);
    var s, t := states[n], states[n + 1];
    assert Enabled(s, events[n]) && t == Step(s, events[n]);
    if events[n].Stop? {
      var id := events[n].id;
      forall k: nat | Live(s, k) && s.entries[k].id == id
        ensures t.kills == s.kills + [(k, FirstSignal(events[n].signal))] && t.stopping == s.stopping + multiset{k}
      {
        assert Stored(s, s.entries[k].id, k);
      }
      if forall k: nat :: Live(s, k) ==> s.entries[k].id != id {
        assert id in s.processes ==> s.entries[s.processes[id]].id == id;
      }
    }
  }

  lemma {:induction false} KillsGrow(events: seq<Event>, states: seq<State>, n: nat, m: nat)
    requires History(events, states) && n <= m <= |events|
    ensures states[n].kills <= states[m].kills
    decreases m - n
  {
    if n < m {
      KillsGrow(events, states, n, m - 1);
      KillsHitStoredChild(events, states, m - 1);
    }
  }

  /** A stopped child that does not exit before its timer gets the first signal, then SIGKILL. */
  lemma {:induction false} StoppedIsKilled(events: seq<Event>, states: seq<State>, n: nat, m: nat, k: nat)
    requires History(events, states) && n < m < |events| && events[n].Stop? && events[m] == StopTimeout(k)
    requires Live(states[n], k) && states[n].entries[k].id == events[n].id
    requires forall i :: n <= i < m ==> !(events[i].Exit? && events[i].k == k)
    ensures var before, after := states[n].kills, states[m + 1].kills;
            && before < after && after[|before|] == (k, if events[n].signal.Some? then events[n].signal.value else "SIGTERM")
            && |after| > |before| + 1 && after[|after| - 1] == (k, "SIGKILL")
  {
    SignalsExactly(events, states, n);
    SignalsExactly(events, states, m);
    StaysLive(events, states, n, m, k);
    KillsGrow(events, states, n + 1, m);
  }

  // ---------------------------------------------------------------- every child, read off the events

  lemma {:induction false} EntriesGrow(events: seq<Event>, states: seq<State>, n: nat, m: nat)
    requires History(events, states) && n <= m <= |events|
    ensures |states[n].entries| <= |states[m].entries|
    decreases m - n
  {
    if n < m {
      EntriesGrow(events, states, n, m - 1);
      assert Enabled(states[m - 1], events[m - 1]) && states[m] == Step(states[m - 1], events[m - 1]);
    }
  }

  /** The event settles the start of the child, ends the child, or reports its error. */
  predicate Concerns(e: Event, k: nat) {
    (e.Exit? || e.Error? || e.Grace? || e.Cleanup?) && e.k == k
  }

  lemma NothingBeforeRun(events: seq<Event>, states: seq<State>, m: nat, k: nat)
    requires History(events, states) && m <= |events| && k >= |states[m].entries|
    ensures forall n :: 0 <= n < m ==> !Concerns(events[n], k)
  {
    forall n | 0 <= n < m ensures !Concerns(events[n], k) {
      EntriesGrow(events, states, n, m);
      assert Enabled(states[n], events[n]);
    }
  }

  /** What one event does to a child: exit, error and grace timer settle a start that is waited
      for, and leave a settled one. */
  function ChildAfter(a: Entry, e: Event, k: nat): Entry {
    if !Concerns(e, k) then a
    else match e
         case Exit(_, code) => a.(exited := true, exitCode := code, wait := if a.wait.Waiting? then FailedStart else a.wait)
         case Error(_, message) =>
           a.(lastError := Some(RedactedFor(a, message)), wait := if a.wait.Waiting? then FailedStart else a.wait)
         case Grace(_) => a.(wait := Started)
         case _ => a.(wait := Cleaned)
  }

  /** A child exits once, reports one error, and its grace timer fires while the start is waited for. */
  predicate ChildCan(a: Entry, e: Event, k: nat) {
    Concerns(e, k) ==>
      match e
      case Exit(_, _) => !a.exited
      case Error(_, _) => a.lastError.None?
      case Grace(_) => a.wait.Waiting?
      case _ => a.wait.FailedStart?
  }

  lemma StepChild(s: State, e: Event, k: nat)
    requires Enabled(s, e) && k < |s.entries|
    ensures k < |Step(s, e).entries|
    ensures ChildCan(s.entries[k], e, k) && Step(s, e).entries[k] == ChildAfter(s.entries[k], e, k)
  {
  }

  /** In every history a child changes only so. */
  lemma ChildSteps(events: seq<Event>, states: seq<State>, n: nat, k: nat)
    requires History(events, states) && n < |events| && k < |states[n].entries|
    ensures k < |states[n + 1].entries|
    ensures ChildCan(states[n].entries[k], events[n], k)
    ensures states[n + 1].entries[k] == ChildAfter(states[n].entries[k], events[n], k)
  {
    assert Enabled(states[n], events[n]) && states[n + 1] == Step(states[n], events[n]);
    StepChild(states[n], events[n], k);
  }

  /** A new child comes with its run, and is waited for. */
  lemma NewChild(events: seq<Event>, states: seq<State>, n: nat, k: nat)
    requires History(events, states) && n < |events| && |states[n].entries| <= k < |states[n + 1].entries|
    ensures |states[n].entries| == k
    ensures var b := states[n + 1].entries[k];
            && events[n] == Run(b.id, Some(b.token), b.hostname) && RunRefused(states[n], b.id, Some(b.token)).None?
            && b.wait.Waiting? && !b.exited && b.lastError.None?
  {
    assert Enabled(states[n], events[n]) && states[n + 1] == Step(states[n], events[n]);
  }

  /** Every child comes from a run that was let in, with that run's id, token and host name. */
  lemma {:induction false} ChildOfRun(events: seq<Event>, states: seq<State>, m: nat, k: nat) returns (n: nat)
    requires History(events, states) && m <= |events| && k < |states[m].entries|
    ensures n < m && |states[n].entries| == k
    ensures var entry := states[m].entries[k]; events[n] == Run(entry.id, Some(entry.token), entry.hostname)
    ensures RunRefused(states[n], events[n].id, events[n].token).None?
  {
    if k < |states[m - 1].entries| {
      n := ChildOfRun(events, states, m - 1, k);
      ChildSteps(events, states, m - 1, k);
    } else {
      n := m - 1;
      NewChild(events, states, n, k);
    }
  }

  /** Every run that is let in adds one child, live and stored under its id; any other changes
      nothing. */
  lemma RunAddsChild(events: seq<Event>, states: seq<State>, n: nat)
    requires History(events, states) && n < |events| && events[n].Run?
    ensures var s, t := states[n], states[n + 1];
            if RunRefused(s, events[n].id, events[n].token).Some? then t == s
            else |t.entries| == |s.entries| + 1 && t.entries[..|s.entries|] == s.entries
                 && Live(t, |s.entries|) && t.entries[|s.entries|].wait.Waiting?
                 && Stored(t, events[n].id, |s.entries|)
  {
    assert states[n + 1] == Step(states[n], events[n]);
  }

  ghost predicate Happened(events: seq<Event>, m: nat, e: Event) {
    exists n :: 0 <= n < m && n < |events| && events[n] == e
  }

  /** Nothing has happened to the child yet. */
  ghost predicate Quiet(events: seq<Event>, m: nat, k: nat) {
    forall n :: 0 <= n < m && n < |events| ==> !Concerns(events[n], k)
  }

  /** How the start of a child stands, read off the events. */
  ghost predicate WaitReads(events: seq<Event>, m: nat, k: nat, w: Wait) {
    && (w.Waiting? <==> Quiet(events, m, k))
    && (w.Started? <==> Happened(events, m, Grace(k)))
    && (w.Cleaned? <==> Happened(events, m, Cleanup(k)))
  }

  lemma QuietStep(events: seq<Event>, m: nat, k: nat)
    requires 0 < m <= |events|
    ensures Quiet(events, m, k) <==> Quiet(events, m - 1, k) && !Concerns(events[m - 1], k)
  {
  }

  lemma WaitStep(events: seq<Event>, m: nat, k: nat, a: Entry)
    requires 0 < m <= |events| && WaitReads(events, m - 1, k, a.wait) && ChildCan(a, events[m - 1], k)
    ensures WaitReads(events, m, k, ChildAfter(a, events[m - 1], k).wait)
  {
    QuietStep(events, m, k);
    HappenedStep(events, m, Grace(k));
    HappenedStep(events, m, Cleanup(k));
  }

  /** A start is waited for until the child's first exit, error or grace timer, and has succeeded
      exactly when that was the timer. */
  lemma {:induction false} StartExactly(events: seq<Event>, states: seq<State>, m: nat, k: nat)
    requires History(events, states) && m <= |events| && k < |states[m].entries|
    ensures WaitReads(events, m, k, states[m].entries[k].wait)
  {
    if m > 0 {
      if k < |states[m - 1].entries| {
        StartExactly(events, states, m - 1, k);
        ChildSteps(events, states, m - 1, k);
        WaitStep(events, m, k, states[m - 1].entries[k]);
      } else {
        NewChild(events, states, m - 1, k);
        NothingBeforeRun(events, states, m - 1, k);
        FirstReads(events, m, k);
      }
    }
  }

  lemma FirstReads(events: seq<Event>, m: nat, k: nat)
    requires 0 < m <= |events| && events[m - 1].Run? && Quiet(events, m - 1, k)
    ensures WaitReads(events, m, k, Waiting)
  {
    QuietStep(events, m, k);
    NotHappened(events, m, k);
  }

  lemma HappenedStep(events: seq<Event>, m: nat, e: Event)
    requires 0 < m <= |events|
    ensures Happened(events, m, e) <==> Happened(events, m - 1, e) || events[m - 1] == e
  {
  }

  lemma NotHappened(events: seq<Event>, m: nat, k: nat)
    requires Quiet(events, m, k)
    ensures !Happened(events, m, Grace(k)) && !Happened(events, m, Cleanup(k))
  {
  }

  /** A start that failed is never reported as running. */
  predicate NotStarted(w: Wait) {
    w.FailedStart? || w.Cleaned?
  }

  /** Exit, error and failed start, once there, stay. */
  predicate EndKept(a: Entry, b: Entry) {
    && (a.exited ==> b.exited && b.exitCode == a.exitCode)
    && (a.lastError.Some? ==> b.lastError == a.lastError)
    && (NotStarted(a.wait) ==> NotStarted(b.wait))
  }

  ghost predicate KeptBetween(states: seq<State>, n: nat, m: nat, k: nat) {
    n <= m < |states| && k < |states[n].entries| && k < |states[m].entries| && EndKept(states[n].entries[k], states[m].entries[k])
  }

  lemma EndStep(events: seq<Event>, states: seq<State>, n: nat, k: nat)
    requires History(events, states) && n < |events| && k < |states[n].entries|
    ensures KeptBetween(states, n, n + 1, k)
  {
    ChildSteps(events, states, n, k);
  }

  ghost predicate KeptAt(states: seq<State>, i: nat, k: nat) {
    KeptBetween(states, i, i + 1, k)
  }

  lemma {:induction false} EndChain(states: seq<State>, n: nat, m: nat, k: nat)
    requires n <= m < |states| && k < |states[n].entries| && forall i: nat :: n <= i < m ==> KeptAt(states, i, k)
    ensures KeptBetween(states, n, m, k)
    decreases m - n
  {
    if n < m {
      EndChain(states, n, m - 1, k);
      assert KeptAt(states, m - 1, k);
    }
  }

  lemma EndIsKept(events: seq<Event>, states: seq<State>, n: nat, m: nat, k: nat)
    requires History(events, states) && n <= m <= |events| && k < |states[n].entries|
    ensures KeptBetween(states, n, m, k)
  {
    forall i: nat | n <= i < m ensures KeptAt(states, i, k) {
      EntriesGrow(events, states, n, i);
      EndStep(events, states, i, k);
    }
    EndChain(states, n, m, k);
  }

  /** A child that exits keeps its exit code for good, one that reports an error keeps the redacted
      message, and one that does either while its start is waited for fails that start. */
  lemma ExitIsKept(events: seq<Event>, states: seq<State>, n: nat, m: nat, k: nat)
    requires History(events, states) && n < m <= |events| && Concerns(events[n], k) && (events[n].Exit? || events[n].Error?)
    ensures k < |states[n].entries| && k < |states[m].entries|
    ensures events[n].Exit? ==> states[m].entries[k].exited && states[m].entries[k].exitCode == events[n].code
    ensures events[n].Error? ==> states[m].entries[k].lastError == Some(RedactedFor(states[n].entries[k], events[n].message))
    ensures states[n].entries[k].wait.Waiting? ==> NotStarted(states[m].entries[k].wait)
  {
    assert Enabled(states[n], events[n]);
    ChildSteps(events, states, n, k);
    EndIsKept(events, states, n + 1, m, k);
  }

  /** No recorded error shows the token of its run, if that token does not meet the mark. */
  lemma ErrorsHideToken(events: seq<Event>, states: seq<State>, n: nat, k: nat)
    requires History(events, states) && n <= |events| && k < |states[n].entries|
    requires states[n].entries[k].lastError.Some?
    requires states[n].entries[k].token != [] && !Redaction.MeetsMark(Redaction.MARK, states[n].entries[k].token)
    ensures !Contains(states[n].entries[k].lastError.value, states[n].entries[k].token)
  {
    HistoryKeeps(events, states, n);
    var entry := states[n].entries[k];
    assert ErrorRedacted(entry);
    var message :| entry.lastError.value == RedactedFor(entry, message);
    Redaction.TokenNeverShown(entry.token, entry.id, entry.hostname, message);
  }

  // ---------------------------------------------------------------- the command of a child

  function ChildOptions(token: string, id: string, hostname: Option<string>, escape: bool): ShellEscape.ExecOptions {
    ShellEscape.ExecOptions(None, Some(["repeater"] + Redaction.BuildArgs(token, id, hostname)), true, escape, true)
  }

  /** What the child of a run is meant to see: the script, the repeater command, and token, id and
      host name behind their options. */
  lemma ChildArguments(p: ShellEscape.Process, escape: bool, token: string, id: string, hostname: Option<string>)
    requires |p.argv| > 1
    ensures ShellEscape.IntendedArgs(p, ChildOptions(token, id, hostname, escape))
         == p.execArgv + ([p.argv[1], "repeater", "--token", token, "--id", id]
                          + (if hostname.Some? then ["--hostname", hostname.value] else []))
  {
    var more := ["repeater"] + Redaction.BuildArgs(token, id, hostname);
    ShellEscape.SpawnedArgs(p, ChildOptions(token, id, hostname, escape));
    assert [p.argv[1]] + more == [p.argv[1], "repeater", "--token", token, "--id", id]
                                 + (if hostname.Some? then ["--hostname", hostname.value] else []);
  }

  // ---------------------------------------------------------------- the object

  class RepeaterTools {
    var entries: seq<Entry>
    var processes: map<string, nat>
    var stopping: multiset<nat>
    var kills: seq<(nat, Signal)>

    ghost function Abs(): State
      reads this
    {
      State(entries, processes, stopping, kills)
    }

    constructor ()
      ensures Abs() == Initial() && Inv(Abs())
    {
      entries, processes, stopping, kills := [], map[], multiset{}, [];
    }

    /** Spawns and registers a child, up to the await of its start. */
    method RunTool(id: string, token: Option<string>, hostname: Option<string>) returns (refused: Option<Refusal>)
      requires Inv(Abs())
      modifies this`entries, this`processes
      ensures Abs() == Step(old(Abs()), Run(id, token, hostname)) && Inv(Abs())
      ensures refused == RunRefused(old(Abs()), id, token)
      ensures refused.None? ==> Live(Abs(), |old(entries)|) && Stored(Abs(), id, |old(entries)|)
    {
      StepKeeps(Abs(), Run(id, token, hostname));
      if id == "" {
        return Some(IdRequired);
      }
      if id in processes && !entries[processes[id]].exited {
        return Some(AlreadyRunning);
      }
      if token.None? || token.value == "" {
        return Some(TokenRequired);
      }
      processes := processes[id := |entries|];
      entries := entries + [Entry(id, token.value, hostname, false, None, None, Waiting)];
      refused := None;
    }

    /** Both `exit` handlers, in the order they were attached. */
    method OnExit(k: nat, code: Option<int>)
      requires Inv(Abs()) && Enabled(Abs(), Exit(k, code))
      modifies this`entries
      ensures Abs() == Step(old(Abs()), Exit(k, code)) && Inv(Abs())
    {
      StepKeeps(Abs(), Exit(k, code));
      entries := entries[k := entries[k].(exited := true, exitCode := code)];
      Settle(k, false);
    }

    /** Both `error` handlers. */
    method OnError(k: nat, message: string)
      requires Inv(Abs()) && Enabled(Abs(), Error(k, message))
      modifies this`entries
      ensures Abs() == Step(old(Abs()), Error(k, message)) && Inv(Abs())
    {
      StepKeeps(Abs(), Error(k, message));
      entries := entries[k := entries[k].(lastError := Some(RedactedFor(entries[k], message)))];
      Settle(k, false);
    }

    method OnGrace(k: nat)
      requires Inv(Abs()) && Enabled(Abs(), Grace(k))
      modifies this`entries
      ensures Abs() == Step(old(Abs()), Grace(k)) && Inv(Abs())
    {
      StepKeeps(Abs(), Grace(k));
      Settle(k, true);
    }

    /** Settles the start once; later calls do nothing. */
    method Settle(k: nat, ok: bool)
      requires k < |entries|
      modifies this`entries
      ensures entries == old(entries)[k := old(entries)[k].(wait :=
                if old(entries)[k].wait.Waiting? then (if ok then Started else FailedStart) else old(entries)[k].wait)]
    {
      if !entries[k].wait.Waiting? {
        return;
      }
      entries := entries[k := entries[k].(wait := if ok then Started else FailedStart)];
    }

    /** The catch block of a failed start. */
    method OnFailedStart(k: nat)
      requires Inv(Abs()) && Enabled(Abs(), Cleanup(k))
      modifies this`entries, this`processes
      ensures Abs() == Step(old(Abs()), Cleanup(k)) && Inv(Abs())
    {
      StepKeeps(Abs(), Cleanup(k));
      var id := entries[k].id;
      if id in processes && processes[id] == k && entries[k].exited {
        processes := processes - {id};
      }
      entries := entries[k := entries[k].(wait := Cleaned)];
    }

    /** Sends the first signal; false when the id is unknown. */
    method StopTool(id: string, signal: Option<Signal>) returns (found: bool)
      requires Inv(Abs())
      modifies this`stopping, this`kills
      ensures Abs() == Step(old(Abs()), Stop(id, signal)) && Inv(Abs())
      ensures found == (id in processes)
      ensures found && !entries[processes[id]].exited ==>
                kills == old(kills) + [(processes[id], if signal.Some? then signal.value else "SIGTERM")]
    {
      StepKeeps(Abs(), Stop(id, signal));
      found := id in processes;
      if found && !entries[processes[id]].exited {
        stopping := stopping + multiset{processes[id]};
        kills := kills + [(processes[id], FirstSignal(signal))];
      }
    }

    /** The stop timer: SIGKILL for the same child if it still runs. */
    method OnStopTimeout(k: nat)
      requires Inv(Abs()) && Enabled(Abs(), StopTimeout(k))
      modifies this`stopping, this`kills
      ensures Abs() == Step(old(Abs()), StopTimeout(k)) && Inv(Abs())
    {
      StepKeeps(Abs(), StopTimeout(k));
      stopping := stopping - multiset{k};
      if !entries[k].exited {
        kills := kills + [(k, SIGKILL)];
      }
    }
  }
}
