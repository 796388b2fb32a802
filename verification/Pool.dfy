/** The promise pool of `Helpers` as a transition system.

One event per synchronous stretch: the body runs up to its next await, a task settles, the
callback of a fulfilled task takes its member out of the pool, or an await resumes. Events
may come in any order the guards allow, so a run stands for an interleaving. */
module Pool {
  import opened Collections

  datatype Outcome<R> = Pending | Resolved(value: R) | Failed(error: string)

  /** The promise of one item; `reacted` says its callback has run. */
  datatype Promise<T, R> = Promise(item: T, outcome: Outcome<R>, reacted: bool)

  datatype Phase<R> =
    | Looping
    | Racing(members: seq<nat>)
    | Joining
    | Fulfilled(results: seq<R>)
    | Rejected(error: string)

  /** `members` holds the pool as indices into `promises`. */
  datatype State<T, R> = State(promises: seq<Promise<T, R>>, members: seq<nat>, phase: Phase<R>)

  datatype Event<R> =
    | Advance
    | Settle(i: nat, outcome: Outcome<R>)
    | React(i: nat)
    | Wake(i: nat)
    | Join
    | JoinFails(i: nat)

  // ---------------------------------------------------------------- steps

  function Initial<T, R>(): State<T, R> {
    State([], [], Looping)
  }

  function IndexOf(s: seq<nat>, x: nat): (k: int)
    ensures -1 <= k < |s|
    ensures k >= 0 ==> s[k] == x
    ensures k == -1 <==> x !in s
  {
    if s == [] then -1
    else if s[0] == x then 0
    else
      var k := IndexOf(s[1..], x);
      if k == -1 then -1 else k + 1
  }

  /** `s.splice(k, 1)`; index -1 counts from the end. */
  function Splice(s: seq<nat>, k: int): seq<nat>
    requires -1 <= k < |s| || s == []
  {
    if s == [] then []
    else if k == -1 then s[..|s| - 1]
    else s[..k] + s[k + 1..]
  }

  predicate Enabled<T, R(==)>(items: seq<T>, s: State<T, R>, e: Event<R>) {
    match e
    case Advance => s.phase.Looping? && |s.promises| <= |items|
    case Settle(i, outcome) => i < |s.promises| && s.promises[i].outcome.Pending? && !outcome.Pending?
    case React(i) => i < |s.promises| && s.promises[i].outcome.Resolved? && !s.promises[i].reacted
    case Wake(i) =>
      && s.phase.Racing? && i in s.phase.members && i < |s.promises|
      && (s.promises[i].reacted || s.promises[i].outcome.Failed?)
    case Join => s.phase.Joining? && forall i | 0 <= i < |s.promises| :: s.promises[i].outcome.Resolved?
    case JoinFails(i) => s.phase.Joining? && i < |s.promises| && s.promises[i].outcome.Failed?
  }

  function Step<T, R(==)>(items: seq<T>, limit: int, s: State<T, R>, e: Event<R>): State<T, R>
    requires Enabled(items, s, e)
  {
    match e
    case Advance =>
      if |s.promises| == |items| then s.(phase := Joining)
      else
        var k := |s.promises|;
        var members := s.members + [k];
        State(s.promises + [Promise(items[k], Pending, false)],
              members,
              if |members| >= limit then Racing(members) else Looping)
    case Settle(i, outcome) => s.(promises := s.promises[i := s.promises[i].(outcome := outcome)])
    case React(i) =>
      s.(promises := s.promises[i := s.promises[i].(reacted := true)],
         members := Splice(s.members, IndexOf(s.members, i)))
    case Wake(i) =>
      if s.promises[i].outcome.Failed? then s.(phase := Rejected(s.promises[i].outcome.error))
      else s.(phase := Looping)
    case Join =>
      s.(phase := Fulfilled(seq(|s.promises|, i requires 0 <= i < |s.promises| => s.promises[i].outcome.value)))
    case JoinFails(i) => s.(phase := Rejected(s.promises[i].outcome.error))
  }

  /** The states an interleaving goes through, from the call of `pool` on. */
  ghost predicate Run<T, R>(items: seq<T>, limit: int, events: seq<Event<R>>, states: seq<State<T, R>>) {
    && |states| == |events| + 1
    && states[0] == Initial()
    && forall k :: 0 <= k < |events| ==>
         Enabled(items, states[k], events[k]) && states[k + 1] == Step(items, limit, states[k], events[k])
  }

  // ---------------------------------------------------------------- the invariant

  function Width(limit: int): int {
    if limit < 1 then 1 else limit
  }

  ghost predicate Started<T, R>(items: seq<T>, promises: seq<Promise<T, R>>) {
    && |promises| <= |items|
    && forall i :: 0 <= i < |promises| ==>
         promises[i].item == items[i] && (promises[i].reacted ==> promises[i].outcome.Resolved?)
  }

  /** The pool holds exactly the tasks whose callback has not run. */
  ghost predicate PoolExact<T, R>(s: State<T, R>) {
    && NoDuplicates(s.members)
    && (forall i :: i in s.members ==> i < |s.promises|)
    && (forall i :: 0 <= i < |s.promises| ==> (i in s.members <==> !s.promises[i].reacted))
  }

  ghost predicate PhaseOk<T, R>(items: seq<T>, limit: int, s: State<T, R>) {
    match s.phase
    case Looping => |s.members| < Width(limit)
    case Racing(members) =>
      && |members| == Width(limit) && NoDuplicates(members)
      && (forall i :: i in members ==> i < |s.promises|)
      && (forall i :: i in members && s.promises[i].reacted ==> |s.members| < Width(limit))
    case Joining => |s.promises| == |items|
    case Fulfilled(results) =>
      && |results| == |s.promises| == |items|
      && forall i :: 0 <= i < |results| ==> s.promises[i].outcome == Resolved(results[i])
    case Rejected(error) => exists i :: 0 <= i < |s.promises| && s.promises[i].outcome == Failed(error)
  }

  ghost predicate Inv<T, R>(items: seq<T>, limit: int, s: State<T, R>) {
    Started(items, s.promises) && PoolExact(s) && |s.members| <= Width(limit) && PhaseOk(items, limit, s)
  }

  lemma SpliceAt(members: seq<nat>, k: nat)
    requires k < |members|
    ensures var r := Splice(members, k);
            && |r| == |members| - 1
            && forall j :: 0 <= j < |r| ==> r[j] == if j < k then members[j] else members[j + 1]
  {
  }

  lemma SpliceMembers(members: seq<nat>, k: nat, x: nat)
    requires NoDuplicates(members) && k < |members|
    ensures x in Splice(members, k) <==> x in members && x != members[k]
  {
    var r := Splice(members, k);
    SpliceAt(members, k);
    if x in members && x != members[k] {
      var j :| 0 <= j < |members| && members[j] == x;
      assert r[if j < k then j else j - 1] == x;
    }
  }

  lemma SpliceRemovesMember(members: seq<nat>, i: nat)
    requires NoDuplicates(members) && i in members
    ensures 0 <= IndexOf(members, i)
    ensures var r := Splice(members, IndexOf(members, i));
            |r| == |members| - 1 && NoDuplicates(r) && forall x :: x in r <==> x in members && x != i
  {
    var k := IndexOf(members, i);
    SpliceAt(members, k);
    forall x: nat ensures x in Splice(members, k) <==> x in members && x != i {
      SpliceMembers(members, k, x);
    }
  }

  lemma AdvanceKeeps<T, R>(items: seq<T>, limit: int, s: State<T, R>)
    requires Inv(items, limit, s) && s.phase.Looping?
    ensures Inv(items, limit, Step(items, limit, s, Advance))
  {
    if |s.promises| < |items| {
      var k := |s.promises|;
      var t := Step(items, limit, s, Advance);
      assert t.members[|s.members|] == k;
      assert forall j :: 0 <= j < |s.members| ==> t.members[j] == s.members[j] && s.members[j] in s.members;
      assert forall i :: i in t.members <==> i in s.members || i == k;
    }
  }

  lemma SettleKeeps<T, R>(items: seq<T>, limit: int, s: State<T, R>, i: nat, outcome: Outcome<R>)
    requires Inv(items, limit, s) && Enabled(items, s, Settle(i, outcome))
    ensures Inv(items, limit, Step(items, limit, s, Settle(i, outcome)))
  {
    var t := Step(items, limit, s, Settle(i, outcome));
    if s.phase.Rejected? {
      var j :| 0 <= j < |s.promises| && s.promises[j].outcome == Failed(s.phase.error);
      assert t.promises[j].outcome == s.promises[j].outcome;
    }
  }

  lemma ReactKeepsPool<T, R>(items: seq<T>, limit: int, s: State<T, R>, i: nat)
    requires Inv(items, limit, s) && Enabled(items, s, React(i))
    ensures 0 <= IndexOf(s.members, i)
    ensures var t := Step(items, limit, s, React(i));
            Started(items, t.promises) && PoolExact(t) && |t.members| < Width(limit)
  {
    SpliceRemovesMember(s.members, i);
  }

  lemma ReactKeeps<T, R>(items: seq<T>, limit: int, s: State<T, R>, i: nat)
    requires Inv(items, limit, s) && Enabled(items, s, React(i))
    ensures Inv(items, limit, Step(items, limit, s, React(i)))
  {
    ReactKeepsPool(items, limit, s, i);
    var t := Step(items, limit, s, React(i));
    if s.phase.Rejected? {
      var j :| 0 <= j < |s.promises| && s.promises[j].outcome == Failed(s.phase.error);
      assert t.promises[j].outcome == s.promises[j].outcome;
    }
  }

  lemma StepKeeps<T, R>(items: seq<T>, limit: int, s: State<T, R>, e: Event<R>)
    requires Inv(items, limit, s) && Enabled(items, s, e)
    ensures Inv(items, limit, Step(items, limit, s, e))
  {
    match e
    case Advance => AdvanceKeeps(items, limit, s);
    case Settle(i, outcome) => SettleKeeps(items, limit, s, i, outcome);
    case React(i) => ReactKeeps(items, limit, s, i);
    case Wake(i) =>
    case Join =>
    case JoinFails(i) =>
  }

  lemma {:induction false} RunKeeps<T, R>(items: seq<T>, limit: int, events: seq<Event<R>>, states: seq<State<T, R>>, k: nat)
    requires Run(items, limit, events, states) && k <= |events|
    ensures Inv(items, limit, states[k])
  {
    if k > 0 {
      RunKeeps(items, limit, events, states, k - 1);
      StepKeeps(items, limit, states[k - 1], events[k - 1]);
    }
  }

  // ---------------------------------------------------------------- main results

  function InFlight<T, R>(s: State<T, R>): set<nat> {
    set i: nat | i < |s.promises| && s.promises[i].outcome.Pending?
  }

  lemma {:induction false} SubsetOfSeq(xs: set<nat>, s: seq<nat>)
    requires forall x :: x in xs ==> x in s
    ensures |xs| <= |s|
  {
    if s == [] {
      assert xs == {};
    } else {
      var rest := xs - {s[0]};
      SubsetOfSeq(rest, s[1..]);
      assert xs <= rest + {s[0]};
      assert |xs| <= |rest + {s[0]}| <= |rest| + 1;
    }
  }

  /** At every moment of every interleaving at most max(1, limit) tasks are in flight. */
  lemma NeverTooMany<T, R>(items: seq<T>, limit: int, events: seq<Event<R>>, states: seq<State<T, R>>, k: nat)
    requires Run(items, limit, events, states) && k <= |events|
    ensures |InFlight(states[k])| <= Width(limit)
  {
    RunKeeps(items, limit, events, states, k);
    SubsetOfSeq(InFlight(states[k]), states[k].members);
  }

  /** The tasks started so far are a prefix of the items, one each, in order. */
  lemma StartsInOrder<T, R>(items: seq<T>, limit: int, events: seq<Event<R>>, states: seq<State<T, R>>, k: nat)
    requires Run(items, limit, events, states) && k <= |events|
    ensures var p := states[k].promises;
            |p| <= |items| && forall i :: 0 <= i < |p| ==> p[i].item == items[i]
    ensures k < |events| ==> var p, q := states[k].promises, states[k + 1].promises;
            |p| <= |q| <= |p| + 1 && forall i :: 0 <= i < |p| ==> q[i].item == p[i].item
  {
    RunKeeps(items, limit, events, states, k);
  }

  /** A callback always finds its own member, and takes out that one only. */
  lemma CallbackFindsItsMember<T, R>(items: seq<T>, limit: int, events: seq<Event<R>>, states: seq<State<T, R>>, k: nat)
    requires Run(items, limit, events, states) && k < |events| && events[k].React?
    ensures var i := events[k].i;
            && 0 <= IndexOf(states[k].members, i)
            && |states[k + 1].members| == |states[k].members| - 1
            && forall x :: x in states[k + 1].members <==> x in states[k].members && x != i
  {
    RunKeeps(items, limit, events, states, k);
    SpliceRemovesMember(states[k].members, events[k].i);
  }

  /** On success there is one result per item, in order, each from that item's own task;
      a rejection carries the error of a task that failed. */
  lemma ResultsBelongToItems<T, R>(items: seq<T>, limit: int, events: seq<Event<R>>, states: seq<State<T, R>>, k: nat)
    requires Run(items, limit, events, states) && k <= |events|
    ensures states[k].phase.Fulfilled? ==>
              && |states[k].phase.results| == |states[k].promises| == |items|
              && forall i :: 0 <= i < |items| ==>
                   states[k].promises[i] == Promise(items[i], Resolved(states[k].phase.results[i]), states[k].promises[i].reacted)
    ensures states[k].phase.Rejected? ==>
              exists i :: 0 <= i < |states[k].promises| && states[k].promises[i].outcome == Failed(states[k].phase.error)
  {
    RunKeeps(items, limit, events, states, k);
  }

  // ---------------------------------------------------------------- the limit is used

  /** The pool waits for a free place only when it is full. */
  lemma AwaitsOnlyWhenFull<T, R>(items: seq<T>, limit: int, events: seq<Event<R>>, states: seq<State<T, R>>, k: nat)
    requires Run(items, limit, events, states) && k < |events|
    requires !states[k].phase.Racing? && states[k + 1].phase.Racing?
    ensures |states[k + 1].members| == Width(limit)
  {
    RunKeeps(items, limit, events, states, k + 1);
    assert Enabled(items, states[k], events[k]) && states[k + 1] == Step(items, limit, states[k], events[k]);
  }

  lemma {:induction false} SeqInSet(s: seq<nat>, xs: set<nat>)
    requires NoDuplicates(s) && forall i :: 0 <= i < |s| ==> s[i] in xs
    ensures |s| <= |xs|
  {
    if s != [] {
      var n := |s| - 1;
      SeqInSet(s[..n], xs - {s[n]});
    }
  }

  /** While items are left and fewer tasks than allowed are in flight, the pool is about to go on
      without another task settling. */
  lemma NeverIdle<T, R>(items: seq<T>, limit: int, events: seq<Event<R>>, states: seq<State<T, R>>, k: nat)
    requires Run(items, limit, events, states) && k <= |events|
    requires var s := states[k];
             !s.phase.Rejected? && |s.promises| < |items| && |InFlight(s)| < Width(limit)
    ensures var s := states[k];
            || Enabled(items, s, Advance)
            || (exists i :: Enabled(items, s, React(i))) || (exists i :: Enabled(items, s, Wake(i)))
  {
    var s := states[k];
    RunKeeps(items, limit, events, states, k);
    if s.phase.Racing? {
      var members := s.phase.members;
      if forall j :: 0 <= j < |members| ==> members[j] in InFlight(s) {
        SeqInSet(members, InFlight(s));
      }
      var j :| 0 <= j < |members| && members[j] !in InFlight(s);
      var i := members[j];
      assert i in members;
      assert Enabled(items, s, React(i)) || Enabled(items, s, Wake(i));
    }
  }

  lemma ExtendRun<T, R>(items: seq<T>, limit: int, events: seq<Event<R>>, states: seq<State<T, R>>, e: Event<R>)
    requires Run(items, limit, events, states) && Enabled(items, states[|events|], e)
    ensures Run(items, limit, events + [e], states + [Step(items, limit, states[|events|], e)])
  {
    var es, ss := events + [e], states + [Step(items, limit, states[|events|], e)];
    forall k | 0 <= k < |es|
      ensures Enabled(items, ss[k], es[k]) && ss[k + 1] == Step(items, limit, ss[k], es[k])
    {
      assert ss[k] == states[k];
      if k < |events| {
        assert es[k] == events[k] && ss[k + 1] == states[k + 1];
      }
    }
  }

  /** The first n tasks start without any of them having to settle. */
  lemma {:induction false} StartsAtOnce<T, R>(items: seq<T>, limit: int, n: nat)
      returns (events: seq<Event<R>>, states: seq<State<T, R>>)
    requires n <= |items| && n <= Width(limit)
    ensures Run(items, limit, events, states)
    ensures var s := states[|events|];
            && |s.promises| == |s.members| == n && (n < Width(limit) ==> s.phase.Looping?)
            && forall i :: 0 <= i < n ==> s.promises[i].outcome.Pending?
  {
    if n == 0 {
      events, states := [], [Initial()];
    } else {
      events, states := StartsAtOnce(items, limit, n - 1);
      ExtendRun(items, limit, events, states, Advance);
      events, states := events + [Advance], states + [Step(items, limit, states[|events|], Advance)];
    }
  }

  /** The bound is met: as many tasks as the limit and the items allow can be in flight. */
  lemma LimitIsMet<T, R>(items: seq<T>, limit: int) returns (events: seq<Event<R>>, states: seq<State<T, R>>)
    ensures Run(items, limit, events, states)
    ensures |InFlight(states[|events|])| == if Width(limit) <= |items| then Width(limit) else |items|
  {
    var n := if Width(limit) <= |items| then Width(limit) else |items|;
    events, states := StartsAtOnce(items, limit, n);
    var s := states[|events|];
    RunKeeps(items, limit, events, states, |events|);
    forall j | 0 <= j < |s.members| ensures s.members[j] in InFlight(s) {
      var i := s.members[j];
      assert i in s.members && i < n;
    }
    SeqInSet(s.members, InFlight(s));
    SubsetOfSeq(InFlight(s), s.members);
  }

  /** A failure that reaches an await ends the pool with its error, for good. */
  lemma {:induction false} FailureEnds<T, R>(items: seq<T>, limit: int, events: seq<Event<R>>, states: seq<State<T, R>>, k: nat, m: nat)
    requires Run(items, limit, events, states) && k < m <= |events| && (events[k].Wake? || events[k].JoinFails?)
    requires states[k].promises[events[k].i].outcome.Failed?
    ensures states[m].phase == Rejected(states[k].promises[events[k].i].outcome.error)
    decreases m
  {
    var s, e := states[m - 1], events[m - 1];
    assert Enabled(items, s, e) && states[m] == Step(items, limit, s, e);
    if k + 1 < m {
      FailureEnds(items, limit, events, states, k, m - 1);
    }
  }

  // ---------------------------------------------------------------- progress

  /** With no task in flight and no callback due, an unfinished pool can go on by itself. */
  lemma NeverStuck<T, R>(items: seq<T>, limit: int, events: seq<Event<R>>, states: seq<State<T, R>>)
    requires Run(items, limit, events, states)
    requires var s := states[|events|];
             && (forall i :: 0 <= i < |s.promises| ==> !s.promises[i].outcome.Pending?)
             && (forall i :: 0 <= i < |s.promises| && s.promises[i].outcome.Resolved? ==> s.promises[i].reacted)
    ensures var s := states[|events|];
            || s.phase.Fulfilled? || s.phase.Rejected?
            || Enabled(items, s, Advance) || Enabled(items, s, Join)
            || (exists i :: Enabled(items, s, Wake(i))) || (exists i :: Enabled(items, s, JoinFails(i)))
  {
    var s := states[|events|];
    RunKeeps(items, limit, events, states, |events|);
    if s.phase.Racing? {
      var i := s.phase.members[0];
      assert i in s.phase.members;
      assert Enabled(items, s, Wake(i));
    } else if s.phase.Joining? && !Enabled(items, s, Join) {
      var i :| 0 <= i < |s.promises| && !s.promises[i].outcome.Resolved?;
      assert Enabled(items, s, JoinFails(i));
    }
  }

  function Debt<T, R>(p: Promise<T, R>): nat {
    match p.outcome
    case Pending => 2
    case Resolved(_) => if p.reacted then 0 else 1
    case Failed(_) => 0
  }

  function TotalDebt<T, R>(ps: seq<Promise<T, R>>): nat {
    if ps == [] then 0 else Debt(ps[0]) + TotalDebt(ps[1..])
  }

  lemma {:induction false} DebtUpdate<T, R>(ps: seq<Promise<T, R>>, i: nat, p: Promise<T, R>)
    requires i < |ps|
    ensures TotalDebt(ps[i := p]) == TotalDebt(ps) - Debt(ps[i]) + Debt(p)
  {
    if i == 0 {
      assert ps[i := p][1..] == ps[1..];
    } else {
      DebtUpdate(ps[1..], i - 1, p);
      assert ps[i := p][1..] == ps[1..][i - 1 := p];
    }
  }

  lemma {:induction false} DebtAppend<T, R>(ps: seq<Promise<T, R>>, p: Promise<T, R>)
    ensures TotalDebt(ps + [p]) == TotalDebt(ps) + Debt(p)
  {
    if ps == [] {
      assert ([] + [p])[1..] == ps;
      assert ps + [p] == [p];
    } else {
      DebtAppend(ps[1..], p);
      assert (ps + [p])[1..] == ps[1..] + [p];
    }
  }

  function PhaseWeight<R>(p: Phase<R>): nat {
    match p
    case Looping => 2
    case Racing(_) => 3
    case Joining => 1
    case Fulfilled(_) => 0
    case Rejected(_) => 0
  }

  function Remaining<T, R>(items: seq<T>, s: State<T, R>): int {
    4 * (|items| - |s.promises|) + TotalDebt(s.promises) + PhaseWeight(s.phase)
  }

  lemma StepSpends<T, R>(items: seq<T>, limit: int, s: State<T, R>, e: Event<R>)
    requires Inv(items, limit, s) && Enabled(items, s, e)
    ensures Remaining(items, Step(items, limit, s, e)) < Remaining(items, s)
  {
    match e
    case Advance =>
      if |s.promises| < |items| {
        DebtAppend(s.promises, Promise(items[|s.promises|], Pending, false));
      }
    case Settle(i, outcome) => DebtUpdate(s.promises, i, s.promises[i].(outcome := outcome));
    case React(i) => DebtUpdate(s.promises, i, s.promises[i].(reacted := true));
    case Wake(i) =>
    case Join =>
    case JoinFails(i) =>
  }

  /** No interleaving goes on for more than 4n + 2 events. */
  lemma RunsEnd<T, R>(items: seq<T>, limit: int, events: seq<Event<R>>, states: seq<State<T, R>>)
    requires Run(items, limit, events, states)
    ensures |events| <= 4 * |items| + 2
  {
    RunSpends(items, limit, events, states, |events|);
    RunKeeps(items, limit, events, states, |events|);
  }

  lemma {:induction false} RunSpends<T, R>(items: seq<T>, limit: int, events: seq<Event<R>>, states: seq<State<T, R>>, k: nat)
    requires Run(items, limit, events, states) && k <= |events|
    ensures Remaining(items, states[k]) + k <= 4 * |items| + 2
  {
    if k > 0 {
      RunSpends(items, limit, events, states, k - 1);
      RunKeeps(items, limit, events, states, k - 1);
      StepSpends(items, limit, states[k - 1], events[k - 1]);
    }
  }
}
