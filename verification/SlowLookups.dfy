/** The probe machine with at most one answer per probe, when reverse lookups may be slower than
the probe timeout: a probe can then be handled twice, once by its timeout and once by its answer. */
module SlowLookups {
  import opened Text
  import opened Traceroute

  // ---------------------------------------------------------------- one answer per probe

  /** No stray message, and no two messages taken for answers to the same probe. */
  ghost predicate OneAnswerPerProbe(events: seq<Event>, states: seq<State>)
    requires |states| == |events| + 1
  {
    && NoStray(events, states)
    && forall m, n :: 0 <= m < n < |events| && events[m].Message? && events[n].Message? ==> states[m].port != states[n].port
  }

  /** The current probe has had no answer before `n`. */
  ghost predicate Unanswered(events: seq<Event>, states: seq<State>, n: nat)
    requires n <= |events| < |states|
  {
    && states[n].port > FIRST_PORT
    && forall m :: 0 <= m < n && events[m].Message? ==> states[m].port != states[n].port
  }

  lemma {:induction false} PortsGrow(o: Options, events: seq<Event>, states: seq<State>, m: nat, n: nat)
    requires History(o, events, states) && m <= n <= |events|
    ensures FIRST_PORT <= states[m].port <= states[n].port
  {
    if n > m {
      PortsGrow(o, events, states, m, n - 1);
      assert states[n] == Step(o, states[n - 1], events[n - 1]);
    } else if n > 0 {
      PortsGrow(o, events, states, m - 1, n - 1);
      assert states[n] == Step(o, states[n - 1], events[n - 1]);
    }
  }

  lemma SentIsUnanswered(o: Options, events: seq<Event>, states: seq<State>, n: nat)
    requires History(o, events, states) && 0 < n <= |events| && events[n - 1].Send?
    ensures Unanswered(events, states, n)
  {
    assert states[n] == Step(o, states[n - 1], events[n - 1]);
    forall m | 0 <= m < n ensures states[m].port < states[n].port && states[n].port > FIRST_PORT {
      PortsGrow(o, events, states, m, n - 1);
    }
    PortsGrow(o, events, states, n - 1, n - 1);
  }

  function Messages(events: seq<Event>, n: nat): nat
    requires n <= |events|
  {
    if n == 0 then 0 else Messages(events, n - 1) + (if events[n - 1].Message? then 1 else 0)
  }

  /** An answer leaves its probe answered. */
  lemma AnswerCounts(o: Options, events: seq<Event>, states: seq<State>, n: nat)
    requires History(o, events, states) && OneAnswerPerProbe(events, states) && n < |events| && events[n].Message?
    ensures Unanswered(events, states, n) && !Unanswered(events, states, n + 1) && states[n + 1].port == states[n].port
  {
    assert states[n + 1] == Step(o, states[n], events[n]);
  }

  lemma SendCounts(o: Options, events: seq<Event>, states: seq<State>, n: nat)
    requires History(o, events, states) && n < |events| && events[n].Send?
    ensures Sends(states[n + 1]) == Sends(states[n]) + 1
  {
    assert states[n + 1] == Step(o, states[n], events[n]);
  }

  lemma OthersKeepCount(o: Options, events: seq<Event>, states: seq<State>, n: nat)
    requires History(o, events, states) && n < |events| && !events[n].Message? && !events[n].Send?
    ensures states[n + 1].port == states[n].port
    ensures Unanswered(events, states, n + 1) ==> Unanswered(events, states, n)
  {
    assert states[n + 1] == Step(o, states[n], events[n]);
  }

  /** There are no more answers than probes. */
  lemma {:induction false} AnswersWithinSends(o: Options, events: seq<Event>, states: seq<State>, n: nat)
    requires History(o, events, states) && OneAnswerPerProbe(events, states) && n <= |events|
    ensures Messages(events, n) + (if Unanswered(events, states, n) then 1 else 0) <= Sends(states[n])
  {
    if n == 0 {
      assert states[0] == Initial();
    } else {
      AnswersWithinSends(o, events, states, n - 1);
      if events[n - 1].Message? {
        AnswerCounts(o, events, states, n - 1);
      } else if events[n - 1].Send? {
        SendCounts(o, events, states, n - 1);
      } else {
        OthersKeepCount(o, events, states, n - 1);
      }
    }
  }

  // ---------------------------------------------------------------- one probe per hop

  function Timers(s: State): nat {
    (if s.current then 1 else 0) + s.orphans
  }

  /** Handled replies and timeouts that did not stop the run. */
  function Passed(s: State): int {
    s.handled - (if s.stopped.Some? then 1 else 0)
  }

  /** Below the last hop what was handled, can still time out or is being looked up comes from a
      probe's timer or its answer; from the last hop on nothing passes any more. */
  ghost predicate Budget(o: Options, s: State, messages: nat) {
    if Sends(s) < o.hops then s.handled + Timers(s) + |s.lookups| <= Sends(s) + messages
    else Passed(s) <= 2 * (o.hops - 1)
  }

  lemma OneProbePerHop(o: Options, s: State)
    requires o.probes == 1 && Counters(o, s) && s.port > FIRST_PORT
    ensures s.probes == 1 && s.ttl == Sends(s)
  {
  }

  /** Before the first packet nothing can time out and nothing is being looked up. */
  ghost predicate Untouched(s: State) {
    s.port == FIRST_PORT ==> Timers(s) == 0 && s.lookups == multiset{}
  }

  lemma {:induction false} StepKeepsBudget(o: Options, s: State, e: Event, messages: nat)
    requires o.probes == 1 && o.hops >= 1 && Counters(o, s) && Budget(o, s, messages) && Untouched(s)
    requires Enabled(s, e) && messages <= Sends(s) && (e.Message? ==> s.port > FIRST_PORT)
    ensures Budget(o, Step(o, s, e), messages + (if e.Message? then 1 else 0)) && Untouched(Step(o, s, e))
  {
    if s.port > FIRST_PORT {
      OneProbePerHop(o, s);
    }
  }

  lemma NthStep(o: Options, events: seq<Event>, states: seq<State>, n: nat)
    requires History(o, events, states) && OneAnswerPerProbe(events, states) && n < |events|
    ensures Enabled(states[n], events[n]) && states[n + 1] == Step(o, states[n], events[n])
    ensures events[n].Message? ==> states[n].port > FIRST_PORT
    ensures Messages(events, n) <= Sends(states[n])
    ensures Messages(events, n + 1) == Messages(events, n) + (if events[n].Message? then 1 else 0)
  {
    AnswersWithinSends(o, events, states, n);
  }

  lemma {:induction false} BudgetHolds(o: Options, events: seq<Event>, states: seq<State>, n: nat)
    requires o.probes == 1 && o.hops >= 1
    requires History(o, events, states) && OneAnswerPerProbe(events, states) && n <= |events|
    ensures Budget(o, states[n], Messages(events, n)) && Untouched(states[n])
  {
    if n > 0 {
      var s, e, messages := states[n - 1], events[n - 1], Messages(events, n - 1);
      BudgetHolds(o, events, states, n - 1);
      CountersHold(o, events, states, n - 1);
      NthStep(o, events, states, n - 1);
      StepKeepsBudget(o, s, e, messages);
    } else {
      assert states[0] == Initial();
    }
  }

  /** With one probe per hop and one answer per probe, fewer than twice the hops go out, whatever
      the lookups do. */
  lemma OneProbePerHopBounded(o: Options, events: seq<Event>, states: seq<State>)
    requires o.probes == 1 && o.hops >= 1 && History(o, events, states) && OneAnswerPerProbe(events, states)
    ensures Sends(states[|events|]) <= 2 * o.hops - 1
  {
    BudgetHolds(o, events, states, |events|);
    CountersHold(o, events, states, |events|);
  }

  // ---------------------------------------------------------------- building histories

  lemma ExtendOne(o: Options, events: seq<Event>, states: seq<State>, e: Event)
    requires History(o, events, states) && OneAnswerPerProbe(events, states) && Enabled(states[|events|], e)
    requires e.Message? ==> Unanswered(events, states, |events|)
    ensures var es, ss := events + [e], states + [Step(o, states[|events|], e)];
            History(o, es, ss) && OneAnswerPerProbe(es, ss)
  {
    Extend(o, events, states, e);
    var es, ss := events + [e], states + [Step(o, states[|events|], e)];
    assert forall n :: 0 <= n < |es| ==> ss[n] == states[n];
    assert forall n :: 0 <= n < |events| ==> es[n] == events[n];
  }

  /** A history with one answer per probe that ends in `s`. */
  ghost predicate Reaches(o: Options, events: seq<Event>, states: seq<State>, s: State) {
    History(o, events, states) && OneAnswerPerProbe(events, states) && states[|events|] == s
  }

  lemma Then(o: Options, events: seq<Event>, states: seq<State>, s: State, e: Event) returns (es: seq<Event>, ss: seq<State>)
    requires Reaches(o, events, states, s) && Enabled(s, e) && !e.Message?
    ensures Reaches(o, es, ss, Step(o, s, e)) && (e.Send? ==> Unanswered(es, ss, |es|))
  {
    ExtendOne(o, events, states, e);
    es, ss := events + [e], states + [Step(o, s, e)];
    if e.Send? {
      SentIsUnanswered(o, es, ss, |es|);
    }
  }

  /** Sends a packet and gets its one answer, still to be looked up. */
  lemma SendAndAnswer(o: Options, events: seq<Event>, states: seq<State>, s: State, ip: string)
      returns (es: seq<Event>, ss: seq<State>)
    requires Reaches(o, events, states, s) && Enabled(s, Send)
    ensures Reaches(o, es, ss, Answered(o, s, ip))
  {
    es, ss := Then(o, events, states, s, Send);
    var t := Step(o, s, Send);
    ExtendOne(o, es, ss, Message(ip));
    es, ss := es + [Message(ip)], ss + [Step(o, t, Message(ip))];
  }

  function Answered(o: Options, s: State, ip: string): State
    requires Enabled(s, Send)
  {
    Step(o, Step(o, s, Send), Message(ip))
  }

  /** Nothing is out: no timer runs and no lookup is pending. */
  ghost predicate Idle(s: State) {
    s.stopped.None? && s.queued >= 1 && !s.current && s.orphans == 0 && s.lookups == multiset{}
  }

  /** The timeout, then the late lookup: the probe is handled twice. */
  lemma HandleTwice(o: Options, events: seq<Event>, states: seq<State>, s: State, ip: string)
      returns (es: seq<Event>, ss: seq<State>, t: State)
    requires Reaches(o, events, states, s) && Idle(s)
    requires !Stops(o, Step(o, s, Send), None) && !Stops(o, Step(o, s, Send), Some(ip))
    ensures Reaches(o, es, ss, t) && Idle(t)
    ensures t.queued == s.queued + 1 && SameCounters(Step(o, s, Send), t)
  {
    es, ss := SendAndAnswer(o, events, states, s, ip);
    var a := Answered(o, s, ip);
    es, ss := Then(o, es, ss, a, Timeout);
    var b := Step(o, a, Timeout);
    es, ss := Then(o, es, ss, b, Lookup(ip));
    t := Step(o, b, Lookup(ip));
  }

  // ---------------------------------------------------------------- several probes per hop

  /** Between probes, not at the end of a hop, with a send to spare. */
  ghost predicate Spare(o: Options, s: State) {
    Idle(s) && Counters(o, s) && s.probes != o.probes && (s.port > FIRST_PORT ==> s.queued >= 2)
  }

  /** The last probe of a hop is left alone until the next one is out; then its timeout, its
      answer and the answer to the next are handled. */
  lemma OverTheHop(o: Options, events: seq<Event>, states: seq<State>, s: State, ip: string)
      returns (es: seq<Event>, ss: seq<State>, t: State)
    requires o.probes >= 2 && Reaches(o, events, states, s) && Spare(o, s) && s.probes + 1 == o.probes
    ensures Reaches(o, es, ss, t) && Spare(o, t) && t.port == s.port + 2
  {
    es, ss := SendAndAnswer(o, events, states, s, ip);
    var a := Answered(o, s, ip);
    es, ss := SendAndAnswer(o, es, ss, a, ip);
    var b := Answered(o, a, ip);
    es, ss := Then(o, es, ss, b, OrphanTimeout);
    var c := Step(o, b, OrphanTimeout);
    es, ss := Then(o, es, ss, c, Lookup(ip));
    var d := Step(o, c, Lookup(ip));
    es, ss := Then(o, es, ss, d, Lookup(ip));
    t := Step(o, d, Lookup(ip));
    CountersHold(o, es, ss, |es|);
    assert t.lookups == multiset{};
  }

  lemma {:induction false} Crowd(o: Options, n: nat) returns (es: seq<Event>, ss: seq<State>, t: State)
    requires o.probes >= 2
    ensures Reaches(o, es, ss, t) && Spare(o, t) && Sends(t) >= n
  {
    if n == 0 {
      es, ss, t := [], [Initial()], Initial();
    } else {
      var s;
      es, ss, s := Crowd(o, n - 1);
      if s.probes + 1 == o.probes {
        es, ss, t := OverTheHop(o, es, ss, s, "");
      } else {
        es, ss, t := HandleTwice(o, es, ss, s, "");
        CountersHold(o, es, ss, |es|);
      }
    }
  }

  // ---------------------------------------------------------------- one probe per hop, to the bound

  /** Every probe below the last hop is handled twice. */
  lemma {:induction false} Pairs(o: Options, ip: string, k: nat) returns (es: seq<Event>, ss: seq<State>, t: State)
    requires o.probes == 1 && k < o.hops && ip != o.destination
    ensures Reaches(o, es, ss, t) && Idle(t) && Sends(t) == k && t.queued == k + 1
  {
    if k == 0 {
      es, ss, t := [], [Initial()], Initial();
    } else {
      var s;
      es, ss, s := Pairs(o, ip, k - 1);
      CountersHold(o, es, ss, |es|);
      SendKeepsCounters(o, s);
      OneProbePerHop(o, AfterSend(o, s));
      es, ss, t := HandleTwice(o, es, ss, s, ip);
    }
  }

  lemma {:induction false} DrainOne(o: Options, events: seq<Event>, states: seq<State>, s: State, k: nat)
      returns (es: seq<Event>, ss: seq<State>, t: State)
    requires Reaches(o, events, states, s) && s.stopped.None? && k <= s.queued
    ensures Reaches(o, es, ss, t) && t.stopped.None? && t.port == s.port + k && t.queued == s.queued - k
  {
    if k == 0 {
      es, ss, t := events, states, s;
    } else {
      var u;
      es, ss, u := DrainOne(o, events, states, s, k - 1);
      es, ss := Then(o, es, ss, u, Send);
      t := Step(o, u, Send);
    }
  }

  /** The bound for one probe per hop is met. */
  lemma BoundIsMet(o: Options) returns (es: seq<Event>, ss: seq<State>)
    requires o.probes == 1 && o.hops >= 1
    ensures History(o, es, ss) && OneAnswerPerProbe(es, ss) && Sends(ss[|es|]) == 2 * o.hops - 1
  {
    var ip := Other(o.destination);
    var s, t;
    es, ss, s := Pairs(o, ip, o.hops - 1);
    es, ss, t := DrainOne(o, es, ss, s, o.hops);
  }

  // ---------------------------------------------------------------- main results

  ghost predicate KeepsLimit(o: Options) {
    forall events: seq<Event>, states: seq<State> ::
      History(o, events, states) && OneAnswerPerProbe(events, states) ==> states[|events|].ttl <= o.hops
  }

  ghost predicate SendsWithin(o: Options, bound: int) {
    forall events: seq<Event>, states: seq<State> ::
      History(o, events, states) && OneAnswerPerProbe(events, states) ==> Sends(states[|events|]) <= bound
  }

  /** With one answer per probe, lookups slower than the timeout leave the number of packets
      bounded exactly for one probe per hop, and then by 2 * hops - 1 and nothing less. */
  lemma PacketsBoundedExactly(o: Options)
    requires o.probes >= 1 && o.hops >= 1
    ensures (exists bound :: SendsWithin(o, bound)) <==> o.probes == 1
    ensures o.probes == 1 ==> forall bound :: SendsWithin(o, bound) <==> bound >= 2 * o.hops - 1
  {
    if o.probes == 1 {
      forall events: seq<Event>, states: seq<State> | History(o, events, states) && OneAnswerPerProbe(events, states)
        ensures Sends(states[|events|]) <= 2 * o.hops - 1
      {
        OneProbePerHopBounded(o, events, states);
      }
      assert SendsWithin(o, 2 * o.hops - 1);
      var es, ss := BoundIsMet(o);
    } else {
      forall bound ensures !SendsWithin(o, bound) {
        var es, ss, t := Crowd(o, if bound < 0 then 0 else bound + 1);
      }
    }
  }

  /** The hop limit survives them exactly for one probe to one hop. */
  lemma LimitKeptExactly(o: Options)
    requires o.probes >= 1 && o.hops >= 1
    ensures KeepsLimit(o) <==> o.probes == 1 && o.hops == 1
  {
    if o.probes == 1 && o.hops == 1 {
      forall events: seq<Event>, states: seq<State> | History(o, events, states) && OneAnswerPerProbe(events, states)
        ensures states[|events|].ttl <= o.hops
      {
        OneProbePerHopBounded(o, events, states);
        CountersHold(o, events, states, |events|);
      }
    } else if o.probes == 1 {
      var es, ss := BoundIsMet(o);
      CountersHold(o, es, ss, |es|);
      OneProbePerHop(o, ss[|es|]);
    } else {
      Product(0, o.hops, o.probes);
      var es, ss, t := Crowd(o, o.hops * o.probes + 1);
      ManySendsPassLimit(o, t);
    }
  }
}
