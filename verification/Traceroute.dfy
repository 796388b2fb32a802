/** The probe machine of `Traceroute`: its counters, its timers, and replies that wait for a
reverse lookup before they are handled. */
module Traceroute {
  import opened Text
  import opened Collections
  import Icmp

  const FIRST_PORT := 33433
  const DEFAULT_HOPS := 64
  const DEFAULT_PROBES := 3

  datatype Options = Options(probes: int, hops: int, destination: string)

  /** Hops outside 1..255, zero and absent ones become the default; probes are taken as given. */
  function MakeOptions(probes: Option<int>, hops: Option<int>, destination: string): (o: Options)
    ensures 1 <= o.hops <= 255
    ensures o.hops == if hops.Some? && 1 <= hops.value <= 255 then hops.value else 64
    ensures o.probes == (if probes.Some? then probes.value else 3) && o.destination == destination
  {
    var h := if hops.None? || hops.value == 0 then DEFAULT_HOPS else hops.value;
    Options(if probes.None? then DEFAULT_PROBES else probes.value,
            if h > 255 || h < 1 then DEFAULT_HOPS else h,
            destination)
  }

  /** `queued` counts scheduled sends, `current` says the timer handle is live, `orphans` counts
      live timers whose handle was overwritten, `lookups` holds replies awaiting a host name,
      `handled` counts the replies and timeouts handled. */
  datatype State = State(
    port: int,
    ttl: int,
    probes: int,
    queued: nat,
    current: bool,
    orphans: nat,
    lookups: multiset<string>,
    handled: nat,
    stopped: Option<bool>)

  datatype Event = Send | Timeout | OrphanTimeout | Message(ip: string) | Lookup(ip: string)

  // ---------------------------------------------------------------- steps

  function Initial(): State {
    State(FIRST_PORT, 1, 0, 1, false, 0, multiset{}, 0, None)
  }

  predicate Enabled(s: State, e: Event) {
    && s.stopped.None?
    && match e
       case Send => s.queued > 0
       case Timeout => s.current
       case OrphanTimeout => s.orphans > 0
       case Message(_) => true
       case Lookup(ip) => ip in s.lookups
  }

  function AfterSend(o: Options, s: State): State
    requires s.queued > 0
  {
    var full := s.probes >= o.probes;
    s.(port := s.port + 1,
       ttl := if full then s.ttl + 1 else s.ttl,
       probes := if full then 1 else s.probes + 1,
       queued := s.queued - 1,
       current := true,
       orphans := if s.current then s.orphans + 1 else s.orphans)
  }

  predicate Stops(o: Options, s: State, ip: Option<string>) {
    s.probes == o.probes && (ip == Some(o.destination) || s.ttl >= o.hops)
  }

  function AfterReply(o: Options, s: State, ip: Option<string>): State {
    var t := s.(current := false, handled := s.handled + 1);
    if Stops(o, s, ip) then t.(stopped := Some(ip == Some(o.destination)))
    else t.(queued := s.queued + 1)
  }

  function Step(o: Options, s: State, e: Event): State
    requires Enabled(s, e)
  {
    match e
    case Send => AfterSend(o, s)
    case Timeout => AfterReply(o, s, None)
    case OrphanTimeout => AfterReply(o, s.(orphans := s.orphans - 1), None)
    case Message(ip) => s.(lookups := s.lookups + multiset{ip})
    case Lookup(ip) => AfterReply(o, s.(lookups := s.lookups - multiset{ip}), Some(ip))
  }

  ghost predicate History(o: Options, events: seq<Event>, states: seq<State>) {
    && |states| == |events| + 1
    && states[0] == Initial()
    && forall n :: 0 <= n < |events| ==> Enabled(states[n], events[n]) && states[n + 1] == Step(o, states[n], events[n])
  }

  function Sends(s: State): int {
    s.port - FIRST_PORT
  }

  // ---------------------------------------------------------------- every interleaving

  /** The counters spell out the port; nothing is lost between handling and sending. */
  ghost predicate Counters(o: Options, s: State) {
    && s.ttl >= 1 && 0 <= s.probes <= o.probes
    && s.port == FIRST_PORT + (s.ttl - 1) * o.probes + s.probes
    && (s.port > FIRST_PORT ==> s.probes >= 1)
    && s.port >= FIRST_PORT
    && Sends(s) + s.queued + (if s.stopped.Some? then 1 else 0) == 1 + s.handled
  }

  lemma SendKeepsCounters(o: Options, s: State)
    requires o.probes >= 1 && Counters(o, s) && s.queued > 0
    ensures Counters(o, AfterSend(o, s)) && AfterSend(o, s).probes >= 1
  {
    if s.probes >= o.probes {
      assert s.ttl * o.probes == (s.ttl - 1) * o.probes + o.probes;
    }
  }

  lemma HandleKeepsCounters(o: Options, s: State, ip: Option<string>)
    requires Counters(o, s) && s.stopped.None?
    ensures Counters(o, AfterReply(o, s, ip))
  {
  }

  lemma StepKeepsCounters(o: Options, s: State, e: Event)
    requires o.probes >= 1 && Counters(o, s) && Enabled(s, e)
    ensures Counters(o, Step(o, s, e))
  {
    match e
    case Send => SendKeepsCounters(o, s);
    case Timeout => HandleKeepsCounters(o, s, None);
    case OrphanTimeout => HandleKeepsCounters(o, s.(orphans := s.orphans - 1), None);
    case Message(_) =>
    case Lookup(ip) => HandleKeepsCounters(o, s.(lookups := s.lookups - multiset{ip}), Some(ip));
  }

  lemma {:induction false} CountersHold(o: Options, events: seq<Event>, states: seq<State>, n: nat)
    requires o.probes >= 1 && History(o, events, states) && n <= |events|
    ensures Counters(o, states[n])
  {
    if n > 0 {
      CountersHold(o, events, states, n - 1);
      StepKeepsCounters(o, states[n - 1], events[n - 1]);
    }
  }

  /** After every send, whatever the interleaving, the port names the hop and the probe. */
  lemma PortNamesProbe(o: Options, events: seq<Event>, states: seq<State>, n: nat)
    requires o.probes >= 1 && History(o, events, states) && n < |events| && events[n].Send?
    ensures var s := states[n + 1];
            && s.port == FIRST_PORT + (s.ttl - 1) * o.probes + s.probes
            && 1 <= s.probes <= o.probes && 1 <= s.ttl
            && s.port == states[n].port + 1
  {
    CountersHold(o, events, states, n);
    SendKeepsCounters(o, states[n]);
  }

  predicate Handles(e: Event) {
    e.Timeout? || e.OrphanTimeout? || e.Lookup?
  }

  function Sent(events: seq<Event>, n: nat): nat
    requires n <= |events|
  {
    if n == 0 then 0 else Sent(events, n - 1) + (if events[n - 1].Send? then 1 else 0)
  }

  function Handled(events: seq<Event>, n: nat): nat
    requires n <= |events|
  {
    if n == 0 then 0 else Handled(events, n - 1) + (if Handles(events[n - 1]) then 1 else 0)
  }

  lemma {:induction false} CountsExactly(o: Options, events: seq<Event>, states: seq<State>, n: nat)
    requires History(o, events, states) && n <= |events|
    ensures Sends(states[n]) == Sent(events, n) && states[n].handled == Handled(events, n)
  {
    if n > 0 {
      CountsExactly(o, events, states, n - 1);
      assert Enabled(states[n - 1], events[n - 1]) && states[n] == Step(o, states[n - 1], events[n - 1]);
    }
  }

  /** Packets sent and still scheduled match the timers that fired and the lookups that ended, one
      for one, except the first packet and the final stop. */
  lemma SendsMatchReplies(o: Options, events: seq<Event>, states: seq<State>, n: nat)
    requires o.probes >= 1 && History(o, events, states) && n <= |events|
    ensures Sends(states[n]) == Sent(events, n)
    ensures var s := states[n];
            Sent(events, n) + s.queued == 1 + Handled(events, n) - (if s.stopped.Some? then 1 else 0)
  {
    CountersHold(o, events, states, n);
    CountsExactly(o, events, states, n);
  }

  // ---------------------------------------------------------------- one send at a time

  /** At no moment are two sends scheduled. */
  ghost predicate OneSendScheduled(states: seq<State>) {
    forall n :: 0 <= n < |states| ==> states[n].queued <= 1
  }

  /** A scheduled send will not go past the last hop. */
  ghost predicate WithinHops(o: Options, s: State) {
    && s.ttl <= o.hops
    && (s.queued > 0 ==> !(s.probes == o.probes && s.ttl >= o.hops))
  }

  lemma {:induction false} HopsHold(o: Options, events: seq<Event>, states: seq<State>, n: nat)
    requires o.probes >= 1 && o.hops >= 1 && History(o, events, states) && n <= |events|
    requires OneSendScheduled(states)
    ensures WithinHops(o, states[n])
  {
    if n > 0 {
      HopsHold(o, events, states, n - 1);
      CountersHold(o, events, states, n - 1);
      assert states[n].queued <= 1 && states[n - 1].queued <= 1;
    }
  }

  lemma Product(a: int, b: int, p: int)
    requires a <= b && p >= 0
    ensures a * p <= b * p
  {
    assert 0 <= (b - a) * p;
  }

  /** While sends are scheduled one at a time the hop limit holds and at most probes * hops
      packets go out. */
  lemma ProbesBounded(o: Options, events: seq<Event>, states: seq<State>, n: nat)
    requires o.probes >= 1 && o.hops >= 1 && History(o, events, states) && n <= |events|
    requires OneSendScheduled(states)
    ensures states[n].ttl <= o.hops
    ensures Sends(states[n]) <= o.hops * o.probes
  {
    HopsHold(o, events, states, n);
    CountersHold(o, events, states, n);
    var s := states[n];
    Product(s.ttl - 1, o.hops - 1, o.probes);
    assert (o.hops - 1) * o.probes + o.probes == o.hops * o.probes;
  }

  /** A run stops after whole hops. It reports the destination exactly when its last event is an
      answer from there, and without that stops at or past the hop limit: after exactly
      probes * hops packets while sends are scheduled one at a time. */
  lemma StopIsExact(o: Options, events: seq<Event>, states: seq<State>)
    requires o.probes >= 1 && o.hops >= 1 && History(o, events, states) && states[|events|].stopped.Some?
    ensures var s := states[|events|];
            && Sends(s) == s.ttl * o.probes
            && events != [] && (s.stopped.value <==> events[|events| - 1] == Lookup(o.destination))
            && (!s.stopped.value ==> s.ttl >= o.hops)
            && (!s.stopped.value && OneSendScheduled(states) ==> Sends(s) == o.hops * o.probes)
  {
    var n := |events|;
    var s := states[n];
    CountersHold(o, events, states, n);
    assert n > 0;
    LastStep(o, events, states);
    assert (s.ttl - 1) * o.probes + o.probes == s.ttl * o.probes;
    if OneSendScheduled(states) {
      ProbesBounded(o, events, states, n);
    }
  }

  lemma {:induction false} LastStep(o: Options, events: seq<Event>, states: seq<State>)
    requires History(o, events, states) && events != [] && states[|events|].stopped.Some?
    ensures var s := states[|events|];
            && s.probes == o.probes
            && (s.stopped.value <==> events[|events| - 1] == Lookup(o.destination))
            && (s.stopped.value || s.ttl >= o.hops)
  {
    var n := |events| - 1;
    assert Enabled(states[n], events[n]) && states[n + 1] == Step(o, states[n], events[n]);
  }

  // ---------------------------------------------------------------- building histories

  lemma Extend(o: Options, events: seq<Event>, states: seq<State>, e: Event)
    requires History(o, events, states) && Enabled(states[|events|], e)
    ensures var ss := states + [Step(o, states[|events|], e)];
            && History(o, events + [e], ss)
            && (OneSendScheduled(states) && ss[|ss| - 1].queued <= 1 ==> OneSendScheduled(ss))
            && (NoStray(events, states) && (e.Message? ==> states[|events|].port > FIRST_PORT) ==> NoStray(events + [e], ss))
  {
    var es, ss := events + [e], states + [Step(o, states[|events|], e)];
    forall n | 0 <= n < |es| ensures Enabled(ss[n], es[n]) && ss[n + 1] == Step(o, ss[n], es[n]) {
      if n < |events| {
        assert ss[n] == states[n] && ss[n + 1] == states[n + 1] && es[n] == events[n];
      }
    }
  }

  /** No message is taken for an answer before the first packet is out. */
  ghost predicate NoStray(events: seq<Event>, states: seq<State>)
    requires |states| == |events| + 1
  {
    forall n :: 0 <= n < |events| && events[n].Message? ==> states[n].port > FIRST_PORT
  }

  /** The same probe and hop, nothing stopped. */
  ghost predicate SameCounters(s: State, t: State) {
    t.port == s.port && t.ttl == s.ttl && t.probes == s.probes && t.stopped == s.stopped
  }

  /** While one probe is out, any number of messages can be handled: each schedules a send. */
  lemma {:induction false} Flood(o: Options, events: seq<Event>, states: seq<State>, ip: string, k: nat)
      returns (es: seq<Event>, ss: seq<State>)
    requires History(o, events, states) && states[|events|].stopped.None? && !Stops(o, states[|events|], Some(ip))
    ensures History(o, es, ss) && SameCounters(states[|events|], ss[|es|])
    ensures ss[|es|].queued == states[|events|].queued + k
    ensures NoStray(events, states) && states[|events|].port > FIRST_PORT ==> NoStray(es, ss)
  {
    if k == 0 {
      es, ss := events, states;
    } else {
      es, ss := Flood(o, events, states, ip, k - 1);
      Extend(o, es, ss, Message(ip));
      es, ss := es + [Message(ip)], ss + [Step(o, ss[|es|], Message(ip))];
      Extend(o, es, ss, Lookup(ip));
      es, ss := es + [Lookup(ip)], ss + [Step(o, ss[|es|], Lookup(ip))];
    }
  }

  /** The scheduled sends all go out. */
  lemma {:induction false} Drain(o: Options, events: seq<Event>, states: seq<State>, k: nat)
      returns (es: seq<Event>, ss: seq<State>)
    requires History(o, events, states) && states[|events|].stopped.None? && k <= states[|events|].queued
    ensures History(o, es, ss) && ss[|es|].stopped.None?
    ensures ss[|es|].port == states[|events|].port + k && ss[|es|].queued == states[|events|].queued - k
    ensures NoStray(events, states) ==> NoStray(es, ss)
  {
    if k == 0 {
      es, ss := events, states;
    } else {
      es, ss := Drain(o, events, states, k - 1);
      Extend(o, es, ss, Send);
      es, ss := es + [Send], ss + [Step(o, ss[|es|], Send)];
    }
  }

  /** Enough packets pass any hop limit. */
  lemma ManySendsPassLimit(o: Options, s: State)
    requires o.probes >= 1 && Counters(o, s) && Sends(s) > o.hops * o.probes
    ensures s.ttl > o.hops
  {
    assert (o.hops - 1) * o.probes + o.probes == o.hops * o.probes;
    if s.ttl <= o.hops {
      Product(s.ttl - 1, o.hops - 1, o.probes);
    }
  }

  // ---------------------------------------------------------------- exactly when the limit holds

  ghost predicate LimitKept(o: Options) {
    forall events: seq<Event>, states: seq<State> :: History(o, events, states) && NoStray(events, states) ==> states[|events|].ttl <= o.hops
  }

  ghost predicate PacketsWithin(o: Options, bound: int) {
    forall events: seq<Event>, states: seq<State> :: History(o, events, states) && NoStray(events, states) ==> Sends(states[|events|]) <= bound
  }

  lemma Other(destination: string) returns (ip: string)
    ensures ip != destination
  {
    ip := destination + "0";
  }

  /** Unless the first handled answer ends the run, repeated or forged answers to the first probe
      each schedule a send: any number of packets goes out, past any hop limit. */
  lemma RepeatedAnswersPassLimit(o: Options, k: nat) returns (es: seq<Event>, ss: seq<State>)
    requires o.probes >= 1 && o.hops >= 1 && !(o.probes == 1 && o.hops == 1)
    ensures History(o, es, ss) && NoStray(es, ss)
    ensures Sends(ss[|es|]) > k && ss[|es|].ttl > o.hops
  {
    var ip := Other(o.destination);
    var n: nat := k + o.hops * o.probes by {
      Product(0, o.hops, o.probes);
    }
    es, ss := [], [Initial()];
    Extend(o, es, ss, Send);
    es, ss := [Send], ss + [Step(o, Initial(), Send)];
    assert !Stops(o, ss[1], Some(ip));
    es, ss := Flood(o, es, ss, ip, n);
    es, ss := Drain(o, es, ss, n);
    CountersHold(o, es, ss, |es|);
    ManySendsPassLimit(o, ss[|es|]);
  }

  /** With one probe to one hop the first answer or timeout ends the run. */
  ghost predicate Single(s: State) {
    if s.port == FIRST_PORT then
      s.ttl == 1 && s.probes == 0 && s.queued == 1 && !s.current && s.orphans == 0 && s.lookups == multiset{} && s.stopped.None?
    else
      s.port == FIRST_PORT + 1 && s.ttl == 1 && s.probes == 1 && s.queued == 0
  }

  lemma {:induction false} SingleProbe(o: Options, events: seq<Event>, states: seq<State>, n: nat)
    requires o.probes == 1 && o.hops == 1 && History(o, events, states) && NoStray(events, states) && n <= |events|
    ensures Single(states[n])
  {
    if n > 0 {
      SingleProbe(o, events, states, n - 1);
    }
  }

  /** Over all interleavings the hop limit holds, and a bound on packets exists, for one probe
      to one hop and for no other options. */
  lemma HopLimitExactly(o: Options)
    requires o.probes >= 1 && o.hops >= 1
    ensures LimitKept(o) <==> o.probes == 1 && o.hops == 1
    ensures (exists bound :: PacketsWithin(o, bound)) <==> o.probes == 1 && o.hops == 1
  {
    if o.probes == 1 && o.hops == 1 {
      forall events: seq<Event>, states: seq<State> | History(o, events, states) && NoStray(events, states)
        ensures states[|events|].ttl <= o.hops && Sends(states[|events|]) <= 1
      {
        SingleProbe(o, events, states, |events|);
      }
      assert PacketsWithin(o, 1);
    } else {
      var es, ss := RepeatedAnswersPassLimit(o, 0);
      forall bound ensures !PacketsWithin(o, bound) {
        var es, ss := RepeatedAnswersPassLimit(o, if bound < 0 then 0 else bound);
      }
    }
  }

  /** A message with the id 33433 that arrives before the first packet is taken for an answer;
      then the limit fails for all options. */
  lemma StrayPassesLimit(o: Options, k: nat) returns (es: seq<Event>, ss: seq<State>)
    requires o.probes >= 1 && o.hops >= 1
    ensures History(o, es, ss)
    ensures Sends(ss[|es|]) > k && ss[|es|].ttl > o.hops
  {
    var ip := Other(o.destination);
    var n: nat := k + o.hops * o.probes by {
      Product(0, o.hops, o.probes);
    }
    es, ss := [], [Initial()];
    es, ss := Flood(o, es, ss, ip, n);
    es, ss := Drain(o, es, ss, n + 1);
    CountersHold(o, es, ss, |es|);
    ManySendsPassLimit(o, ss[|es|]);
  }

  // ---------------------------------------------------------------- no probes per hop

  ghost predicate Unprobed(s: State) {
    && s.port >= FIRST_PORT && s.ttl == 1 + Sends(s)
    && (s.port > FIRST_PORT ==> s.probes == 1 && s.stopped.None?)
    && (s.port == FIRST_PORT ==> s.probes == 0)
  }

  /** With zero or fewer probes per hop no history that has sent a packet ever stops, and every
      send is a new hop. */
  lemma {:induction false} NeverStopsWithoutProbes(o: Options, events: seq<Event>, states: seq<State>, n: nat)
    requires o.probes <= 0 && History(o, events, states) && n <= |events|
    ensures Unprobed(states[n])
  {
    if n > 0 {
      NeverStopsWithoutProbes(o, events, states, n - 1);
    }
  }

  lemma {:induction false} UnboundedWithoutProbes(o: Options, n: nat) returns (events: seq<Event>, states: seq<State>)
    requires o.probes <= 0
    ensures History(o, events, states) && OneSendScheduled(states)
    ensures Sends(states[|events|]) == n && states[|events|].queued == 1 && states[|events|].stopped.None?
  {
    if n == 0 {
      events, states := [], [Initial()];
    } else {
      events, states := UnboundedWithoutProbes(o, n - 1);
      Extend(o, events, states, Send);
      events, states := events + [Send], states + [Step(o, states[|events|], Send)];
      NeverStopsWithoutProbes(o, events, states, |events|);
      Extend(o, events, states, Timeout);
      events, states := events + [Timeout], states + [Step(o, states[|events|], Timeout)];
    }
  }

  ghost predicate BoundedBy(o: Options, bound: int) {
    forall events, states ::
      History(o, events, states) && OneSendScheduled(states) ==> Sends(states[|events|]) <= bound
  }

  /** With sends scheduled one at a time, the number of packets is bounded exactly when there is
      at least one probe per hop. */
  lemma BoundedExactly(o: Options)
    requires o.hops >= 1
    ensures (exists bound :: BoundedBy(o, bound)) <==> o.probes >= 1
  {
    if o.probes >= 1 {
      forall events, states | History(o, events, states) && OneSendScheduled(states)
        ensures Sends(states[|events|]) <= o.hops * o.probes
      {
        ProbesBounded(o, events, states, |events|);
      }
      assert BoundedBy(o, o.hops * o.probes);
    } else {
      forall bound ensures !BoundedBy(o, bound) {
        var events, states := UnboundedWithoutProbes(o, if bound < 0 then 0 else bound + 1);
      }
    }
  }

  // ---------------------------------------------------------------- recognising replies

  /** The network answers the probe that carried `port`. */
  ghost predicate AnswersProbe(msg: seq<Byte>, port: nat) {
    exists size, checksum :: Icmp.Answers(msg, 20, Icmp.PingRequest(0, 0, port, size, checksum))
  }

  lemma ProbeId(msg: seq<Byte>, port: nat)
    requires AnswersProbe(msg, port)
    ensures Icmp.ParsedId(msg) == Icmp.Id(port % 65536)
  {
    var size, checksum :| Icmp.Answers(msg, 20, Icmp.PingRequest(0, 0, port, size, checksum));
    Icmp.AnswerRoundTrip(msg, port, size, checksum);
  }

  /** An answer to an earlier probe is never taken for one to the current probe. */
  lemma StaleNeverTaken(msg: seq<Byte>, earlier: nat, current: nat)
    requires earlier < current && AnswersProbe(msg, earlier)
    ensures Icmp.ParsedId(msg) != Icmp.Id(current)
  {
    ProbeId(msg, earlier);
  }

  /** The answer to the current probe is taken exactly while its port fits in 16 bits. */
  lemma CurrentTakenExactly(msg: seq<Byte>, port: nat)
    requires AnswersProbe(msg, port)
    ensures Icmp.ParsedId(msg) == Icmp.Id(port) <==> port <= 65535
  {
    ProbeId(msg, port);
  }

  /** Every answer to every probe, in every run with sends scheduled one at a time, is taken. */
  ghost predicate AllTaken(o: Options) {
    forall events: seq<Event>, states: seq<State>, msg |
        History(o, events, states) && OneSendScheduled(states) && states[|events|].port > FIRST_PORT
        && AnswersProbe(msg, states[|events|].port) ::
      Icmp.ParsedId(msg) == Icmp.Id(states[|events|].port)
  }

  /** The run in which nothing answers, up to its n-th packet. */
  lemma {:induction false} SilentRun(o: Options, n: nat) returns (events: seq<Event>, states: seq<State>)
    requires o.probes >= 1 && 1 <= n <= o.hops * o.probes
    ensures History(o, events, states) && OneSendScheduled(states)
    ensures Sends(states[|events|]) == n && states[|events|].queued == 0
    ensures states[|events|].current && states[|events|].stopped.None?
  {
    if n == 1 {
      events, states := [], [Initial()];
    } else {
      events, states := SilentRun(o, n - 1);
      CountersHold(o, events, states, |events|);
      NotYetLast(o, states[|events|]);
      Extend(o, events, states, Timeout);
      events, states := events + [Timeout], states + [Step(o, states[|events|], Timeout)];
    }
    Extend(o, events, states, Send);
    events, states := events + [Send], states + [Step(o, states[|events|], Send)];
  }

  lemma NotYetLast(o: Options, s: State)
    requires o.probes >= 1 && Counters(o, s) && Sends(s) < o.hops * o.probes
    ensures !(s.probes == o.probes && s.ttl >= o.hops)
  {
    assert (s.ttl - 1) * o.probes + o.probes == s.ttl * o.probes;
    if s.ttl >= o.hops {
      Product(o.hops, s.ttl, o.probes);
    }
  }

  lemma EchoOf(port: nat) returns (msg: seq<Byte>)
    ensures AnswersProbe(msg, port)
  {
    var request := Icmp.PingRequest(0, 0, port, 0, (0, 0));
    msg := Icmp.PlainHeader(20) + (Icmp.Zeros(4) + request[4..]);
    assert msg[..20] == Icmp.PlainHeader(20) && msg[24..] == request[4..];
    assert Icmp.IsEchoReply(msg, 20, request);
    assert Icmp.Answers(msg, 20, request);
  }

  /** All answers are taken exactly when probes * hops stays within 32102; the port of one more
      probe does not fit in 16 bits. */
  lemma AllTakenExactly(o: Options)
    requires o.probes >= 1 && o.hops >= 1
    ensures AllTaken(o) <==> o.hops * o.probes <= 32102
  {
    if o.hops * o.probes <= 32102 {
      forall events: seq<Event>, states: seq<State>, msg |
          History(o, events, states) && OneSendScheduled(states) && states[|events|].port > FIRST_PORT
          && AnswersProbe(msg, states[|events|].port)
        ensures Icmp.ParsedId(msg) == Icmp.Id(states[|events|].port)
      {
        ProbesBounded(o, events, states, |events|);
        CurrentTakenExactly(msg, states[|events|].port);
      }
    } else {
      var events, states := SilentRun(o, 32103);
      var msg := EchoOf(65536);
      CurrentTakenExactly(msg, 65536);
      assert states[|events|].port == 65536;
    }
  }

  // ---------------------------------------------------------------- the object, one reply at a time

  class Tracer {
    const o: Options
    var port: int
    var ttl: int
    var probes: int
    var previousIP: Option<string>
    /** The machine's state, timers and pending lookups included, and the history behind it. */
    ghost var state: State
    ghost var events: seq<Event>
    ghost var states: seq<State>

    ghost predicate Valid()
      reads this
    {
      && state.port == port && state.ttl == ttl && state.probes == probes
      && History(o, events, states) && states[|events|] == state
    }

    constructor (amountProbes: Option<int>, maximumHops: Option<int>, destination: string)
      ensures o == MakeOptions(amountProbes, maximumHops, destination)
      ensures Valid() && events == []
    {
      o := MakeOptions(amountProbes, maximumHops, destination);
      port, ttl, probes, previousIP := FIRST_PORT, 1, 0, None;
      state, events, states := Initial(), [], [Initial()];
    }

    /** Appends an event to the history. */
    ghost method Record(e: Event)
      requires History(o, events, states) && states[|events|] == state && Enabled(state, e)
      modifies this`state, this`events, this`states
      ensures History(o, events, states) && states[|events|] == state
      ensures state == Step(o, old(state), e) && events == old(events) + [e]
    {
      Extend(o, events, states, e);
      state := Step(o, state, e);
      events, states := events + [e], states + [state];
    }

    method SendPacket()
      requires Valid() && Enabled(state, Send)
      modifies this`port, this`ttl, this`probes, this`state, this`events, this`states
      ensures Valid() && state == Step(o, old(state), Send) && events == old(events) + [Send]
    {
      if probes >= o.probes {
        probes := 0;
        ttl := ttl + 1;
      }
      probes := probes + 1;
      port := port + 1;
      Record(Send);
    }

    /** `e` is the timeout or the lookup that ends in this call. Gives the stop verdict. */
    method HandleReply(ip: Option<string>, ghost e: Event) returns (stop: Option<bool>)
      requires Valid() && Enabled(state, e) && e == if ip.None? then Timeout else Lookup(ip.value)
      modifies this`previousIP, this`state, this`events, this`states
      ensures Valid() && state == Step(o, old(state), e) && events == old(events) + [e]
      ensures stop == state.stopped
    {
      Record(e);
      if probes == o.probes && (ip == Some(o.destination) || ttl >= o.hops) {
        return Some(ip == Some(o.destination));
      }
      previousIP := ip;
      stop := None;
    }

    /** The machine waits to send one packet. */
    ghost predicate Ready()
      reads this
    {
      Valid() && Counters(o, state) && state.stopped.None? && state.queued == 1
    }

    /** Sends a probe and handles its answer or timeout. */
    method Probe(ip: Option<string>) returns (stop: Option<bool>)
      requires Ready() && o.probes >= 1
      modifies this
      ensures Valid() && Counters(o, state) && state.stopped == stop && (stop.None? ==> Ready())
      ensures port == old(port) + 1
      ensures if old(probes) < o.probes then ttl == old(ttl) && probes == old(probes) + 1
              else ttl == old(ttl) + 1 && probes == 1
      ensures stop == if probes == o.probes && (ip == Some(o.destination) || ttl >= o.hops)
                      then Some(ip == Some(o.destination)) else None
    {
      SendKeepsCounters(o, state);
      SendPacket();
      if ip.Some? {
        StepKeepsCounters(o, state, Message(ip.value));
        Record(Message(ip.value));
        StepKeepsCounters(o, state, Lookup(ip.value));
        stop := HandleReply(ip, Lookup(ip.value));
      } else {
        StepKeepsCounters(o, state, Timeout);
        stop := HandleReply(ip, Timeout);
      }
    }

    /** The reply to the last probe of hop `h`; `replies(n)` answers the n-th probe. */
    ghost predicate LastProbeReached(replies: nat -> Option<string>, h: int) {
      h * o.probes >= 1 && replies(h * o.probes - 1) == Some(o.destination)
    }

    /** With each probe answered once, or timed out, before the next, the destination counts as
        reached exactly when it answers the last probe of some hop within the limit; the run
        ends at the first such hop, or at the limit. The run is a history of the machine. */
    method Execute(replies: nat -> Option<string>) returns (reached: bool)
      requires Valid() && events == [] && o.probes >= 1 && o.hops >= 1
      modifies this
      ensures Valid() && state.stopped == Some(reached)
      ensures 1 <= ttl <= o.hops && port == FIRST_PORT + ttl * o.probes
      ensures reached <==> LastProbeReached(replies, ttl)
      ensures reached || ttl == o.hops
      ensures forall h :: 1 <= h < ttl ==> !LastProbeReached(replies, h)
    {
      var n := 0;
      while true
        invariant Ready() && n == port - FIRST_PORT && ttl <= o.hops
        invariant !(probes == o.probes && ttl >= o.hops)
        invariant forall h :: 1 <= h < ttl ==> !LastProbeReached(replies, h)
        invariant probes == o.probes ==> !LastProbeReached(replies, ttl)
        decreases o.hops - ttl, o.probes - probes
      {
        var stop := Probe(replies(n));
        n := n + 1;
        assert (ttl - 1) * o.probes + o.probes == ttl * o.probes;
        if stop.Some? {
          return stop.value;
        }
      }
    }
  }
}
