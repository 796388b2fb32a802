/** Client certificates: the cache keyed by host and port, the resolver it short-cuts, and the
attempts that race to fill it. */
module Certificates {
  import opened Text
  import opened Collections
  import Wildcard

  datatype Cert = Cert(path: string, hostname: string, passphrase: Option<string>, port: Option<string>)

  /** The parts of a parsed URL; an explicit port is made of digits. */
  datatype UrlParts = UrlParts(hostname: string, port: string, protocol: string)
  type Url = u: UrlParts | '_' !in u.port witness UrlParts("", "", "")

  function PortFromUrl(u: Url): (p: string)
    ensures '_' !in p
  {
    if u.port != "" then u.port
    else if u.protocol == "http:" then "80"
    else if u.protocol == "https:" then "443"
    else ""
  }

  function Key(u: Url): string {
    u.hostname + ['_'] + PortFromUrl(u)
  }

  predicate MatchHostnameAndPort(hostname: string, port: string, cert: Cert) {
    && (cert.hostname == hostname || Wildcard.Matches(cert.hostname, hostname))
    && (cert.port.None? || cert.port.value == "" || cert.port.value == port)
  }

  predicate Suits(u: Url, cert: Cert) {
    MatchHostnameAndPort(u.hostname, PortFromUrl(u), cert)
  }

  /** The plain filter over the registered certificates. */
  function Filter(u: Url, certs: seq<Cert>): seq<Cert> {
    if certs == [] then []
    else (if Suits(u, certs[0]) then [certs[0]] else []) + Filter(u, certs[1..])
  }

  function Cached(cache: map<string, Cert>, u: Url): Option<Cert> {
    if Key(u) in cache then Some(cache[Key(u)]) else None
  }

  function Resolve(cache: map<string, Cert>, u: Url, certs: seq<Cert>): seq<Cert> {
    var cached := Cached(cache, u);
    if cached.Some? then [cached.value] else Filter(u, certs)
  }

  // ---------------------------------------------------------------- keys and matching

  lemma {:induction false} LastUnderscore(a: string, p: string, b: string, q: string)
    requires '_' !in p && '_' !in q && a + ['_'] + p == b + ['_'] + q
    ensures a == b && p == q
  {
    var s, t := a + ['_'] + p, b + ['_'] + q;
    assert s[|a|] == '_' && t[|b|] == '_';
    assert forall i :: |a| < i < |s| ==> s[i] in p;
    assert forall i :: |b| < i < |t| ==> t[i] in q;
    assert |a| == |b|;
    assert a == s[..|a|] && b == t[..|b|];
    assert p == s[|a| + 1..] && q == t[|b| + 1..];
  }

  /** Two requests share a key exactly when they share host and port. */
  lemma KeyInjective(u: Url, v: Url)
    ensures Key(u) == Key(v) <==> u.hostname == v.hostname && PortFromUrl(u) == PortFromUrl(v)
  {
    if Key(u) == Key(v) {
      LastUnderscore(u.hostname, PortFromUrl(u), v.hostname, PortFromUrl(v));
    }
  }

  /** The equality test in front of the wildcard is only a fast path. */
  lemma EqualityIsFastPath(hostname: string, port: string, cert: Cert)
    ensures MatchHostnameAndPort(hostname, port, cert)
       <==> Wildcard.Glob(cert.hostname, hostname, true)
            && (cert.port.None? || cert.port.value == "" || cert.port.value == port)
  {
    Wildcard.MatchesItself(cert.hostname);
    Wildcard.MatchesIsOneLineGlob(cert.hostname, hostname);
  }

  /** When a certificate registered for a port is found: its host must match, and its port must
      be the one in the URL, or the default one of http or https. A URL of any other scheme, such
      as wss, has no default port and finds none. */
  lemma PortedCertFoundExactly(u: Url, certs: seq<Cert>, cert: Cert)
    requires cert in certs && cert.port.Some? && cert.port.value != ""
    ensures cert in Filter(u, certs) <==>
              && Wildcard.Glob(cert.hostname, u.hostname, true)
              && (if u.port != "" then cert.port.value == u.port
                  else (u.protocol == "http:" && cert.port.value == "80")
                       || (u.protocol == "https:" && cert.port.value == "443"))
  {
    FilterExactly(u, certs, cert);
    EqualityIsFastPath(u.hostname, PortFromUrl(u), cert);
  }

  /** A certificate registered without a port is found exactly when its host matches. */
  lemma PlainCertFoundExactly(u: Url, certs: seq<Cert>, cert: Cert)
    requires cert in certs && (cert.port.None? || cert.port.value == "")
    ensures cert in Filter(u, certs) <==> Wildcard.Glob(cert.hostname, u.hostname, true)
  {
    FilterExactly(u, certs, cert);
    EqualityIsFastPath(u.hostname, PortFromUrl(u), cert);
  }

  /** The default port of a secure web socket is not known: a certificate for 443 that matches
      any host is not found for a wss URL without a port. */
  lemma WssDefaultPortMissed(hostname: string, cert: Cert)
    requires cert.hostname == "*" && cert.port == Some("443")
    ensures Filter(UrlParts(hostname, "", "wss:"), [cert]) == []
  {
    var u: Url := UrlParts(hostname, "", "wss:");
    PortedCertFoundExactly(u, [cert], cert);
    assert [cert][1..] == [];
  }

  lemma {:induction false} FilterExactly(u: Url, certs: seq<Cert>, cert: Cert)
    ensures cert in Filter(u, certs) <==> cert in certs && Suits(u, cert)
  {
    if certs != [] {
      FilterExactly(u, certs[1..], cert);
    }
  }

  /** `small` is obtained from `large` by leaving elements out. */
  predicate Sublist(small: seq<Cert>, large: seq<Cert>) {
    if small == [] then true
    else if large == [] then false
    else (small[0] == large[0] && Sublist(small[1..], large[1..])) || Sublist(small, large[1..])
  }

  lemma {:induction false} SelfSublist(s: seq<Cert>)
    ensures Sublist(s, s)
  {
    if s != [] {
      SelfSublist(s[1..]);
    }
  }

  lemma {:induction false} SingleSublist(c: Cert, s: seq<Cert>)
    requires c in s
    ensures Sublist([c], s)
  {
    if s[0] == c {
      assert [c][1..] == [];
    } else {
      SingleSublist(c, s[1..]);
    }
  }

  // ---------------------------------------------------------------- racing attempts

  datatype Attempt = Attempt(url: Url, cert: Cert, done: bool)
  datatype State = State(cache: map<string, Cert>, attempts: seq<Attempt>)

  /** A request resolves its certificates and tries each; an attempt ends well or badly. */
  datatype Event = Request(url: Url) | Succeed(i: nat) | Fail(i: nat)

  function Attempts(u: Url, certs: seq<Cert>): seq<Attempt> {
    seq(|certs|, i requires 0 <= i < |certs| => Attempt(u, certs[i], false))
  }

  predicate Enabled(s: State, e: Event) {
    e.Request? || (e.i < |s.attempts| && !s.attempts[e.i].done)
  }

  /** The first writer of a key wins. */
  function Added(cache: map<string, Cert>, u: Url, cert: Cert): map<string, Cert> {
    if Key(u) in cache then cache else cache[Key(u) := cert]
  }

  function Step(certs: seq<Cert>, s: State, e: Event): State
    requires Enabled(s, e)
  {
    match e
    case Request(u) => s.(attempts := s.attempts + Attempts(u, Resolve(s.cache, u, certs)))
    case Succeed(i) =>
      var a := s.attempts[i];
      State(Added(s.cache, a.url, a.cert), s.attempts[i := a.(done := true)])
    case Fail(i) => s.(attempts := s.attempts[i := s.attempts[i].(done := true)])
  }

  ghost predicate History(certs: seq<Cert>, events: seq<Event>, states: seq<State>) {
    && |states| == |events| + 1
    && states[0] == State(map[], [])
    && forall n :: 0 <= n < |events| ==>
         Enabled(states[n], events[n]) && states[n + 1] == Step(certs, states[n], events[n])
  }

  ghost predicate Fits(certs: seq<Cert>, u: Url, cert: Cert) {
    cert in certs && Suits(u, cert)
  }

  /** Whatever is cached for the key of a request fits that request. */
  ghost predicate CacheFits(certs: seq<Cert>, cache: map<string, Cert>) {
    forall u: Url :: Key(u) in cache ==> Fits(certs, u, cache[Key(u)])
  }

  ghost predicate Inv(certs: seq<Cert>, s: State) {
    && CacheFits(certs, s.cache)
    && forall i :: 0 <= i < |s.attempts| ==> Fits(certs, s.attempts[i].url, s.attempts[i].cert)
  }

  lemma AddedFits(certs: seq<Cert>, cache: map<string, Cert>, u: Url, cert: Cert)
    requires CacheFits(certs, cache) && Fits(certs, u, cert)
    ensures CacheFits(certs, Added(cache, u, cert))
  {
    var grown := Added(cache, u, cert);
    forall v: Url | Key(v) in grown ensures Fits(certs, v, grown[Key(v)]) {
      KeyInjective(u, v);
    }
  }

  lemma ResolvedFits(certs: seq<Cert>, cache: map<string, Cert>, u: Url, cert: Cert)
    requires CacheFits(certs, cache) && cert in Resolve(cache, u, certs)
    ensures Fits(certs, u, cert)
  {
    FilterExactly(u, certs, cert);
  }

  lemma StepKeeps(certs: seq<Cert>, s: State, e: Event)
    requires Inv(certs, s) && Enabled(s, e)
    ensures Inv(certs, Step(certs, s, e))
  {
    match e
    case Request(u) =>
      var found := Resolve(s.cache, u, certs);
      forall i | 0 <= i < |found| ensures Fits(certs, u, found[i]) {
        ResolvedFits(certs, s.cache, u, found[i]);
      }
    case Succeed(i) => AddedFits(certs, s.cache, s.attempts[i].url, s.attempts[i].cert);
    case Fail(i) =>
  }

  lemma {:induction false} HistoryKeeps(certs: seq<Cert>, events: seq<Event>, states: seq<State>, n: nat)
    requires History(certs, events, states) && n <= |events|
    ensures Inv(certs, states[n])
  {
    if n > 0 {
      HistoryKeeps(certs, events, states, n - 1);
      StepKeeps(certs, states[n - 1], events[n - 1]);
    }
  }

  // ---------------------------------------------------------------- main results

  /** In every interleaving a cached certificate is registered and suits every request that
      reads it. */
  lemma CachedSuitsRequest(certs: seq<Cert>, events: seq<Event>, states: seq<State>, n: nat, u: Url)
    requires History(certs, events, states) && n <= |events| && Key(u) in states[n].cache
    ensures states[n].cache[Key(u)] in certs && Suits(u, states[n].cache[Key(u)])
  {
    HistoryKeeps(certs, events, states, n);
    assert Fits(certs, u, states[n].cache[Key(u)]);
  }

  /** A cached certificate never changes. */
  lemma {:induction false} CacheOnlyGrows(certs: seq<Cert>, events: seq<Event>, states: seq<State>, n: nat, m: nat)
    requires History(certs, events, states) && n <= m <= |events|
    ensures forall key :: key in states[n].cache ==>
              key in states[m].cache && states[m].cache[key] == states[n].cache[key]
    decreases m - n
  {
    if n < m {
      CacheOnlyGrows(certs, events, states, n, m - 1);
      assert Enabled(states[m - 1], events[m - 1]) && states[m] == Step(certs, states[m - 1], events[m - 1]);
    }
  }

  /** A successful attempt for the key. */
  ghost predicate SucceedsFor(s: State, e: Event, key: string) {
    e.Succeed? && e.i < |s.attempts| && Key(s.attempts[e.i].url) == key
  }

  /** A key gets into the cache exactly by a successful attempt for it, with that attempt's
      certificate. */
  lemma CachedBySuccess(certs: seq<Cert>, events: seq<Event>, states: seq<State>, n: nat, key: string)
    requires History(certs, events, states) && n < |events|
    ensures var s, t := states[n], states[n + 1];
            key !in s.cache ==> && (key in t.cache <==> SucceedsFor(s, events[n], key))
                                && (key in t.cache ==> t.cache[key] == s.attempts[events[n].i].cert)
  {
    assert Enabled(states[n], events[n]) && states[n + 1] == Step(certs, states[n], events[n]);
  }

  /** What is cached for a key is the certificate of the first attempt for it that succeeded. */
  lemma {:induction false} FirstSuccessIsCached(certs: seq<Cert>, events: seq<Event>, states: seq<State>, n: nat, key: string)
    requires History(certs, events, states) && n <= |events|
    ensures key in states[n].cache <==> exists m :: 0 <= m < n && SucceedsFor(states[m], events[m], key)
    ensures forall m :: 0 <= m < n && FirstSuccess(events, states, m, key) ==>
              key in states[n].cache && states[n].cache[key] == states[m].attempts[events[m].i].cert
  {
    if n > 0 {
      FirstSuccessIsCached(certs, events, states, n - 1, key);
      CachedBySuccess(certs, events, states, n - 1, key);
      CacheOnlyGrows(certs, events, states, n - 1, n);
    }
  }

  ghost predicate FirstSuccess(events: seq<Event>, states: seq<State>, m: nat, key: string)
    requires m < |events| < |states|
  {
    && SucceedsFor(states[m], events[m], key)
    && forall j :: 0 <= j < m ==> !SucceedsFor(states[j], events[j], key)
  }

  function IsSuited(u: Url): Cert -> bool {
    cert => Suits(u, cert)
  }

  /** The filter keeps exactly the suitable certificates, in order of registration. */
  lemma {:induction false} FilterPicks(u: Url, certs: seq<Cert>)
    ensures Picks(certs, Filter(u, certs), IsSuited(u))
  {
    if certs == [] {
      PicksNothing(IsSuited(u));
    } else {
      FilterPicks(u, certs[1..]);
      PicksCons(certs[0], certs[1..], Filter(u, certs[1..]), IsSuited(u));
      assert [certs[0]] + certs[1..] == certs;
    }
  }

  /** A request tries the cached certificate alone, or every suitable one, one attempt each in
      order; earlier attempts stay as they are. */
  lemma RequestTries(certs: seq<Cert>, events: seq<Event>, states: seq<State>, n: nat, u: Url)
    requires History(certs, events, states) && n < |events| && events[n] == Request(u)
    ensures var s, t := states[n], states[n + 1];
            var tried := if Key(u) in s.cache then [s.cache[Key(u)]] else Filter(u, certs);
            && t.cache == s.cache
            && |t.attempts| == |s.attempts| + |tried| && s.attempts <= t.attempts
            && forall i :: 0 <= i < |tried| ==> t.attempts[|s.attempts| + i] == Attempt(u, tried[i], false)
  {
    assert states[n + 1] == Step(certs, states[n], events[n]);
  }

  /** An attempt that ends is not ended again, and no other attempt changes. */
  lemma AttemptEnds(certs: seq<Cert>, events: seq<Event>, states: seq<State>, n: nat)
    requires History(certs, events, states) && n < |events| && !events[n].Request?
    ensures var s, t := states[n], states[n + 1];
            && events[n].i < |s.attempts| == |t.attempts|
            && !s.attempts[events[n].i].done && t.attempts[events[n].i].done
            && forall i :: 0 <= i < |s.attempts| ==>
                 && t.attempts[i].url == s.attempts[i].url && t.attempts[i].cert == s.attempts[i].cert
                 && (i != events[n].i ==> t.attempts[i] == s.attempts[i])
  {
    assert Enabled(states[n], events[n]) && states[n + 1] == Step(certs, states[n], events[n]);
  }

  /** Resolving through the cache leaves elements of the plain filter out, never all of them. */
  lemma ResolveShortcutsFilter(certs: seq<Cert>, events: seq<Event>, states: seq<State>, n: nat, u: Url)
    requires History(certs, events, states) && n <= |events|
    ensures var found := Resolve(states[n].cache, u, certs);
            && Sublist(found, Filter(u, certs))
            && (found == [] <==> Filter(u, certs) == [])
            && (Key(u) !in states[n].cache ==> found == Filter(u, certs))
  {
    SelfSublist(Filter(u, certs));
    if Key(u) in states[n].cache {
      CachedSuitsRequest(certs, events, states, n, u);
      var cert := states[n].cache[Key(u)];
      FilterExactly(u, certs, cert);
      SingleSublist(cert, Filter(u, certs));
    }
  }

  // ---------------------------------------------------------------- the cache object

  class CertificatesCache {
    var cache: map<string, Cert>

    constructor ()
      ensures cache == map[]
    {
      cache := map[];
    }

    method Add(u: Url, cert: Cert)
      modifies this
      ensures cache == Added(old(cache), u, cert)
      ensures Key(u) in cache && (Key(u) in old(cache) ==> cache == old(cache))
    {
      var key := Key(u);
      if key in cache {
        return;
      }
      cache := cache[key := cert];
    }
  }
}
