/** The store of request scripts: an insertion-ordered map, filled from local files and from
the cloud, where a local script keeps cloud scripts out. */
module Scripts {
  import opened Text
  import opened Collections
  import opened OrderedMap
  import Wildcard

  datatype Kind = Local | Remote

  /** Source text and whether the engine can compile it. */
  datatype Code = Code(text: string, compiles: bool)

  datatype Script = Script(id: string, kind: Kind, code: Code)

  type Item = Pair<string, Script>

  /** A map in insertion order. */
  type Store = seq<Item>

  /** Whether constructing the script succeeds rather than throws. */
  predicate Accepted(id: string, code: Code) {
    id != [] && code.text != [] && code.compiles
  }

  // ---------------------------------------------------------------- the ordered map

  function DeleteKey(store: Store, key: string): Store {
    if store == [] then []
    else if store[0].key == key then store[1..]
    else [store[0]] + DeleteKey(store[1..], key)
  }

  function OfKind(store: Store, kind: Kind): Store {
    if store == [] then []
    else (if store[0].value.kind == kind then [store[0]] else []) + OfKind(store[1..], kind)
  }

  function Other(kind: Kind): Kind {
    if kind == Local then Remote else Local
  }

  /** Every key is its script's id, and no key comes twice. */
  ghost predicate WellKeyed(store: Store) {
    && (forall i :: 0 <= i < |store| ==> store[i].key == store[i].value.id)
    && DistinctKeys(store)
  }

  ghost predicate AllOf(store: Store, kind: Kind) {
    forall i :: 0 <= i < |store| ==> store[i].value.kind == kind
  }

  lemma SetKeepsWellKeyed(store: Store, script: Script)
    requires WellKeyed(store)
    ensures WellKeyed(Put(store, Pair(script.id, script)))
  {
    PutShape(store, Pair(script.id, script));
  }

  lemma {:induction false} DeleteMiddle(a: Store, x: Item, b: Store)
    requires forall i :: 0 <= i < |a| ==> a[i].key != x.key
    ensures DeleteKey(a + [x] + b, x.key) == a + b
  {
    var s := a + [x] + b;
    if a == [] {
      assert s[1..] == b && a + b == b;
    } else {
      assert s[1..] == a[1..] + [x] + b;
      DeleteMiddle(a[1..], x, b);
      assert [a[0]] + (a[1..] + b) == a + b;
    }
  }

  lemma OfKindCons(x: Item, rest: Store, kind: Kind)
    ensures OfKind([x] + rest, kind) == (if x.value.kind == kind then [x] else []) + OfKind(rest, kind)
  {
    assert ([x] + rest)[1..] == rest;
  }

  lemma {:induction false} OfKindSnoc(store: Store, x: Item, kind: Kind)
    ensures OfKind(store + [x], kind) == OfKind(store, kind) + (if x.value.kind == kind then [x] else [])
  {
    if store == [] {
      OfKindCons(x, [], kind);
      assert store + [x] == [x] + [];
    } else {
      OfKindCons(store[0], store[1..] + [x], kind);
      assert store + [x] == [store[0]] + (store[1..] + [x]);
      OfKindSnoc(store[1..], x, kind);
    }
  }

  /** Filtering keeps the members of that kind and no others. */
  lemma {:induction false} OfKindMembers(store: Store, kind: Kind)
    ensures forall x :: x in OfKind(store, kind) <==> x in store && x.value.kind == kind
  {
    if store != [] {
      OfKindMembers(store[1..], kind);
      assert forall x :: x in store <==> x == store[0] || x in store[1..];
    }
  }

  lemma {:induction false} OfKindFrom(store: Store, kind: Kind)
    ensures AllOf(OfKind(store, kind), kind)
    ensures forall x :: x in OfKind(store, kind) <==> x in store && x.value.kind == kind
    ensures WellKeyed(store) ==> WellKeyed(OfKind(store, kind))
  {
    OfKindMembers(store, kind);
    var all := OfKind(store, kind);
    assert forall i :: 0 <= i < |all| ==> all[i] in all;
    if WellKeyed(store) {
      OfKindWellKeyed(store, kind);
    }
  }

  lemma ConsWellKeyed(x: Item, rest: Store)
    requires WellKeyed(rest) && x.key == x.value.id
    requires forall i :: 0 <= i < |rest| ==> rest[i].key != x.key
    ensures WellKeyed([x] + rest)
  {
  }

  lemma OthersKeyed(store: Store, kind: Kind, i: nat)
    requires WellKeyed(store) && store != [] && i < |OfKind(store[1..], kind)|
    ensures OfKind(store[1..], kind)[i].key != store[0].key
  {
    OfKindMembers(store[1..], kind);
    assert OfKind(store[1..], kind)[i] in store[1..];
  }

  lemma {:induction false} OfKindWellKeyed(store: Store, kind: Kind)
    requires WellKeyed(store)
    ensures WellKeyed(OfKind(store, kind))
  {
    if store != [] {
      OfKindWellKeyed(store[1..], kind);
      var rest := OfKind(store[1..], kind);
      if store[0].value.kind == kind {
        forall i | 0 <= i < |rest| ensures rest[i].key != store[0].key {
          OthersKeyed(store, kind, i);
        }
        ConsWellKeyed(store[0], rest);
      } else {
        assert [] + rest == rest;
      }
    }
  }

  lemma {:induction false} OfKindAll(store: Store, kind: Kind)
    requires AllOf(store, kind)
    ensures OfKind(store, kind) == store && OfKind(store, Other(kind)) == []
  {
    if store != [] {
      OfKindAll(store[1..], kind);
    }
  }

  lemma OfKindTwice(store: Store)
    ensures OfKind(OfKind(store, Local), Local) == OfKind(store, Local)
    ensures OfKind(OfKind(store, Local), Remote) == []
  {
    OfKindFrom(store, Local);
    OfKindAll(OfKind(store, Local), Local);
  }

  // ---------------------------------------------------------------- events

  datatype Entry = Entry(wildcard: string, code: Code)

  /** A local file is loaded, or the cloud sends its scripts (a single text counts as one
      entry for `*`). */
  datatype Event = LoadLocal(entry: Entry) | CloudUpdate(entries: seq<Entry>)

  /** The keys of the sent object differ. */
  predicate DistinctWildcards(entries: seq<Entry>) {
    forall i, j :: 0 <= i < j < |entries| ==> entries[i].wildcard != entries[j].wildcard
  }

  predicate Legal(e: Event) {
    e.CloudUpdate? ==> DistinctWildcards(e.entries)
  }

  function SetScript(store: Store, kind: Kind, e: Entry): Store {
    if Accepted(e.wildcard, e.code) then Put(store, Pair(e.wildcard, Script(e.wildcard, kind, e.code))) else store
  }

  /** The entries stored before the first one that throws. */
  function UpToThrow(entries: seq<Entry>): seq<Entry> {
    if entries == [] || !Accepted(entries[0].wildcard, entries[0].code) then []
    else [entries[0]] + UpToThrow(entries[1..])
  }

  function SetAll(store: Store, entries: seq<Entry>): Store
    decreases |entries|
  {
    if entries == [] || !Accepted(entries[0].wildcard, entries[0].code) then store
    else SetAll(SetScript(store, Remote, entries[0]), entries[1..])
  }

  function Step(store: Store, e: Event): Store {
    match e
    case LoadLocal(entry) => SetScript(store, Local, entry)
    case CloudUpdate(entries) =>
      var kept := OfKind(store, Local);
      if kept != [] then kept else SetAll(kept, entries)
  }

  function AsRemote(e: Entry): Item {
    Pair(e.wildcard, Script(e.wildcard, Remote, e.code))
  }

  function AllRemote(entries: seq<Entry>): Store {
    seq(|entries|, i requires 0 <= i < |entries| => AsRemote(entries[i]))
  }

  lemma {:induction false} SetAllAppends(store: Store, entries: seq<Entry>)
    requires DistinctWildcards(entries)
    requires forall i, j :: 0 <= i < |store| && 0 <= j < |entries| ==> store[i].key != entries[j].wildcard
    ensures SetAll(store, entries) == store + AllRemote(UpToThrow(entries))
    decreases |entries|
  {
    if entries == [] || !Accepted(entries[0].wildcard, entries[0].code) {
      assert store + AllRemote([]) == store;
    } else {
      var e := entries[0];
      PutShape(store, AsRemote(e));
      assert !HasKey(store, e.wildcard);
      var next := store + [AsRemote(e)];
      assert SetScript(store, Remote, e) == next;
      SetAllAppends(next, entries[1..]);
      var rest := UpToThrow(entries[1..]);
      assert UpToThrow(entries) == [e] + rest;
      assert AllRemote([e] + rest) == [AsRemote(e)] + AllRemote(rest);
      assert next + AllRemote(rest) == store + ([AsRemote(e)] + AllRemote(rest));
    }
  }

  // ---------------------------------------------------------------- main results

  /** After a cloud update the store holds the local scripts alone, if there are any, and
      otherwise exactly the entries of this update up to the first that throws. */
  lemma UpdateIsExclusive(store: Store, entries: seq<Entry>)
    requires DistinctWildcards(entries)
    ensures OfKind(store, Local) != [] ==> Step(store, CloudUpdate(entries)) == OfKind(store, Local)
    ensures OfKind(store, Local) == [] ==> Step(store, CloudUpdate(entries)) == AllRemote(UpToThrow(entries))
  {
    if OfKind(store, Local) == [] {
      SetAllAppends([], entries);
      assert [] + AllRemote(UpToThrow(entries)) == AllRemote(UpToThrow(entries));
    }
  }

  lemma {:induction false} NoThrowExactly(entries: seq<Entry>)
    ensures UpToThrow(entries) == entries <==>
              forall i :: 0 <= i < |entries| ==> Accepted(entries[i].wildcard, entries[i].code)
  {
    if entries != [] {
      NoThrowExactly(entries[1..]);
      if Accepted(entries[0].wildcard, entries[0].code) {
        assert UpToThrow(entries)[1..] == UpToThrow(entries[1..]);
        assert entries == [entries[0]] + entries[1..];
      }
    }
  }

  /** The entries before the first one that throws. */
  lemma {:induction false} UpToThrowExactly(entries: seq<Entry>)
    ensures UpToThrow(entries) <= entries
    ensures forall i :: 0 <= i < |UpToThrow(entries)| ==> Accepted(entries[i].wildcard, entries[i].code)
    ensures var n := |UpToThrow(entries)|; n < |entries| ==> !Accepted(entries[n].wildcard, entries[n].code)
  {
    if entries != [] && Accepted(entries[0].wildcard, entries[0].code) {
      var rest := UpToThrow(entries[1..]);
      UpToThrowExactly(entries[1..]);
      assert UpToThrow(entries) == [entries[0]] + rest;
      assert forall i :: 1 <= i < |entries| ==> entries[i] == entries[1..][i - 1];
    }
  }

  /** Without local scripts, what an update stores: its entries in order, each under its key with
      its own code, up to the first one that throws. */
  lemma UpdateStores(store: Store, entries: seq<Entry>)
    requires DistinctWildcards(entries) && OfKind(store, Local) == []
    ensures var t := Step(store, CloudUpdate(entries));
            && |t| <= |entries|
            && (forall i :: 0 <= i < |t| ==>
                  && entries[i].wildcard != "" && entries[i].code.text != "" && entries[i].code.compiles
                  && t[i] == Pair(entries[i].wildcard, Script(entries[i].wildcard, Remote, entries[i].code)))
            && (|t| < |entries| ==>
                  var e := entries[|t|]; e.wildcard == "" || e.code.text == "" || !e.code.compiles)
  {
    UpdateIsExclusive(store, entries);
    UpToThrowExactly(entries);
  }

  /** Without local scripts an update is stored whole, in order, exactly when every entry is
      accepted. */
  lemma AcceptedWhole(store: Store, entries: seq<Entry>)
    requires DistinctWildcards(entries) && OfKind(store, Local) == []
    ensures Step(store, CloudUpdate(entries)) == AllRemote(entries) <==>
              forall i :: 0 <= i < |entries| ==> Accepted(entries[i].wildcard, entries[i].code)
  {
    UpdateIsExclusive(store, entries);
    NoThrowExactly(entries);
    UpToThrowExactly(entries);
    assert |AllRemote(entries)| == |entries|;
    assert |AllRemote(UpToThrow(entries))| == |UpToThrow(entries)|;
  }

  /** No cloud update removes, replaces or reorders a local script. */
  lemma UpdateKeepsLocals(store: Store, entries: seq<Entry>)
    requires DistinctWildcards(entries)
    ensures OfKind(Step(store, CloudUpdate(entries)), Local) == OfKind(store, Local)
  {
    UpdateIsExclusive(store, entries);
    OfKindTwice(store);
    if OfKind(store, Local) == [] {
      OfKindAll(AllRemote(UpToThrow(entries)), Remote);
    }
  }

  ghost predicate History(events: seq<Event>, stores: seq<Store>) {
    && |stores| == |events| + 1
    && stores[0] == []
    && (forall n :: 0 <= n < |events| ==> Legal(events[n]))
    && forall n :: 0 <= n < |events| ==> stores[n + 1] == Step(stores[n], events[n])
  }

  lemma {:induction false} SetAllWellKeyed(store: Store, entries: seq<Entry>)
    requires WellKeyed(store)
    ensures WellKeyed(SetAll(store, entries))
    decreases |entries|
  {
    if entries != [] && Accepted(entries[0].wildcard, entries[0].code) {
      SetKeepsWellKeyed(store, Script(entries[0].wildcard, Remote, entries[0].code));
      SetAllWellKeyed(SetScript(store, Remote, entries[0]), entries[1..]);
    }
  }

  /** In every history each key is its script's id and no key comes twice. */
  lemma {:induction false} KeysAreIds(events: seq<Event>, stores: seq<Store>, n: nat)
    requires History(events, stores) && n <= |events|
    ensures WellKeyed(stores[n])
  {
    if n > 0 {
      KeysAreIds(events, stores, n - 1);
      var store := stores[n - 1];
      match events[n - 1]
      case LoadLocal(e) =>
        SetKeepsWellKeyed(store, Script(e.wildcard, Local, e.code));
      case CloudUpdate(entries) =>
        OfKindFrom(store, Local);
        SetAllWellKeyed(OfKind(store, Local), entries);
    }
  }

  /** A local load puts its own script, of its own code, under its key, at the place of that key or
      at the end; every other place stays. A script that throws leaves the store as it was. */
  lemma LoadStores(store: Store, e: Entry)
    requires WellKeyed(store)
    ensures var t, p := Step(store, LoadLocal(e)), Pair(e.wildcard, Script(e.wildcard, Local, e.code));
            if e.wildcard == "" || e.code.text == "" || !e.code.compiles then t == store
            else if HasKey(store, e.wildcard)
            then |t| == |store| && forall i :: 0 <= i < |t| ==> t[i] == if store[i].key == e.wildcard then p else store[i]
            else t == store + [p]
  {
    var p := Pair(e.wildcard, Script(e.wildcard, Local, e.code));
    PutShape(store, p);
    PutAtKey(store, p);
  }

  lemma {:induction false} PutAtKey(store: Store, p: Item)
    requires DistinctKeys(store)
    ensures |store| <= |Put(store, p)|
    ensures forall i :: 0 <= i < |store| ==> Put(store, p)[i] == if store[i].key == p.key then p else store[i]
  {
    PutShape(store, p);
    if store != [] && store[0].key != p.key {
      PutAtKey(store[1..], p);
      var r, rest := Put(store, p), Put(store[1..], p);
      assert forall i :: 1 <= i < |r| ==> r[i] == rest[i - 1];
    }
  }

  /** In every history the script of the last accepted load of a key is stored under it, whatever
      updates follow. */
  lemma {:induction false} LastLoadIsStored(events: seq<Event>, stores: seq<Store>, m: nat, n: nat)
    requires History(events, stores) && m < n <= |events| && AcceptedLoad(events[m])
    requires forall j :: m < j < n && AcceptedLoad(events[j]) ==> events[j].entry.wildcard != events[m].entry.wildcard
    ensures var e := events[m].entry; Pair(e.wildcard, Script(e.wildcard, Local, e.code)) in stores[n]
    decreases n
  {
    var e, store := events[m].entry, stores[n - 1];
    var p := Pair(e.wildcard, Script(e.wildcard, Local, e.code));
    KeysAreIds(events, stores, n - 1);
    assert Legal(events[n - 1]) && stores[n] == Step(store, events[n - 1]);
    if m == n - 1 {
      PutIsThere(store, p);
    } else {
      LastLoadIsStored(events, stores, m, n - 1);
      StaysThere(store, events[n - 1], p);
    }
  }

  lemma StaysThere(store: Store, e: Event, p: Item)
    requires WellKeyed(store) && Legal(e) && p in store && p.value.kind == Local
    requires AcceptedLoad(e) ==> e.entry.wildcard != p.key
    ensures p in Step(store, e)
  {
    if e.CloudUpdate? {
      OfKindMembers(store, Local);
      UpdateIsExclusive(store, e.entries);
      assert p in OfKind(store, Local);
    } else if AcceptedLoad(e) {
      LoadStores(store, e.entry);
      var i :| 0 <= i < |store| && store[i] == p;
      assert Step(store, e)[i] == p;
    }
  }

  function IsOfKind(kind: Kind): Item -> bool {
    (x: Item) => x.value.kind == kind
  }

  /** Choosing a kind keeps exactly its scripts, in order. */
  lemma {:induction false} OfKindPicks(store: Store, kind: Kind)
    ensures Picks(store, OfKind(store, kind), IsOfKind(kind))
  {
    if store == [] {
      PicksNothing(IsOfKind(kind));
    } else {
      OfKindPicks(store[1..], kind);
      PicksCons(store[0], store[1..], OfKind(store[1..], kind), IsOfKind(kind));
      assert [store[0]] + store[1..] == store;
    }
  }

  /** Every local load comes before every cloud update. */
  ghost predicate LocalsFirst(events: seq<Event>) {
    forall i, j :: 0 <= i < j < |events| && events[i].CloudUpdate? ==> events[j].CloudUpdate?
  }

  lemma LoadIntoLocals(store: Store, e: Entry)
    requires AllOf(store, Local)
    ensures AllOf(Step(store, LoadLocal(e)), Local)
  {
    PutShape(store, Pair(e.wildcard, Script(e.wildcard, Local, e.code)));
  }

  lemma {:induction false} LocalsOnly(events: seq<Event>, stores: seq<Store>, n: nat)
    requires History(events, stores) && n <= |events|
    requires forall i :: 0 <= i < n ==> events[i].LoadLocal?
    ensures AllOf(stores[n], Local)
  {
    if n > 0 {
      LocalsOnly(events, stores, n - 1);
      assert events[n - 1].LoadLocal?;
      LoadIntoLocals(stores[n - 1], events[n - 1].entry);
    }
  }

  /** With the local loads first, the store is all local, or exactly the last update's
      entries up to the first that throws. */
  lemma {:induction false} NeverMixed(events: seq<Event>, stores: seq<Store>, n: nat)
    requires History(events, stores) && n <= |events| && LocalsFirst(events)
    ensures || AllOf(stores[n], Local)
            || (n > 0 && events[n - 1].CloudUpdate? && stores[n] == AllRemote(UpToThrow(events[n - 1].entries)))
  {
    if n > 0 {
      if events[n - 1].LoadLocal? {
        assert forall i :: 0 <= i < n ==> events[i].LoadLocal?;
        LocalsOnly(events, stores, n);
      } else {
        assert Legal(events[n - 1]);
        UpdateIsExclusive(stores[n - 1], events[n - 1].entries);
        OfKindFrom(stores[n - 1], Local);
      }
    }
  }

  // ---------------------------------------------------------------- exactly when both kinds meet

  ghost predicate HasLocal(store: Store) {
    exists i :: 0 <= i < |store| && store[i].value.kind == Local
  }

  /** A cloud script is stored under the key. */
  ghost predicate RemoteKey(store: Store, key: string) {
    exists i :: 0 <= i < |store| && store[i].value.kind == Remote && store[i].key == key
  }

  ghost predicate Mixed(store: Store) {
    HasLocal(store) && exists key :: RemoteKey(store, key)
  }

  lemma RemoteKeyCons(x: Item, rest: Store, key: string)
    ensures RemoteKey([x] + rest, key) <==> (x.value.kind == Remote && x.key == key) || RemoteKey(rest, key)
  {
    var all := [x] + rest;
    if RemoteKey(rest, key) {
      var i :| 0 <= i < |rest| && rest[i].value.kind == Remote && rest[i].key == key;
      assert all[i + 1] == rest[i];
    }
    if x.value.kind == Remote && x.key == key {
      assert all[0] == x;
    }
    if RemoteKey(all, key) {
      var i :| 0 <= i < |all| && all[i].value.kind == Remote && all[i].key == key;
      assert i > 0 ==> rest[i - 1] == all[i];
    }
  }

  /** A local script takes the place of the cloud script of its key, and of no other. */
  lemma {:induction false} PutLocal(store: Store, p: Item, key: string)
    requires DistinctKeys(store) && p.value.kind == Local
    ensures RemoteKey(Put(store, p), key) <==> RemoteKey(store, key) && key != p.key
  {
    if store != [] {
      var head, rest := store[0], store[1..];
      assert [head] + rest == store;
      RemoteKeyCons(head, rest, key);
      if head.key == p.key {
        RemoteKeyCons(p, rest, key);
        assert !RemoteKey(rest, head.key);
      } else {
        PutLocal(rest, p, key);
        RemoteKeyCons(head, Put(rest, p), key);
      }
    }
  }

  lemma {:induction false} PutIsThere(store: Store, p: Item)
    ensures p in Put(store, p)
  {
    if store != [] && store[0].key != p.key {
      PutIsThere(store[1..], p);
    }
  }

  /** What a local load makes of a store: an accepted one mixes it exactly when a cloud script
      under another key is there; any other leaves it as it is. */
  lemma LoadMixesExactly(store: Store, e: Entry)
    requires WellKeyed(store)
    ensures Mixed(Step(store, LoadLocal(e))) <==>
              if Accepted(e.wildcard, e.code) then exists key :: RemoteKey(store, key) && key != e.wildcard
              else Mixed(store)
  {
    if Accepted(e.wildcard, e.code) {
      var p := Pair(e.wildcard, Script(e.wildcard, Local, e.code));
      var after := Put(store, p);
      PutIsThere(store, p);
      var i :| 0 <= i < |after| && after[i] == p;
      assert HasLocal(after);
      forall key ensures RemoteKey(after, key) <==> RemoteKey(store, key) && key != e.wildcard {
        PutLocal(store, p, key);
      }
    }
  }

  lemma LocalsHere(store: Store)
    ensures HasLocal(store) <==> OfKind(store, Local) != []
  {
    OfKindMembers(store, Local);
    var locals := OfKind(store, Local);
    if HasLocal(store) {
      var i :| 0 <= i < |store| && store[i].value.kind == Local;
      assert store[i] in locals;
    }
    if locals != [] {
      assert locals[0] in locals && locals[0] in store;
    }
  }

  /** The update stores something under the key. */
  ghost predicate Offers(e: Event, key: string) {
    e.CloudUpdate? && var stored := UpToThrow(e.entries); exists i :: 0 <= i < |stored| && stored[i].wildcard == key
  }

  lemma RemoteKeyOfAll(stored: seq<Entry>, key: string)
    ensures RemoteKey(AllRemote(stored), key) <==> exists i :: 0 <= i < |stored| && stored[i].wildcard == key
  {
    var remotes := AllRemote(stored);
    assert forall i :: 0 <= i < |stored| ==> remotes[i].value.kind == Remote && remotes[i].key == stored[i].wildcard;
  }

  /** After an update the cloud scripts are the ones it offers, if no local script is there. */
  lemma UpdateRemotes(store: Store, entries: seq<Entry>, key: string)
    requires DistinctWildcards(entries)
    ensures RemoteKey(Step(store, CloudUpdate(entries)), key) <==> !HasLocal(store) && Offers(CloudUpdate(entries), key)
  {
    UpdateIsExclusive(store, entries);
    LocalsHere(store);
    if OfKind(store, Local) == [] {
      RemoteKeyOfAll(UpToThrow(entries), key);
    } else {
      OfKindFrom(store, Local);
    }
  }

  predicate AcceptedLoad(e: Event) {
    e.LoadLocal? && Accepted(e.entry.wildcard, e.entry.code)
  }

  /** A local script was loaded, or one of this key, between two points. */
  ghost predicate LoadedIn(events: seq<Event>, from: nat, to: nat) {
    exists j :: from <= j < to && j < |events| && AcceptedLoad(events[j])
  }

  ghost predicate KeyLoadedIn(events: seq<Event>, from: nat, to: nat, key: string) {
    exists j :: from <= j < to && j < |events| && AcceptedLoad(events[j]) && events[j].entry.wildcard == key
  }

  /** The last update before `n` came at `c`. */
  ghost predicate LastUpdate(events: seq<Event>, n: nat, c: nat) {
    c < n <= |events| && events[c].CloudUpdate? && forall j :: c < j < n ==> events[j].LoadLocal?
  }

  /** The update at `c` is the last, nothing local came before it, it offers the key, and no
      local script of that key came after it. */
  ghost predicate Survives(events: seq<Event>, n: nat, c: nat, key: string) {
    && LastUpdate(events, n, c)
    && !LoadedIn(events, 0, c)
    && Offers(events[c], key)
    && !KeyLoadedIn(events, c + 1, n, key)
  }

  /** One event leaves a local script in the store exactly when one was there or it loads one. */
  lemma StepLocals(store: Store, e: Event)
    requires Legal(e)
    ensures HasLocal(Step(store, e)) <==> HasLocal(store) || AcceptedLoad(e)
  {
    if e.CloudUpdate? {
      UpdateKeepsLocals(store, e.entries);
      LocalsHere(store);
      LocalsHere(Step(store, e));
    } else if AcceptedLoad(e) {
      var p := Pair(e.entry.wildcard, Script(e.entry.wildcard, Local, e.entry.code));
      PutIsThere(store, p);
      var after := Step(store, e);
      var i :| 0 <= i < |after| && after[i] == p;
    }
  }

  lemma LoadedUpTo(events: seq<Event>, n: nat)
    requires 0 < n <= |events|
    ensures LoadedIn(events, 0, n) <==> LoadedIn(events, 0, n - 1) || AcceptedLoad(events[n - 1])
  {
  }

  lemma {:induction false} LocalsExactly(events: seq<Event>, stores: seq<Store>, n: nat)
    requires History(events, stores) && n <= |events|
    ensures HasLocal(stores[n]) <==> LoadedIn(events, 0, n)
  {
    if n > 0 {
      LocalsExactly(events, stores, n - 1);
      var store, e := stores[n - 1], events[n - 1];
      assert Legal(e) && stores[n] == Step(store, e);
      StepLocals(store, e);
      LoadedUpTo(events, n);
    }
  }

  ghost predicate SomeSurvives(events: seq<Event>, n: nat, key: string) {
    exists c :: Survives(events, n, c, key)
  }

  lemma SurvivesLoad(events: seq<Event>, n: nat, c: nat, key: string)
    requires 0 < n <= |events| && events[n - 1].LoadLocal?
    ensures Survives(events, n, c, key) <==>
              Survives(events, n - 1, c, key) && !(AcceptedLoad(events[n - 1]) && events[n - 1].entry.wildcard == key)
  {
  }

  lemma SomeSurvivesLoad(events: seq<Event>, n: nat, key: string)
    requires 0 < n <= |events| && events[n - 1].LoadLocal?
    ensures SomeSurvives(events, n, key) <==>
              SomeSurvives(events, n - 1, key) && !(AcceptedLoad(events[n - 1]) && events[n - 1].entry.wildcard == key)
  {
    if SomeSurvives(events, n, key) {
      var c :| Survives(events, n, c, key);
      SurvivesLoad(events, n, c, key);
    }
    if SomeSurvives(events, n - 1, key) {
      var c :| Survives(events, n - 1, c, key);
      SurvivesLoad(events, n, c, key);
    }
  }

  lemma SomeSurvivesUpdate(events: seq<Event>, n: nat, key: string)
    requires 0 < n <= |events| && events[n - 1].CloudUpdate?
    ensures SomeSurvives(events, n, key) <==> !LoadedIn(events, 0, n - 1) && Offers(events[n - 1], key)
  {
    if !LoadedIn(events, 0, n - 1) && Offers(events[n - 1], key) {
      assert Survives(events, n, n - 1, key);
    }
  }

  /** Which cloud scripts are stored, read off the events. */
  lemma {:induction false} RemotesExactly(events: seq<Event>, stores: seq<Store>, n: nat, key: string)
    requires History(events, stores) && n <= |events|
    ensures RemoteKey(stores[n], key) <==> SomeSurvives(events, n, key)
  {
    if n > 0 {
      var store, e := stores[n - 1], events[n - 1];
      if e.CloudUpdate? {
        assert Legal(e);
        UpdateRemotes(store, e.entries, key);
        LocalsExactly(events, stores, n - 1);
        SomeSurvivesUpdate(events, n, key);
      } else {
        RemotesExactly(events, stores, n - 1, key);
        SomeSurvivesLoad(events, n, key);
        if AcceptedLoad(e) {
          KeysAreIds(events, stores, n - 1);
          PutLocal(store, Pair(e.entry.wildcard, Script(e.entry.wildcard, Local, e.entry.code)), key);
        }
      }
    }
  }

  /** In every history the store holds both kinds exactly when a local script was loaded and a
      cloud script survives: the last update came before every accepted local load, and offers
      a key that none of them has. */
  lemma MixedExactly(events: seq<Event>, stores: seq<Store>, n: nat)
    requires History(events, stores) && n <= |events|
    ensures Mixed(stores[n]) <==> LoadedIn(events, 0, n) && exists key :: SomeSurvives(events, n, key)
  {
    LocalsExactly(events, stores, n);
    forall key ensures RemoteKey(stores[n], key) <==> SomeSurvives(events, n, key) {
      RemotesExactly(events, stores, n, key);
    }
  }

  /** An update, then a local script of another key: both kinds are stored. */
  lemma LateLocalMixes(a: Entry, b: Entry) returns (events: seq<Event>, stores: seq<Store>)
    requires a.wildcard != b.wildcard && Accepted(a.wildcard, a.code) && Accepted(b.wildcard, b.code)
    ensures History(events, stores) && Mixed(stores[|events|])
  {
    events := [CloudUpdate([a]), LoadLocal(b)];
    var s1 := Step([], events[0]);
    stores := [[], s1, Step(s1, events[1])];
    assert UpToThrow([a]) == [a] by {
      assert [a][1..] == [];
    }
    UpdateRemotes([], [a], a.wildcard);
    assert Offers(events[0], a.wildcard) by {
      assert UpToThrow(events[0].entries)[0].wildcard == a.wildcard;
    }
    KeysAreIds(events, stores, 1);
    LoadMixesExactly(s1, b);
  }

  // ---------------------------------------------------------------- the object

  class VirtualScripts {
    var store: Store

    constructor ()
      ensures store == [] && WellKeyed(store)
    {
      store := [];
    }

    /** False when constructing the script throws; the store is then as before. */
    method Set(wildcard: string, kind: Kind, code: Code) returns (ok: bool)
      requires WellKeyed(store)
      modifies this
      ensures WellKeyed(store) && (ok <==> wildcard != "" && code.text != "" && code.compiles)
      ensures store == SetScript(old(store), kind, Entry(wildcard, code))
    {
      ok := Accepted(wildcard, code);
      if ok {
        SetKeepsWellKeyed(store, Script(wildcard, kind, code));
        store := Put(store, Pair(wildcard, Script(wildcard, kind, code)));
      }
    }

    method Delete(key: string)
      modifies this
      ensures store == DeleteKey(old(store), key)
    {
      store := DeleteKey(store, key);
    }

    /** Deletes the scripts of a kind one by one; without a kind, all of them. */
    method Clear(kind: Option<Kind>)
      requires WellKeyed(store)
      modifies this
      ensures kind.None? ==> store == []
      ensures kind.Some? ==> store == OfKind(old(store), Other(kind.value))
      ensures WellKeyed(store)
    {
      if kind.None? {
        store := [];
        return;
      }
      var visited := store;
      ghost var keep := Other(kind.value);
      var i := 0;
      while i < |visited|
        invariant 0 <= i <= |visited|
        invariant store == OfKind(visited[..i], keep) + visited[i..]
      {
        ClearStep(visited, i, keep);
        if visited[i].value.kind == kind.value {
          Delete(visited[i].value.id);
        }
        i := i + 1;
      }
      assert visited[..i] == visited && visited[i..] == [];
      OfKindFrom(visited, keep);
    }

    /** The first entry in insertion order whose wildcard matches. */
    method Find(host: string) returns (r: Option<Script>)
      ensures r.None? ==> forall i :: 0 <= i < |store| ==> !Wildcard.Matches(store[i].value.id, host)
      ensures r.Some? ==> exists i ::
                && 0 <= i < |store| && r.value == store[i].value
                && Wildcard.Matches(store[i].value.id, host)
                && forall j :: 0 <= j < i ==> !Wildcard.Matches(store[j].value.id, host)
    {
      var i := 0;
      while i < |store|
        invariant 0 <= i <= |store|
        invariant forall j :: 0 <= j < i ==> !Wildcard.Matches(store[j].value.id, host)
      {
        if Wildcard.Matches(store[i].value.id, host) {
          return Some(store[i].value);
        }
        i := i + 1;
      }
      r := None;
    }

    method Count(kind: Kind) returns (n: nat)
      ensures n == |OfKind(store, kind)|
    {
      n := 0;
      var i := 0;
      while i < |store|
        invariant 0 <= i <= |store| && n == |OfKind(store[..i], kind)|
      {
        assert store[..i + 1] == store[..i] + [store[i]];
        OfKindSnoc(store[..i], store[i], kind);
        if store[i].value.kind == kind {
          n := n + 1;
        }
        i := i + 1;
      }
      assert store[..i] == store;
    }

    /** The command hub's handler for scripts from the cloud; false when a script throws. */
    method CompileScripts(entries: seq<Entry>) returns (ok: bool)
      requires WellKeyed(store) && DistinctWildcards(entries)
      modifies this
      ensures store == Step(old(store), CloudUpdate(entries)) && WellKeyed(store)
      ensures OfKind(store, Local) == OfKind(old(store), Local)
      ensures ok <==> OfKind(store, Local) != [] || forall j :: 0 <= j < |entries| ==> Accepted(entries[j].wildcard, entries[j].code)
    {
      UpdateKeepsLocals(store, entries);
      Clear(Some(Remote));
      if |store| > 0 {
        return true;
      }
      ok := true;
      var i := 0;
      ghost var was := store;
      while i < |entries| && ok
        invariant 0 <= i <= |entries| && WellKeyed(store)
        invariant ok ==> SetAll(was, entries) == SetAll(store, entries[i..])
        invariant !ok ==> SetAll(was, entries) == store
        invariant ok <==> forall j :: 0 <= j < i ==> Accepted(entries[j].wildcard, entries[j].code)
      {
        assert entries[i..][1..] == entries[i + 1..] && entries[i..][0] == entries[i];
        ok := Set(entries[i].wildcard, Remote, entries[i].code);
        i := i + 1;
      }
    }
  }

  /** One visit of the clearing loop. */
  lemma ClearStep(visited: Store, i: nat, keep: Kind)
    requires WellKeyed(visited) && i < |visited|
    ensures var before := OfKind(visited[..i], keep) + visited[i..];
            var after := OfKind(visited[..i + 1], keep) + visited[i + 1..];
            after == if visited[i].value.kind == keep then before else DeleteKey(before, visited[i].value.id)
  {
    var x, front, rest := visited[i], OfKind(visited[..i], keep), visited[i + 1..];
    assert visited[i..] == [x] + rest;
    assert visited[..i + 1] == visited[..i] + [x];
    OfKindSnoc(visited[..i], x, keep);
    assert front + ([x] + rest) == front + [x] + rest;
    if x.value.kind != keep {
      KeysBefore(visited, i, keep);
      DeleteMiddle(front, x, rest);
      assert front + [] == front;
    }
  }

  lemma KeysBefore(store: Store, i: nat, kind: Kind)
    requires WellKeyed(store) && i < |store|
    ensures var front := OfKind(store[..i], kind);
            forall j :: 0 <= j < |front| ==> front[j].key != store[i].key
  {
    OfKindFrom(store[..i], kind);
    var front := OfKind(store[..i], kind);
    forall j | 0 <= j < |front| ensures front[j].key != store[i].key {
      assert front[j] in front && front[j] in store[..i];
    }
  }
}
