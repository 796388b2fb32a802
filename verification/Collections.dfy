/** Sequence helpers shared by the components. */
module Collections {

  type Byte = x: int | 0 <= x < 256

  lemma Regroup<T>(a: seq<T>, b: seq<T>, c: seq<T>)
    ensures (a + b) + c == a + (b + c)
  {
  }

  predicate NoDuplicates<T(==)>(s: seq<T>) {
    forall i, j :: 0 <= i < j < |s| ==> s[i] != s[j]
  }

  /** The elements of `s` that are not among `dropped`, in order. */
  function Without<T(==)>(s: seq<T>, dropped: seq<T>): seq<T> {
    if s == [] then []
    else (if s[0] in dropped then [] else [s[0]]) + Without(s[1..], dropped)
  }

  /** `chosen` is what `all` holds at the places, which come in order. */
  predicate AtPlaces<T(==)>(all: seq<T>, chosen: seq<T>, places: seq<nat>) {
    && |places| == |chosen|
    && (forall j :: 0 <= j < |places| ==> places[j] < |all| && chosen[j] == all[places[j]])
    && (forall j, k :: 0 <= j < k < |places| ==> places[j] < places[k])
  }

  /** `chosen` is made of the elements at exactly the places that are to be kept, in order. */
  ghost predicate Picks<T>(all: seq<T>, chosen: seq<T>, keep: T -> bool) {
    exists places :: AtPlaces(all, chosen, places) && PlacesExact(all, places, keep)
  }

  ghost predicate PlacesExact<T>(all: seq<T>, places: seq<nat>, keep: T -> bool) {
    forall i: nat :: i < |all| ==> (i in places <==> keep(all[i]))
  }

  lemma PicksNothing<T>(keep: T -> bool)
    ensures Picks([], [], keep)
  {
    assert AtPlaces<T>([], [], []);
    assert PlacesExact([], [], keep);
  }

  /** The places behind a first one. */
  function Behind(first: bool, places: seq<nat>): (r: seq<nat>)
    ensures |r| == |places| + (if first then 1 else 0)
  {
    (if first then [0] else []) + seq(|places|, j requires 0 <= j < |places| => places[j] + 1)
  }

  lemma BehindMembers(first: bool, places: seq<nat>, i: nat)
    ensures i in Behind(first, places) <==> if i == 0 then first else i - 1 in places
  {
    var r, d := Behind(first, places), if first then 1 else 0;
    assert first ==> r[0] == 0;
    assert forall j :: 0 <= j < |places| ==> r[j + d] == places[j] + 1;
    if i > 0 && i - 1 in places {
      var j :| 0 <= j < |places| && places[j] == i - 1;
      assert r[j + d] == i;
    }
    if i in r {
      var j :| 0 <= j < |r| && r[j] == i;
      assert j >= d ==> r[j] == places[j - d] + 1;
    }
  }

  lemma BehindPlaces<T>(x: T, first: bool, all: seq<T>, chosen: seq<T>, places: seq<nat>)
    requires AtPlaces(all, chosen, places)
    ensures AtPlaces([x] + all, (if first then [x] else []) + chosen, Behind(first, places))
  {
    var r, d := Behind(first, places), if first then 1 else 0;
    var more, kept := [x] + all, (if first then [x] else []) + chosen;
    assert first ==> r[0] == 0;
    forall j | 0 <= j < |r| ensures r[j] < |more| && kept[j] == more[r[j]] {
      if j >= d {
        assert r[j] == places[j - d] + 1 && kept[j] == chosen[j - d];
      }
    }
    forall j, k | 0 <= j < k < |r| ensures r[j] < r[k] {
      assert r[k] == places[k - d] + 1;
      if j >= d {
        assert r[j] == places[j - d] + 1;
      }
    }
  }

  lemma BehindExact<T>(x: T, all: seq<T>, places: seq<nat>, keep: T -> bool)
    requires PlacesExact(all, places, keep)
    ensures PlacesExact([x] + all, Behind(keep(x), places), keep)
  {
    var more := [x] + all;
    forall i: nat | i < |more| ensures i in Behind(keep(x), places) <==> keep(more[i]) {
      BehindMembers(keep(x), places, i);
      if i > 0 {
        assert more[i] == all[i - 1];
      }
    }
  }

  lemma PicksCons<T>(x: T, all: seq<T>, chosen: seq<T>, keep: T -> bool)
    requires Picks(all, chosen, keep)
    ensures Picks([x] + all, (if keep(x) then [x] else []) + chosen, keep)
  {
    var places :| AtPlaces(all, chosen, places) && PlacesExact(all, places, keep);
    BehindPlaces(x, keep(x), all, chosen, places);
    BehindExact(x, all, places, keep);
  }

  predicate Increasing(places: seq<nat>) {
    forall j, k :: 0 <= j < k < |places| ==> places[j] < places[k]
  }

  lemma {:induction false} SameIncreasing(p: seq<nat>, q: seq<nat>)
    requires Increasing(p) && Increasing(q) && forall x :: x in p <==> x in q
    ensures p == q
  {
    if p != [] && q != [] {
      var m, n := |p| - 1, |q| - 1;
      assert p[m] in q && q[n] in p;
      assert p[m] == q[n];
      assert p == p[..m] + [p[m]] && q == q[..n] + [q[n]];
      forall x: nat ensures x in p[..m] <==> x in q[..n] {
        assert x in p[..m] <==> x in p && x != p[m];
        assert x in q[..n] <==> x in q && x != q[n];
      }
      SameIncreasing(p[..m], q[..n]);
    } else if p != [] {
      NotEmpty(p, q);
    } else if q != [] {
      NotEmpty(q, p);
    }
  }

  lemma NotEmpty(p: seq<nat>, q: seq<nat>)
    requires p != [] && forall x :: x in p ==> x in q
    ensures q != []
  {
    assert p[0] in q;
  }

  /** There is one such choice. */
  lemma PicksUnique<T>(all: seq<T>, a: seq<T>, b: seq<T>, keep: T -> bool)
    requires Picks(all, a, keep) && Picks(all, b, keep)
    ensures a == b
  {
    var p :| AtPlaces(all, a, p) && PlacesExact(all, p, keep);
    var q :| AtPlaces(all, b, q) && PlacesExact(all, q, keep);
    forall x: nat ensures x in p <==> x in q {
      assert x in p ==> x < |all|;
      assert x in q ==> x < |all|;
    }
    SameIncreasing(p, q);
  }

  /** The elements in order of first appearance, as a set built from the list keeps them. */
  function Distinct<T(==)>(s: seq<T>): seq<T> {
    if s == [] then []
    else
      var r := Distinct(s[..|s| - 1]);
      if s[|s| - 1] in r then r else r + [s[|s| - 1]]
  }

  lemma {:induction false} DistinctMembers<T>(s: seq<T>)
    ensures forall x :: x in Distinct(s) <==> x in s
    ensures NoDuplicates(Distinct(s))
  {
    if s != [] {
      var front, last := s[..|s| - 1], s[|s| - 1];
      DistinctMembers(front);
      assert s == front + [last];
      assert forall x :: x in s <==> x in front || x == last;
    }
  }

  /** What a longer list adds comes at the end. */
  lemma {:induction false} DistinctGrows<T>(s: seq<T>, k: nat)
    requires k <= |s|
    ensures Distinct(s[..k]) <= Distinct(s)
  {
    if k == |s| {
      assert s[..k] == s;
    } else {
      var front := s[..|s| - 1];
      DistinctGrows(front, k);
      assert front[..k] == s[..k];
    }
  }

  /** The parts one after the other. */
  function Concat<T>(parts: seq<seq<T>>): seq<T> {
    if parts == [] then [] else Concat(parts[..|parts| - 1]) + parts[|parts| - 1]
  }

  lemma ConcatSnoc<T>(parts: seq<seq<T>>, part: seq<T>)
    ensures Concat(parts + [part]) == Concat(parts) + part
  {
    assert (parts + [part])[..|parts|] == parts;
  }
}

/** Maps that keep insertion order, as JavaScript maps and objects do. */
module OrderedMap {

  datatype Pair<K, V> = Pair(key: K, value: V)

  /** Assigning a present key keeps its place. */
  function Put<K(==), V>(m: seq<Pair<K, V>>, p: Pair<K, V>): seq<Pair<K, V>> {
    if m == [] then [p]
    else if m[0].key == p.key then [p] + m[1..]
    else [m[0]] + Put(m[1..], p)
  }

  ghost predicate HasKey<K, V>(m: seq<Pair<K, V>>, key: K) {
    exists i :: 0 <= i < |m| && m[i].key == key
  }

  ghost predicate DistinctKeys<K, V>(m: seq<Pair<K, V>>) {
    forall i, j :: 0 <= i < j < |m| ==> m[i].key != m[j].key
  }

  lemma PutCons<K, V>(head: Pair<K, V>, rest: seq<Pair<K, V>>, p: Pair<K, V>)
    ensures Put([head] + rest, p) == if head.key == p.key then [p] + rest else [head] + Put(rest, p)
  {
    assert ([head] + rest)[1..] == rest;
  }

  lemma TailHasKey<K, V>(m: seq<Pair<K, V>>, key: K)
    requires HasKey(m, key) && m[0].key != key
    ensures HasKey(m[1..], key)
  {
    var i :| 0 <= i < |m| && m[i].key == key;
    assert m[1..][i - 1].key == key;
  }

  lemma ConsHasKey<K, V>(head: Pair<K, V>, rest: seq<Pair<K, V>>, key: K)
    ensures HasKey([head] + rest, key) <==> head.key == key || HasKey(rest, key)
  {
    var all := [head] + rest;
    if HasKey(rest, key) {
      var i :| 0 <= i < |rest| && rest[i].key == key;
      assert all[i + 1].key == key;
    }
    if head.key == key {
      assert all[0].key == key;
    }
    if HasKey(all, key) && head.key != key {
      TailHasKey(all, key);
      assert all[1..] == rest;
    }
  }

  lemma {:induction false} PutHasKey<K, V>(m: seq<Pair<K, V>>, p: Pair<K, V>, key: K)
    ensures HasKey(Put(m, p), key) <==> HasKey(m, key) || key == p.key
  {
    if m == [] {
      assert Put(m, p)[0].key == p.key;
    } else {
      ConsHasKey(m[0], m[1..], key);
      assert [m[0]] + m[1..] == m;
      if m[0].key == p.key {
        ConsHasKey(p, m[1..], key);
      } else {
        PutHasKey(m[1..], p, key);
        ConsHasKey(m[0], Put(m[1..], p), key);
      }
    }
  }

  /** Every place keeps its key; only the place of the assigned key changes. */
  lemma {:induction false} PutShape<K, V>(m: seq<Pair<K, V>>, p: Pair<K, V>)
    ensures |m| <= |Put(m, p)| <= |m| + 1
    ensures HasKey(m, p.key) ==> |Put(m, p)| == |m|
    ensures forall i :: 0 <= i < |m| ==> Put(m, p)[i] == m[i] || Put(m, p)[i] == p
    ensures forall i :: 0 <= i < |m| ==> Put(m, p)[i].key == m[i].key
    ensures !HasKey(m, p.key) ==> Put(m, p) == m + [p]
  {
    if m != [] && m[0].key != p.key {
      PutShape(m[1..], p);
      var r, rest := Put(m, p), Put(m[1..], p);
      assert forall i :: 1 <= i < |r| ==> r[i] == rest[i - 1];
      ConsHasKey(m[0], m[1..], p.key);
      assert [m[0]] + m[1..] == m;
    } else if m != [] {
      assert HasKey(m, p.key);
    }
  }

  lemma PutDistinct<K, V>(m: seq<Pair<K, V>>, p: Pair<K, V>)
    requires DistinctKeys(m)
    ensures DistinctKeys(Put(m, p))
  {
    PutShape(m, p);
  }

  lemma {:induction false} PutTwice<K, V>(m: seq<Pair<K, V>>, a: Pair<K, V>, b: Pair<K, V>)
    requires a.key == b.key
    ensures Put(Put(m, a), b) == Put(m, b)
  {
    if m == [] {
      assert [a][1..] == [];
    } else if m[0].key == a.key {
      assert ([a] + m[1..])[1..] == m[1..];
    } else {
      PutTwice(m[1..], a, b);
      PutCons(m[0], Put(m[1..], a), b);
    }
  }

  /** A key already there can be assigned before or after another. */
  lemma {:induction false} PutCommutes<K, V>(m: seq<Pair<K, V>>, a: Pair<K, V>, b: Pair<K, V>)
    requires a.key != b.key && HasKey(m, b.key)
    ensures Put(Put(m, a), b) == Put(Put(m, b), a)
  {
    var head, rest := m[0], m[1..];
    if head.key == b.key {
      PutCons(head, Put(rest, a), b);
      PutCons(b, rest, a);
    } else if head.key == a.key {
      PutCons(a, rest, b);
      PutCons(head, Put(rest, b), a);
    } else {
      TailHasKey(m, b.key);
      PutCommutes(rest, a, b);
      PutCons(head, Put(rest, a), b);
      PutCons(head, Put(rest, b), a);
    }
  }
}
