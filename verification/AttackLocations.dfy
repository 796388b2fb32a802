/** Renaming the deprecated attack locations of a scan configuration. */
module AttackLocations {
  import opened Text
  import opened Collections

  datatype Location =
    | ArtificalFragment
    | ArtificalQuery
    | ArtificialFragment
    | ArtificialQuery
    | Body
    | Fragment
    | Header
    | Path
    | Query

  predicate Deprecated(l: Location) {
    l == ArtificalFragment || l == ArtificalQuery
  }

  function Renamed(l: Location): Location {
    match l
    case ArtificalFragment => ArtificialFragment
    case ArtificalQuery => ArtificialQuery
    case _ => l
  }

  /** The locations that are not deprecated, in order. */
  function Kept(s: seq<Location>): seq<Location> {
    if s == [] then [] else (if Deprecated(s[0]) then [] else [s[0]]) + Kept(s[1..])
  }

  /** A new name is added when its old name is there and it is not. */
  function Added(s: seq<Location>, old': Location, new': Location): seq<Location> {
    if old' in s && new' !in s then [new'] else []
  }

  function Rewritten(s: seq<Location>): seq<Location> {
    Kept(s) + Added(s, ArtificalFragment, ArtificialFragment) + Added(s, ArtificalQuery, ArtificialQuery)
  }

  /** The rewrite, one reassignment after the other; an absent list stays absent. */
  method ReplaceDeprecated(given: Option<seq<Location>>) returns (r: Option<seq<Location>>)
    ensures given.None? ==> r.None?
    ensures given.Some? ==> r == Some(Rewritten(given.value))
  {
    if given.None? {
      return None;
    }
    var s := given.value;
    if ArtificalFragment in s {
      s := Without(s, [ArtificalFragment]);
      if ArtificialFragment !in s {
        s := s + [ArtificialFragment];
      }
    }
    ghost var half := s;
    if ArtificalQuery in s {
      s := Without(s, [ArtificalQuery]);
      if ArtificialQuery !in s {
        s := s + [ArtificialQuery];
      }
    }
    FirstHalf(given.value, half);
    SecondHalf(given.value, half, s);
    r := Some(s);
  }

  lemma {:induction false} WithoutMembers(s: seq<Location>, gone: Location)
    ensures forall l :: l in Without(s, [gone]) <==> l in s && l != gone
    ensures gone !in s ==> Without(s, [gone]) == s
  {
    if s != [] {
      WithoutMembers(s[1..], gone);
      assert forall l :: l in s <==> l == s[0] || l in s[1..];
      assert s == [s[0]] + s[1..];
    }
  }

  lemma WithoutCons(head: Location, rest: seq<Location>, gone: Location)
    ensures Without([head] + rest, [gone]) == (if head == gone then [] else [head]) + Without(rest, [gone])
  {
    assert ([head] + rest)[1..] == rest;
  }

  lemma {:induction false} WithoutSnoc(s: seq<Location>, l: Location, gone: Location)
    requires l != gone
    ensures Without(s + [l], [gone]) == Without(s, [gone]) + [l]
  {
    if s == [] {
      WithoutCons(l, [], gone);
      assert s + [l] == [l] + [];
    } else {
      WithoutSnoc(s[1..], l, gone);
      WithoutCons(s[0], s[1..] + [l], gone);
      assert s + [l] == [s[0]] + (s[1..] + [l]);
    }
  }

  lemma {:induction false} KeptIsBoth(s: seq<Location>)
    ensures Without(Without(s, [ArtificalFragment]), [ArtificalQuery]) == Kept(s)
  {
    if s != [] {
      KeptIsBoth(s[1..]);
      var rest := Without(s[1..], [ArtificalFragment]);
      if s[0] != ArtificalFragment {
        assert ([s[0]] + rest)[1..] == rest;
      } else {
        assert [] + rest == rest;
      }
    }
  }

  lemma {:induction false} KeptMembers(s: seq<Location>)
    ensures forall l :: l in Kept(s) <==> l in s && !Deprecated(l)
  {
    if s != [] {
      KeptMembers(s[1..]);
      assert forall l :: l in s <==> l == s[0] || l in s[1..];
    }
  }

  lemma FirstHalf(s: seq<Location>, half: seq<Location>)
    requires half == if ArtificalFragment !in s then s
                     else if ArtificialFragment in Without(s, [ArtificalFragment]) then Without(s, [ArtificalFragment])
                     else Without(s, [ArtificalFragment]) + [ArtificialFragment]
    ensures half == Without(s, [ArtificalFragment]) + Added(s, ArtificalFragment, ArtificialFragment)
  {
    WithoutMembers(s, ArtificalFragment);
  }

  lemma SecondHalf(s: seq<Location>, half: seq<Location>, done: seq<Location>)
    requires half == Without(s, [ArtificalFragment]) + Added(s, ArtificalFragment, ArtificialFragment)
    requires done == if ArtificalQuery !in half then half
                     else if ArtificialQuery in Without(half, [ArtificalQuery]) then Without(half, [ArtificalQuery])
                     else Without(half, [ArtificalQuery]) + [ArtificialQuery]
    ensures done == Rewritten(s)
  {
    WithoutMembers(s, ArtificalFragment);
    WithoutMembers(half, ArtificalQuery);
    var front := Without(s, [ArtificalFragment]);
    if Added(s, ArtificalFragment, ArtificialFragment) == [] {
      assert half == front;
    } else {
      WithoutSnoc(front, ArtificialFragment, ArtificalQuery);
    }
    KeptIsBoth(s);
    assert Without(half, [ArtificalQuery]) == Kept(s) + Added(s, ArtificalFragment, ArtificialFragment);
    assert ArtificalQuery in half <==> ArtificalQuery in s;
    assert ArtificialQuery in Without(half, [ArtificalQuery]) <==> ArtificialQuery in s;
  }

  // ---------------------------------------------------------------- main results

  /** No deprecated name is left, and the names are exactly the renamed ones. */
  lemma NamesAreRenamed(s: seq<Location>)
    ensures forall l :: l in Rewritten(s) ==> !Deprecated(l)
    ensures forall l :: l in Rewritten(s) <==> exists k :: k in s && Renamed(k) == l
  {
    KeptMembers(s);
    forall l ensures l in Rewritten(s) <==> exists k :: k in s && Renamed(k) == l {
      if l in Kept(s) {
        assert l in s && Renamed(l) == l;
      } else if l in Rewritten(s) {
        assert Renamed(if l == ArtificialFragment then ArtificalFragment else ArtificalQuery) == l;
      }
    }
  }

  lemma {:induction false} KeptNoDuplicates(s: seq<Location>)
    requires NoDuplicates(s)
    ensures NoDuplicates(Kept(s))
  {
    if s != [] {
      KeptNoDuplicates(s[1..]);
      KeptMembers(s[1..]);
      var rest := Kept(s[1..]);
      assert s[0] !in s[1..];
      assert forall i :: 0 <= i < |rest| ==> rest[i] in rest;
    }
  }

  /** A list without duplicates stays without duplicates. */
  lemma KeepsNoDuplicates(s: seq<Location>)
    requires NoDuplicates(s)
    ensures NoDuplicates(Rewritten(s))
  {
    KeptNoDuplicates(s);
    KeptMembers(s);
    var kept := Kept(s);
    assert forall i :: 0 <= i < |kept| ==> kept[i] in kept;
  }

  lemma {:induction false} KeptAll(s: seq<Location>)
    requires forall l :: l in s ==> !Deprecated(l)
    ensures Kept(s) == s
  {
    if s != [] {
      assert s[0] in s;
      KeptAll(s[1..]);
      assert s == [s[0]] + s[1..];
    }
  }

  /** Rewriting again changes nothing, and neither does rewriting a list without old names. */
  lemma Idempotent(s: seq<Location>)
    ensures Rewritten(Rewritten(s)) == Rewritten(s)
    ensures (forall l :: l in s ==> !Deprecated(l)) <==> Rewritten(s) == s
  {
    NamesAreRenamed(s);
    KeptAll(Rewritten(s));
    var r := Rewritten(s);
    assert Added(r, ArtificalFragment, ArtificialFragment) == [] && Added(r, ArtificalQuery, ArtificialQuery) == [];
    assert Kept(r) + [] + [] == r;
    if forall l :: l in s ==> !Deprecated(l) {
      KeptAll(s);
      assert Kept(s) + [] + [] == s;
    }
  }

  /** New names come last, the fragment before the query. */
  lemma NewNamesLast(s: seq<Location>)
    requires ArtificalFragment in s && ArtificalQuery in s && ArtificialFragment !in s && ArtificialQuery !in s
    ensures |Rewritten(s)| >= 2 && Rewritten(s)[|Rewritten(s)| - 2..] == [ArtificialFragment, ArtificialQuery]
    ensures forall i :: 0 <= i < |Rewritten(s)| - 2 ==> Rewritten(s)[i] in s
  {
    KeptMembers(s);
    var kept := Kept(s);
    assert Rewritten(s) == kept + [ArtificialFragment] + [ArtificialQuery];
    assert forall i :: 0 <= i < |kept| ==> kept[i] in kept;
  }

  function Current(): Location -> bool {
    l => !Deprecated(l)
  }

  /** The values kept are exactly those that are not deprecated, repetitions included. */
  lemma {:induction false} KeptPicks(s: seq<Location>)
    ensures Picks(s, Kept(s), Current())
  {
    if s == [] {
      PicksNothing(Current());
    } else {
      KeptPicks(s[1..]);
      PicksCons(s[0], s[1..], Kept(s[1..]), Current());
      assert [s[0]] + s[1..] == s;
    }
  }

  /** The place of the i-th value among those that are not deprecated. */
  function Place(s: seq<Location>, i: nat): nat
    requires i <= |s|
  {
    if i == 0 then 0 else Place(s, i - 1) + (if Deprecated(s[i - 1]) then 0 else 1)
  }

  lemma {:induction false} PlaceTail(s: seq<Location>, i: nat)
    requires 0 < i <= |s|
    ensures Place(s, i) == (if Deprecated(s[0]) then 0 else 1) + Place(s[1..], i - 1)
  {
    if i > 1 {
      PlaceTail(s, i - 1);
    }
  }

  lemma {:induction false} KeptAtPlace(s: seq<Location>, i: nat)
    requires i < |s| && !Deprecated(s[i])
    ensures Place(s, i) < |Kept(s)| && Kept(s)[Place(s, i)] == s[i]
  {
    if i > 0 {
      PlaceTail(s, i);
      KeptAtPlace(s[1..], i - 1);
    }
  }

  lemma {:induction false} PlaceGrows(s: seq<Location>, i: nat, j: nat)
    requires i < j <= |s| && !Deprecated(s[i])
    ensures Place(s, i) < Place(s, j)
    decreases j
  {
    if i < j - 1 {
      PlaceGrows(s, i, j - 1);
    }
  }

  /** Every value that is not deprecated has a place of its own in the rewritten list, and
      places come in the old order. */
  lemma OrderKept(s: seq<Location>, i: nat, j: nat)
    requires i < j < |s| && !Deprecated(s[i]) && !Deprecated(s[j])
    ensures 0 <= Place(s, i) < Place(s, j) < |Rewritten(s)|
    ensures Rewritten(s)[Place(s, i)] == s[i] && Rewritten(s)[Place(s, j)] == s[j]
  {
    KeptAtPlace(s, i);
    KeptAtPlace(s, j);
    PlaceGrows(s, i, j);
  }
}
