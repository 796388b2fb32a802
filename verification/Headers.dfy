/** Request headers: merging them into a request in insertion order, and flattening them into
the lines handed to the HTTP client.

Names compare by `lower`, the engine's lower-casing, which is left open. */
module Headers {
  import opened Text
  import opened Collections
  import opened OrderedMap

  /** A header value: one text or a list; a missing text reads as empty. */
  datatype Value = One(text: Option<string>) | Many(texts: seq<Option<string>>)

  type Field = Pair<string, Value>

  /** An object in insertion order. */
  type Fields = seq<Field>

  // ---------------------------------------------------------------- merging

  /** `{ ...fields, ...more }` */
  function Merge(fields: Fields, more: Fields): Fields
    decreases |more|
  {
    if more == [] then fields else Merge(Put(fields, more[0]), more[1..])
  }

  function Show(text: Option<string>): string {
    if text.None? then [] else text.value
  }

  function ShowAll(texts: seq<Option<string>>): seq<string> {
    seq(|texts|, i requires 0 <= i < |texts| => Show(texts[i]))
  }

  /** A list under a single-value name is joined. */
  function Joined(single: string -> bool, f: Field): Field {
    if f.value.Many? && single(f.key) then f.(value := One(Some(Join(ShowAll(f.value.texts), ", ")))) else f
  }

  function JoinAll(single: string -> bool, fields: Fields): Fields {
    if fields == [] then [] else [Joined(single, fields[0])] + JoinAll(single, fields[1..])
  }

  function SetHeaders(single: string -> bool, fields: Fields, more: Fields): Fields {
    JoinAll(single, Merge(fields, more))
  }

  /** One call after the other. */
  function SetEach(single: string -> bool, fields: Fields, updates: seq<Fields>): Fields
    decreases |updates|
  {
    if updates == [] then fields else SetEach(single, SetHeaders(single, fields, updates[0]), updates[1..])
  }

  /** All updates in one object. */
  function MergeEach(first: Fields, updates: seq<Fields>): Fields
    decreases |updates|
  {
    if updates == [] then first else MergeEach(Merge(first, updates[0]), updates[1..])
  }

  // ---------------------------------------------------------------- putting and merging

  lemma {:induction false} MergeDistinct(fields: Fields, more: Fields)
    requires DistinctKeys(fields)
    ensures DistinctKeys(Merge(fields, more))
    decreases |more|
  {
    if more != [] {
      PutDistinct(fields, more[0]);
      MergeDistinct(Put(fields, more[0]), more[1..]);
    }
  }

  lemma {:induction false} MergeSnoc(fields: Fields, more: Fields, f: Field)
    ensures Merge(fields, more + [f]) == Put(Merge(fields, more), f)
    decreases |more|
  {
    var all := more + [f];
    if more == [] {
      assert all == [f] && all[1..] == [];
    } else {
      assert all[1..] == more[1..] + [f] && all[0] == more[0];
      MergeSnoc(Put(fields, more[0]), more[1..], f);
    }
  }

  lemma {:induction false} MergeAround(fields: Fields, more: Fields, f: Field)
    requires HasKey(fields, f.key) && !HasKey(more, f.key)
    ensures Put(Merge(fields, more), f) == Merge(Put(fields, f), more)
    decreases |more|
  {
    if more != [] {
      var head, rest := more[0], more[1..];
      assert [head] + rest == more;
      ConsHasKey(head, rest, f.key);
      PutHasKey(fields, head, f.key);
      MergeAround(Put(fields, head), rest, f);
      PutCommutes(fields, head, f);
    }
  }

  lemma MergeCons(fields: Fields, head: Field, rest: Fields)
    ensures Merge(fields, [head] + rest) == Merge(Put(fields, head), rest)
  {
    assert ([head] + rest)[1..] == rest;
  }

  lemma {:induction false} MergeOfPut(fields: Fields, more: Fields, f: Field)
    requires DistinctKeys(more)
    ensures Merge(fields, Put(more, f)) == Put(Merge(fields, more), f)
    decreases |more|
  {
    if more == [] {
      MergeCons(fields, f, []);
      assert [f] + [] == [f];
    } else {
      var head, rest := more[0], more[1..];
      if head.key == f.key {
        assert !HasKey(rest, f.key);
        PutHasKey(fields, head, f.key);
        MergeAround(Put(fields, head), rest, f);
        PutTwice(fields, head, f);
        MergeCons(fields, f, rest);
      } else {
        MergeOfPut(Put(fields, head), rest, f);
        MergeCons(fields, head, Put(rest, f));
      }
    }
  }

  /** Merging is associative, key order included. */
  lemma {:induction false} MergeAssociative(a: Fields, b: Fields, c: Fields)
    requires DistinctKeys(b)
    ensures Merge(Merge(a, b), c) == Merge(a, Merge(b, c))
    decreases |c|
  {
    if c != [] {
      var front, last := c[..|c| - 1], c[|c| - 1];
      assert front + [last] == c;
      MergeAssociative(a, b, front);
      MergeSnoc(Merge(a, b), front, last);
      MergeSnoc(b, front, last);
      MergeDistinct(b, front);
      MergeOfPut(a, Merge(b, front), last);
    }
  }

  lemma {:induction false} PutMembers(m: Fields, p: Field, q: Field)
    requires DistinctKeys(m)
    ensures q in Put(m, p) <==> q == p || (q in m && q.key != p.key)
  {
    if m != [] {
      var head, rest := m[0], m[1..];
      assert forall i :: 0 <= i < |rest| ==> rest[i].key != head.key;
      if head.key != p.key {
        PutMembers(rest, p, q);
      }
    }
  }

  /** What a merged object holds: all of the second object, and of the first what the second has
      no key for. */
  lemma {:induction false} MergeExactly(fields: Fields, more: Fields, q: Field)
    requires DistinctKeys(fields) && DistinctKeys(more)
    ensures q in Merge(fields, more) <==> q in more || (q in fields && !HasKey(more, q.key))
    decreases |more|
  {
    if more != [] {
      var head, rest := more[0], more[1..];
      PutDistinct(fields, head);
      MergeExactly(Put(fields, head), rest, q);
      PutMembers(fields, head, q);
      ConsHasKey(head, rest, q.key);
      assert more == [head] + rest && (q in more <==> q == head || q in rest);
      assert forall i :: 0 <= i < |rest| ==> rest[i].key != head.key;
    }
  }

  function Keys(fields: Fields): seq<string> {
    seq(|fields|, i requires 0 <= i < |fields| => fields[i].key)
  }

  lemma PutKeys(fields: Fields, p: Field)
    ensures Keys(Put(fields, p)) == Keys(fields) + (if p.key in Keys(fields) then [] else [p.key])
  {
    PutShape(fields, p);
    assert forall i :: 0 <= i < |fields| ==> Keys(fields)[i] == fields[i].key;
    assert HasKey(fields, p.key) <==> p.key in Keys(fields);
  }

  /** The keys of the first object keep their places; new ones follow in the order of the second. */
  lemma {:induction false} MergeKeys(fields: Fields, more: Fields)
    requires DistinctKeys(more)
    ensures Keys(Merge(fields, more)) == Keys(fields) + Without(Keys(more), Keys(fields))
    decreases |more|
  {
    var keys := Keys(fields);
    if more == [] {
      assert Keys(more) == [] && keys + [] == keys;
    } else {
      var head, rest := more[0], more[1..];
      MergeKeys(Put(fields, head), rest);
      PutKeys(fields, head);
      assert Keys(more)[1..] == Keys(rest) && Keys(more)[0] == head.key;
      assert forall i :: 0 <= i < |Keys(rest)| ==> Keys(rest)[i] != head.key;
      if head.key in keys {
        assert keys + [] == keys;
      } else {
        DropAbsent(Keys(rest), keys, head.key);
        Regroup(keys, [head.key], Without(Keys(rest), keys));
      }
    }
  }

  lemma {:induction false} DropAbsent(s: seq<string>, dropped: seq<string>, x: string)
    requires forall i :: 0 <= i < |s| ==> s[i] != x
    ensures Without(s, dropped + [x]) == Without(s, dropped)
  {
    if s != [] {
      DropAbsent(s[1..], dropped, x);
    }
  }

  // ---------------------------------------------------------------- joining

  lemma {:induction false} JoinOfPut(single: string -> bool, fields: Fields, f: Field)
    ensures JoinAll(single, Put(fields, f)) == Put(JoinAll(single, fields), Joined(single, f))
  {
    if fields == [] {
      assert [f][1..] == [];
      assert [Joined(single, f)] + [] == [Joined(single, f)];
    } else {
      var rest := fields[1..];
      PutCons(Joined(single, fields[0]), JoinAll(single, rest), Joined(single, f));
      if fields[0].key == f.key {
        assert ([f] + rest)[1..] == rest;
      } else {
        JoinOfPut(single, rest, f);
        assert ([fields[0]] + Put(rest, f))[1..] == Put(rest, f);
      }
    }
  }

  lemma {:induction false} JoinOfMerge(single: string -> bool, fields: Fields, more: Fields)
    ensures JoinAll(single, Merge(fields, more)) == Merge(JoinAll(single, fields), JoinAll(single, more))
    decreases |more|
  {
    if more != [] {
      JoinOfPut(single, fields, more[0]);
      JoinOfMerge(single, Put(fields, more[0]), more[1..]);
      MergeCons(JoinAll(single, fields), Joined(single, more[0]), JoinAll(single, more[1..]));
    }
  }

  lemma {:induction false} JoinTwice(single: string -> bool, fields: Fields)
    ensures JoinAll(single, JoinAll(single, fields)) == JoinAll(single, fields)
  {
    if fields != [] {
      JoinTwice(single, fields[1..]);
      var rest := JoinAll(single, fields[1..]);
      assert ([Joined(single, fields[0])] + rest)[1..] == rest;
    }
  }

  /** Joining early changes nothing for a later call. */
  lemma JoinEarly(single: string -> bool, fields: Fields, more: Fields)
    ensures SetHeaders(single, JoinAll(single, fields), more) == SetHeaders(single, fields, more)
  {
    JoinOfMerge(single, JoinAll(single, fields), more);
    JoinOfMerge(single, fields, more);
    JoinTwice(single, fields);
  }

  // ---------------------------------------------------------------- main results

  /** Two calls equal one call with the merged object: same values, same order. */
  lemma TwoCallsAreOne(single: string -> bool, fields: Fields, a: Fields, b: Fields)
    requires DistinctKeys(a)
    ensures SetHeaders(single, SetHeaders(single, fields, a), b) == SetHeaders(single, fields, Merge(a, b))
  {
    JoinEarly(single, Merge(fields, a), b);
    MergeAssociative(fields, a, b);
  }

  /** So does any number of calls. */
  lemma {:induction false} CallsAreOne(single: string -> bool, fields: Fields, first: Fields, updates: seq<Fields>)
    requires DistinctKeys(first)
    ensures SetEach(single, SetHeaders(single, fields, first), updates)
         == SetHeaders(single, fields, MergeEach(first, updates))
    decreases |updates|
  {
    if updates != [] {
      TwoCallsAreOne(single, fields, first, updates[0]);
      MergeDistinct(first, updates[0]);
      CallsAreOne(single, fields, Merge(first, updates[0]), updates[1..]);
    }
  }

  // ---------------------------------------------------------------- flattening

  function Line(name: string, text: Option<string>): string {
    name + ([':', ' '] + Show(text))
  }

  /** A line gives back the name and the text it was written for. */
  lemma LineReadsBack(name: string, text: Option<string>)
    ensures var line := Line(name, text);
            && |line| >= |name| + 2
            && line[..|name|] == name && line[|name|..|name| + 2] == ": "
            && line[|name| + 2..] == (if text.Some? then text.value else "")
  {
  }

  lemma FirstColon(name: string, text: Option<string>)
    requires ':' !in name
    ensures var line := Line(name, text);
            |name| < |line| && line[|name|] == ':' && forall i :: 0 <= i < |name| ==> line[i] != ':'
  {
    assert forall i :: 0 <= i < |name| ==> Line(name, text)[i] in name;
  }

  /** Lines of names without a colon differ unless name and text agree. */
  lemma LineInjective(a: string, x: string, b: string, y: string)
    requires ':' !in a && ':' !in b
    ensures Line(a, Some(x)) == Line(b, Some(y)) <==> a == b && x == y
  {
    if Line(a, Some(x)) == Line(b, Some(y)) {
      FirstColon(a, Some(x));
      FirstColon(b, Some(y));
      LineReadsBack(a, Some(x));
      LineReadsBack(b, Some(y));
    }
  }

  function Values(v: Value): seq<Option<string>> {
    match v
    case One(text) => [text]
    case Many(texts) => texts
  }

  function FieldLines(f: Field): seq<string> {
    if f.key == [] then []
    else seq(|Values(f.value)|, i requires 0 <= i < |Values(f.value)| => Line(f.key, Values(f.value)[i]))
  }

  function Lines(fields: Fields): seq<string> {
    if fields == [] then [] else FieldLines(fields[0]) + Lines(fields[1..])
  }

  lemma {:induction false} LinesSnoc(fields: Fields, f: Field)
    ensures Lines(fields + [f]) == Lines(fields) + FieldLines(f)
  {
    if fields == [] {
      assert fields + [f] == [f] && [f][1..] == [];
      assert FieldLines(f) + [] == [] + FieldLines(f);
    } else {
      LinesSnoc(fields[1..], f);
      assert (fields + [f])[1..] == fields[1..] + [f];
      var rest := Lines(fields[1..]);
      assert FieldLines(fields[0]) + (rest + FieldLines(f)) == FieldLines(fields[0]) + rest + FieldLines(f);
    }
  }

  lemma LinesCons(f: Field, rest: Fields)
    ensures Lines([f] + rest) == FieldLines(f) + Lines(rest)
  {
    assert ([f] + rest)[1..] == rest;
  }

  /** A header without a name makes no line. */
  lemma {:induction false} NamelessSkipped(a: Fields, f: Field, b: Fields)
    requires f.key == []
    ensures Lines(a + ([f] + b)) == Lines(a + b)
  {
    if a == [] {
      LinesCons(f, b);
      assert a + ([f] + b) == [f] + b && a + b == b;
    } else {
      var head, rest := a[0], a[1..];
      NamelessSkipped(rest, f, b);
      LinesCons(head, rest + ([f] + b));
      LinesCons(head, rest + b);
      assert a == [head] + rest;
      assert a + ([f] + b) == [head] + (rest + ([f] + b)) && a + b == [head] + (rest + b);
    }
  }

  method BuildCurlHeaders(fields: Fields) returns (lines: seq<string>)
    ensures lines == Lines(fields)
  {
    lines := [];
    for i := 0 to |fields|
      invariant lines == Lines(fields[..i])
    {
      var f := fields[i];
      assert fields[..i + 1] == fields[..i] + [f];
      LinesSnoc(fields[..i], f);
      if f.key == [] {
        continue;
      }
      var values := Values(f.value);
      lines := lines + seq(|values|, j requires 0 <= j < |values| => Line(f.key, values[j]));
    }
    assert fields[..|fields|] == fields;
  }

  lemma {:induction false} JoinAllAt(single: string -> bool, fields: Fields, i: nat)
    requires i < |fields|
    ensures |JoinAll(single, fields)| == |fields| && JoinAll(single, fields)[i] == Joined(single, fields[i])
  {
    if |fields| > 1 {
      JoinAllAt(single, fields[1..], if i == 0 then 0 else i - 1);
    } else {
      assert fields[1..] == [];
    }
  }

  /** After any call every named single-value header makes exactly one line, its list joined;
      every other named header makes one line per element, in order. */
  lemma LinesPerHeader(single: string -> bool, fields: Fields, more: Fields, i: nat)
    requires i < |Merge(fields, more)| && Merge(fields, more)[i].key != []
    ensures var f := Merge(fields, more)[i];
            && |SetHeaders(single, fields, more)| == |Merge(fields, more)|
            && var lines := FieldLines(SetHeaders(single, fields, more)[i]);
               if single(f.key)
               then lines == [Line(f.key, Some(Join(ShowAll(Values(f.value)), ", ")))]
               else |lines| == |Values(f.value)|
                    && forall j :: 0 <= j < |lines| ==> lines[j] == Line(f.key, Values(f.value)[j])
  {
    JoinAllAt(single, Merge(fields, more), i);
    var f := Merge(fields, more)[i];
    if single(f.key) && f.value.One? {
      assert ShowAll([f.value.text]) == [Show(f.value.text)];
    }
  }

  // ---------------------------------------------------------------- spellings

  /** A line together with the name it was written for. */
  datatype Sent = Sent(name: string, line: string)

  function FieldSent(f: Field): seq<Sent> {
    if f.key == [] then []
    else seq(|Values(f.value)|, i requires 0 <= i < |Values(f.value)| => Sent(f.key, Line(f.key, Values(f.value)[i])))
  }

  function AllSent(fields: Fields): seq<Sent> {
    if fields == [] then [] else FieldSent(fields[0]) + AllSent(fields[1..])
  }

  /** The lines are what is handed to the client. */
  lemma {:induction false} SentAreLines(fields: Fields)
    ensures |AllSent(fields)| == |Lines(fields)|
    ensures forall i :: 0 <= i < |Lines(fields)| ==> AllSent(fields)[i].line == Lines(fields)[i]
  {
    if fields != [] {
      SentAreLines(fields[1..]);
    }
  }

  /** How many lines carry a spelling of the name. */
  function CountSent(lower: string -> string, sent: seq<Sent>, name: string): nat {
    if sent == [] then 0
    else (if lower(sent[0].name) == name then 1 else 0) + CountSent(lower, sent[1..], name)
  }

  lemma {:induction false} CountSentConcat(lower: string -> string, a: seq<Sent>, b: seq<Sent>, name: string)
    ensures CountSent(lower, a + b, name) == CountSent(lower, a, name) + CountSent(lower, b, name)
  {
    if a == [] {
      assert a + b == b;
    } else {
      assert (a + b)[1..] == a[1..] + b;
      CountSentConcat(lower, a[1..], b, name);
    }
  }

  predicate Spells(lower: string -> string, key: string, name: string) {
    key != [] && lower(key) == name
  }

  /** The spellings of a name among the headers. */
  function Spellings(lower: string -> string, fields: Fields, name: string): set<string> {
    set i | 0 <= i < |fields| && Spells(lower, fields[i].key, name) :: fields[i].key
  }

  lemma SpellingsExactly(lower: string -> string, fields: Fields, name: string, key: string)
    ensures key in Spellings(lower, fields, name) <==> HasKey(fields, key) && Spells(lower, key, name)
  {
  }

  lemma SpellingsCons(lower: string -> string, head: Field, rest: Fields, name: string)
    ensures Spellings(lower, [head] + rest, name)
         == (if Spells(lower, head.key, name) then {head.key} else {}) + Spellings(lower, rest, name)
  {
    var both := (if Spells(lower, head.key, name) then {head.key} else {}) + Spellings(lower, rest, name);
    forall key ensures key in Spellings(lower, [head] + rest, name) <==> key in both {
      SpellingsExactly(lower, [head] + rest, name, key);
      SpellingsExactly(lower, rest, name, key);
      ConsHasKey(head, rest, key);
    }
  }

  lemma FieldCount(lower: string -> string, f: Field, name: string)
    requires Spells(lower, f.key, name) ==> f.value.One?
    ensures CountSent(lower, FieldSent(f), name) == if Spells(lower, f.key, name) then 1 else 0
  {
    if Spells(lower, f.key, name) {
      assert FieldSent(f) == [Sent(f.key, Line(f.key, f.value.text))];
      assert FieldSent(f)[1..] == [];
    } else {
      NoneCount(lower, FieldSent(f), name);
    }
  }

  lemma {:induction false} NoneCount(lower: string -> string, sent: seq<Sent>, name: string)
    requires forall i :: 0 <= i < |sent| ==> lower(sent[i].name) != name
    ensures CountSent(lower, sent, name) == 0
  {
    if sent != [] {
      NoneCount(lower, sent[1..], name);
    }
  }

  lemma {:induction false} CountIsSpellings(lower: string -> string, fields: Fields, name: string)
    requires DistinctKeys(fields)
    requires forall i :: 0 <= i < |fields| && Spells(lower, fields[i].key, name) ==> fields[i].value.One?
    ensures CountSent(lower, AllSent(fields), name) == |Spellings(lower, fields, name)|
  {
    if fields == [] {
      assert Spellings(lower, fields, name) == {};
    } else {
      var head, rest := fields[0], fields[1..];
      assert [head] + rest == fields;
      CountIsSpellings(lower, rest, name);
      CountSentConcat(lower, FieldSent(head), AllSent(rest), name);
      FieldCount(lower, head, name);
      SpellingsCons(lower, head, rest, name);
      SpellingsExactly(lower, rest, name, head.key);
      assert !HasKey(rest, head.key);
    }
  }

  lemma {:induction false} MergeHasKey(fields: Fields, more: Fields, key: string)
    ensures HasKey(Merge(fields, more), key) <==> HasKey(fields, key) || HasKey(more, key)
    decreases |more|
  {
    if more != [] {
      MergeHasKey(Put(fields, more[0]), more[1..], key);
      PutHasKey(fields, more[0], key);
      ConsHasKey(more[0], more[1..], key);
      assert [more[0]] + more[1..] == more;
    }
  }

  lemma SpellingsOfMerge(lower: string -> string, fields: Fields, more: Fields, name: string)
    ensures Spellings(lower, Merge(fields, more), name) == Spellings(lower, fields, name) + Spellings(lower, more, name)
  {
    var both := Spellings(lower, fields, name) + Spellings(lower, more, name);
    forall key ensures key in Spellings(lower, Merge(fields, more), name) <==> key in both {
      SpellingsExactly(lower, Merge(fields, more), name, key);
      SpellingsExactly(lower, fields, name, key);
      SpellingsExactly(lower, more, name, key);
      MergeHasKey(fields, more, key);
    }
  }

  lemma JoinAllKeys(single: string -> bool, fields: Fields)
    ensures |JoinAll(single, fields)| == |fields|
    ensures forall i :: 0 <= i < |fields| ==> JoinAll(single, fields)[i] == Joined(single, fields[i])
  {
    if fields != [] {
      JoinAllAt(single, fields, 0);
    }
    forall i | 0 <= i < |fields| ensures JoinAll(single, fields)[i] == Joined(single, fields[i]) {
      JoinAllAt(single, fields, i);
    }
  }

  /** Names are told apart by exact text: a single-value header goes out on as many lines as it
      has spellings among the headers, so on one line exactly when it has one spelling. */
  lemma LinesPerSpelling(lower: string -> string, single: string -> bool, fields: Fields, more: Fields, name: string)
    requires DistinctKeys(fields) && forall key :: lower(key) == name ==> single(key)
    ensures CountSent(lower, AllSent(SetHeaders(single, fields, more)), name)
         == |Spellings(lower, fields, name) + Spellings(lower, more, name)|
    ensures var headers := SetHeaders(single, fields, more);
            && |AllSent(headers)| == |Lines(headers)|
            && forall i :: 0 <= i < |Lines(headers)| ==> AllSent(headers)[i].line == Lines(headers)[i]
  {
    SentAreLines(SetHeaders(single, fields, more));
    var merged := Merge(fields, more);
    var joined := JoinAll(single, merged);
    MergeDistinct(fields, more);
    JoinAllKeys(single, merged);
    CountIsSpellings(lower, joined, name);
    SameSpellings(lower, joined, merged, name);
    SpellingsOfMerge(lower, fields, more, name);
  }

  lemma SameSpellings(lower: string -> string, a: Fields, b: Fields, name: string)
    requires |a| == |b| && forall i :: 0 <= i < |a| ==> a[i].key == b[i].key
    ensures Spellings(lower, a, name) == Spellings(lower, b, name)
  {
    forall key ensures key in Spellings(lower, a, name) <==> key in Spellings(lower, b, name) {
      SpellingsExactly(lower, a, name, key);
      SpellingsExactly(lower, b, name, key);
      assert HasKey(a, key) ==> HasKey(b, key);
      assert HasKey(b, key) ==> HasKey(a, key);
    }
  }

  /** Two spellings, such as Host and host, make two lines. */
  lemma TwoSpellingsTwoLines(lower: string -> string, single: string -> bool, a: Field, b: Field)
    requires a.key != b.key && a.key != [] && b.key != [] && lower(a.key) == lower(b.key)
    requires forall key :: lower(key) == lower(a.key) ==> single(key)
    ensures CountSent(lower, AllSent(SetHeaders(single, [a], [b])), lower(a.key)) == 2
  {
    LinesPerSpelling(lower, single, [a], [b], lower(a.key));
    SpellingsCons(lower, a, [], lower(a.key));
    SpellingsCons(lower, b, [], lower(a.key));
    assert [a] + [] == [a] && [b] + [] == [b];
    assert Spellings(lower, [a], lower(a.key)) + Spellings(lower, [b], lower(a.key)) == {a.key, b.key};
  }

  // ---------------------------------------------------------------- defaults

  predicate HasHeader(lower: string -> string, fields: Fields, name: string) {
    exists i | 0 <= i < |fields| :: lower(fields[i].key) == lower(name)
  }

  /** The lines handed to the client, with the two defaults pushed after the caller's. The
      connection line comes exactly when the connection is not kept and no spelling of that
      name is present. */
  method ApplyCurlHeaders(lower: string -> string, fields: Fields, keep: bool, decompress: bool)
      returns (lines: seq<string>, closes: bool, plain: bool)
    ensures closes <==> !keep && forall i :: 0 <= i < |fields| ==> lower(fields[i].key) != lower("connection")
    ensures plain <==> !decompress && forall i :: 0 <= i < |fields| ==> lower(fields[i].key) != lower("accept-encoding")
    ensures Lines(fields) <= lines && |lines| == |Lines(fields)| + (if closes then 1 else 0) + (if plain then 1 else 0)
    ensures closes ==> lines[|Lines(fields)|] == "Connection: close"
    ensures plain ==> lines[|lines| - 1] == "Accept-Encoding: identity"
  {
    lines := BuildCurlHeaders(fields);
    closes := !keep && !HasHeader(lower, fields, "connection");
    if closes {
      lines := lines + ["Connection: close"];
    }
    plain := !decompress && !HasHeader(lower, fields, "accept-encoding");
    if plain {
      lines := lines + ["Accept-Encoding: identity"];
    }
  }

  // ---------------------------------------------------------------- the request object

  const SINGLE_VALUE_HEADERS: set<string> :=
    {"authorization", "content-disposition", "content-length", "content-type", "from", "host",
     "if-modified-since", "if-unmodified-since", "location", "max-forwards",
     "proxy-authorization", "referer", "user-agent"}

  function IsSingle(lower: string -> string): string -> bool {
    name => lower(name) in SINGLE_VALUE_HEADERS
  }

  class Request {
    const single: string -> bool
    var headers: Fields

    constructor (lower: string -> string, initial: Fields)
      requires DistinctKeys(initial)
      ensures headers == SetHeaders(single, [], initial) && single == IsSingle(lower)
    {
      single := IsSingle(lower);
      headers := JoinAll(IsSingle(lower), Merge([], initial));
    }

    /** Merges, then joins the lists of single-value headers one entry at a time. */
    method Set(more: Fields)
      modifies this
      ensures headers == SetHeaders(single, old(headers), more)
    {
      var merged := Merge(headers, more);
      var result := [];
      for i := 0 to |merged|
        invariant result == JoinAll(single, merged[..i])
      {
        assert merged[..i + 1] == merged[..i] + [merged[i]];
        JoinAllSnoc(single, merged[..i], merged[i]);
        result := result + [Joined(single, merged[i])];
      }
      assert merged[..|merged|] == merged;
      headers := result;
    }
  }

  lemma {:induction false} JoinAllSnoc(single: string -> bool, fields: Fields, f: Field)
    ensures JoinAll(single, fields + [f]) == JoinAll(single, fields) + [Joined(single, f)]
  {
    if fields == [] {
      assert fields + [f] == [f] && [f][1..] == [];
    } else {
      JoinAllSnoc(single, fields[1..], f);
      assert (fields + [f])[1..] == fields[1..] + [f];
    }
  }
}
