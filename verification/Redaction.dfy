/** Keeping secrets out of error messages: which command-line values are secret, and the
sort-then-replace fold that masks them. */
module Redaction {
  import opened Text
  import opened Collections

  const MARK: string := "[Filtered]"

  // ---------------------------------------------------------------- masking one secret

  /** `t.split(p)`: the pieces between the leftmost occurrences of `p` that do not overlap. */
  function Split(t: string, p: string): (parts: seq<string>)
    requires p != []
    ensures parts != []
    decreases |t|
  {
    if p <= t then [[]] + Split(t[|p|..], p)
    else if t == [] then [[]]
    else
      var parts := Split(t[1..], p);
      [[t[0]] + parts[0]] + parts[1..]
  }

  function Mask(mark: string, t: string, secret: string): string
    requires secret != []
  {
    Join(Split(t, secret), mark)
  }

  /** Masking read from left to right. */
  function Masked(mark: string, t: string, p: string): string
    requires p != []
    decreases |t|
  {
    if p <= t then mark + Masked(mark, t[|p|..], p)
    else if t == [] then []
    else [t[0]] + Masked(mark, t[1..], p)
  }

  lemma {:induction false} MaskScans(mark: string, t: string, p: string)
    requires p != []
    ensures Mask(mark, t, p) == Masked(mark, t, p)
    decreases |t|
  {
    if p <= t {
      var parts := Split(t[|p|..], p);
      MaskScans(mark, t[|p|..], p);
      assert ([[]] + parts)[1..] == parts;
      assert [] + mark + Join(parts, mark) == mark + Join(parts, mark);
    } else if t != [] {
      var parts := Split(t[1..], p);
      MaskScans(mark, t[1..], p);
      var grown := [[t[0]] + parts[0]] + parts[1..];
      assert grown[1..] == parts[1..];
      if |parts| > 1 {
        var rest := Join(parts[1..], mark);
        assert [t[0]] + parts[0] + mark + rest == [t[0]] + (parts[0] + mark + rest);
      }
    }
  }

  /** Text put in front moves every occurrence along. */
  lemma OccursAfter(front: string, s: string, p: string, i: int)
    requires 0 <= i
    ensures OccursAt(front + s, p, |front| + i) <==> OccursAt(s, p, i)
  {
    if i + |p| <= |s| {
      assert (front + s)[|front| + i..|front| + i + |p|] == s[i..i + |p|];
    }
  }

  // ---------------------------------------------------------------- meeting the mark

  /** Laid over the mark at offset `d`, the secret agrees with it wherever they overlap. */
  predicate Agrees(mark: string, secret: string, d: int) {
    && -|secret| < d < |mark|
    && forall i | 0 <= i < |secret| && 0 <= i + d < |mark| :: secret[i] == mark[i + d]
  }

  /** Some part of the secret can be read off the mark. */
  ghost predicate MeetsMark(mark: string, secret: string) {
    exists d :: Agrees(mark, secret, d)
  }

  lemma AgreesLeftOfMark(mark: string, r: string, secret: string, k: nat)
    requires mark != [] && k < |secret| && secret[k..] <= r && mark <= r
    ensures Agrees(mark, secret, 0 - k)
  {
    assert forall i | k <= i < |secret| && i - k < |mark| :: secret[i] == secret[k..][i - k] == r[i - k] == mark[i - k];
  }

  lemma AgreesFromMark(mark: string, r: string, secret: string, i: nat)
    requires secret != [] && OccursAt(r, secret, i) && mark <= r && i < |mark|
    ensures Agrees(mark, secret, i)
  {
    assert forall a | 0 <= a < |secret| && a + i < |mark| :: secret[a] == r[i..i + |secret|][a] == r[a + i] == mark[a + i];
  }

  lemma {:induction false} PrefixStaysLiteral(mark: string, t: string, p: string, secret: string, k: nat)
    requires mark != [] && p != [] && k <= |secret| && !MeetsMark(mark, secret)
    requires secret[k..] <= Masked(mark, t, p)
    ensures secret[k..] <= t
    decreases |t|
  {
    if k < |secret| {
      if p <= t {
        AgreesLeftOfMark(mark, Masked(mark, t, p), secret, k);
        assert false;
      } else {
        var r := Masked(mark, t, p);
        assert r[1..] == Masked(mark, t[1..], p);
        assert secret[k..][1..] == secret[k + 1..];
        PrefixStaysLiteral(mark, t[1..], p, secret, k + 1);
        assert secret[k..] == [secret[k]] + secret[k + 1..];
        assert t == [t[0]] + t[1..];
      }
    }
  }

  lemma OccursInWhole(front: string, rest: string, whole: string, p: string, k: nat)
    requires front + rest == whole && OccursAt(rest, p, k)
    ensures OccursAt(whole, p, |front| + k)
  {
    OccursAfter(front, rest, p, k);
  }

  lemma NotInMark(mark: string, r: string, secret: string, i: nat)
    requires secret != [] && OccursAt(r, secret, i) && mark <= r && !MeetsMark(mark, secret)
    ensures i >= |mark|
  {
    if i < |mark| {
      AgreesFromMark(mark, r, secret, i);
    }
  }

  lemma FrontStays(mark: string, t: string, p: string, secret: string)
    requires mark != [] && p != [] && secret != [] && !MeetsMark(mark, secret) && !(p <= t)
    requires OccursAt(Masked(mark, t, p), secret, 0)
    ensures OccursAt(t, secret, 0) && p != secret
  {
    OccursFirst(Masked(mark, t, p), secret);
    OccursFirst(t, secret);
    assert secret[0..] == secret;
    PrefixStaysLiteral(mark, t, p, secret, 0);
  }

  /** An occurrence behind the first piece of the masked text, seen from the rest. */
  lemma OccursBehind(front: string, rest: string, whole: string, p: string, i: nat)
    requires whole == front + rest && |front| <= i && OccursAt(whole, p, i)
    ensures OccursAt(rest, p, i - |front|)
  {
    OccursAfter(front, rest, p, i - |front|);
  }

  /** Masking `p` brings in no occurrence of a secret that does not meet the mark. */
  lemma {:induction false} MaskBringsNothingIn(mark: string, t: string, p: string, secret: string, i: nat) returns (j: nat)
    requires mark != [] && p != [] && secret != [] && !MeetsMark(mark, secret)
    requires OccursAt(Masked(mark, t, p), secret, i)
    ensures OccursAt(t, secret, j) && p != secret
    decreases |t|
  {
    var r := Masked(mark, t, p);
    if p <= t {
      var rest := t[|p|..];
      NotInMark(mark, r, secret, i);
      OccursBehind(mark, Masked(mark, rest, p), r, secret, i);
      var k := MaskBringsNothingIn(mark, rest, p, secret, i - |mark|);
      OccursInWhole(t[..|p|], rest, t, secret, k);
      j := |p| + k;
    } else if i == 0 {
      FrontStays(mark, t, p, secret);
      j := 0;
    } else {
      OccursBehind([t[0]], Masked(mark, t[1..], p), r, secret, i);
      var k := MaskBringsNothingIn(mark, t[1..], p, secret, i - 1);
      OccursInWhole([t[0]], t[1..], t, secret, k);
      j := 1 + k;
    }
  }

  lemma {:induction false} AbsentIsUnchanged(mark: string, t: string, p: string)
    requires p != [] && !Contains(t, p)
    ensures Mask(mark, t, p) == t
  {
    MaskScans(mark, t, p);
    MaskedAbsent(mark, t, p);
  }

  lemma AbsentFromTail(t: string, p: string)
    requires t != [] && !Contains(t, p)
    ensures !Contains(t[1..], p)
  {
    assert [t[0]] + t[1..] == t;
    forall i ensures !OccursAt(t[1..], p, i) {
      if i >= 0 {
        OccursAfter([t[0]], t[1..], p, i);
        assert !OccursAt(t, p, 1 + i);
      }
    }
  }

  lemma OccursFirst(t: string, p: string)
    ensures OccursAt(t, p, 0) <==> p <= t
  {
  }

  lemma {:induction false} MaskedAbsent(mark: string, t: string, p: string)
    requires p != [] && !Contains(t, p)
    ensures Masked(mark, t, p) == t
    decreases |t|
  {
    OccursFirst(t, p);
    if t != [] {
      AbsentFromTail(t, p);
      MaskedAbsent(mark, t[1..], p);
      assert [t[0]] + t[1..] == t;
    }
  }

  // ---------------------------------------------------------------- the fold

  /** Stable insertion, longest first. */
  function Insert(s: string, sorted: seq<string>): seq<string> {
    if sorted == [] then [s]
    else if |s| >= |sorted[0]| then [s] + sorted
    else [sorted[0]] + Insert(s, sorted[1..])
  }

  /** The secrets in the order they are masked. */
  function LongestFirst(secrets: seq<string>): seq<string> {
    if secrets == [] then [] else Insert(secrets[0], LongestFirst(secrets[1..]))
  }

  predicate AllNonEmpty(secrets: seq<string>) {
    forall i :: 0 <= i < |secrets| ==> secrets[i] != []
  }

  ghost predicate NoneIn(secrets: seq<string>, t: string) {
    forall i :: 0 <= i < |secrets| ==> !Contains(t, secrets[i])
  }

  function MaskAll(mark: string, t: string, secrets: seq<string>): string
    requires AllNonEmpty(secrets)
    decreases |secrets|
  {
    if secrets == [] then t else MaskAll(mark, Mask(mark, t, secrets[0]), secrets[1..])
  }

  function RedactWith(secrets: seq<string>, t: string): string
    requires AllNonEmpty(secrets)
  {
    SortKeepsSecrets(secrets);
    MaskAll(MARK, t, LongestFirst(secrets))
  }

  lemma {:induction false} InsertKeeps(s: string, sorted: seq<string>)
    ensures forall x :: x in Insert(s, sorted) <==> x == s || x in sorted
    ensures |Insert(s, sorted)| == |sorted| + 1
  {
    if sorted != [] && |s| < |sorted[0]| {
      InsertKeeps(s, sorted[1..]);
      assert forall x :: x in sorted <==> x == sorted[0] || x in sorted[1..];
    }
  }

  lemma {:induction false} SortKeepsElements(secrets: seq<string>)
    ensures forall x :: x in LongestFirst(secrets) <==> x in secrets
    ensures |LongestFirst(secrets)| == |secrets|
  {
    if secrets != [] {
      SortKeepsElements(secrets[1..]);
      InsertKeeps(secrets[0], LongestFirst(secrets[1..]));
    }
  }

  lemma SortKeepsSecrets(secrets: seq<string>)
    ensures forall x :: x in LongestFirst(secrets) <==> x in secrets
    ensures AllNonEmpty(secrets) ==> AllNonEmpty(LongestFirst(secrets))
  {
    SortKeepsElements(secrets);
    var r := LongestFirst(secrets);
    assert forall i :: 0 <= i < |r| ==> r[i] in r && r[i] in secrets;
  }

  lemma SortKeepsAbsence(secrets: seq<string>, t: string)
    requires NoneIn(secrets, t)
    ensures NoneIn(LongestFirst(secrets), t)
  {
    SortKeepsElements(secrets);
    var r := LongestFirst(secrets);
    assert forall i :: 0 <= i < |r| ==> r[i] in r && r[i] in secrets;
  }

  predicate Descending(s: seq<string>) {
    forall i, j :: 0 <= i < j < |s| ==> |s[i]| >= |s[j]|
  }

  lemma {:induction false} InsertSorts(s: string, sorted: seq<string>)
    requires Descending(sorted)
    ensures Descending(Insert(s, sorted))
  {
    if sorted != [] && |s| < |sorted[0]| {
      InsertSorts(s, sorted[1..]);
      InsertKeeps(s, sorted[1..]);
      var r := Insert(s, sorted[1..]);
      forall j | 0 <= j < |r| ensures |r[j]| <= |sorted[0]| {
        assert r[j] in r;
        assert forall x :: x in sorted[1..] ==> |x| <= |sorted[0]|;
      }
    }
  }

  lemma {:induction false} SortDescends(secrets: seq<string>)
    ensures Descending(LongestFirst(secrets))
  {
    if secrets != [] {
      SortDescends(secrets[1..]);
      InsertSorts(secrets[0], LongestFirst(secrets[1..]));
    }
  }

  lemma {:induction false} MaskAllRemoves(mark: string, t: string, secrets: seq<string>, secret: string)
    requires mark != [] && AllNonEmpty(secrets) && secret != [] && !MeetsMark(mark, secret)
    requires secret in secrets || !Contains(t, secret)
    ensures !Contains(MaskAll(mark, t, secrets), secret)
    decreases |secrets|
  {
    if secrets != [] {
      var next := Mask(mark, t, secrets[0]);
      MaskScans(mark, t, secrets[0]);
      if secret !in secrets[1..] {
        forall i | OccursAt(next, secret, i) ensures false {
          var j := MaskBringsNothingIn(mark, t, secrets[0], secret, i);
        }
      }
      MaskAllRemoves(mark, next, secrets[1..], secret);
    }
  }

  /** A secret that does not meet the mark is gone from every redacted text, whatever the
      other secrets are and however they overlap it. */
  lemma RedactRemoves(secrets: seq<string>, secret: string, t: string)
    requires AllNonEmpty(secrets) && secret in secrets && !MeetsMark(MARK, secret)
    ensures !Contains(RedactWith(secrets, t), secret)
  {
    SortKeepsSecrets(secrets);
    MaskAllRemoves(MARK, t, LongestFirst(secrets), secret);
  }

  /** No bracket and not inside the word Filtered: enough not to meet the mark. */
  lemma PlainSecretsDoNotMeet(secret: string)
    requires secret != [] && '[' !in secret && ']' !in secret && !Contains("Filtered", secret)
    ensures !MeetsMark(MARK, secret)
  {
    var n, word := |secret|, "Filtered";
    forall d ensures !Agrees(MARK, secret, d) {
      if -n < d <= 0 {
        assert secret[-d] in secret && MARK[0] == '[';
      } else if 0 < d < |MARK| <= d + n {
        assert secret[|MARK| - 1 - d] in secret && MARK[|MARK| - 1] == ']';
      } else if 0 < d < |MARK| {
        assert !OccursAt(word, secret, d - 1);
        var piece := word[d - 1..d - 1 + n];
        assert forall i :: 0 <= i < n ==> piece[i] == MARK[i + d];
      }
    }
  }

  lemma {:induction false} MaskAllAbsent(mark: string, t: string, secrets: seq<string>)
    requires AllNonEmpty(secrets) && NoneIn(secrets, t)
    ensures MaskAll(mark, t, secrets) == t
    decreases |secrets|
  {
    if secrets != [] {
      AbsentIsUnchanged(mark, t, secrets[0]);
      MaskAllAbsent(mark, t, secrets[1..]);
    }
  }

  /** Text without secrets is left alone. */
  lemma RedactKeepsCleanText(secrets: seq<string>, t: string)
    requires AllNonEmpty(secrets) && NoneIn(secrets, t)
    ensures RedactWith(secrets, t) == t
  {
    SortKeepsSecrets(secrets);
    SortKeepsAbsence(secrets, t);
    MaskAllAbsent(MARK, t, LongestFirst(secrets));
  }

  lemma LongerIsAbsent(t: string, p: string)
    requires |p| >= |t| && p != t
    ensures !Contains(t, p)
  {
    assert t[0..|t|] == t;
  }

  lemma MaskItself(mark: string, p: string)
    requires p != []
    ensures Mask(mark, p, p) == mark
  {
    MaskScans(mark, p, p);
    assert p[|p|..] == [];
    assert mark + [] == mark;
  }

  lemma {:induction false} MaskAllWhole(mark: string, secret: string, secrets: seq<string>)
    requires AllNonEmpty(secrets) && Descending(secrets) && secret in secrets
    requires NoneIn(secrets, mark)
    ensures MaskAll(mark, secret, secrets) == mark
    decreases |secrets|
  {
    var first, rest := secrets[0], secrets[1..];
    if first == secret {
      MaskItself(mark, secret);
      MaskAllAbsent(mark, mark, rest);
    } else {
      assert |first| >= |secret|;
      LongerIsAbsent(secret, first);
      AbsentIsUnchanged(mark, secret, first);
      MaskAllWhole(mark, secret, rest);
    }
  }

  /** Longest first means a secret is masked whole, even when it contains shorter secrets. */
  lemma RedactMasksWhole(secrets: seq<string>, secret: string)
    requires AllNonEmpty(secrets) && secret in secrets
    requires NoneIn(secrets, MARK)
    ensures RedactWith(secrets, secret) == MARK
  {
    SortKeepsSecrets(secrets);
    SortDescends(secrets);
    SortKeepsAbsence(secrets, MARK);
    MaskAllWhole(MARK, secret, LongestFirst(secrets));
  }

  // ---------------------------------------------------------------- exactly when one secret leaks

  /** The secret agrees with the mark at `d`, and the part left of the mark, put before the
      secret, starts no earlier occurrence. */
  predicate LeaksAt(mark: string, secret: string, d: int) {
    && Agrees(mark, secret, d)
    && var k := if d < 0 then -d else 0;
       forall j | 0 <= j < k :: !OccursAt(secret[..k] + secret, secret, j)
  }

  ghost predicate Leaks(mark: string, secret: string) {
    exists d :: LeaksAt(mark, secret, d)
  }

  predicate NoneBefore(t: string, p: string, n: nat) {
    forall j | 0 <= j < n :: !OccursAt(t, p, j)
  }

  lemma LeaksLeftOfMark(mark: string, t: string, secret: string, k: nat, whole: string)
    requires mark != [] && secret != [] && k < |secret| && whole == secret[..k] + t && secret <= t
    requires NoneBefore(whole, secret, k)
    requires secret[k..] <= Masked(mark, t, secret)
    ensures Leaks(mark, secret)
  {
    AgreesLeftOfMark(mark, Masked(mark, t, secret), secret, k);
    var front := secret[..k] + secret;
    forall j | 0 <= j < k ensures !OccursAt(front, secret, j) {
      assert whole[j..j + |secret|] == front[j..j + |secret|];
      assert !OccursAt(whole, secret, j);
    }
    assert LeaksAt(mark, secret, 0 - k);
  }

  lemma PrefixStep(secret: string, k: nat, r: string)
    requires k + 1 < |secret| && secret[k..] <= r
    ensures secret[k + 1..] <= r[1..]
  {
    assert secret[k..][1..] == secret[k + 1..];
  }

  lemma PrefixGrows(secret: string, k: nat, t: string, whole: string)
    requires k < |secret| && whole == secret[..k] + t && t != [] && t[0] == secret[k]
    ensures whole == secret[..k + 1] + t[1..] && whole[k..] == t
  {
  }

  lemma MaskedMiss(mark: string, t: string, p: string)
    requires p != [] && !(p <= t) && Masked(mark, t, p) != []
    ensures t != [] && Masked(mark, t, p)[0] == t[0] && Masked(mark, t, p)[1..] == Masked(mark, t[1..], p)
  {
  }

  /** One literal character further along the secret. */
  lemma PrefixAdvance(mark: string, t: string, secret: string, k: nat, whole: string)
    requires secret != [] && k < |secret| && whole == secret[..k] + t
    requires NoneBefore(whole, secret, k) && !(secret <= t) && secret[k..] <= Masked(mark, t, secret)
    ensures t != [] && whole == secret[..k + 1] + t[1..] && NoneBefore(whole, secret, k + 1)
    ensures k + 1 < |secret| ==> secret[k + 1..] <= Masked(mark, t[1..], secret)
  {
    MaskedMiss(mark, t, secret);
    assert secret[k..][0] == secret[k];
    PrefixGrows(secret, k, t, whole);
    NotAt(whole, secret, k, t);
    if k + 1 < |secret| {
      PrefixStep(secret, k, Masked(mark, t, secret));
    }
  }

  lemma {:induction false} PrefixLeaks(mark: string, t: string, secret: string, k: nat, whole: string)
    requires mark != [] && secret != [] && k < |secret| && whole == secret[..k] + t
    requires NoneBefore(whole, secret, k)
    requires secret[k..] <= Masked(mark, t, secret) && !(secret <= whole)
    ensures Leaks(mark, secret)
    decreases |t|
  {
    if secret <= t {
      LeaksLeftOfMark(mark, t, secret, k, whole);
    } else {
      PrefixAdvance(mark, t, secret, k, whole);
      assert secret[..k + 1] <= whole;
      if k + 1 < |secret| {
        PrefixLeaks(mark, t[1..], secret, k + 1, whole);
      }
    }
  }

  lemma NotAt(whole: string, secret: string, k: nat, t: string)
    requires k <= |whole| && whole[k..] == t && !(secret <= t)
    ensures !OccursAt(whole, secret, k)
  {
    if k + |secret| <= |whole| {
      assert whole[k..k + |secret|] == t[..|secret|];
    }
  }

  lemma LeaksFromMark(mark: string, r: string, secret: string, i: nat)
    requires secret != [] && OccursAt(r, secret, i) && mark <= r && i < |mark|
    ensures Leaks(mark, secret)
  {
    AgreesFromMark(mark, r, secret, i);
    assert LeaksAt(mark, secret, i);
  }

  lemma LeaksAtFront(mark: string, t: string, secret: string)
    requires mark != [] && secret != [] && secret <= Masked(mark, t, secret) && !(secret <= t)
    ensures Leaks(mark, secret)
  {
    assert secret[..0] + t == t;
    assert secret[0..] == secret;
    PrefixLeaks(mark, t, secret, 0, t);
  }

  lemma {:induction false} OccurrenceMeansLeak(mark: string, t: string, secret: string, i: nat)
    requires mark != [] && secret != [] && OccursAt(Masked(mark, t, secret), secret, i)
    ensures Leaks(mark, secret)
    decreases |t|
  {
    if secret <= t {
      if i < |mark| {
        LeaksFromMark(mark, Masked(mark, t, secret), secret, i);
      } else {
        var rest := t[|secret|..];
        OccursAfter(mark, Masked(mark, rest, secret), secret, i - |mark|);
        OccurrenceMeansLeak(mark, rest, secret, i - |mark|);
      }
    } else if i == 0 {
      OccursFirst(Masked(mark, t, secret), secret);
      LeaksAtFront(mark, t, secret);
    } else {
      OccursAfter([t[0]], Masked(mark, t[1..], secret), secret, i - 1);
      OccurrenceMeansLeak(mark, t[1..], secret, i - 1);
    }
  }

  lemma NoneBeforeTail(c: char, t: string, p: string, n: nat)
    requires n > 0 && NoneBefore([c] + t, p, n)
    ensures !(p <= [c] + t) && NoneBefore(t, p, n - 1)
  {
    OccursFirst([c] + t, p);
    forall j | 0 <= j < n - 1 ensures !OccursAt(t, p, j) {
      OccursAfter([c], t, p, j);
    }
  }

  lemma MaskedCons(mark: string, c: char, t: string, p: string)
    requires p != [] && !(p <= [c] + t)
    ensures Masked(mark, [c] + t, p) == [c] + Masked(mark, t, p)
  {
    assert ([c] + t)[1..] == t;
  }

  /** Text before the first occurrence stays, the occurrence becomes the mark. */
  lemma {:induction false} MaskFirst(mark: string, u: string, p: string, v: string)
    requires p != [] && NoneBefore(u + (p + v), p, |u|)
    ensures Masked(mark, u + (p + v), p) == u + (mark + Masked(mark, v, p))
    decreases |u|
  {
    var t := p + v;
    var m := mark + Masked(mark, v, p);
    if u == [] {
      assert u + t == t && t[|p|..] == v;
      assert u + m == m;
    } else {
      var t' := u[1..] + t;
      assert u + t == [u[0]] + t';
      NoneBeforeTail(u[0], t', p, |u|);
      MaskFirst(mark, u[1..], p, v);
      MaskedCons(mark, u[0], t', p);
      assert [u[0]] + (u[1..] + m) == u + m;
    }
  }

  /** The text right of the mark when the secret lies at `d`. */
  function RightOf(mark: string, secret: string, d: int): string
    requires Agrees(mark, secret, d)
  {
    if |mark| - d < |secret| then secret[|mark| - d..] else []
  }

  lemma SecretOverMark(mark: string, secret: string, d: int)
    requires Agrees(mark, secret, d)
    ensures var k := if d < 0 then -d else 0;
            Contains(secret[..k] + (mark + RightOf(mark, secret, d)), secret)
  {
    var k := if d < 0 then -d else 0;
    var v := RightOf(mark, secret, d);
    var r := secret[..k] + (mark + v);
    var i := d + k;
    var n := |secret|;
    assert |r| >= i + n;
    forall a | 0 <= a < n ensures r[i + a] == secret[a] {
      if a < k {
        assert r[a] == secret[a];
      } else if a + d < |mark| {
        assert r[i + a] == mark[a + d];
      } else {
        assert r[i + a] == v[a + d - |mark|];
      }
    }
    assert r[i..i + n] == secret;
    assert OccursAt(r, secret, i);
  }

  lemma LeakingText(mark: string, secret: string, d: int) returns (t: string)
    requires secret != [] && LeaksAt(mark, secret, d)
    ensures Contains(Mask(mark, t, secret), secret)
  {
    var k := if d < 0 then -d else 0;
    var u := secret[..k];
    var v := RightOf(mark, secret, d);
    t := u + (secret + v);
    forall j | 0 <= j < k ensures !OccursAt(t, secret, j) {
      assert t[j..j + |secret|] == (u + secret)[j..j + |secret|];
      assert !OccursAt(u + secret, secret, j);
    }
    MaskFirst(mark, u, secret, v);
    MaskedAbsent(mark, v, secret);
    MaskScans(mark, t, secret);
    SecretOverMark(mark, secret, d);
  }

  lemma RedactOne(secret: string, t: string)
    requires secret != []
    ensures RedactWith([secret], t) == Mask(MARK, t, secret)
  {
    var one := [secret];
    assert one[1..] == [] && LongestFirst([]) == [];
    assert LongestFirst(one) == one;
    assert MaskAll(MARK, Mask(MARK, t, secret), []) == Mask(MARK, t, secret);
  }

  /** With one secret, redaction is safe for every text exactly when the secret does not leak. */
  lemma OneSecretSafeExactly(secret: string)
    requires secret != []
    ensures (forall t :: !Contains(RedactWith([secret], t), secret)) <==> !Leaks(MARK, secret)
  {
    forall t ensures RedactWith([secret], t) == Mask(MARK, t, secret) {
      RedactOne(secret, t);
    }
    if Leaks(MARK, secret) {
      var d :| LeaksAt(MARK, secret, d);
      var t := LeakingText(MARK, secret, d);
      assert Contains(RedactWith([secret], t), secret);
    } else {
      forall t ensures !Contains(RedactWith([secret], t), secret) {
        MaskScans(MARK, t, secret);
        forall i | OccursAt(Masked(MARK, t, secret), secret, i) ensures false {
          OccurrenceMeansLeak(MARK, t, secret, i);
        }
      }
    }
  }

  // ---------------------------------------------------------------- exactly when a secret is safe among others

  lemma AbsentAround(u: string, y: char, v: string, secret: string)
    requires y !in secret && |u| < |secret| && |v| < |secret|
    ensures !Contains(u + ([y] + v), secret)
  {
    var t := u + ([y] + v);
    forall i ensures !OccursAt(t, secret, i) {
      if 0 <= i <= |u| && i + |secret| <= |t| {
        assert t[i..i + |secret|][|u| - i] == y;
      }
    }
  }

  lemma MaskLoneChar(mark: string, u: string, y: char, v: string)
    requires y !in u && y !in v
    ensures Mask(mark, u + ([y] + v), [y]) == u + (mark + v)
  {
    var t := u + ([y] + v);
    forall j | 0 <= j < |u| ensures !OccursAt(t, [y], j) {
      assert t[j..j + 1][0] == u[j];
      assert u[j] in u;
    }
    MaskFirst(mark, u, [y], v);
    assert forall i :: OccursAt(v, [y], i) ==> v[i..i + 1][0] in v;
    MaskedAbsent(mark, v, [y]);
    MaskScans(mark, t, [y]);
  }

  lemma RedactTwo(long: string, short: string, t: string)
    requires |long| > |short| > 0
    ensures RedactWith([long, short], t) == Mask(MARK, Mask(MARK, t, long), short)
  {
    var both := [long, short];
    assert both[1..] == [short] && [short][1..] == [];
    assert LongestFirst([short]) == [short];
    assert LongestFirst(both) == both;
    var once := Mask(MARK, t, long);
    assert MaskAll(MARK, once, [short]) == Mask(MARK, once, short);
    assert MaskAll(MARK, t, both) == MaskAll(MARK, once, [short]);
  }

  /** A second secret of one character can expose any longer secret that meets the mark. */
  lemma ExposedByAnother(secret: string, d: int, y: char) returns (t: string)
    requires |secret| > 1 && Agrees(MARK, secret, d) && y !in secret
    ensures Contains(RedactWith([secret, [y]], t), secret)
  {
    var k := if d < 0 then -d else 0;
    var u, v := secret[..k], RightOf(MARK, secret, d);
    t := u + ([y] + v);
    AbsentAround(u, y, v, secret);
    AbsentIsUnchanged(MARK, t, secret);
    MaskLoneChar(MARK, u, y, v);
    RedactTwo(secret, [y], t);
    SecretOverMark(MARK, secret, d);
  }

  /** No list of secrets and no text lets the secret through. */
  ghost predicate SafeAmongAny(secret: string) {
    forall secrets, t | AllNonEmpty(secrets) && secret in secrets :: !Contains(RedactWith(secrets, t), secret)
  }

  /** A secret is safe among any other secrets, in any text, exactly when no part of it can be
      read off the mark. `y` is some character the secret does not use. */
  lemma SafeAmongAnyExactly(secret: string, y: char)
    requires secret != [] && y !in secret
    ensures SafeAmongAny(secret) <==> !MeetsMark(MARK, secret)
  {
    if MeetsMark(MARK, secret) {
      var d :| Agrees(MARK, secret, d);
      var secrets, t := [secret], [];
      if |secret| > 1 {
        secrets := [secret, [y]];
        t := ExposedByAnother(secret, d, y);
      } else {
        assert LeaksAt(MARK, secret, d);
        t := LeakingText(MARK, secret, d);
        RedactOne(secret, t);
      }
      assert AllNonEmpty(secrets) && secret in secrets && Contains(RedactWith(secrets, t), secret);
    } else {
      forall secrets, t | AllNonEmpty(secrets) && secret in secrets ensures !Contains(RedactWith(secrets, t), secret) {
        RedactRemoves(secrets, secret, t);
      }
    }
  }

  /** A secret read off the mark: redacting it writes it again. */
  lemma WordInsideMarkLeaks()
    ensures Contains(RedactWith(["Filter"], "Filter"), "Filter")
  {
    var s := "Filter";
    RedactOne(s, s);
    MaskItself(MARK, s);
    assert MARK[1..7] == s;
    assert OccursAt(MARK, s, 1);
  }

  // ---------------------------------------------------------------- which values are secret

  const SENSITIVE_OPTIONS: set<string> := {"--token", "-t"}

  /** `s` up to its first `=`. */
  function BeforeEquals(s: string): (r: string)
    ensures |r| <= |s|
  {
    if s == [] || s[0] == '=' then [] else [s[0]] + BeforeEquals(s[1..])
  }

  /** The second part of `s.split('=', 2)`: it ends at the next `=`. */
  function InlineValue(s: string): string {
    var n := |BeforeEquals(s)|;
    if n == |s| then [] else BeforeEquals(s[n + 1..])
  }

  function When(yes: bool, v: string): seq<string> {
    if yes && v != [] then [v] else []
  }

  /** The argument after position `i`, or nothing. */
  function Next(args: seq<string>, i: nat): string {
    if i + 1 < |args| then args[i + 1] else []
  }

  /** The values the argument at `i` gives away. */
  function SecretsAt(options: set<string>, args: seq<string>, i: nat): seq<string>
    requires i < |args|
  {
    When(BeforeEquals(args[i]) in options, InlineValue(args[i])) + When(args[i] in options, Next(args, i))
  }

  predicate GivesAway(options: set<string>, args: seq<string>, i: nat, v: string)
    requires i < |args|
  {
    || (BeforeEquals(args[i]) in options && InlineValue(args[i]) == v)
    || (args[i] in options && Next(args, i) == v)
  }

  lemma WhenExactly(yes: bool, w: string, v: string)
    ensures v in When(yes, w) <==> v != [] && yes && w == v
  {
  }

  lemma InBoth(a: seq<string>, b: seq<string>, v: string)
    ensures v in a + b <==> v in a || v in b
  {
  }

  lemma SecretsAtExactly(options: set<string>, args: seq<string>, i: nat, v: string)
    requires i < |args|
    ensures v in SecretsAt(options, args, i) <==> v != [] && GivesAway(options, args, i, v)
  {
    var a, b := BeforeEquals(args[i]) in options, args[i] in options;
    WhenExactly(a, InlineValue(args[i]), v);
    WhenExactly(b, Next(args, i), v);
    InBoth(When(a, InlineValue(args[i])), When(b, Next(args, i)), v);
  }

  lemma {:induction false} ConcatExactly(found: seq<seq<string>>, v: string)
    ensures v in Concat(found) <==> exists i :: 0 <= i < |found| && v in found[i]
  {
    if found != [] {
      var front, last := found[..|found| - 1], found[|found| - 1];
      ConcatExactly(front, v);
      InBoth(Concat(front), last, v);
      if v in Concat(front) {
        var i :| 0 <= i < |front| && v in front[i];
        assert v in found[i];
      }
      if exists i :: 0 <= i < |found| && v in found[i] {
        var i :| 0 <= i < |found| && v in found[i];
        assert i < |front| ==> v in front[i];
      }
    }
  }

  function Found(options: set<string>, args: seq<string>): seq<seq<string>> {
    seq(|args|, i requires 0 <= i < |args| => SecretsAt(options, args, i))
  }

  function Collected(options: set<string>, args: seq<string>): seq<string> {
    Concat(Found(options, args))
  }

  /** Exactly the inline values of sensitive options and the arguments that follow one. */
  ghost predicate IsSecret(options: set<string>, args: seq<string>, v: string) {
    v != [] && exists i :: 0 <= i < |args| && GivesAway(options, args, i, v)
  }

  lemma CollectedExactly(options: set<string>, args: seq<string>, v: string)
    ensures v in Collected(options, args) <==> IsSecret(options, args, v)
  {
    var found := Found(options, args);
    ConcatExactly(found, v);
    forall i | 0 <= i < |args| ensures v in found[i] <==> v != [] && GivesAway(options, args, i, v) {
      SecretsAtExactly(options, args, i, v);
    }
  }

  lemma CollectedNonEmpty(options: set<string>, args: seq<string>)
    ensures AllNonEmpty(Collected(options, args))
  {
    CollectedExactly(options, args, []);
    var values := Collected(options, args);
    assert forall i :: 0 <= i < |values| ==> values[i] in values;
  }

  lemma CollectedSpec(options: set<string>, args: seq<string>)
    ensures AllNonEmpty(Collected(options, args))
    ensures forall v :: v in Collected(options, args) <==> IsSecret(options, args, v)
  {
    forall v ensures v in Collected(options, args) <==> IsSecret(options, args, v) {
      CollectedExactly(options, args, v);
    }
    CollectedNonEmpty(options, args);
  }

  /** What one pass of the loop adds. */
  lemma CollectStep(options: set<string>, args: seq<string>, i: nat)
    requires i < |args|
    ensures Concat(Found(options, args)[..i + 1]) == Concat(Found(options, args)[..i]) + SecretsAt(options, args, i)
  {
    var found := Found(options, args);
    assert found[..i + 1] == found[..i] + [found[i]];
    ConcatSnoc(found[..i], found[i]);
  }

  lemma WhenPushes(before: seq<string>, yes: bool, v: string)
    ensures before + When(yes, v) == if yes && v != [] then before + [v] else before
  {
  }

  lemma Pushed(before: seq<string>, a: seq<string>, b: seq<string>)
    ensures before + (a + b) == before + a + b
  {
  }

  method CollectSensitiveValues(options: set<string>, args: seq<string>) returns (values: seq<string>)
    ensures values == Collected(options, args) && AllNonEmpty(values)
    ensures forall v :: v in values <==> IsSecret(options, args, v)
  {
    values := [];
    var i := 0;
    while i < |args|
      invariant 0 <= i <= |args| && values == Concat(Found(options, args)[..i])
    {
      values := PushSecrets(options, args, i, values);
      i := i + 1;
    }
    assert Found(options, args)[..|args|] == Found(options, args);
    CollectedSpec(options, args);
  }

  /** The body of the loop: pushes what the argument at `i` gives away. */
  method PushSecrets(options: set<string>, args: seq<string>, i: nat, before: seq<string>) returns (values: seq<string>)
    requires i < |args| && before == Concat(Found(options, args)[..i])
    ensures values == Concat(Found(options, args)[..i + 1])
  {
    values := before;
    var option, inline, next := BeforeEquals(args[i]), InlineValue(args[i]), Next(args, i);
    WhenPushes(values, option in options, inline);
    if inline != [] && option in options {
      values := values + [inline];
    }
    WhenPushes(values, args[i] in options, next);
    if args[i] in options && next != [] {
      values := values + [next];
    }
    Pushed(before, When(option in options, inline), When(args[i] in options, next));
    CollectStep(options, args, i);
  }

  function BuildArgs(token: string, id: string, hostname: Option<string>): seq<string> {
    ["--token", token, "--id", id] + (if hostname.Some? then ["--hostname", hostname.value] else [])
  }

  /** The set of secrets of a run, in insertion order. */
  function Secrets(token: string, id: string, hostname: Option<string>): (r: seq<string>)
    ensures AllNonEmpty(r)
  {
    var args := BuildArgs(token, id, hostname);
    DistinctNonEmpty(SENSITIVE_OPTIONS, args);
    Distinct(Collected(SENSITIVE_OPTIONS, args))
  }

  lemma {:induction false} DistinctNonEmpty(options: set<string>, args: seq<string>)
    ensures AllNonEmpty(Distinct(Collected(options, args)))
  {
    var values := Distinct(Collected(options, args));
    CollectedExactly(options, args, []);
    DistinctMembers(Collected(options, args));
    assert forall i :: 0 <= i < |values| ==> values[i] in values;
  }

  lemma {:induction false} SecretsExactly(token: string, id: string, hostname: Option<string>, v: string)
    ensures v in Secrets(token, id, hostname) <==> IsSecret(SENSITIVE_OPTIONS, BuildArgs(token, id, hostname), v)
  {
    var args := BuildArgs(token, id, hostname);
    DistinctMembers(Collected(SENSITIVE_OPTIONS, args));
    CollectedExactly(SENSITIVE_OPTIONS, args, v);
  }

  /** The token of a run is always among the values masked for it. */
  lemma TokenIsSecret(token: string, id: string, hostname: Option<string>)
    requires token != []
    ensures token in Secrets(token, id, hostname)
  {
    var args := BuildArgs(token, id, hostname);
    assert GivesAway(SENSITIVE_OPTIONS, args, 0, token);
    SecretsExactly(token, id, hostname, token);
  }

  /** So no message about a run shows its token, for every token that does not meet the mark. */
  lemma TokenNeverShown(token: string, id: string, hostname: Option<string>, message: string)
    requires token != [] && !MeetsMark(MARK, token)
    ensures !Contains(RedactWith(Secrets(token, id, hostname), message), token)
  {
    TokenIsSecret(token, id, hostname);
    RedactRemoves(Secrets(token, id, hostname), token, message);
  }

  // ---------------------------------------------------------------- inline values

  lemma {:induction false} BeforeEqualsOf(a: string, rest: string)
    requires '=' !in a
    ensures BeforeEquals(a + (['='] + rest)) == a
  {
    var s := a + (['='] + rest);
    if a != [] {
      assert s[0] == a[0] && s[0] in a && s[1..] == a[1..] + (['='] + rest);
      BeforeEqualsOf(a[1..], rest);
      assert [a[0]] + a[1..] == a;
    }
  }

  lemma {:induction false} BeforeEqualsWhole(s: string)
    ensures BeforeEquals(s) == s <==> '=' !in s
  {
    if s != [] {
      BeforeEqualsWhole(s[1..]);
      assert [s[0]] + s[1..] == s;
      assert '=' in s <==> s[0] == '=' || '=' in s[1..];
    }
  }

  /** An inline value is read whole exactly when it has no `=` of its own; otherwise it is cut
      there. */
  lemma {:induction false} InlineValueExactly(option: string, v: string)
    requires '=' !in option
    ensures InlineValue(option + (['='] + v)) == BeforeEquals(v)
    ensures InlineValue(option + (['='] + v)) == v <==> '=' !in v
  {
    BeforeEqualsOf(option, v);
    DropOption(option, v);
    BeforeEqualsWhole(v);
  }

  lemma DropOption(option: string, v: string)
    ensures (option + (['='] + v))[|option| + 1..] == v && |option + (['='] + v)| == |option| + 1 + |v|
  {
  }

  /** A text without `=` has no inline value. */
  lemma {:induction false} NoInlineValue(s: string)
    requires '=' !in s
    ensures BeforeEquals(s) == s && InlineValue(s) == []
  {
    BeforeEqualsWhole(s);
  }

  /** The value given inline at `i` is among the collected ones exactly when it has no `=`, or
      some other argument gives the same value away. */
  lemma {:induction false} InlineCollectedExactly(options: set<string>, args: seq<string>, i: nat, option: string, v: string)
    requires forall o :: o in options ==> '=' !in o
    requires i < |args| && args[i] == option + (['='] + v) && option in options && v != []
    ensures v in Collected(options, args) <==>
              '=' !in v || exists j :: 0 <= j < |args| && j != i && GivesAway(options, args, j, v)
  {
    CollectedExactly(options, args, v);
    InlineGivenExactly(options, args, i, option, v);
  }

  lemma {:induction false} InlineGivenExactly(options: set<string>, args: seq<string>, i: nat, option: string, v: string)
    requires forall o :: o in options ==> '=' !in o
    requires i < |args| && args[i] == option + (['='] + v) && option in options
    ensures GivesAway(options, args, i, v) <==> '=' !in v
  {
    BeforeEqualsOf(option, v);
    InlineValueExactly(option, v);
    assert args[i][|option|] == '=';
  }

  lemma OptionsHaveNoEquals()
    ensures forall o :: o in SENSITIVE_OPTIONS ==> '=' !in o
  {
  }

  /** What a run whose id spells a sensitive option with a value collects, for a token that does
      not spell one itself: the token and the value up to its first `=`. */
  lemma {:induction false} IdSecretsExactly(token: string, option: string, v: string, w: string)
    requires token != [] && BeforeEquals(token) !in SENSITIVE_OPTIONS && option in SENSITIVE_OPTIONS
    ensures w in Secrets(token, option + (['='] + v), None) <==> w != [] && (w == token || w == BeforeEquals(v))
  {
    OptionsHaveNoEquals();
    var id := option + (['='] + v);
    var args := BuildArgs(token, id, None);
    SecretsExactly(token, id, None, w);
    BeforeEqualsOf(option, v);
    InlineValueExactly(option, v);
    assert id[|option|] == '=';
    BeforeEqualsWhole(token);
    if w != [] {
      FourArgs(SENSITIVE_OPTIONS, args, w);
    }
    assert args[0] in SENSITIVE_OPTIONS && args[2] !in SENSITIVE_OPTIONS && args[3] == id;
  }

  /** Only the token and the id can give anything away, when the token spells no option. */
  lemma {:induction false} FourArgs(options: set<string>, args: seq<string>, w: string)
    requires |args| == 4 && w != [] && '=' !in args[0] && '=' !in args[2]
    requires args[1] !in options && BeforeEquals(args[1]) !in options
    ensures IsSecret(options, args, w) <==>
              || (args[0] in options && args[1] == w)
              || (args[2] in options && args[3] == w)
              || (BeforeEquals(args[3]) in options && InlineValue(args[3]) == w)
  {
    NoInlineValue(args[0]);
    NoInlineValue(args[2]);
    assert GivesAway(options, args, 0, w) <==> args[0] in options && args[1] == w;
    assert !GivesAway(options, args, 1, w);
    assert GivesAway(options, args, 2, w) <==> args[2] in options && args[3] == w;
    assert GivesAway(options, args, 3, w) <==> BeforeEquals(args[3]) in options && InlineValue(args[3]) == w;
  }

  /** A host name that spells a sensitive option gives its value away as well. */
  lemma HostnameGivesAway(token: string, id: string, option: string, v: string)
    requires option in SENSITIVE_OPTIONS && BeforeEquals(v) != []
    ensures BeforeEquals(v) in Secrets(token, id, Some(option + (['='] + v)))
  {
    OptionsHaveNoEquals();
    var hostname := option + (['='] + v);
    var args := BuildArgs(token, id, Some(hostname));
    BeforeEqualsOf(option, v);
    InlineValueExactly(option, v);
    assert args[5] == hostname && hostname[|option|] == '=';
    assert GivesAway(SENSITIVE_OPTIONS, args, 5, BeforeEquals(v));
    SecretsExactly(token, id, Some(hostname), BeforeEquals(v));
  }

  /** So what follows the first `=` of such a value goes through every message unmasked, unless
      the token or the part before it occurs in it. */
  lemma {:induction false} CutValueEscapes(token: string, option: string, x: string, y: string)
    requires token != [] && BeforeEquals(token) !in SENSITIVE_OPTIONS && option in SENSITIVE_OPTIONS
    requires '=' !in x && !Contains(y, token) && (x != [] ==> !Contains(y, x))
    ensures RedactWith(Secrets(token, option + (['='] + (x + (['='] + y))), None), y) == y
  {
    var v := x + (['='] + y);
    var secrets := Secrets(token, option + (['='] + v), None);
    BeforeEqualsOf(x, y);
    forall i | 0 <= i < |secrets| ensures !Contains(y, secrets[i]) {
      assert secrets[i] in secrets;
      IdSecretsExactly(token, option, v, secrets[i]);
    }
    RedactKeepsCleanText(secrets, y);
  }

  // ---------------------------------------------------------------- exactly when a token is safe

  lemma ThreeOfTwo(s: seq<string>, a: string, b: string)
    requires |s| > 2 && forall i :: 0 <= i < |s| ==> s[i] == a || s[i] == b
    ensures !NoDuplicates(s)
  {
    var x, y, z := s[0], s[1], s[2];
  }

  lemma TwoOfOne(s: seq<string>, a: string)
    requires |s| > 1 && forall i :: 0 <= i < |s| ==> s[i] == a
    ensures !NoDuplicates(s)
  {
    var x, y := s[0], s[1];
  }

  /** Two distinct members without duplicates make one of two lists. */
  lemma TwoMembers(s: seq<string>, a: string, b: string)
    requires NoDuplicates(s) && a in s && b in s && a != b
    requires forall i :: 0 <= i < |s| ==> s[i] == a || s[i] == b
    ensures s == [a, b] || s == [b, a]
  {
    assert |s| > 1 by {
      var i :| 0 <= i < |s| && s[i] == a;
      var j :| 0 <= j < |s| && s[j] == b;
    }
    if |s| > 2 {
      ThreeOfTwo(s, a, b);
    }
    var x, y := s[0], s[1];
  }

  lemma OneMember(s: seq<string>, a: string)
    requires NoDuplicates(s) && a in s && forall i :: 0 <= i < |s| ==> s[i] == a
    ensures s == [a]
  {
    if |s| > 1 {
      TwoOfOne(s, a);
    }
  }

  lemma SortOne(s: string)
    ensures LongestFirst([s]) == [s]
  {
    var one := [s];
    assert one[1..] == [] && LongestFirst([]) == [];
    assert LongestFirst(one) == Insert(s, []);
  }

  lemma SortTwo(a: string, b: string)
    ensures LongestFirst([a, b]) == if |a| >= |b| then [a, b] else [b, a]
  {
    var both, one := [a, b], [b];
    assert both[1..] == one && one[1..] == [];
    SortOne(b);
    assert LongestFirst(both) == Insert(a, one);
    assert Insert(a, []) == [a];
  }

  /** The order of two secrets of different lengths does not matter. */
  lemma RedactSwapped(long: string, short: string, t: string)
    requires |long| > |short| > 0
    ensures RedactWith([short, long], t) == RedactWith([long, short], t)
  {
    SortTwo(long, short);
    SortTwo(short, long);
  }

  lemma SecretsDistinct(token: string, id: string, hostname: Option<string>)
    ensures NoDuplicates(Secrets(token, id, hostname))
  {
    DistinctMembers(Collected(SENSITIVE_OPTIONS, BuildArgs(token, id, hostname)));
  }

  /** An id that gives away one more character. */
  lemma {:induction false} SecretsWithId(token: string, option: string, y: char)
    requires |token| > 1 && BeforeEquals(token) !in SENSITIVE_OPTIONS && option in SENSITIVE_OPTIONS && y != '='
    ensures var secrets := Secrets(token, option + (['='] + [y]), None);
            secrets == [token, [y]] || secrets == [[y], token]
  {
    var secrets := Secrets(token, option + (['='] + [y]), None);
    SecretsDistinct(token, option + (['='] + [y]), None);
    BeforeEqualsWhole([y]);
    forall w ensures w in secrets <==> w != [] && (w == token || w == [y]) {
      IdSecretsExactly(token, option, [y], w);
    }
    assert forall i :: 0 <= i < |secrets| ==> secrets[i] in secrets;
    TwoMembers(secrets, token, [y]);
  }

  /** An id that gives nothing away. */
  lemma {:induction false} SecretsAlone(token: string, option: string)
    requires token != [] && BeforeEquals(token) !in SENSITIVE_OPTIONS && option in SENSITIVE_OPTIONS
    ensures Secrets(token, option + (['='] + []), None) == [token]
  {
    var secrets := Secrets(token, option + (['='] + []), None);
    SecretsDistinct(token, option + (['='] + []), None);
    forall w ensures w in secrets <==> w == token {
      IdSecretsExactly(token, option, [], w);
    }
    assert forall i :: 0 <= i < |secrets| ==> secrets[i] in secrets;
    OneMember(secrets, token);
  }

  /** No run with this token, and no message about it, shows the token. */
  ghost predicate TokenHidden(token: string) {
    forall id: string, hostname: Option<string>, message: string ::
      !Contains(RedactWith(Secrets(token, id, hostname), message), token)
  }

  lemma {:induction false} TokenShown(token: string, option: string, d: int, y: char) returns (id: string, message: string)
    requires token != [] && BeforeEquals(token) !in SENSITIVE_OPTIONS && option in SENSITIVE_OPTIONS
    requires Agrees(MARK, token, d) && y !in token && y != '='
    ensures Contains(RedactWith(Secrets(token, id, None), message), token)
  {
    if |token| > 1 {
      id := option + (['='] + [y]);
      message := ExposedByAnother(token, d, y);
      SecretsWithId(token, option, y);
      RedactSwapped(token, [y], message);
    } else {
      id := option + (['='] + []);
      message := LeakingText(MARK, token, d);
      SecretsAlone(token, option);
      RedactOne(token, message);
    }
  }

  /** A token that spells no sensitive option stays hidden whatever the id, the host name and the
      message, exactly when no part of it can be read off the mark. `y` is some character it does
      not use. */
  lemma TokenHiddenExactly(token: string, y: char)
    requires token != [] && BeforeEquals(token) !in SENSITIVE_OPTIONS && y !in token && y != '='
    ensures TokenHidden(token) <==> !MeetsMark(MARK, token)
  {
    if MeetsMark(MARK, token) {
      var d :| Agrees(MARK, token, d);
      var id, message := TokenShown(token, "-t", d, y);
    } else {
      forall id: string, hostname: Option<string>, message: string
        ensures !Contains(RedactWith(Secrets(token, id, hostname), message), token)
      {
        TokenNeverShown(token, id, hostname, message);
      }
    }
  }
}
