/** Wildcards as regular expressions: the compiler of `Helpers`, a reader and matcher for the
regular expressions it can produce, and the meaning a wildcard is meant to have. */
module Wildcard {
  import opened Text
  import opened Collections

  // ---------------------------------------------------------------- the compiler

  const SPECIAL: set<char> := {'|', '\\', '{', '}', '(', ')', '[', ']', '^', '$', '+', '*', '?', '.'}

  function DropStars(s: string): (r: string)
    ensures |r| <= |s|
    ensures s != [] && s[0] == '*' ==> |r| < |s|
  {
    if s != [] && s[0] == '*' then DropStars(s[1..]) else s
  }

  /** Splitting at every run of stars. */
  function SplitStars(s: string): (parts: seq<string>)
    ensures parts != []
    decreases |s|
  {
    if s == [] then [[]]
    else if s[0] == '*' then [[]] + SplitStars(DropStars(s))
    else
      var parts := SplitStars(s[1..]);
      [[s[0]] + parts[0]] + parts[1..]
  }

  function RegExpEscape(s: string): string {
    if s == [] then [] else EscapeChar(s[0]) + RegExpEscape(s[1..])
  }

  function EscapeChar(c: char): string {
    if c in SPECIAL then ['\\', c] else [c]
  }

  function EscapeParts(parts: seq<string>): (r: seq<string>)
    ensures |r| == |parts|
  {
    if parts == [] then [] else [RegExpEscape(parts[0])] + EscapeParts(parts[1..])
  }

  function PatternText(w: string): string {
    ['^'] + (Join(EscapeParts(SplitStars(w)), ['.', '*']) + ['$'])
  }

  // ---------------------------------------------------------------- regular expressions

  datatype Atom = Any | Literal(c: char)
  datatype Term = Start | End | One(atom: Atom) | Many(atom: Atom)

  /** The characters with a meaning of their own in a regular expression. */
  const SYNTAX: set<char> := {'^', '$', '\\', '.', '*', '+', '?', '(', ')', '[', ']', '{', '}', '|'}

  /** Reads pattern text made of anchors, plain and escaped characters, `.` and `*`; None for
      any other syntax and for text that is no regular expression. */
  function Parse(t: string): Option<seq<Term>>
    decreases |t|, 0
  {
    if t == [] then Some([])
    else if t[0] == '^' then Put(Start, Parse(t[1..]))
    else if t[0] == '$' then Put(End, Parse(t[1..]))
    else if t[0] == '\\' then
      if |t| == 1 || t[1] !in SYNTAX then None else Quantify(Literal(t[1]), t[2..])
    else if t[0] == '.' then Quantify(Any, t[1..])
    else if t[0] in SYNTAX then None
    else Quantify(Literal(t[0]), t[1..])
  }

  function Quantify(a: Atom, t: string): Option<seq<Term>>
    decreases |t|, 1
  {
    if t != [] && t[0] == '*' then Put(Many(a), Parse(t[1..])) else Put(One(a), Parse(t))
  }

  function Put(t: Term, r: Option<seq<Term>>): Option<seq<Term>> {
    if r.Some? then Some([t] + r.value) else None
  }

  predicate LineTerminator(c: char) {
    c == '\n' || c == '\r' || c == '\U{2028}' || c == '\U{2029}'
  }

  predicate AtomMatches(a: Atom, c: char) {
    match a
    case Any => !LineTerminator(c)
    case Literal(l) => l == c
  }

  /** Some way of matching `terms` from position `i` succeeds. */
  predicate MatchHere(terms: seq<Term>, s: string, i: nat)
    requires i <= |s|
    decreases |terms|, |s| - i
  {
    if terms == [] then true
    else match terms[0]
      case Start => i == 0 && MatchHere(terms[1..], s, i)
      case End => i == |s| && MatchHere(terms[1..], s, i)
      case One(a) => i < |s| && AtomMatches(a, s[i]) && MatchHere(terms[1..], s, i + 1)
      case Many(a) =>
        || MatchHere(terms[1..], s, i)
        || (i < |s| && AtomMatches(a, s[i]) && MatchHere(terms, s, i + 1))
  }

  /** `Helpers.wildcardToRegExp(w).test(host)` */
  predicate Matches(w: string, host: string) {
    var re := Parse(PatternText(w));
    re.Some? && exists i | 0 <= i <= |host| :: MatchHere(re.value, host, i)
  }

  // ---------------------------------------------------------------- the meaning of a wildcard

  /** A star stands for any text; other characters stand for themselves. With `oneLine` the
      text a star stands for holds no line terminator. */
  predicate Glob(w: string, host: string, oneLine: bool)
    decreases |w| + |host|
  {
    if w == [] then host == []
    else if w[0] == '*' then
      || Glob(w[1..], host, oneLine)
      || (host != [] && !(oneLine && LineTerminator(host[0])) && Glob(w, host[1..], oneLine))
    else host != [] && w[0] == host[0] && Glob(w[1..], host[1..], oneLine)
  }

  predicate OneLine(host: string) {
    forall c :: c in host ==> !LineTerminator(c)
  }

  // ---------------------------------------------------------------- runs of stars

  lemma {:induction false} StarStar(w: string, host: string, oneLine: bool)
    requires w != [] && w[0] == '*'
    ensures Glob(['*'] + w, host, oneLine) == Glob(w, host, oneLine)
    decreases |host|
  {
    assert (['*'] + w)[1..] == w;
    if host != [] {
      StarStar(w, host[1..], oneLine);
    }
  }

  /** A run of stars means one star. */
  lemma {:induction false} RunIsOneStar(w: string, host: string, oneLine: bool)
    requires w != [] && w[0] == '*'
    ensures Glob(w, host, oneLine) == Glob(['*'] + DropStars(w), host, oneLine)
    decreases |w|
  {
    assert w == ['*'] + w[1..];
    if |w| > 1 && w[1] == '*' {
      RunIsOneStar(w[1..], host, oneLine);
      StarStar(w[1..], host, oneLine);
    }
  }

  // ---------------------------------------------------------------- reading the text back

  /** The pattern text without its anchors, character by character. */
  function BodyText(w: string): string
    decreases |w|
  {
    if w == [] then []
    else if w[0] == '*' then ['.', '*'] + BodyText(DropStars(w))
    else EscapeChar(w[0]) + BodyText(w[1..])
  }

  function Terms(w: string): seq<Term>
    decreases |w|
  {
    if w == [] then [End]
    else if w[0] == '*' then [Many(Any)] + Terms(DropStars(w))
    else [One(Literal(w[0]))] + Terms(w[1..])
  }

  lemma JoinFirst(head: string, first: string, rest: seq<string>, sep: string)
    ensures Join([head + first] + rest, sep) == head + Join([first] + rest, sep)
  {
    assert ([head + first] + rest)[1..] == rest == ([first] + rest)[1..];
    if rest != [] {
      var tail := Join(rest, sep);
      assert (head + first) + sep + tail == head + (first + sep + tail);
    }
  }

  lemma {:induction false} BodyIsJoin(w: string)
    ensures Join(EscapeParts(SplitStars(w)), ['.', '*']) == BodyText(w)
    decreases |w|
  {
    if w == [] {
      assert EscapeParts(SplitStars(w)) == [[]];
    } else if w[0] == '*' {
      var parts := SplitStars(DropStars(w));
      BodyIsJoin(DropStars(w));
      assert ([[]] + parts)[1..] == parts;
      var escaped := EscapeParts(parts);
      assert EscapeParts(SplitStars(w)) == [[]] + escaped;
      assert ([[]] + escaped)[1..] == escaped;
      var tail := Join(escaped, ['.', '*']);
      assert [] + ['.', '*'] + tail == ['.', '*'] + tail;
    } else {
      BodyIsJoin(w[1..]);
      var parts := SplitStars(w[1..]);
      EscapeFirst(w[0], parts);
      JoinFirst(EscapeChar(w[0]), RegExpEscape(parts[0]), EscapeParts(parts[1..]), ['.', '*']);
    }
  }

  lemma EscapeFirst(c: char, parts: seq<string>)
    requires parts != []
    ensures EscapeParts([[c] + parts[0]] + parts[1..])
         == [EscapeChar(c) + RegExpEscape(parts[0])] + EscapeParts(parts[1..])
  {
    assert ([c] + parts[0])[1..] == parts[0];
    assert ([[c] + parts[0]] + parts[1..])[1..] == parts[1..];
  }

  lemma BodyNeverStartsWithStar(w: string)
    ensures (BodyText(w) + ['$'])[0] != '*'
  {
    if w != [] && w[0] != '*' {
      assert EscapeChar(w[0])[0] != '*';
    }
  }

  lemma ParseChar(c: char, t: string)
    requires t != [] && t[0] != '*'
    ensures c != '*' ==> Parse(EscapeChar(c) + t) == Put(One(Literal(c)), Parse(t))
  {
    var p := EscapeChar(c) + t;
    if c in SPECIAL {
      assert p[0] == '\\' && p[1] == c && p[2..] == t;
    } else {
      assert p[0] == c && p[1..] == t;
    }
  }

  lemma ParseStar(t: string)
    ensures Parse(['.', '*'] + t) == Put(Many(Any), Parse(t))
  {
    var p := ['.', '*'] + t;
    assert p[0] == '.' && p[1..][0] == '*' && p[1..][1..] == t;
  }

  lemma ParseEnd()
    ensures Parse(['$']) == Some([End])
  {
    assert ['$'][1..] == [];
    assert [End] + [] == [End];
  }

  lemma {:induction false} ParseBody(w: string)
    ensures Parse(BodyText(w) + ['$']) == Some(Terms(w))
    decreases |w|
  {
    if w == [] {
      assert [] + ['$'] == ['$'];
      ParseEnd();
    } else if w[0] == '*' {
      ParseBody(DropStars(w));
      Regroup(['.', '*'], BodyText(DropStars(w)), ['$']);
      ParseStar(BodyText(DropStars(w)) + ['$']);
    } else {
      ParseBody(w[1..]);
      BodyNeverStartsWithStar(w[1..]);
      Regroup(EscapeChar(w[0]), BodyText(w[1..]), ['$']);
      ParseChar(w[0], BodyText(w[1..]) + ['$']);
    }
  }

  /** Whatever the wildcard, the generated text is a well-formed regular expression. */
  lemma PatternParses(w: string)
    ensures Parse(PatternText(w)) == Some([Start] + Terms(w))
  {
    BodyIsJoin(w);
    ParseBody(w);
    var t := BodyText(w) + ['$'];
    assert (['^'] + t)[1..] == t;
  }

  // ---------------------------------------------------------------- matching

  lemma {:induction false} TermsMatchGlob(w: string, host: string, i: nat)
    requires i <= |host|
    ensures MatchHere(Terms(w), host, i) == Glob(w, host[i..], true)
    decreases |w|, |host| - i
  {
    var terms := Terms(w);
    if w == [] {
      assert terms[1..] == [];
    } else if w[0] == '*' {
      var one := ['*'] + DropStars(w);
      RunIsOneStar(w, host[i..], true);
      assert one[1..] == DropStars(w);
      assert terms[1..] == Terms(DropStars(w));
      TermsMatchGlob(DropStars(w), host, i);
      if i < |host| {
        TermsMatchGlob(w, host, i + 1);
        RunIsOneStar(w, host[i + 1..], true);
        assert host[i..][1..] == host[i + 1..];
      }
    } else {
      assert terms[1..] == Terms(w[1..]);
      if i < |host| {
        TermsMatchGlob(w[1..], host, i + 1);
        assert host[i..][1..] == host[i + 1..];
      }
    }
  }

  /** The compiled expression accepts exactly the hosts of the wildcard read on one line. */
  lemma MatchesIsOneLineGlob(w: string, host: string)
    ensures Matches(w, host) == Glob(w, host, true)
  {
    PatternParses(w);
    var re := [Start] + Terms(w);
    assert re[1..] == Terms(w);
    assert host[0..] == host;
    TermsMatchGlob(w, host, 0);
    assert forall i | 0 <= i <= |host| :: MatchHere(re, host, i) ==> i == 0;
    assert MatchHere(re, host, 0) == Glob(w, host, true);
  }

  lemma {:induction false} OneLineIrrelevant(w: string, host: string)
    requires OneLine(host)
    ensures Glob(w, host, true) == Glob(w, host, false)
    decreases |w| + |host|
  {
    if w != [] {
      OneLineIrrelevant(w[1..], host);
      if host != [] {
        assert host[0] in host;
        OneLineIrrelevant(w, host[1..]);
        OneLineIrrelevant(w[1..], host[1..]);
      }
    }
  }

  /** On hosts without line terminators compiling keeps the meaning of every wildcard. */
  lemma CompilePreservesMeaning(w: string, host: string)
    requires OneLine(host)
    ensures Matches(w, host) == Glob(w, host, false)
  {
    MatchesIsOneLineGlob(w, host);
    OneLineIrrelevant(w, host);
  }

  lemma {:induction false} StarAccepts(host: string, oneLine: bool)
    ensures Glob(['*'], host, oneLine) == (!oneLine || OneLine(host))
  {
    assert ['*'][1..] == [];
    if host != [] {
      StarAccepts(host[1..], oneLine);
      assert host == [host[0]] + host[1..];
      assert OneLine(host) == (!LineTerminator(host[0]) && OneLine(host[1..])) by {
        assert host[0] in host;
        assert forall c :: c in host <==> c == host[0] || c in host[1..];
      }
    }
  }

  /** ...and line terminators are the only hosts on which some wildcard changes meaning. */
  lemma CompilePreservesMeaningExactly(host: string)
    ensures (forall w :: Matches(w, host) == Glob(w, host, false)) <==> OneLine(host)
  {
    if OneLine(host) {
      forall w ensures Matches(w, host) == Glob(w, host, false) {
        CompilePreservesMeaning(w, host);
      }
    } else {
      MatchesIsOneLineGlob(['*'], host);
      StarAccepts(host, true);
      StarAccepts(host, false);
    }
  }

  lemma {:induction false} GlobSelf(w: string, oneLine: bool)
    ensures Glob(w, w, oneLine)
  {
    if w != [] {
      GlobSelf(w[1..], oneLine);
      if w[0] == '*' {
        StarTakesOne(w, w[1..], oneLine);
      }
    }
  }

  lemma StarTakesOne(w: string, host: string, oneLine: bool)
    requires w != [] && w[0] == '*' && Glob(w[1..], host, oneLine)
    ensures Glob(w, ['*'] + host, oneLine)
  {
    assert (['*'] + host)[1..] == host;
  }

  /** Every wildcard matches itself, line terminators included. */
  lemma MatchesItself(w: string)
    ensures Matches(w, w)
  {
    GlobSelf(w, true);
    MatchesIsOneLineGlob(w, w);
  }

  /** A wildcard without a star matches its own text and nothing else. */
  lemma {:induction false} PlainGlob(w: string, host: string, oneLine: bool)
    requires '*' !in w
    ensures Glob(w, host, oneLine) <==> host == w
  {
    if w != [] {
      assert w[0] in w;
      if host != [] {
        PlainGlob(w[1..], host[1..], oneLine);
        assert w == [w[0]] + w[1..] && host == [host[0]] + host[1..];
      }
    }
  }

  lemma PlainMatchesOnlyItself(w: string, host: string)
    requires '*' !in w
    ensures Matches(w, host) <==> host == w
  {
    MatchesIsOneLineGlob(w, host);
    PlainGlob(w, host, true);
  }

  /** Splicing an extra star beside a star changes no match. */
  lemma {:induction false} RunsMeanOneStar(before: string, after: string, host: string)
    requires after != [] && after[0] == '*'
    ensures Matches(before + (['*'] + after), host) == Matches(before + after, host)
  {
    MatchesIsOneLineGlob(before + (['*'] + after), host);
    MatchesIsOneLineGlob(before + after, host);
    GlobRuns(before, after, host);
  }

  lemma {:induction false} GlobRuns(before: string, after: string, host: string)
    requires after != [] && after[0] == '*'
    ensures Glob(before + (['*'] + after), host, true) == Glob(before + after, host, true)
    decreases |before| + |host|
  {
    if before == [] {
      assert before + (['*'] + after) == ['*'] + after && before + after == after;
      StarStar(after, host, true);
    } else {
      var w, v := before + (['*'] + after), before + after;
      assert w[1..] == before[1..] + (['*'] + after) && v[1..] == before[1..] + after;
      GlobRuns(before[1..], after, host);
      if host != [] {
        GlobRuns(before, after, host[1..]);
        GlobRuns(before[1..], after, host[1..]);
      }
    }
  }
}
