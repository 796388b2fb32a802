/** The raw request target cut out of a URL, without any re-encoding. */
module RequestTarget {
  import opened Text

  /** `s.indexOf('://')`, as an option. */
  function SchemeEnd(s: string): (r: Option<nat>)
    ensures r.Some? ==> r.value + 3 <= |s|
  {
    if |s| < 3 then None
    else if s[0] == ':' && s[1] == '/' && s[2] == '/' then Some(0)
    else
      var r := SchemeEnd(s[1..]);
      if r.None? then None else Some(r.value + 1)
  }

  predicate Delimiter(c: char) {
    c == '/' || c == '?' || c == '#'
  }

  /** `s.search(/[/?#]/)`, as an option. */
  function FirstDelimiter(s: string): (r: Option<nat>)
    ensures r.Some? ==> r.value < |s| && Delimiter(s[r.value])
  {
    if s == [] then None
    else if Delimiter(s[0]) then Some(0)
    else
      var r := FirstDelimiter(s[1..]);
      if r.None? then None else Some(r.value + 1)
  }

  function WithoutScheme(url: string): string {
    var at := SchemeEnd(url);
    if at.None? then url else url[at.value + 3..]
  }

  function BuildRawPath(url: string): string {
    var rest := WithoutScheme(url);
    var start := FirstDelimiter(rest);
    if start.None? then ['/']
    else if rest[start.value] == '/' then rest[start.value..]
    else ['/'] + rest[start.value..]
  }

  lemma {:induction false} SchemeEndAt(scheme: string, rest: string)
    requires ':' !in scheme
    ensures SchemeEnd(scheme + ([':', '/', '/'] + rest)) == Some(|scheme|)
  {
    var s := scheme + ([':', '/', '/'] + rest);
    if scheme != [] {
      assert s[0] == scheme[0] && s[0] in scheme;
      assert s[1..] == scheme[1..] + ([':', '/', '/'] + rest);
      SchemeEndAt(scheme[1..], rest);
    }
  }

  /** No delimiter occurs in the text. */
  predicate Undelimited(s: string) {
    forall i :: 0 <= i < |s| ==> !Delimiter(s[i])
  }

  lemma {:induction false} DelimiterAt(authority: string, tail: string)
    requires Undelimited(authority) && (tail == [] || Delimiter(tail[0]))
    ensures FirstDelimiter(authority + tail) == if tail == [] then None else Some(|authority|)
  {
    var s := authority + tail;
    if authority == [] {
      assert s == tail;
    } else {
      assert s[0] == authority[0] && s[1..] == authority[1..] + tail;
      DelimiterAt(authority[1..], tail);
    }
  }

  /** The target of a composed URL is its tail, verbatim, with a slash put in front only when
      the tail does not start with one. */
  lemma TargetIsTail(scheme: string, authority: string, tail: string)
    requires ':' !in scheme && Undelimited(authority) && (tail == [] || Delimiter(tail[0]))
    ensures BuildRawPath(scheme + ([':', '/', '/'] + (authority + tail)))
         == if tail != [] && tail[0] == '/' then tail else ['/'] + tail
  {
    var rest := authority + tail;
    var url := scheme + ([':', '/', '/'] + rest);
    SchemeEndAt(scheme, rest);
    assert url[|scheme| + 3..] == rest;
    DelimiterAt(authority, tail);
    assert rest[|authority|..] == tail;
    assert ['/'] + [] == ['/'];
  }

  lemma {:induction false} SchemeEndExactly(s: string)
    ensures SchemeEnd(s).None? <==> !Contains(s, "://")
  {
    var mark := "://";
    if |s| >= 3 {
      SchemeEndExactly(s[1..]);
      assert OccursAt(s, mark, 0) <==> s[0] == ':' && s[1] == '/' && s[2] == '/' by {
        assert s[0..3] == [s[0], s[1], s[2]];
      }
      if Contains(s[1..], mark) {
        var i :| OccursAt(s[1..], mark, i);
        assert s[i + 1..i + 4] == s[1..][i..i + 3];
        assert OccursAt(s, mark, i + 1);
      }
      if Contains(s, mark) && !OccursAt(s, mark, 0) {
        var i :| OccursAt(s, mark, i);
        assert s[i..i + 3] == s[1..][i - 1..i + 2];
        assert OccursAt(s[1..], mark, i - 1);
      }
    }
  }

  /** Without a scheme the text begins with the authority. */
  lemma TargetWithoutScheme(authority: string, tail: string)
    requires Undelimited(authority) && (tail == [] || Delimiter(tail[0])) && !Contains(authority + tail, "://")
    ensures BuildRawPath(authority + tail) == if tail != [] && tail[0] == '/' then tail else ['/'] + tail
  {
    SchemeEndExactly(authority + tail);
    DelimiterAt(authority, tail);
    assert (authority + tail)[|authority|..] == tail;
    assert ['/'] + [] == ['/'];
  }

  /** Whatever the text, the target starts with a slash and the rest of it is an unchanged end
      of the text. */
  lemma TargetIsSuffix(url: string) returns (k: nat)
    ensures k <= |url| && (BuildRawPath(url) == url[k..] || BuildRawPath(url) == ['/'] + url[k..])
    ensures BuildRawPath(url)[0] == '/'
  {
    var rest := WithoutScheme(url);
    var start := FirstDelimiter(rest);
    k := if start.None? then |url| else |url| - |rest| + start.value;
    assert rest == url[|url| - |rest|..];
  }
}
