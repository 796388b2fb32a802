/** Text helpers shared by the components: option values, joining and substrings. */
module Text {

  datatype Option<+T> = None | Some(value: T)

  /** `parts.join(sep)` */
  function Join(parts: seq<string>, sep: string): string {
    if |parts| == 0 then ""
    else if |parts| == 1 then parts[0]
    else parts[0] + sep + Join(parts[1..], sep)
  }

  /** Joining two lists puts one separator between them. */
  lemma {:induction false} JoinConcat(a: seq<string>, b: seq<string>, sep: string)
    requires a != [] && b != []
    ensures Join(a + b, sep) == Join(a, sep) + (sep + Join(b, sep))
  {
    var all := a + b;
    if |a| == 1 {
      assert all[1..] == b;
      assert a[0] + sep + Join(b, sep) == a[0] + (sep + Join(b, sep));
    } else {
      JoinConcat(a[1..], b, sep);
      assert all[1..] == a[1..] + b;
      var front, back := Join(a[1..], sep), sep + Join(b, sep);
      assert a[0] + sep + (front + back) == (a[0] + sep + front) + back;
    }
  }

  /** `pat` occurs in `s` at position `i`. */
  predicate OccursAt(s: string, pat: string, i: int) {
    0 <= i <= |s| - |pat| && s[i..i + |pat|] == pat
  }

  /** `s.includes(pat)` */
  ghost predicate Contains(s: string, pat: string) {
    exists i :: OccursAt(s, pat, i)
  }
}
