/** Windows command lines: the escaper of `Helpers`, and the two readers that undo it.

The writer doubles backslashes, quotes the argument and puts a caret before every cmd
metacharacter. The readers are cmd.exe (one line, carets, quote mode, operators) and the
argument splitter of the Microsoft C runtime (2n or 2n+1 backslashes before a quote, and a
doubled quote inside a quoted part). */
module ShellEscape {
  import opened Text
  import opened Collections

  const META: set<char> :=
    {'(', ')', ']', '[', '%', '!', '^', '"', '`', '<', '>', '&', '|', ';', ',', ' ', '*', '?'}

  // ---------------------------------------------------------------- the writer

  function Slashes(n: nat): string {
    if n == 0 then [] else ['\\'] + Slashes(n - 1)
  }

  /** Replacement of every match of backslashes-then-quote, scanning from the left with
      `n` backslashes of the current run already passed. */
  function EscapeQuotes(n: nat, s: string): string
    decreases |s|
  {
    if s == [] then Slashes(n)
    else if s[0] == '\\' then EscapeQuotes(n + 1, s[1..])
    else if s[0] == '"' then Slashes(n) + (Slashes(n) + (['\\', '"'] + EscapeQuotes(0, s[1..])))
    else Slashes(n) + ([s[0]] + EscapeQuotes(0, s[1..]))
  }

  /** Replacement of the match of backslashes-then-end, again with `n` backslashes passed. */
  function DoubleTail(n: nat, s: string): string
    decreases |s|
  {
    if s == [] then Slashes(n) + Slashes(n)
    else if s[0] == '\\' then DoubleTail(n + 1, s[1..])
    else Slashes(n) + ([s[0]] + DoubleTail(0, s[1..]))
  }

  function PrefixCarets(s: string): string {
    if s == "" then ""
    else WithCaret(s[0]) + PrefixCarets(s[1..])
  }

  function WithCaret(c: char): string {
    if c in META then ['^', c] else [c]
  }

  /** The characters that get a caret. */
  lemma CaretExactly(c: char)
    ensures PrefixCarets([c]) == (if c in "()][%!^\"`<>&|;, *?" then ['^', c] else [c])
  {
    assert [c][1..] == "";
    var meta := "()][%!^\"`<>&|;, *?";
    assert meta == ['(', ')', ']', '[', '%', '!', '^', '"', '`', '<', '>', '&', '|', ';', ',', ' ', '*', '?'];
  }

  function Quoted(arg: string): string {
    ['"'] + (DoubleTail(0, EscapeQuotes(0, arg)) + ['"'])
  }

  function EscapeShellArgument(arg: string): string {
    PrefixCarets(Quoted(arg))
  }

  function EscapeAll(args: seq<string>): seq<string> {
    seq(|args|, i requires 0 <= i < |args| => EscapeShellArgument(args[i]))
  }

  // ---------------------------------------------------------------- cmd.exe

  /** Characters that end or redirect a command when cmd reads them unescaped. */
  const OPERATORS: set<char> := {'&', '|', '<', '>', '(', ')'}

  /** A command line ends at its first line feed or NUL. */
  function FirstLine(s: string): string {
    if s == "" || s[0] == '\n' || s[0] == '\0' then "" else [s[0]] + FirstLine(s[1..])
  }

  function DropReturns(s: string): string {
    if s == "" then "" else (if s[0] == '\r' then "" else [s[0]]) + DropReturns(s[1..])
  }

  /** Caret removal with quote mode; None when the text is more than one plain command. */
  function RemoveCarets(s: string, inQuotes: bool): Option<string>
    decreases |s|
  {
    if s == "" then Some("")
    else if inQuotes then Prepend(s[0], RemoveCarets(s[1..], s[0] != '"'))
    else if s[0] == '^' then
      if |s| == 1 then Some("") else Prepend(s[1], RemoveCarets(s[2..], false))
    else if s[0] in OPERATORS then None
    else Prepend(s[0], RemoveCarets(s[1..], s[0] == '"'))
  }

  function Prepend(c: char, r: Option<string>): Option<string> {
    if r.Some? then Some([c] + r.value) else None
  }

  function CmdRead(line: string): Option<string> {
    RemoveCarets(DropReturns(FirstLine(line)), false)
  }

  // ---------------------------------------------------------------- the C runtime

  predicate Blank(c: char) {
    c == ' ' || c == '\t'
  }

  /** Reads one argument, with `n` backslashes already passed; returns it with the text
      left over. A quote after an even run toggles quote mode, after an odd run it is plain;
      two quotes in quote mode stand for one. */
  function ScanArg(n: nat, p: string, inQuotes: bool): (r: (string, string))
    ensures |r.1| <= |p|
    ensures p != [] && (inQuotes || !Blank(p[0])) ==> |r.1| < |p|
    decreases |p|
  {
    if p == [] || (!inQuotes && Blank(p[0])) then (Slashes(n), p)
    else if p[0] == '\\' then ScanArg(n + 1, p[1..], inQuotes)
    else if p[0] != '"' then Push(Slashes(n) + [p[0]], ScanArg(0, p[1..], inQuotes))
    else if n % 2 == 1 then Push(Slashes(n / 2) + ['"'], ScanArg(0, p[1..], inQuotes))
    else if inQuotes && |p| > 1 && p[1] == '"' then
      Push(Slashes(n / 2) + ['"'], ScanArg(0, p[2..], inQuotes))
    else Push(Slashes(n / 2), ScanArg(0, p[1..], !inQuotes))
  }

  function Push(piece: string, r: (string, string)): (string, string) {
    (piece + r.0, r.1)
  }

  /** Reads the program name: quotes group, backslashes are plain. */
  function ScanProgram(p: string, inQuotes: bool): (r: (string, string))
    ensures |r.1| <= |p|
  {
    if p == "" || (!inQuotes && Blank(p[0])) then ("", p)
    else
      var (name, rest) := ScanProgram(p[1..], if p[0] == '"' then !inQuotes else inQuotes);
      (if p[0] == '"' then name else [p[0]] + name, rest)
  }

  function SplitArgs(p: string): seq<string>
    decreases |p|
  {
    if p == "" then []
    else if Blank(p[0]) then SplitArgs(p[1..])
    else
      var (arg, rest) := ScanArg(0, p, false);
      [arg] + SplitArgs(rest)
  }

  /** What the started program receives when `line` is handed to cmd.exe. */
  function Receive(line: string): Option<seq<string>> {
    var r := CmdRead(line);
    if r.None? then None
    else
      var (name, rest) := ScanProgram(r.value, false);
      Some([name] + SplitArgs(rest))
  }

  /** The shell line Node builds from a command and its arguments. */
  function CommandLine(command: string, args: seq<string>): string {
    Join([command] + args, " ")
  }

  // ---------------------------------------------------------------- backslash runs

  lemma {:induction false} SlashesAdd(a: nat, b: nat)
    ensures Slashes(a) + Slashes(b) == Slashes(a + b)
  {
    if a > 0 {
      SlashesAdd(a - 1, b);
      assert Slashes(a) + Slashes(b) == ['\\'] + (Slashes(a - 1) + Slashes(b));
    } else {
      assert Slashes(0) + Slashes(b) == Slashes(b);
    }
  }

  lemma Uncons(c: char, t: string)
    ensures ([c] + t)[1..] == t && ([c] + t)[0] == c && [c] + t != []
  {
  }

  /** A run in front of the text is the same as backslashes already passed. */
  lemma {:induction false} DoubleTailRun(n: nat, k: nat, t: string)
    ensures DoubleTail(n, Slashes(k) + t) == DoubleTail(n + k, t)
    decreases k
  {
    if k == 0 {
      assert Slashes(0) + t == t;
    } else {
      Regroup(['\\'], Slashes(k - 1), t);
      Uncons('\\', Slashes(k - 1) + t);
      DoubleTailRun(n + 1, k - 1, t);
    }
  }

  lemma {:induction false} ScanArgRun(n: nat, k: nat, t: string)
    ensures ScanArg(n, Slashes(k) + t, true) == ScanArg(n + k, t, true)
    decreases k
  {
    if k == 0 {
      assert Slashes(0) + t == t;
    } else {
      Regroup(['\\'], Slashes(k - 1), t);
      Uncons('\\', Slashes(k - 1) + t);
      ScanArgRun(n + 1, k - 1, t);
    }
  }

  // ---------------------------------------------------------------- one argument

  /** Both backslash replacements in one pass. */
  function Core(n: nat, v: string): string
    decreases |v|
  {
    if v == [] then Slashes(2 * n)
    else if v[0] == '\\' then Core(n + 1, v[1..])
    else if v[0] == '"' then Slashes(2 * n + 1) + (['"'] + Core(0, v[1..]))
    else Slashes(n) + ([v[0]] + Core(0, v[1..]))
  }

  lemma DoubleTailCons(n: nat, c: char, t: string)
    requires c != '\\'
    ensures DoubleTail(0, Slashes(n) + ([c] + t)) == Slashes(n) + ([c] + DoubleTail(0, t))
  {
    DoubleTailRun(0, n, [c] + t);
    Uncons(c, t);
  }

  lemma {:induction false} CoreIsTwoReplacements(n: nat, v: string)
    ensures DoubleTail(0, EscapeQuotes(n, v)) == Core(n, v)
    decreases |v|
  {
    if v == [] {
      assert Slashes(n) + [] == Slashes(n);
      DoubleTailRun(0, n, []);
      SlashesAdd(n, n);
    } else if v[0] == '\\' {
      CoreIsTwoReplacements(n + 1, v[1..]);
    } else {
      var t := EscapeQuotes(0, v[1..]);
      CoreIsTwoReplacements(0, v[1..]);
      if v[0] == '"' {
        EscapedQuoteRun(n, t);
        DoubleTailCons(2 * n + 1, '"', t);
      } else {
        DoubleTailCons(n, v[0], t);
      }
    }
  }

  lemma EscapedQuoteRun(n: nat, t: string)
    ensures Slashes(n) + (Slashes(n) + (['\\', '"'] + t)) == Slashes(2 * n + 1) + (['"'] + t)
  {
    SlashesAdd(n, n);
    SlashesAdd(2 * n, 1);
    assert Slashes(1) == ['\\'];
    assert ['\\', '"'] + t == ['\\'] + (['"'] + t);
    Regroup(Slashes(n), Slashes(n), ['\\'] + (['"'] + t));
    Regroup(Slashes(2 * n), ['\\'], ['"'] + t);
  }

  /** 2n+1 backslashes and a quote read as n backslashes and a quote. */
  lemma ScanOdd(n: nat, tail: string)
    ensures ScanArg(0, Slashes(2 * n + 1) + (['"'] + tail), true)
         == Push(Slashes(n) + ['"'], ScanArg(0, tail, true))
  {
    ScanArgRun(0, 2 * n + 1, ['"'] + tail);
    Uncons('"', tail);
  }

  lemma ScanPlain(n: nat, c: char, tail: string)
    requires c != '\\' && c != '"'
    ensures ScanArg(0, Slashes(n) + ([c] + tail), true)
         == Push(Slashes(n) + [c], ScanArg(0, tail, true))
  {
    ScanArgRun(0, n, [c] + tail);
    Uncons(c, tail);
  }

  /** 2n backslashes and a closing quote read as n backslashes. */
  lemma ScanClose(n: nat, rest: string)
    requires rest == [] || rest[0] == ' '
    ensures ScanArg(0, Slashes(2 * n) + (['"'] + rest), true) == (Slashes(n), rest)
  {
    ScanArgRun(0, 2 * n, ['"'] + rest);
    Uncons('"', rest);
    assert ScanArg(0, rest, false) == ([], rest);
    assert Slashes(n) + [] == Slashes(n);
  }

  lemma {:induction false} ScanCore(n: nat, v: string, rest: string)
    requires rest == [] || rest[0] == ' '
    ensures ScanArg(0, Core(n, v) + (['"'] + rest), true) == (Slashes(n) + v, rest)
    decreases |v|
  {
    var close := ['"'] + rest;
    if v == [] {
      ScanClose(n, rest);
      assert Slashes(n) + v == Slashes(n);
    } else {
      var c, w := v[0], v[1..];
      assert v == [c] + w;
      if c == '\\' {
        ScanCore(n + 1, w, rest);
        SlashesAdd(n, 1);
        assert Slashes(1) == [c];
        Regroup(Slashes(n), [c], w);
      } else {
        ScanCore(0, w, rest);
        assert Slashes(0) + w == w;
        Regroup([c], Core(0, w), close);
        Regroup(Slashes(n), [c], w);
        if c == '"' {
          Regroup(Slashes(2 * n + 1), [c] + Core(0, w), close);
          ScanOdd(n, Core(0, w) + close);
        } else {
          Regroup(Slashes(n), [c] + Core(0, w), close);
          ScanPlain(n, c, Core(0, w) + close);
        }
      }
    }
  }

  /** The runtime reads a quoted argument back, whatever it holds. */
  lemma ScanQuoted(v: string, rest: string)
    requires rest == [] || rest[0] == ' '
    ensures ScanArg(0, Quoted(v) + rest, false) == (v, rest)
  {
    CoreIsTwoReplacements(0, v);
    var core := Core(0, v);
    Regroup(['"'], core + ['"'], rest);
    Regroup(core, ['"'], rest);
    Uncons('"', core + (['"'] + rest));
    ScanCore(0, v, rest);
    assert Slashes(0) + v == v;
  }

  // ---------------------------------------------------------------- a whole line

  /** The arguments as cmd.exe passes them on. */
  function QuotedTail(args: seq<string>): string {
    if args == [] then "" else [' '] + (Quoted(args[0]) + QuotedTail(args[1..]))
  }

  function EscapedTail(args: seq<string>): string {
    if args == [] then "" else [' '] + (EscapeShellArgument(args[0]) + EscapedTail(args[1..]))
  }

  lemma {:induction false} SplitQuotedTail(args: seq<string>)
    ensures SplitArgs(QuotedTail(args)) == args
  {
    if args != [] {
      var rest := QuotedTail(args[1..]);
      var p := QuotedTail(args);
      Uncons(' ', Quoted(args[0]) + rest);
      ScanQuoted(args[0], rest);
      SplitQuotedTail(args[1..]);
      assert [args[0]] + args[1..] == args;
    }
  }

  /** A character as the writer puts it reads back as itself, outside quote mode. */
  lemma ReadCaret(c: char, t: string)
    ensures RemoveCarets(WithCaret(c) + t, false) == Prepend(c, RemoveCarets(t, false))
  {
    var p := WithCaret(c) + t;
    if c in META {
      assert p[0] == '^' && p[1] == c && p[2..] == t;
    } else {
      assert p[0] == c && p[1..] == t;
    }
  }

  function PrependAll(s: string, r: Option<string>): Option<string> {
    if r.Some? then Some(s + r.value) else None
  }

  lemma PrependRest(c: char, s: string, r: Option<string>)
    ensures Prepend(c, PrependAll(s, r)) == PrependAll([c] + s, r)
  {
    if r.Some? {
      Regroup([c], s, r.value);
    }
  }

  lemma {:induction false} RemoveCaretsOf(s: string, rest: string)
    ensures RemoveCarets(PrefixCarets(s) + rest, false) == PrependAll(s, RemoveCarets(rest, false))
  {
    var r := RemoveCarets(rest, false);
    if s == "" {
      assert PrefixCarets(s) + rest == rest;
      assert r.Some? ==> s + r.value == r.value;
    } else {
      var t := PrefixCarets(s[1..]) + rest;
      Regroup(WithCaret(s[0]), PrefixCarets(s[1..]), rest);
      ReadCaret(s[0], t);
      RemoveCaretsOf(s[1..], rest);
      PrependRest(s[0], s[1..], r);
      assert [s[0]] + s[1..] == s;
    }
  }

  lemma {:induction false} RemoveCaretsTail(args: seq<string>)
    ensures RemoveCarets(EscapedTail(args), false) == Some(QuotedTail(args))
  {
    if args != [] {
      RemoveCaretsTail(args[1..]);
      RemoveCaretsOf(Quoted(args[0]), EscapedTail(args[1..]));
      RemoveCaretsBlank(EscapeShellArgument(args[0]) + EscapedTail(args[1..]));
    }
  }

  lemma RemoveCaretsBlank(t: string)
    ensures RemoveCarets([' '] + t, false) == Prepend(' ', RemoveCarets(t, false))
  {
    Uncons(' ', t);
  }

  /** Quote mode carries the program path through cmd.exe unchanged. */
  lemma {:induction false} RemoveCaretsInQuotes(path: string, rest: string)
    requires '"' !in path
    requires RemoveCarets(rest, false).Some?
    ensures RemoveCarets(path + "\"" + rest, true) == Some(path + "\"" + RemoveCarets(rest, false).value)
  {
    var p := path + "\"" + rest;
    var r := RemoveCarets(rest, false).value;
    if path == "" {
      assert p[1..] == rest;
      assert ['"'] + r == path + "\"" + r;
    } else {
      assert p[1..] == path[1..] + "\"" + rest;
      RemoveCaretsInQuotes(path[1..], rest);
      assert [path[0]] + (path[1..] + "\"" + r) == path + "\"" + r;
    }
  }

  lemma {:induction false} ScanProgramQuoted(path: string, rest: string)
    requires '"' !in path
    requires rest == "" || rest[0] == ' '
    ensures ScanProgram(path + "\"" + rest, true) == (path, rest)
  {
    var p := path + "\"" + rest;
    if path == "" {
      assert p[1..] == rest;
    } else {
      assert p[1..] == path[1..] + "\"" + rest;
      ScanProgramQuoted(path[1..], rest);
      assert path == [path[0]] + path[1..];
    }
  }

  lemma {:induction false} CommandLineShape(command: string, args: seq<string>)
    ensures CommandLine(command, EscapeAll(args)) == command + EscapedTail(args)
    decreases |args|
  {
    var parts := [command] + EscapeAll(args);
    if args == [] {
      assert command + EscapedTail(args) == command;
    } else {
      CommandLineShape(EscapeShellArgument(args[0]), args[1..]);
      assert parts[1..] == [EscapeShellArgument(args[0])] + EscapeAll(args[1..]);
    }
  }

  // ---------------------------------------------------------------- line breaks and NULs

  predicate Unbroken(s: string) {
    '\r' !in s && '\n' !in s && '\0' !in s
  }

  lemma {:induction false} KeepsOneLine(s: string)
    ensures Unbroken(s) ==> DropReturns(FirstLine(s)) == s
    ensures Unbroken(DropReturns(FirstLine(s)))
  {
    if s != "" && s[0] != '\n' && s[0] != '\0' {
      KeepsOneLine(s[1..]);
      assert s == [s[0]] + s[1..];
      assert FirstLine(s)[1..] == FirstLine(s[1..]);
    }
  }

  lemma {:induction false} RemoveCaretsUnbroken(s: string, inQuotes: bool)
    requires Unbroken(s)
    ensures RemoveCarets(s, inQuotes).Some? ==> Unbroken(RemoveCarets(s, inQuotes).value)
    decreases |s|
  {
    if s != "" {
      RemoveCaretsUnbroken(s[1..], s[0] != '"');
      RemoveCaretsUnbroken(s[1..], s[0] == '"');
      if |s| > 1 {
        RemoveCaretsUnbroken(s[2..], false);
      }
    }
  }

  lemma {:induction false} SlashesUnbroken(n: nat)
    ensures Unbroken(Slashes(n))
  {
    if n > 0 {
      SlashesUnbroken(n - 1);
    }
  }

  lemma {:induction false} ScanArgUnbroken(n: nat, p: string, inQuotes: bool)
    requires Unbroken(p)
    ensures Unbroken(ScanArg(n, p, inQuotes).0) && Unbroken(ScanArg(n, p, inQuotes).1)
    decreases |p|
  {
    SlashesUnbroken(n);
    SlashesUnbroken(n / 2);
    if p != [] {
      ScanArgUnbroken(n + 1, p[1..], inQuotes);
      ScanArgUnbroken(0, p[1..], inQuotes);
      ScanArgUnbroken(0, p[1..], !inQuotes);
      if |p| > 1 {
        ScanArgUnbroken(0, p[2..], inQuotes);
      }
    }
  }

  lemma {:induction false} ScanProgramUnbroken(p: string, inQuotes: bool)
    requires Unbroken(p)
    ensures Unbroken(ScanProgram(p, inQuotes).1)
  {
    if p != "" {
      ScanProgramUnbroken(p[1..], true);
      ScanProgramUnbroken(p[1..], false);
    }
  }

  lemma {:induction false} SplitArgsUnbroken(p: string)
    requires Unbroken(p)
    ensures forall a :: a in SplitArgs(p) ==> Unbroken(a)
    decreases |p|
  {
    if p != "" {
      if Blank(p[0]) {
        SplitArgsUnbroken(p[1..]);
      } else {
        ScanArgUnbroken(0, p, false);
        SplitArgsUnbroken(ScanArg(0, p, false).1);
      }
    }
  }

  /** Whatever the line, cmd.exe and the runtime deliver no line break and no NUL in an argument. */
  lemma {:induction false} ReceivedIsUnbroken(line: string)
    ensures Receive(line).Some? ==> forall a :: a in Receive(line).value[1..] ==> Unbroken(a)
  {
    KeepsOneLine(line);
    var one := DropReturns(FirstLine(line));
    RemoveCaretsUnbroken(one, false);
    if RemoveCarets(one, false).Some? {
      var r := RemoveCarets(one, false).value;
      ScanProgramUnbroken(r, false);
      SplitArgsUnbroken(ScanProgram(r, false).1);
      assert Receive(line).value[1..] == SplitArgs(ScanProgram(r, false).1);
    }
  }

  lemma {:induction false} EscapedTailUnbroken(args: seq<string>)
    requires forall a :: a in args ==> Unbroken(a)
    ensures Unbroken(EscapedTail(args))
  {
    if args != [] {
      CoreIsTwoReplacements(0, args[0]);
      CoreUnbroken(0, args[0]);
      PrefixCaretsUnbroken(Quoted(args[0]));
      EscapedTailUnbroken(args[1..]);
    }
  }

  lemma {:induction false} CoreUnbroken(n: nat, v: string)
    requires Unbroken(v)
    ensures Unbroken(Core(n, v))
    decreases |v|
  {
    SlashesUnbroken(n);
    SlashesUnbroken(2 * n);
    SlashesUnbroken(2 * n + 1);
    if v != [] {
      CoreUnbroken(n + 1, v[1..]);
      CoreUnbroken(0, v[1..]);
    }
  }

  lemma {:induction false} PrefixCaretsUnbroken(s: string)
    requires Unbroken(s)
    ensures Unbroken(PrefixCarets(s))
  {
    if s != "" {
      PrefixCaretsUnbroken(s[1..]);
    }
  }

  // ---------------------------------------------------------------- main results

  /** A Windows path holds no quotes, line breaks or NULs. */
  predicate ProgramPath(path: string) {
    '"' !in path && Unbroken(path)
  }

  lemma {:induction false} OpenQuote(inner: string)
    ensures RemoveCarets(['"'] + inner, false) == Prepend('"', RemoveCarets(inner, true))
  {
    Uncons('"', inner);
  }

  lemma {:induction false} CmdReadOf(path: string, args: seq<string>)
    requires ProgramPath(path)
    requires forall a :: a in args ==> Unbroken(a)
    ensures CmdRead(['"'] + (path + "\"" + EscapedTail(args))) == Some(['"'] + (path + "\"" + QuotedTail(args)))
  {
    var inner := path + "\"" + EscapedTail(args);
    EscapedTailUnbroken(args);
    KeepsOneLine(['"'] + inner);
    RemoveCaretsTail(args);
    RemoveCaretsInQuotes(path, EscapedTail(args));
    OpenQuote(inner);
  }

  lemma {:induction false} SplitRead(path: string, args: seq<string>)
    requires '"' !in path
    ensures var read := ['"'] + (path + "\"" + QuotedTail(args));
            ScanProgram(read, false) == (path, QuotedTail(args))
  {
    var inner := path + "\"" + QuotedTail(args);
    assert (['"'] + inner)[1..] == inner;
    ScanProgramQuoted(path, QuotedTail(args));
  }

  /** The started program receives exactly the arguments, in order, when none holds a line break
      or a NUL. */
  lemma {:induction false} EscapeRoundTrip(path: string, args: seq<string>)
    requires ProgramPath(path)
    requires forall a :: a in args ==> Unbroken(a)
    ensures Receive(CommandLine("\"" + path + "\"", EscapeAll(args))) == Some([path] + args)
  {
    CommandLineShape("\"" + path + "\"", args);
    var t := EscapedTail(args);
    assert "\"" + path + "\"" + t == ['"'] + (path + "\"" + t);
    CmdReadOf(path, args);
    SplitRead(path, args);
    SplitQuotedTail(args);
  }

  /** Of what the two layers read, line breaks and NULs are exactly what cannot be carried. */
  lemma {:induction false} EscapeRoundTripExactly(path: string, args: seq<string>)
    requires ProgramPath(path)
    ensures Receive(CommandLine("\"" + path + "\"", EscapeAll(args))) == Some([path] + args)
       <==> forall a :: a in args ==> Unbroken(a)
  {
    if forall a :: a in args ==> Unbroken(a) {
      EscapeRoundTrip(path, args);
    }
    ReceivedIsUnbroken(CommandLine("\"" + path + "\"", EscapeAll(args)));
    assert ([path] + args)[1..] == args;
  }

  // ---------------------------------------------------------------- getExecArgs

  datatype ExecOptions = ExecOptions(
    excluding: Option<seq<string>>,
    including: Option<seq<string>>,
    excludeAll: bool,
    escape: bool,
    spawn: bool)

  /** The parts of `process` the command line is built from. `execPath` is normalised. */
  datatype Process = Process(
    argv: seq<string>,
    execArgv: seq<string>,
    execPath: string,
    win: bool,
    pkgEntrypoint: Option<string>)

  datatype CommandArgs = CommandArgs(
    command: string,
    args: seq<string>,
    shell: bool,
    windowsVerbatimArguments: bool)

  function WithoutPrefix(xs: seq<string>, prefix: string): seq<string> {
    if xs == [] then []
    else (if prefix <= xs[0] then [] else [xs[0]]) + WithoutPrefix(xs[1..], prefix)
  }

  /** The arguments the child is meant to see, before any escaping. */
  function IntendedArgs(p: Process, o: ExecOptions): seq<string> {
    var own := if p.argv == [] then [] else p.argv[1..];
    var kept := if o.excludeAll && |own| > 0 then own[..1] else own;
    var more := if o.including.Some? then kept + o.including.value else kept;
    var less := if o.excluding.Some? then Without(more, o.excluding.value) else more;
    if p.pkgEntrypoint.Some? && !o.spawn
    then WithoutPrefix(p.execArgv + less, p.pkgEntrypoint.value)
    else p.execArgv + less
  }

  /** Whether an argument passes the filter on the packaged entry point. */
  function Passes(p: Process, o: ExecOptions): string -> bool {
    a => !(p.pkgEntrypoint.Some? && !o.spawn && p.pkgEntrypoint.value <= a)
  }

  /** Whether an own or included argument stays. */
  function Stays(p: Process, o: ExecOptions): string -> bool {
    a => !(o.excluding.Some? && a in o.excluding.value) && Passes(p, o)(a)
  }

  /** The engine's arguments, then the own ones (the script alone when all others are left out),
      then the included ones, each in order and without those that are filtered out. */
  ghost predicate Intended(p: Process, o: ExecOptions, args: seq<string>) {
    var own := if |p.argv| <= 1 then [] else if o.excludeAll then [p.argv[1]] else p.argv[1..];
    var included := if o.including.Some? then o.including.value else [];
    exists front, back ::
      Picks(p.execArgv, front, Passes(p, o)) && Picks(own + included, back, Stays(p, o)) && args == front + back
  }

  function Filtered(p: Process, o: ExecOptions, xs: seq<string>): seq<string> {
    if p.pkgEntrypoint.Some? && !o.spawn then WithoutPrefix(xs, p.pkgEntrypoint.value) else xs
  }

  function Unexcluded(o: ExecOptions, xs: seq<string>): seq<string> {
    if o.excluding.Some? then Without(xs, o.excluding.value) else xs
  }

  lemma {:induction false} FilteredPicks(p: Process, o: ExecOptions, xs: seq<string>)
    ensures Picks(xs, Filtered(p, o, xs), Passes(p, o))
  {
    if xs == [] {
      PicksNothing(Passes(p, o));
    } else {
      FilteredPicks(p, o, xs[1..]);
      PicksCons(xs[0], xs[1..], Filtered(p, o, xs[1..]), Passes(p, o));
      assert [xs[0]] + xs[1..] == xs;
    }
  }

  lemma FilteredCons(p: Process, o: ExecOptions, x: string, xs: seq<string>)
    ensures Filtered(p, o, [x] + xs) == (if Passes(p, o)(x) then [x] else []) + Filtered(p, o, xs)
  {
    assert ([x] + xs)[1..] == xs;
  }

  lemma {:induction false} FilteredConcat(p: Process, o: ExecOptions, xs: seq<string>, ys: seq<string>)
    ensures Filtered(p, o, xs + ys) == Filtered(p, o, xs) + Filtered(p, o, ys)
  {
    if xs == [] {
      assert xs + ys == ys;
    } else {
      FilteredConcat(p, o, xs[1..], ys);
      FilteredCons(p, o, xs[0], xs[1..]);
      FilteredCons(p, o, xs[0], xs[1..] + ys);
      assert xs == [xs[0]] + xs[1..] && xs + ys == [xs[0]] + (xs[1..] + ys);
    }
  }

  lemma {:induction false} StayingPicks(p: Process, o: ExecOptions, xs: seq<string>)
    ensures Picks(xs, Filtered(p, o, Unexcluded(o, xs)), Stays(p, o))
  {
    if xs == [] {
      PicksNothing(Stays(p, o));
    } else {
      var x, rest := xs[0], Unexcluded(o, xs[1..]);
      StayingPicks(p, o, xs[1..]);
      PicksCons(x, xs[1..], Filtered(p, o, rest), Stays(p, o));
      assert [x] + xs[1..] == xs;
      if o.excluding.Some? && x in o.excluding.value {
        assert Unexcluded(o, xs) == [] + rest == rest;
      } else {
        assert Unexcluded(o, xs) == [x] + rest;
        FilteredCons(p, o, x, rest);
      }
    }
  }

  /** The intended arguments are exactly the chosen ones. */
  lemma IntendedExactly(p: Process, o: ExecOptions, args: seq<string>)
    ensures Intended(p, o, args) <==> args == IntendedArgs(p, o)
  {
    var own := if |p.argv| <= 1 then [] else if o.excludeAll then [p.argv[1]] else p.argv[1..];
    var more := own + (if o.including.Some? then o.including.value else []);
    var front, back := Filtered(p, o, p.execArgv), Filtered(p, o, Unexcluded(o, more));
    FilteredPicks(p, o, p.execArgv);
    StayingPicks(p, o, more);
    FilteredConcat(p, o, p.execArgv, Unexcluded(o, more));
    assert IntendedArgs(p, o) == front + back by {
      OwnArgs(p, o, own, more);
    }
    if Intended(p, o, args) {
      var f, b :| Picks(p.execArgv, f, Passes(p, o)) && Picks(more, b, Stays(p, o)) && args == f + b;
      PicksUnique(p.execArgv, f, front, Passes(p, o));
      PicksUnique(more, b, back, Stays(p, o));
    }
  }

  lemma OwnArgs(p: Process, o: ExecOptions, own: seq<string>, more: seq<string>)
    requires own == if |p.argv| <= 1 then [] else if o.excludeAll then [p.argv[1]] else p.argv[1..]
    requires more == own + (if o.including.Some? then o.including.value else [])
    ensures IntendedArgs(p, o) == Filtered(p, o, p.execArgv + Unexcluded(o, more))
  {
    assert own + [] == own;
    assert |p.argv| > 1 ==> p.argv[1..][..1] == [p.argv[1]];
    assert |p.argv| == 1 ==> p.argv[1..] == [];
  }

  /** With everything but the script left out and nothing excluded, a spawned child is meant to
      see the engine's arguments, the script and the included arguments. */
  lemma SpawnedArgs(p: Process, o: ExecOptions)
    requires o.excludeAll && o.excluding.None? && o.including.Some? && |p.argv| > 1 && (p.pkgEntrypoint.None? || o.spawn)
    ensures IntendedArgs(p, o) == p.execArgv + ([p.argv[1]] + o.including.value)
  {
    assert p.argv[1..][..1] == [p.argv[1]];
  }

  /** Builds the command; on Windows its shell line delivers exactly the intended arguments. */
  method GetExecArgs(p: Process, o: ExecOptions) returns (r: CommandArgs)
    ensures r.shell == p.win && r.windowsVerbatimArguments == (p.win && o.escape)
    ensures !r.windowsVerbatimArguments ==> r.command == p.execPath && Intended(p, o, r.args)
    ensures r.windowsVerbatimArguments && ProgramPath(p.execPath) ==> forall args :: Intended(p, o, args) ==>
              (Receive(CommandLine(r.command, r.args)) == Some([p.execPath] + args)
               <==> forall a :: a in args ==> Unbroken(a))
    ensures Intended(p, o, IntendedArgs(p, o))
  {
    var args := if p.argv == [] then [] else p.argv[1..];
    if o.excludeAll {
      args := if |args| > 0 then args[..1] else args;
    }
    if o.including.Some? {
      args := args + o.including.value;
    }
    if o.excluding.Some? {
      args := Without(args, o.excluding.value);
    }
    args := p.execArgv + args;
    if p.pkgEntrypoint.Some? && !o.spawn {
      args := WithoutPrefix(args, p.pkgEntrypoint.value);
    }
    var command := p.execPath;
    if p.win && o.escape {
      if ProgramPath(p.execPath) {
        EscapeRoundTripExactly(p.execPath, args);
      }
      command := "\"" + command + "\"";
      args := EscapeAll(args);
    }
    r := CommandArgs(command, args, p.win, p.win && o.escape);
    forall xs ensures Intended(p, o, xs) <==> xs == IntendedArgs(p, o) {
      IntendedExactly(p, o, xs);
    }
  }
}
