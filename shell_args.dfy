/** Command-line parsing of the three user shells: whitespace splitting,
    `<`/`>` redirection and the argument vector (apps/src/bin/shell.rs,
    user/src/bin/shell.rs, user/src/bin/user_shell.rs), and the apps shell's
    per-line dispatch. */
module ShellArgs {
  import opened Wrappers

  /** `char::is_whitespace`: the Unicode White_Space characters. */
  predicate IsSpace(c: char)
  {
    ('\U{0009}' <= c <= '\U{000D}') || c == ' ' || c == '\U{0085}' || c == '\U{00A0}' ||
    c == '\U{1680}' || ('\U{2000}' <= c <= '\U{200A}') || c == '\U{2028}' || c == '\U{2029}' ||
    c == '\U{202F}' || c == '\U{205F}' || c == '\U{3000}'
  }

  /** A token of `split_whitespace`: non-empty, with no whitespace. */
  predicate Word(t: string)
  {
    t != [] && forall i :: 0 <= i < |t| ==> !IsSpace(t[i])
  }

  /** Length of the word at the front of s. */
  function WordLen(s: string): (n: nat)
    requires s != [] && !IsSpace(s[0])
    ensures 0 < n <= |s| && Word(s[..n])
    ensures n < |s| ==> IsSpace(s[n])
    decreases |s|
  {
    if |s| == 1 || IsSpace(s[1]) then 1
    else
      var m := WordLen(s[1..]);
      assert s[..m + 1] == [s[0]] + s[1..][..m];
      m + 1
  }

  /** `str::split_whitespace`: the words of s, in order. */
  function SplitWhitespace(s: string): (ts: seq<string>)
    ensures forall i :: 0 <= i < |ts| ==> Word(ts[i])
    decreases |s|
  {
    if s == [] then []
    else if IsSpace(s[0]) then SplitWhitespace(s[1..])
    else
      var n := WordLen(s);
      [s[..n]] + SplitWhitespace(s[n..])
  }

  /** Words separated by single spaces, as a user types them. */
  function Join(ts: seq<string>): string
  {
    if ts == [] then []
    else if |ts| == 1 then ts[0]
    else ts[0] + " " + Join(ts[1..])
  }

  /** A word followed by whitespace or by nothing is read whole. */
  lemma {:induction false} WordLenOf(t: string, rest: string)
    requires Word(t) && (rest == [] || IsSpace(rest[0]))
    ensures WordLen(t + rest) == |t|
    decreases |t|
  {
    if |t| > 1 {
      assert (t + rest)[1..] == t[1..] + rest;
      WordLenOf(t[1..], rest);
    }
  }

  /** Splitting words joined by spaces gives the words back. */
  lemma {:induction false} SplitJoin(ts: seq<string>)
    requires forall i :: 0 <= i < |ts| ==> Word(ts[i])
    ensures SplitWhitespace(Join(ts)) == ts
  {
    if |ts| == 1 {
      WordLenOf(ts[0], []);
      assert ts[0] + [] == ts[0];
      assert ts[0][..|ts[0]|] == ts[0];
    } else if |ts| > 1 {
      var t, j := ts[0], Join(ts[1..]);
      var s := t + " " + j;
      assert s == t + (" " + j);
      WordLenOf(t, " " + j);
      assert s[..|t|] == t;
      assert s[|t|..] == " " + j;
      assert (" " + j)[1..] == j;
      SplitJoin(ts[1..]);
    }
  }

  // ---------------------------------------------------------------
  // Redirection
  // ---------------------------------------------------------------

  /** What `CommandArguments::new` collects: the arguments kept, in order,
      and the files named after `<` and `>`. */
  datatype Command = Command(argv: seq<string>, input: Option<string>, output: Option<string>)

  const NoCommand := Command([], None, None)

  /** The token after the operator at the front, if any: `args_iter.next()`. */
  function Operand(ts: seq<string>): Option<string>
  {
    if |ts| > 1 then Some(ts[1]) else None
  }

  /** The tokens left after the operator and its operand. */
  function AfterOperand(ts: seq<string>): seq<string>
  {
    if |ts| > 1 then ts[2..] else []
  }

  /** The token loop of `CommandArguments::new` from the state acc: an output
      operator takes the next token as the output file (None when there is
      none), an input operator likewise for the input file, and every other
      token is appended to the arguments. */
  function ParseFrom(ts: seq<string>, acc: Command, outOp: string, inOp: string): Command
    decreases |ts|
  {
    if ts == [] then acc
    else if ts[0] == outOp then ParseFrom(AfterOperand(ts), acc.(output := Operand(ts)), outOp, inOp)
    else if ts[0] == inOp then ParseFrom(AfterOperand(ts), acc.(input := Operand(ts)), outOp, inOp)
    else ParseFrom(ts[1..], acc.(argv := acc.argv + [ts[0]]), outOp, inOp)
  }

  /** The apps shell's parse of a command line. */
  function Parse(line: string): Command
  {
    ParseFrom(SplitWhitespace(line), NoCommand, ">", "<")
  }

  /** Tokens other than the two operators. */
  predicate NoOperators(ts: seq<string>, outOp: string, inOp: string)
  {
    forall i :: 0 <= i < |ts| ==> ts[i] != outOp && ts[i] != inOp
  }

  /** Neither operator is ever kept as an argument, and every argument is a
      token of the line. */
  lemma {:induction false} ParseKeepsNoOperator(ts: seq<string>, acc: Command, outOp: string, inOp: string)
    requires NoOperators(acc.argv, outOp, inOp)
    ensures NoOperators(ParseFrom(ts, acc, outOp, inOp).argv, outOp, inOp)
    ensures forall a :: a in ParseFrom(ts, acc, outOp, inOp).argv ==> a in acc.argv || a in ts
    decreases |ts|
  {
    if ts != [] {
      if ts[0] == outOp || ts[0] == inOp {
        var acc' := if ts[0] == outOp then acc.(output := Operand(ts)) else acc.(input := Operand(ts));
        ParseKeepsNoOperator(AfterOperand(ts), acc', outOp, inOp);
        assert forall a :: a in AfterOperand(ts) ==> a in ts;
      } else {
        var acc' := acc.(argv := acc.argv + [ts[0]]);
        ParseKeepsNoOperator(ts[1..], acc', outOp, inOp);
      }
    }
  }

  /** Tokens without operators are all kept, in order, and redirect
      nothing. */
  lemma {:induction false} ParsePlain(ts: seq<string>, acc: Command, outOp: string, inOp: string)
    requires NoOperators(ts, outOp, inOp)
    ensures ParseFrom(ts, acc, outOp, inOp) == acc.(argv := acc.argv + ts)
    decreases |ts|
  {
    if ts != [] {
      ParsePlain(ts[1..], acc.(argv := acc.argv + [ts[0]]), outOp, inOp);
      assert acc.argv + [ts[0]] + ts[1..] == acc.argv + ts;
    }
  }

  /** A later redirection overrides an earlier one: after `> a`, plain
      tokens and `> b`, the output file is b. */
  lemma LaterRedirectionWins(a: string, ts: seq<string>, b: string, acc: Command)
    requires NoOperators(ts, ">", "<")
    ensures ParseFrom([">", a] + ts + [">", b], acc, ">", "<") == acc.(argv := acc.argv + ts, output := Some(b))
  {
    var s1 := [">", a] + ts + [">", b];
    assert s1[0] == ">" && Operand(s1) == Some(a);
    assert AfterOperand(s1) == ts + [">", b];
    PlainThen(ts, [">", b], acc.(output := Some(a)));
  }

  /** A trailing `>` has no operand and leaves no output file, whatever an
      earlier `>` named. */
  lemma TrailingRedirectionClears(a: string, ts: seq<string>, acc: Command)
    requires NoOperators(ts, ">", "<")
    ensures ParseFrom([">", a] + ts + [">"], acc, ">", "<") == acc.(argv := acc.argv + ts, output := None)
  {
    var s2 := [">", a] + ts + [">"];
    assert s2[0] == ">" && Operand(s2) == Some(a);
    assert AfterOperand(s2) == ts + [">"];
    PlainThen(ts, [">"], acc.(output := Some(a)));
  }

  /** Plain tokens followed by more: the plain ones are kept first. */
  lemma {:induction false} PlainThen(ts: seq<string>, more: seq<string>, acc: Command)
    requires NoOperators(ts, ">", "<")
    ensures ParseFrom(ts + more, acc, ">", "<") == ParseFrom(more, acc.(argv := acc.argv + ts), ">", "<")
    decreases |ts|
  {
    if ts != [] {
      var all := ts + more;
      var acc' := acc.(argv := acc.argv + [ts[0]]);
      assert all[0] == ts[0] && ts[0] != ">" && ts[0] != "<";
      assert all[1..] == ts[1..] + more;
      assert ParseFrom(all, acc, ">", "<") == ParseFrom(all[1..], acc', ">", "<");
      assert NoOperators(ts[1..], ">", "<");
      PlainThen(ts[1..], more, acc');
      assert acc'.argv + ts[1..] == acc.argv + ts;
    } else {
      assert ts + more == more && acc.argv + ts == acc.argv;
    }
  }

  /** The apps shell's `CommandArguments::new`: walks the words once,
      consuming an operator's operand along with it. */
  method NewCommand(line: string) returns (c: Command, argc: nat)
    ensures c == Parse(line)
    ensures argc == |c.argv|
  {
    var ts := SplitWhitespace(line);
    c := NoCommand;
    argc := 0;
    var i := 0;
    while i < |ts|
      invariant i <= |ts| && argc == |c.argv|
      invariant ParseFrom(ts[i..], c, ">", "<") == Parse(line)
      decreases |ts| - i
    {
      var arg := ts[i];
      if arg == ">" || arg == "<" {
        var next := if i + 1 < |ts| then Some(ts[i + 1]) else None;
        assert Operand(ts[i..]) == next;
        assert AfterOperand(ts[i..]) == ts[if i + 1 < |ts| then i + 2 else |ts|..];
        if arg == ">" {
          c := c.(output := next);
        } else {
          c := c.(input := next);
        }
        i := if i + 1 < |ts| then i + 2 else |ts|;
      } else {
        assert ts[i..][1..] == ts[i + 1..];
        argc := argc + 1;
        c := c.(argv := c.argv + [arg]);
        i := i + 1;
      }
    }
  }

  /** The arguments kept hold no operator, and each is a word of the line. */
  lemma ParseArguments(line: string)
    ensures ">" !in Parse(line).argv && "<" !in Parse(line).argv
    ensures forall a :: a in Parse(line).argv ==> a in SplitWhitespace(line)
  {
    ParseKeepsNoOperator(SplitWhitespace(line), NoCommand, ">", "<");
  }

  // ---------------------------------------------------------------
  // The user-library shells: NUL-terminated arguments
  // ---------------------------------------------------------------

  /** `format!("{arg}\0")`. */
  function WithNul(t: string): string
  {
    t + "\0"
  }

  function AllWithNul(ts: seq<string>): (us: seq<string>)
    ensures |us| == |ts| && forall i :: 0 <= i < |ts| ==> us[i] == WithNul(ts[i])
  {
    if ts == [] then [] else [WithNul(ts[0])] + AllWithNul(ts[1..])
  }

  function OptionWithNul(o: Option<string>): Option<string>
  {
    if o.Some? then Some(WithNul(o.value)) else None
  }

  /** What the user-library shells build: the NUL-terminated arguments, a
      pointer per argument (Some(i) points at argument i, None is the null
      pointer) and the redirection files, NUL-terminated too. */
  datatype CommandArguments = CommandArguments(argsStr: seq<string>, argsPtrs: seq<Option<nat>>,
                                               input: Option<string>, output: Option<string>)

  /** The pointer array: one per argument, followed by a null pointer when
      `terminated` (user/src/bin/shell.rs), none otherwise
      (user/src/bin/user_shell.rs). */
  function ArgPointers(n: nat, terminated: bool): (ps: seq<Option<nat>>)
    ensures |ps| == n + (if terminated then 1 else 0)
    ensures forall i :: 0 <= i < n ==> ps[i] == Some(i)
    ensures terminated ==> ps[n] == None
  {
    seq(n, i => Some(i)) + (if terminated then [None] else [])
  }

  /** `CommandArguments::new` of the user-library shells: the same token loop
      over NUL-terminated words, with `>\0` and `<\0` as the operators. */
  method NewArguments(line: string, terminated: bool) returns (c: CommandArguments)
    ensures var p := ParseFrom(AllWithNul(SplitWhitespace(line)), NoCommand, ">\0", "<\0");
      c.argsStr == p.argv && c.input == p.input && c.output == p.output
    ensures c.argsPtrs == ArgPointers(|c.argsStr|, terminated)
  {
    var ts := AllWithNul(SplitWhitespace(line));
    ghost var whole := ParseFrom(ts, NoCommand, ">\0", "<\0");
    var args: seq<string> := [];
    var input: Option<string> := None;
    var output: Option<string> := None;
    var i := 0;
    while i < |ts|
      invariant i <= |ts|
      invariant ParseFrom(ts[i..], Command(args, input, output), ">\0", "<\0") == whole
      decreases |ts| - i
    {
      var arg := ts[i];
      if arg == ">\0" || arg == "<\0" {
        var next := if i + 1 < |ts| then Some(ts[i + 1]) else None;
        assert Operand(ts[i..]) == next;
        assert AfterOperand(ts[i..]) == ts[if i + 1 < |ts| then i + 2 else |ts|..];
        if arg == ">\0" {
          output := next;
        } else {
          input := next;
        }
        i := if i + 1 < |ts| then i + 2 else |ts|;
      } else {
        assert ts[i..][1..] == ts[i + 1..];
        args := args + [arg];
        i := i + 1;
      }
    }
    c := CommandArguments(args, ArgPointers(|args|, terminated), input, output);
  }

  /** A word equals an operator exactly when its NUL-terminated form equals
      the NUL-terminated operator. */
  lemma WithNulSame(t: string, op: string)
    ensures WithNul(t) == WithNul(op) <==> t == op
  {
    if WithNul(t) == WithNul(op) {
      assert |t| == |op|;
      assert forall i :: 0 <= i < |t| ==> t[i] == WithNul(t)[i];
      assert forall i :: 0 <= i < |op| ==> op[i] == WithNul(op)[i];
    }
  }

  /** The user-library shells parse a line as the apps shell does, with
      every argument and file name NUL-terminated. */
  lemma {:induction false} NulParseAgrees(ts: seq<string>, acc: Command)
    ensures ParseFrom(AllWithNul(ts), Command(AllWithNul(acc.argv), OptionWithNul(acc.input), OptionWithNul(acc.output)), ">\0", "<\0")
         == (var p := ParseFrom(ts, acc, ">", "<");
             Command(AllWithNul(p.argv), OptionWithNul(p.input), OptionWithNul(p.output)))
    decreases |ts|
  {
    if ts != [] {
      var us := AllWithNul(ts);
      WithNulSame(ts[0], ">");
      WithNulSame(ts[0], "<");
      assert WithNul(">") == ">\0" && WithNul("<") == "<\0";
      assert Operand(us) == OptionWithNul(Operand(ts));
      assert AfterOperand(us) == AllWithNul(AfterOperand(ts));
      assert us[1..] == AllWithNul(ts[1..]);
      if ts[0] == ">" {
        NulParseAgrees(AfterOperand(ts), acc.(output := Operand(ts)));
      } else if ts[0] == "<" {
        NulParseAgrees(AfterOperand(ts), acc.(input := Operand(ts)));
      } else {
        assert AllWithNul(acc.argv) + [us[0]] == AllWithNul(acc.argv + [ts[0]]);
        NulParseAgrees(ts[1..], acc.(argv := acc.argv + [ts[0]]));
      }
    }
  }

  /** The user-library parse of a line, stated against the apps parse. */
  lemma NewArgumentsAgree(line: string)
    ensures var p := ParseFrom(AllWithNul(SplitWhitespace(line)), NoCommand, ">\0", "<\0");
      p.argv == AllWithNul(Parse(line).argv) &&
      p.input == OptionWithNul(Parse(line).input) && p.output == OptionWithNul(Parse(line).output)
  {
    NulParseAgrees(SplitWhitespace(line), NoCommand);
    assert AllWithNul([]) == [];
  }

  // ---------------------------------------------------------------
  // The apps shell's dispatch of one line
  // ---------------------------------------------------------------

  /** The program path `exec` gets: a name with a '/' is used as is, any
      other is looked up under /bin. */
  function ProgramPath(name: string): (path: string)
    ensures '/' in path
    ensures '/' in name ==> path == name
    ensures '/' !in name ==> path == "/bin/" + name
  {
    if '/' in name then name else "/bin/" + name
  }

  /** Resolving a resolved path changes nothing. */
  lemma ProgramPathIdempotent(name: string)
    ensures ProgramPath(ProgramPath(name)) == ProgramPath(name)
  {
  }

  /** The directory `cd` changes to, given the arguments including the
      command itself: "/" when there is no argument, the argument when there
      is one, and None (an error message, no change) for more. */
  function CdTarget(args: seq<string>): (r: Option<string>)
    requires |args| >= 1
    ensures r.None? <==> |args| > 2
    ensures |args| == 1 ==> r == Some("/")
    ensures |args| == 2 ==> r == Some(args[1])
  {
    if |args| == 1 then Some("/") else if |args| == 2 then Some(args[1]) else None
  }

  /** What the shell does with one line. */
  datatype Action =
    | Skip
    | ChangeDir(path: string)
    | CdTooMany
    | Exit
    | Run(path: string, argv: seq<string>, input: Option<string>, output: Option<string>)

  /** The body of the apps shell's main loop as written: an empty line is
      skipped, then argv[0] chooses between cd, exit, changing into a
      directory named alone, and running a program. A line of blanks, or
      of redirections only, has no argv[0] and the index panics. */
  function StepAsWritten(line: string, isDir: string -> bool): Outcome<Action>
  {
    if line == [] then Returns(Skip)
    else
      var c := Parse(line);
      if c.argv == [] then Panics
      else Returns(Dispatch(c, isDir))
  }

  /** The choice made from a parsed line with at least one argument. */
  function Dispatch(c: Command, isDir: string -> bool): Action
    requires c.argv != []
  {
    var name := c.argv[0];
    if name == "cd" then
      (match CdTarget(c.argv) case Some(path) => ChangeDir(path) case None => CdTooMany)
    else if name == "exit" then Exit
    else if isDir(name) && |c.argv| == 1 then ChangeDir(name)
    else Run(ProgramPath(name), c.argv, c.input, c.output)
  }

  /** The loop body as evidently intended: a line with no words is skipped
      like an empty one. */
  function Step(line: string, isDir: string -> bool): (a: Action)
    ensures StepAsWritten(line, isDir).Returns? ==> a == StepAsWritten(line, isDir).value
    ensures Parse(line).argv == [] ==> a == Skip
  {
    var c := Parse(line);
    if c.argv == [] then Skip else Dispatch(c, isDir)
  }

  /** A line of one blank crashes the shell as written. */
  lemma BlankLinePanics(isDir: string -> bool)
    ensures StepAsWritten(" ", isDir) == Panics
  {
    assert IsSpace(' ');
    assert " "[1..] == [];
  }

  /** A line whose words hold no operator parses to those words, with no
      redirection. */
  lemma ParseWords(line: string)
    requires NoOperators(SplitWhitespace(line), ">", "<")
    ensures Parse(line) == Command(SplitWhitespace(line), None, None)
  {
    var ts := SplitWhitespace(line);
    ParsePlain(ts, NoCommand, ">", "<");
    assert NoCommand.argv + ts == ts;
  }

  /** `cd` alone goes to "/", `cd d` to d, and with more arguments the shell
      only complains, so its directory is unchanged. */
  lemma CdArguments(line: string, isDir: string -> bool)
    requires |SplitWhitespace(line)| > 0 && SplitWhitespace(line)[0] == "cd"
    requires NoOperators(SplitWhitespace(line), ">", "<")
    ensures var ws := SplitWhitespace(line);
      Step(line, isDir) == if |ws| == 1 then ChangeDir("/") else if |ws| == 2 then ChangeDir(ws[1]) else CdTooMany
  {
    ParseWords(line);
  }

  /** A program name with plain arguments runs the resolved program with
      the words as its arguments, when it is not cd, exit or a directory
      named alone. */
  lemma RunsProgram(line: string, isDir: string -> bool)
    requires |SplitWhitespace(line)| > 0
    requires var name := SplitWhitespace(line)[0];
      name != "cd" && name != "exit" && (!isDir(name) || |SplitWhitespace(line)| > 1)
    requires NoOperators(SplitWhitespace(line), ">", "<")
    ensures var ws := SplitWhitespace(line);
      Step(line, isDir) == Run(ProgramPath(ws[0]), ws, None, None)
  {
    ParseWords(line);
  }
}
