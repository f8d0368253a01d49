/** Line editing of the user shells: `getline` of apps/src/bin/shell.rs and
    user/src/bin/shell.rs, and the key loop of user/src/bin/user_shell.rs.
    Keys are the bytes `getchar` returns, given as the characters the shells
    push for them. */
module ShellLine {
  import opened Wrappers

  const LF: char := '\U{000A}'
  const CR: char := '\U{000D}'
  const DL: char := '\U{007F}'
  const BS: char := '\U{0008}'

  predicate IsEnd(c: char)
  {
    c == LF || c == CR
  }

  /** Keys with no line end among them. */
  predicate NoEnd(keys: seq<char>)
  {
    forall i :: 0 <= i < |keys| ==> !IsEnd(keys[i])
  }

  /** The line with its last character removed, if it has one. */
  function Pop(line: string): (r: string)
    ensures line == [] ==> r == []
    ensures line != [] ==> line == r + [line[|line| - 1]]
  {
    if line == [] then [] else line[..|line| - 1]
  }

  /** One key of `getline` other than a line end: DEL erases, anything
      else, BS included, is appended. */
  function Edit(line: string, c: char): string
  {
    if c == DL then Pop(line) else line + [c]
  }

  /** The line after the keys, from the line given. */
  function EditAll(line: string, keys: seq<char>): (r: string)
    ensures |r| <= |line| + |keys|
    decreases |keys|
  {
    if keys == [] then line else EditAll(Edit(line, keys[0]), keys[1..])
  }

  /** DEL right after a typed character takes it back. */
  lemma EraseTyped(line: string, c: char)
    requires c != DL
    ensures Edit(Edit(line, c), DL) == line
  {
    assert (line + [c])[..|line|] == line;
  }

  /** Without DEL, the line is exactly what was typed. */
  lemma {:induction false} TypedAsIs(line: string, keys: seq<char>)
    requires forall i :: 0 <= i < |keys| ==> keys[i] != DL
    ensures EditAll(line, keys) == line + keys
    decreases |keys|
  {
    if keys != [] {
      TypedAsIs(line + [keys[0]], keys[1..]);
      assert line + [keys[0]] + keys[1..] == line + keys;
    }
  }

  /** `getline`: reads keys until LF or CR and returns the edited line
      without the line end, with the number of keys it used. None when the
      keys run out first, where the shell goes on waiting for input. */
  method GetLine(keys: seq<char>) returns (r: Option<(string, nat)>)
    ensures r.None? ==> NoEnd(keys)
    ensures r.Some? ==> 0 < r.value.1 <= |keys| && IsEnd(keys[r.value.1 - 1])
    ensures r.Some? ==> NoEnd(keys[..r.value.1 - 1]) && r.value.0 == EditAll([], keys[..r.value.1 - 1])
  {
    var input: string := [];
    var i := 0;
    while i < |keys|
      invariant i <= |keys|
      invariant NoEnd(keys[..i])
      invariant input == EditAll([], keys[..i])
      decreases |keys| - i
    {
      var c := keys[i];
      if IsEnd(c) {
        return Some((input, i + 1));
      }
      EditStep(keys, i);
      assert keys[..i + 1] == keys[..i] + [c];
      input := Edit(input, c);
      i := i + 1;
    }
    assert keys[..i] == keys;
    r := None;
  }

  /** Editing one more key extends the edit of the keys before it. */
  lemma {:induction false} EditStep(keys: seq<char>, i: nat)
    requires i < |keys|
    ensures EditAll([], keys[..i + 1]) == Edit(EditAll([], keys[..i]), keys[i])
  {
    EditSnoc([], keys[..i], keys[i]);
    assert keys[..i + 1] == keys[..i] + [keys[i]];
  }

  lemma {:induction false} EditSnoc(line: string, keys: seq<char>, c: char)
    ensures EditAll(line, keys + [c]) == Edit(EditAll(line, keys), c)
    decreases |keys|
  {
    if keys == [] {
      assert [] + [c] == [c];
    } else {
      assert (keys + [c])[1..] == keys[1..] + [c];
      EditSnoc(Edit(line, keys[0]), keys[1..], c);
    }
  }

  // ---------------------------------------------------------------
  // user_shell's key loop
  // ---------------------------------------------------------------

  /** The lines run so far and the line being typed. */
  datatype Session = Session(runs: seq<string>, line: string)

  /** One key of user_shell's loop: a line end runs a non-empty line and
      clears it (an empty line runs nothing); BS or DEL erases the last
      character of a non-empty line; anything else is appended. */
  function Key(s: Session, c: char): Session
  {
    if IsEnd(c) then
      (if s.line != [] then Session(s.runs + [s.line], []) else s)
    else if c == BS || c == DL then Session(s.runs, Pop(s.line))
    else Session(s.runs, s.line + [c])
  }

  function Keys(s: Session, keys: seq<char>): Session
    decreases |keys|
  {
    if keys == [] then s else Keys(Key(s, keys[0]), keys[1..])
  }

  /** Every line run is non-empty and holds no line end. */
  ghost predicate WellFormed(s: Session)
  {
    NoEnd(s.line) &&
    forall i :: 0 <= i < |s.runs| ==> s.runs[i] != [] && NoEnd(s.runs[i])
  }

  lemma KeyKeeps(s: Session, c: char)
    requires WellFormed(s)
    ensures WellFormed(Key(s, c))
  {
    if !IsEnd(c) && c != BS && c != DL {
      assert (s.line + [c])[|s.line|] == c;
    }
  }

  /** The loop keeps what it runs well formed, whatever is typed. */
  lemma {:induction false} KeysKeep(s: Session, keys: seq<char>)
    requires WellFormed(s)
    ensures WellFormed(Keys(s, keys))
    decreases |keys|
  {
    if keys != [] {
      KeyKeeps(s, keys[0]);
      KeysKeep(Key(s, keys[0]), keys[1..]);
    }
  }

  /** The typed characters other than line ends, in order. */
  function Text(keys: seq<char>): (t: string)
    ensures NoEnd(t)
  {
    if keys == [] then []
    else if IsEnd(keys[0]) then Text(keys[1..])
    else [keys[0]] + Text(keys[1..])
  }

  /** Concatenation of the lines run. */
  function Flatten(runs: seq<string>): string
  {
    if runs == [] then [] else runs[0] + Flatten(runs[1..])
  }

  lemma {:induction false} FlattenSnoc(runs: seq<string>, r: string)
    ensures Flatten(runs + [r]) == Flatten(runs) + r
    decreases |runs|
  {
    if runs == [] {
      assert [] + [r] == [r];
    } else {
      assert (runs + [r])[1..] == runs[1..] + [r];
      FlattenSnoc(runs[1..], r);
    }
  }

  /** Without erasing keys nothing typed is lost or reordered: the lines run,
      followed by the line still being typed, are the typed text without its
      line ends. */
  lemma {:induction false} NothingLost(s: Session, keys: seq<char>)
    requires forall i :: 0 <= i < |keys| ==> keys[i] != BS && keys[i] != DL
    ensures Flatten(Keys(s, keys).runs) + Keys(s, keys).line == Flatten(s.runs) + s.line + Text(keys)
    decreases |keys|
  {
    if keys != [] {
      var c := keys[0];
      var s' := Key(s, c);
      NothingLost(s', keys[1..]);
      if IsEnd(c) {
        if s.line != [] {
          FlattenSnoc(s.runs, s.line);
          assert Flatten(s'.runs) + s'.line == Flatten(s.runs) + s.line;
        }
      } else {
        assert Flatten(s'.runs) + s'.line == Flatten(s.runs) + s.line + [c];
        assert Text(keys) == [c] + Text(keys[1..]);
      }
    }
  }

  /** user_shell's `main` loop over the keys typed: returns the lines it
      forked a child for, in order, and the line left unfinished. */
  method UserShellLoop(keys: seq<char>) returns (runs: seq<string>, line: string)
    ensures Session(runs, line) == Keys(Session([], []), keys)
  {
    runs, line := [], [];
    var i := 0;
    while i < |keys|
      invariant i <= |keys|
      invariant Keys(Session(runs, line), keys[i..]) == Keys(Session([], []), keys)
      decreases |keys| - i
    {
      var c := keys[i];
      assert keys[i..][1..] == keys[i + 1..];
      if c == LF || c == CR {
        if line != [] {
          runs := runs + [line];
          line := [];
        }
      } else if c == BS || c == DL {
        if line != [] {
          line := line[..|line| - 1];
        }
      } else {
        line := line + [c];
      }
      i := i + 1;
    }
  }

  /** Every line user_shell runs is non-empty and has no line end. */
  lemma UserShellRunsWellFormed(keys: seq<char>)
    ensures WellFormed(Keys(Session([], []), keys))
  {
    KeysKeep(Session([], []), keys);
  }
}
