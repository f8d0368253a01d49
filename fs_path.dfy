/** Path handling of the current kernel (kernel/src/fs/inode.rs):
    `get_full_path`, which resolves a path against the working directory
    and normalises it, and the `split('/')` / `join("/")` it is built on.
    Paths are strings of characters; the separator is '/'. */
module FsPath {

  /** No piece of a path contains the separator. */
  predicate NoSlash(ps: seq<string>)
  {
    forall i :: 0 <= i < |ps| ==> '/' !in ps[i]
  }

  /** `str::split('/')`: the pieces between separators; n separators give
      n + 1 pieces, empty ones included. */
  function Split(s: string): (r: seq<string>)
    ensures |r| >= 1
  {
    if |s| == 0 then [""]
    else
      var rest := Split(s[1..]);
      if s[0] == '/' then [""] + rest else [[s[0]] + rest[0]] + rest[1..]
  }

  /** No piece of a split contains the separator. */
  lemma {:induction false} SplitNoSlash(s: string)
    ensures NoSlash(Split(s))
    decreases |s|
  {
    if |s| > 0 {
      SplitNoSlash(s[1..]);
      var rest := Split(s[1..]);
      if s[0] != '/' {
        assert '/' !in [s[0]] + rest[0];
      }
    }
  }

  /** `join("/")`: the pieces with one separator between neighbours. */
  function Join(ps: seq<string>): (r: string)
  {
    if |ps| == 0 then ""
    else if |ps| == 1 then ps[0]
    else ps[0] + "/" + Join(ps[1..])
  }

  /** Joining the pieces of a split gives the string back. */
  lemma {:induction false} JoinSplit(s: string)
    ensures Join(Split(s)) == s
  {
    if |s| > 0 {
      var rest := Split(s[1..]);
      JoinSplit(s[1..]);
      if s[0] == '/' {
        assert Split(s) == [""] + rest;
        assert s == "/" + s[1..];
      } else {
        var ps := [[s[0]] + rest[0]] + rest[1..];
        assert Split(s) == ps;
        if |rest| == 1 {
          assert Join(ps) == [s[0]] + rest[0];
        } else {
          assert ps[1..] == rest[1..];
          assert Join(rest) == rest[0] + "/" + Join(rest[1..]);
        }
        assert s == [s[0]] + s[1..];
      }
    }
  }

  /** Splitting at a separator splits the two sides independently. */
  lemma {:induction false} SplitConcat(a: string, b: string)
    ensures Split(a + "/" + b) == Split(a) + Split(b)
  {
    if |a| == 0 {
      SplitCons('/', b);
      assert a + "/" + b == ['/'] + b;
    } else {
      var c, t := a[0], a[1..];
      SplitConcat(t, b);
      SplitConcatStep(c, t, b);
      assert a == [c] + t;
      assert a + "/" + b == [c] + (t + "/" + b);
    }
  }

  /** The inductive step of `SplitConcat`: one more character in front. */
  lemma SplitConcatStep(c: char, t: string, b: string)
    requires Split(t + "/" + b) == Split(t) + Split(b)
    ensures Split([c] + (t + "/" + b)) == Split([c] + t) + Split(b)
  {
    SplitCons(c, t + "/" + b);
    SplitCons(c, t);
    if c != '/' {
      PushFirst(c, Split(t), Split(b));
    } else {
      assert [""] + (Split(t) + Split(b)) == [""] + Split(t) + Split(b);
    }
  }

  /** Split of a string by its first character. */
  lemma SplitCons(c: char, t: string)
    ensures Split([c] + t) == if c == '/' then [""] + Split(t) else [[c] + Split(t)[0]] + Split(t)[1..]
  {
    assert ([c] + t)[0] == c && ([c] + t)[1..] == t;
  }

  /** Prefixing the first piece of a concatenation prefixes the first
      piece of its left part. */
  lemma PushFirst(c: char, left: seq<string>, right: seq<string>)
    requires |left| >= 1
    ensures [[c] + (left + right)[0]] + (left + right)[1..] == [[c] + left[0]] + left[1..] + right
  {
    assert (left + right)[0] == left[0];
    assert (left + right)[1..] == left[1..] + right;
  }

  /** Splitting a joined list of separator-free pieces gives the pieces
      back. */
  lemma {:induction false} SplitJoin(ps: seq<string>)
    requires |ps| >= 1 && NoSlash(ps)
    ensures Split(Join(ps)) == ps
  {
    if |ps| == 1 {
      SplitSingle(ps[0]);
    } else {
      SplitJoin(ps[1..]);
      SplitSingle(ps[0]);
      SplitConcat(ps[0], Join(ps[1..]));
      assert ps == [ps[0]] + ps[1..];
    }
  }

  lemma {:induction false} SplitSingle(a: string)
    requires '/' !in a
    ensures Split(a) == [a]
  {
    if |a| > 0 {
      SplitSingle(a[1..]);
      assert a == [a[0]] + a[1..];
    }
  }

  /** One step of the normalising loop: "" and "." are skipped, ".."
      drops the last kept component (nothing at the root), anything else
      is kept. */
  function NormStep(parts: seq<string>, piece: string): seq<string>
  {
    if piece == "" || piece == "." then parts
    else if piece == ".." then (if |parts| == 0 then parts else parts[..|parts| - 1])
    else parts + [piece]
  }

  /** The normalising loop run over `pieces`, starting from `parts`. */
  function NormFrom(parts: seq<string>, pieces: seq<string>): seq<string>
    decreases |pieces|
  {
    if |pieces| == 0 then parts else NormFrom(NormStep(parts, pieces[0]), pieces[1..])
  }

  /** A component of a normalised path: not empty, not "." or "..", and
      free of separators. */
  predicate Clean(ps: seq<string>)
  {
    forall i :: 0 <= i < |ps| ==> ps[i] != "" && ps[i] != "." && ps[i] != ".." && '/' !in ps[i]
  }

  /** Normalising separator-free pieces keeps only clean components. */
  lemma {:induction false} NormFromClean(parts: seq<string>, pieces: seq<string>)
    requires Clean(parts) && NoSlash(pieces)
    ensures Clean(NormFrom(parts, pieces))
    decreases |pieces|
  {
    if |pieces| > 0 {
      NormFromClean(NormStep(parts, pieces[0]), pieces[1..]);
    }
  }

  /** Running the loop over two lists of pieces runs it over the first,
      then over the second. */
  lemma {:induction false} NormFromConcat(parts: seq<string>, xs: seq<string>, ys: seq<string>)
    ensures NormFrom(parts, xs + ys) == NormFrom(NormFrom(parts, xs), ys)
    decreases |xs|
  {
    if |xs| > 0 {
      assert (xs + ys)[0] == xs[0] && (xs + ys)[1..] == xs[1..] + ys;
      NormFromConcat(NormStep(parts, xs[0]), xs[1..], ys);
    } else {
      assert xs + ys == ys;
    }
  }

  /** Clean components pass through the loop unchanged. */
  lemma {:induction false} NormFromKeepsClean(parts: seq<string>, ps: seq<string>)
    requires Clean(ps)
    ensures NormFrom(parts, ps) == parts + ps
    decreases |ps|
  {
    if |ps| > 0 {
      NormFromKeepsClean(parts + [ps[0]], ps[1..]);
      assert parts + [ps[0]] + ps[1..] == parts + ps;
    }
  }

  /** The path before normalisation: an absolute path as it is, a relative
      one appended to the working directory with a separator. */
  function Resolved(cwd: string, path: string): string
  {
    if |path| > 0 && path[0] == '/' then path else cwd + "/" + path
  }

  /** The components `get_full_path` keeps. */
  function FullParts(cwd: string, path: string): seq<string>
  {
    NormFrom([], Split(Resolved(cwd, path)))
  }

  /** `get_full_path` as a value: "/" followed by the kept components
      joined with separators. */
  function FullPath(cwd: string, path: string): string
  {
    "/" + Join(FullParts(cwd, path))
  }

  /** `get_full_path`: split the resolved path, run the normalising loop
      over the pieces, and join what is kept behind a leading "/". */
  method GetFullPath(cwd: string, path: string) returns (r: string)
    ensures r == FullPath(cwd, path)
    ensures r == "/" + Join(FullParts(cwd, path)) && Clean(FullParts(cwd, path))
  {
    var resolved := if |path| > 0 && path[0] == '/' then path else cwd + "/" + path;
    var pieces := Split(resolved);
    var parts: seq<string> := [];
    var i := 0;
    while i < |pieces|
      invariant 0 <= i <= |pieces|
      invariant NormFrom(parts, pieces[i..]) == NormFrom([], pieces)
    {
      assert pieces[i..][0] == pieces[i] && pieces[i..][1..] == pieces[i + 1..];
      var piece := pieces[i];
      if piece == "" || piece == "." {
      } else if piece == ".." {
        if |parts| > 0 {
          parts := parts[..|parts| - 1];
        }
      } else {
        parts := parts + [piece];
      }
      i := i + 1;
    }
    assert pieces[i..] == [];
    SplitNoSlash(resolved);
    NormFromClean([], pieces);
    r := "/" + Join(parts);
  }

  /** The components of "/" followed by clean components are those
      components. */
  lemma PartsOfNormalised(cwd: string, ps: seq<string>)
    requires Clean(ps)
    ensures FullParts(cwd, "/" + Join(ps)) == ps
  {
    var s := "/" + Join(ps);
    assert s[0] == '/';
    assert s == "" + "/" + Join(ps);
    SplitConcat("", Join(ps));
    if |ps| == 0 {
      assert s == "/" && s[1..] == "";
      assert Split(s) == ["", ""];
      assert NormFrom([], ["", ""]) == NormFrom([], [""]) == [];
    } else {
      SplitJoin(ps);
      assert Split(s) == [""] + ps;
      NormFromKeepsClean([], ps);
    }
  }

  /** The result starts with "/" and its components are clean; normalising
      it again, from any working directory, gives it back unchanged. */
  lemma FullPathNormalised(cwd: string, path: string, cwd2: string)
    ensures FullPath(cwd, path)[0] == '/' && Clean(FullParts(cwd, path))
    ensures FullPath(cwd2, FullPath(cwd, path)) == FullPath(cwd, path)
  {
    SplitNoSlash(Resolved(cwd, path));
    NormFromClean([], Split(Resolved(cwd, path)));
    PartsOfNormalised(cwd2, FullParts(cwd, path));
  }

  /** A relative path is applied to the working directory's own
      components: the loop runs over the cwd's pieces and then over the
      path's. */
  lemma FullPathRelative(cwd: string, path: string)
    requires !(|path| > 0 && path[0] == '/')
    ensures FullParts(cwd, path) == NormFrom(NormFrom([], Split(cwd)), Split(path))
  {
    SplitConcat(cwd, path);
    NormFromConcat([], Split(cwd), Split(path));
  }

  /** From a normalised working directory, a clean name descends into it
      and ".." climbs back out; at the root ".." stays at the root. */
  lemma DescendAndClimb(ps: seq<string>, name: string)
    requires Clean(ps) && Clean([name])
    ensures FullPath("/" + Join(ps), name) == "/" + Join(ps + [name])
    ensures FullPath("/" + Join(ps + [name]), "..") == "/" + Join(ps)
    ensures FullPath("/", "..") == "/"
  {
    Descend(ps, name);
    Climb(ps, name);
    ClimbAtRoot();
  }

  lemma Descend(ps: seq<string>, name: string)
    requires Clean(ps) && Clean([name])
    ensures FullPath("/" + Join(ps), name) == "/" + Join(ps + [name])
  {
    var cwd := "/" + Join(ps);
    assert [name][0] == name;
    assert name != "" && name[0] != '/';
    FullPathRelative(cwd, name);
    PartsOfNormalised(cwd, ps);
    SplitSingle(name);
    assert Split(name) == [name];
  }

  lemma Climb(ps: seq<string>, name: string)
    requires Clean(ps) && Clean([name])
    ensures FullPath("/" + Join(ps + [name]), "..") == "/" + Join(ps)
  {
    var cwd2 := "/" + Join(ps + [name]);
    assert [name][0] == name;
    assert Clean(ps + [name]);
    FullPathRelative(cwd2, "..");
    PartsOfNormalised(cwd2, ps + [name]);
    SplitSingle("..");
    assert (ps + [name])[..|ps + [name]| - 1] == ps;
  }

  lemma ClimbAtRoot()
    ensures FullPath("/", "..") == "/"
  {
    FullPathRelative("/", "..");
    PartsOfNormalised("/", []);
    assert "/" + Join([]) == "/";
  }
}
