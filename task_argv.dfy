/** The argument block `exec` builds on a fresh user stack
    (kernel/src/task/pcb.rs and os/src/task/control_block.rs, which share the
    layout). Below the stack top sits the argv array of argc + 1 machine
    words, the last one 0; below that, the argument strings, each followed by
    a NUL byte, the first argument highest. The final stack pointer is the
    lowest string's address. */
module Argv {
  import opened Process

  /** `size_of::<usize>()` on RV64. */
  const WORD: nat := 8

  /** The user stack as the kernel writes it through `translated_mut_ref`:
      machine words stored at their addresses, and single bytes. */
  class UserStack {
    var words: map<nat, nat>
    var bytes: map<nat, bv8>

    constructor ()
      ensures words == map[] && bytes == map[]
    {
      words := map[];
      bytes := map[];
    }
  }

  /** The bytes the first n strings take, NUL bytes included. */
  function StringsSize(args: seq<seq<bv8>>, n: nat): nat
    requires n <= |args|
  {
    if n == 0 then 0 else StringsSize(args, n - 1) + |args[n - 1]| + 1
  }

  lemma {:induction false} StringsSizeMono(args: seq<seq<bv8>>, m: nat, n: nat)
    requires m <= n <= |args|
    ensures StringsSize(args, m) <= StringsSize(args, n)
  {
    if m < n {
      StringsSizeMono(args, m, n - 1);
    }
  }

  /** Where argument i starts: its string lies just below those of the
      arguments before it. */
  function StrAddr(argvBase: nat, args: seq<seq<bv8>>, i: nat): nat
    requires i < |args| && StringsSize(args, |args|) <= argvBase
  {
    StringsSizeMono(args, i + 1, |args|);
    argvBase - StringsSize(args, i + 1)
  }

  /** argv[k]: the address of argument k, and 0 for k == argc. */
  function ArgvValue(argvBase: nat, args: seq<seq<bv8>>, k: nat): nat
    requires k <= |args| && StringsSize(args, |args|) <= argvBase
  {
    if k == |args| then 0 else StrAddr(argvBase, args, k)
  }

  /** The argv slots written so far, keyed by address: argv[argc] first,
      then argv[0..n] in order. */
  function ArgvWords(argvBase: nat, args: seq<seq<bv8>>, n: nat): map<nat, nat>
    requires n <= |args| && StringsSize(args, |args|) <= argvBase
  {
    if n == 0 then map[argvBase + WORD * |args| := 0]
    else ArgvWords(argvBase, args, n - 1)[argvBase + WORD * (n - 1) := StrAddr(argvBase, args, n - 1)]
  }

  /** The slot map holds exactly argv[argc] and argv[0..n], each at
      argv_base + 8 * k with the value argv[k]. */
  lemma {:induction false} ArgvWordsHold(argvBase: nat, args: seq<seq<bv8>>, n: nat, k: nat)
    requires n <= |args| && StringsSize(args, |args|) <= argvBase && k <= |args|
    ensures argvBase + WORD * k in ArgvWords(argvBase, args, n) <==> k < n || k == |args|
    ensures k < n || k == |args| ==> ArgvWords(argvBase, args, n)[argvBase + WORD * k] == ArgvValue(argvBase, args, k)
  {
    if n > 0 {
      ArgvWordsHold(argvBase, args, n - 1, k);
    }
  }

  /** s followed by a NUL byte is stored at addr. */
  ghost predicate CStringAt(bytes: map<nat, bv8>, addr: nat, s: seq<bv8>)
  {
    (forall a: nat :: addr <= a < addr + |s| ==> a in bytes && bytes[a] == s[a - addr]) &&
    addr + |s| in bytes && bytes[addr + |s|] == 0
  }

  /** The byte copy of one argument and its terminating NUL; no other byte
      changes. */
  method WriteCString(mem: UserStack, addr: nat, s: seq<bv8>)
    modifies mem`bytes
    ensures CStringAt(mem.bytes, addr, s)
    ensures forall a :: a in mem.bytes <==> a in old(mem.bytes) || addr <= a <= addr + |s|
    ensures forall a :: a in old(mem.bytes) && (a < addr || addr + |s| < a) ==> mem.bytes[a] == old(mem.bytes)[a]
  {
    var p := addr;
    while p < addr + |s|
      invariant addr <= p <= addr + |s|
      invariant forall a: nat :: addr <= a < p ==> a in mem.bytes && mem.bytes[a] == s[a - addr]
      invariant forall a :: a in mem.bytes <==> a in old(mem.bytes) || addr <= a < p
      invariant forall a :: a in old(mem.bytes) && (a < addr || p <= a) ==> mem.bytes[a] == old(mem.bytes)[a]
    {
      mem.bytes := mem.bytes[p := s[p - addr]];
      p := p + 1;
    }
    mem.bytes := mem.bytes[p := 0];
  }

  /** Every byte of `before` outside [lo, hi) is still in `after`. */
  ghost predicate KeptOutside(before: map<nat, bv8>, after: map<nat, bv8>, lo: nat, hi: nat)
  {
    forall a :: a in before && (a < lo || hi <= a) ==> a in after && after[a] == before[a]
  }

  /** The first n arguments are in place. */
  ghost predicate StringsPlaced(bytes: map<nat, bv8>, argvBase: nat, args: seq<seq<bv8>>, n: nat)
    requires n <= |args| && StringsSize(args, |args|) <= argvBase
  {
    forall j :: 0 <= j < n ==> CStringAt(bytes, StrAddr(argvBase, args, j), args[j])
  }

  /** A string stored above every byte a write touched is still there. */
  lemma CStringKept(b0: map<nat, bv8>, b1: map<nat, bv8>, addr: nat, s: seq<bv8>, lo: nat, hi: nat)
    requires CStringAt(b0, addr, s) && hi <= addr
    requires KeptOutside(b0, b1, lo, hi)
    ensures CStringAt(b1, addr, s)
  {
  }

  /** The strings of the arguments before i lie at or above sp, so a round
      that writes only below sp leaves them in place. */
  lemma {:induction false} StringsKept(b0: map<nat, bv8>, b1: map<nat, bv8>, argvBase: nat, args: seq<seq<bv8>>, i: nat, next: nat, sp: nat)
    requires i < |args| && StringsSize(args, |args|) <= argvBase
    requires sp + StringsSize(args, i) == argvBase
    requires StringsPlaced(b0, argvBase, args, i)
    requires KeptOutside(b0, b1, next, sp)
    requires CStringAt(b1, StrAddr(argvBase, args, i), args[i])
    ensures StringsPlaced(b1, argvBase, args, i + 1)
  {
    forall j | 0 <= j < i + 1
      ensures CStringAt(b1, StrAddr(argvBase, args, j), args[j])
    {
      if j < i {
        StringsSizeMono(args, j + 1, i);
        assert CStringAt(b0, StrAddr(argvBase, args, j), args[j]);
        CStringKept(b0, b1, StrAddr(argvBase, args, j), args[j], next, sp);
      }
    }
  }

  /** Two rounds that each keep the bytes outside their own window keep
      the bytes outside the joined window. */
  lemma FrameCompose(b0: map<nat, bv8>, b1: map<nat, bv8>, b2: map<nat, bv8>, lo: nat, mid: nat, hi: nat)
    requires lo <= mid <= hi
    requires KeptOutside(b0, b1, mid, hi)
    requires KeptOutside(b1, b2, lo, mid)
    ensures KeptOutside(b0, b2, lo, hi)
  {
  }

  /** One round of the argument loop: lower the stack pointer by the
      argument's length plus one, store it in argv[i], and copy the argument
      there with its NUL. */
  method PushArg(mem: UserStack, argvBase: nat, args: seq<seq<bv8>>, i: nat, sp: nat) returns (next: nat)
    requires i < |args| && StringsSize(args, |args|) <= argvBase
    requires sp + StringsSize(args, i) == argvBase
    modifies mem
    ensures next == StrAddr(argvBase, args, i) && next + |args[i]| + 1 == sp
    ensures mem.words == old(mem.words)[argvBase + WORD * i := next]
    ensures CStringAt(mem.bytes, next, args[i])
    ensures KeptOutside(old(mem.bytes), mem.bytes, next, sp)
  {
    StringsSizeMono(args, i + 1, |args|);
    next := sp - (|args[i]| + 1);
    mem.words := mem.words[argvBase + WORD * i := next];
    WriteCString(mem, next, args[i]);
  }

  /** The argument-pushing part of `exec`: argv[argc] := 0, then for each
      argument in order, lower the stack pointer by its length plus one,
      store the new pointer in argv[i] and copy the string there with its
      NUL. The block must fit below the stack top. */
  method PushArgs(mem: UserStack, top: nat, args: seq<seq<bv8>>) returns (userSp: nat, argvBase: nat)
    requires (|args| + 1) * WORD + StringsSize(args, |args|) <= top
    modifies mem
    ensures argvBase + (|args| + 1) * WORD == top
    ensures userSp + StringsSize(args, |args|) == argvBase
    ensures mem.words == old(mem.words) + ArgvWords(argvBase, args, |args|)
    ensures forall i :: 0 <= i < |args| ==> CStringAt(mem.bytes, StrAddr(argvBase, args, i), args[i])
    ensures forall a :: a in old(mem.bytes) && (a < userSp || argvBase <= a) ==> a in mem.bytes && mem.bytes[a] == old(mem.bytes)[a]
  {
    var argc := |args|;
    userSp := top - (argc + 1) * WORD;
    argvBase := userSp;
    mem.words := mem.words[argvBase + WORD * argc := 0];
    ArgvWordsFirst(old(mem.words), mem.words, argvBase, args);
    var i := 0;
    while i < argc
      invariant 0 <= i <= argc
      invariant userSp + StringsSize(args, i) == argvBase
      invariant mem.words == old(mem.words) + ArgvWords(argvBase, args, i)
      invariant StringsPlaced(mem.bytes, argvBase, args, i)
      invariant KeptOutside(old(mem.bytes), mem.bytes, userSp, argvBase)
    {
      label Step:
      var next := PushArg(mem, argvBase, args, i, userSp);
      ArgvWordsStep(old(mem.words), old@Step(mem.words), mem.words, argvBase, args, i);
      StringsKept(old@Step(mem.bytes), mem.bytes, argvBase, args, i, next, userSp);
      FrameCompose(old(mem.bytes), old@Step(mem.bytes), mem.bytes, next, userSp, argvBase);
      userSp := next;
      i := i + 1;
    }
  }

  /** `TrapContext::app_init_context`: every register 0 except sp (x2),
      and execution starting at the entry point. */
  function AppInitContext(entry: nat, userSp: nat): (cx: TrapContext)
    ensures |cx.x| == 32 && cx.sepc == entry && cx.x[2] == userSp
    ensures forall r :: 0 <= r < 32 && r != 2 ==> cx.x[r] == 0
  {
    TrapContext(ZeroContext().x[2 := userSp], entry)
  }

  /** exec's context is the initial one with a0 = argc and a1 = argv_base. */
  lemma ExecContextExtendsInit(entry: nat, userSp: nat, argc: nat, argvBase: nat)
    ensures ExecContext(entry, userSp, argc, argvBase) ==
      AppInitContext(entry, userSp).(x := AppInitContext(entry, userSp).x[10 := argc][11 := argvBase])
  {
  }

  /** `TrapContext::app_init_context` followed by the two argument
      registers: all registers 0 except sp (x2) at the final stack pointer,
      a0 (x10) = argc and a1 (x11) = argv_base; execution starts at the
      entry point. */
  function ExecContext(entry: nat, userSp: nat, argc: nat, argvBase: nat): (cx: TrapContext)
    ensures |cx.x| == 32 && cx.sepc == entry
    ensures cx.x[2] == userSp && cx.x[10] == argc && cx.x[11] == argvBase
    ensures forall r :: 0 <= r < 32 && r != 2 && r != 10 && r != 11 ==> cx.x[r] == 0
  {
    TrapContext(ZeroContext().x[2 := userSp][10 := argc][11 := argvBase], entry)
  }

  /** Writing argv[argc] into the words starts the slot map. */
  lemma ArgvWordsFirst(prior: map<nat, nat>, w: map<nat, nat>, argvBase: nat, args: seq<seq<bv8>>)
    requires StringsSize(args, |args|) <= argvBase
    requires w == prior[argvBase + WORD * |args| := 0]
    ensures w == prior + ArgvWords(argvBase, args, 0)
  {
  }

  /** Writing argv[n] into the words extends the slot map by that slot. */
  lemma ArgvWordsStep(prior: map<nat, nat>, w0: map<nat, nat>, w1: map<nat, nat>, argvBase: nat, args: seq<seq<bv8>>, n: nat)
    requires n < |args| && StringsSize(args, |args|) <= argvBase
    requires w0 == prior + ArgvWords(argvBase, args, n)
    requires w1 == w0[argvBase + WORD * n := StrAddr(argvBase, args, n)]
    ensures w1 == prior + ArgvWords(argvBase, args, n + 1)
  {
  }

  /** Reading the block back: argv[argc] is 0, and every argv[i] points at
      a NUL-terminated copy of argument i lying below argv_base and above
      the final stack pointer. */
  lemma ArgvReadBack(prior: map<nat, nat>, bytes: map<nat, bv8>, args: seq<seq<bv8>>, userSp: nat, argvBase: nat, i: nat)
    requires StringsSize(args, |args|) <= argvBase && i < |args|
    requires userSp + StringsSize(args, |args|) == argvBase
    requires forall j :: 0 <= j < |args| ==> CStringAt(bytes, StrAddr(argvBase, args, j), args[j])
    ensures var words := prior + ArgvWords(argvBase, args, |args|);
      argvBase + WORD * |args| in words && words[argvBase + WORD * |args|] == 0
    ensures var words := prior + ArgvWords(argvBase, args, |args|);
      argvBase + WORD * i in words &&
      var s := words[argvBase + WORD * i];
      userSp <= s && s + |args[i]| < argvBase && CStringAt(bytes, s, args[i])
  {
    ArgvWordsHold(argvBase, args, |args|, |args|);
    ArgvWordsHold(argvBase, args, |args|, i);
    StringsSizeMono(args, i + 1, |args|);
    StringsSizeMono(args, i, |args|);
  }
}
