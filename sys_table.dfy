/** The system-call table of the current kernel (kernel/src/syscall/mod.rs):
    the number of every call, and `syscall`, which turns a number and the
    three argument registers into a call of the matching handler, with each
    argument cast to the handler's parameter type. The registers are 64-bit
    words (usize); the casts `as u32`, `as i32` and `as isize` are written
    out. */
module SyscallTable {
  import opened Wrappers

  const WORD_RANGE: nat := 0x1_0000_0000_0000_0000
  const U32_RANGE: nat := 0x1_0000_0000

  /** A 64-bit register value (usize). */
  type Word = w: nat | w < WORD_RANGE

  /** A u32 handler parameter: a flag set or a signal mask. */
  type U32 = n: nat | n < U32_RANGE

  /** An i32 handler parameter: an exit code. */
  type I32 = n: int | -0x8000_0000 <= n < 0x8000_0000

  /** An isize handler parameter: a pid, -1 for any child. */
  type Isize = n: int | -0x8000_0000_0000_0000 <= n < 0x8000_0000_0000_0000

  /** A handler call with its arguments, as the handler receives them. */
  datatype Call =
    | Getcwd(buf: Word, len: Word)
    | Dup(fd: Word)
    | Dup2(oldFd: Word, newFd: Word)
    | Mkdir(path: Word)
    | Unlink(path: Word, flags: U32)
    | Chdir(path: Word)
    | Open(path: Word, flags: U32)
    | Close(fd: Word)
    | Pipe(pipe: Word)
    | Read(fd: Word, buf: Word, len: Word)
    | Write(fd: Word, buf: Word, len: Word)
    | Fstat(fd: Word, stat: Word)
    | Exit(code: I32)
    | Sleep(ms: Word)
    | Yield
    | Kill(pid: Word, signal: U32)
    | GetTime
    | Getpid
    | Fork
    | Exec(path: Word, args: Word)
    | Waitpid(target: Isize, exitCodePtr: Word)
    | ThreadCreate(entry: Word, arg: Word)
    | Gettid
    | Waittid(tid: Word)
    | MutexCreate(blocking: bool)
    | MutexLock(id: Word)
    | MutexUnlock(id: Word)
    | SemaphoreCreate(resCount: Word)
    | SemaphoreUp(id: Word)
    | SemaphoreDown(id: Word)
    | CondvarCreate
    | CondvarSignal(id: Word)
    | CondvarWait(condvar: Word, mutex: Word)
    | Framebuffer
    | FramebufferFlush
    | EventGet
    | KeyPressed

  /** The `SYSCALL_*` number of each handler. */
  function Number(c: Call): nat
  {
    match c
    case Getcwd(_, _) => 17
    case Dup(_) => 23
    case Dup2(_, _) => 24
    case Mkdir(_) => 34
    case Unlink(_, _) => 35
    case Chdir(_) => 49
    case Open(_, _) => 56
    case Close(_) => 57
    case Pipe(_) => 59
    case Read(_, _, _) => 63
    case Write(_, _, _) => 64
    case Fstat(_, _) => 80
    case Exit(_) => 93
    case Sleep(_) => 101
    case Yield => 124
    case Kill(_, _) => 129
    case GetTime => 169
    case Getpid => 172
    case Fork => 220
    case Exec(_, _) => 221
    case Waitpid(_, _) => 260
    case ThreadCreate(_, _) => 1000
    case Gettid => 1001
    case Waittid(_) => 1002
    case MutexCreate(_) => 1010
    case MutexLock(_) => 1011
    case MutexUnlock(_) => 1012
    case SemaphoreCreate(_) => 1020
    case SemaphoreUp(_) => 1021
    case SemaphoreDown(_) => 1022
    case CondvarCreate => 1030
    case CondvarSignal(_) => 1031
    case CondvarWait(_, _) => 1032
    case Framebuffer => 2000
    case FramebufferFlush => 2001
    case EventGet => 3000
    case KeyPressed => 3001
  }

  /** The numbers `syscall` knows. */
  const NUMBERS: set<nat> := {17, 23, 24, 34, 35, 49, 56, 57, 59, 63, 64, 80, 93, 101, 124, 129, 169, 172,
    220, 221, 260, 1000, 1001, 1002, 1010, 1011, 1012, 1020, 1021, 1022, 1030, 1031, 1032, 2000, 2001,
    3000, 3001}

  /** `w as u32`: the low 32 bits. */
  function AsU32(w: Word): (r: U32)
    ensures w < U32_RANGE ==> r == w
  {
    w % U32_RANGE
  }

  /** `w as i32`: the low 32 bits read in two's complement. */
  function AsI32(w: Word): (r: I32)
    ensures (r - w) % U32_RANGE == 0
  {
    var low := w % U32_RANGE;
    if low < 0x8000_0000 then low else low - U32_RANGE
  }

  /** `w as isize` for a 64-bit word. */
  function AsIsize(w: Word): (r: Isize)
    ensures r == w || r == w - WORD_RANGE
  {
    if w < 0x8000_0000_0000_0000 then w else w - WORD_RANGE
  }

  /** `syscall(syscall_id, args)`: None stands for the panic on a number
      the table does not know. */
  function Dispatch(id: nat, args: seq<Word>): (r: Option<Call>)
    requires |args| == 3
  {
    if id == 17 then Some(Getcwd(args[0], args[1]))
    else if id == 23 then Some(Dup(args[0]))
    else if id == 24 then Some(Dup2(args[0], args[1]))
    else if id == 34 then Some(Mkdir(args[0]))
    else if id == 35 then Some(Unlink(args[0], AsU32(args[1])))
    else if id == 49 then Some(Chdir(args[0]))
    else if id == 56 then Some(Open(args[0], AsU32(args[1])))
    else if id == 57 then Some(Close(args[0]))
    else if id == 59 then Some(Pipe(args[0]))
    else if id == 63 then Some(Read(args[0], args[1], args[2]))
    else if id == 64 then Some(Write(args[0], args[1], args[2]))
    else if id == 80 then Some(Fstat(args[0], args[1]))
    else if id == 93 then Some(Exit(AsI32(args[0])))
    else if id == 101 then Some(Sleep(args[0]))
    else if id == 124 then Some(Yield)
    else if id == 129 then Some(Kill(args[0], AsU32(args[1])))
    else if id == 169 then Some(GetTime)
    else if id == 172 then Some(Getpid)
    else if id == 220 then Some(Fork)
    else if id == 221 then Some(Exec(args[0], args[1]))
    else if id == 260 then Some(Waitpid(AsIsize(args[0]), args[1]))
    else if id == 1000 then Some(ThreadCreate(args[0], args[1]))
    else if id == 1001 then Some(Gettid)
    else if id == 1002 then Some(Waittid(args[0]))
    else if id == 1010 then Some(MutexCreate(args[0] == 1))
    else if id == 1011 then Some(MutexLock(args[0]))
    else if id == 1012 then Some(MutexUnlock(args[0]))
    else if id == 1020 then Some(SemaphoreCreate(args[0]))
    else if id == 1021 then Some(SemaphoreUp(args[0]))
    else if id == 1022 then Some(SemaphoreDown(args[0]))
    else if id == 1030 then Some(CondvarCreate)
    else if id == 1031 then Some(CondvarSignal(args[0]))
    else if id == 1032 then Some(CondvarWait(args[0], args[1]))
    else if id == 2000 then Some(Framebuffer)
    else if id == 2001 then Some(FramebufferFlush)
    else if id == 3000 then Some(EventGet)
    else if id == 3001 then Some(KeyPressed)
    else None
  }

  /** A signed value as the 64-bit word the user library puts in a
      register. */
  function ToWord(v: Isize): (w: Word)
    ensures w == v || w == v + WORD_RANGE
  {
    if v < 0 then v + WORD_RANGE else v
  }

  /** How a call is placed in the argument registers; unused registers are
      0, and `true` for a blocking mutex is 1. */
  function Args(c: Call): (args: seq<Word>)
    ensures |args| == 3
  {
    match c
    case Getcwd(buf, len) => [buf, len, 0]
    case Dup(fd) => [fd, 0, 0]
    case Dup2(oldFd, newFd) => [oldFd, newFd, 0]
    case Mkdir(path) => [path, 0, 0]
    case Unlink(path, flags) => [path, flags, 0]
    case Chdir(path) => [path, 0, 0]
    case Open(path, flags) => [path, flags, 0]
    case Close(fd) => [fd, 0, 0]
    case Pipe(pipe) => [pipe, 0, 0]
    case Read(fd, buf, len) => [fd, buf, len]
    case Write(fd, buf, len) => [fd, buf, len]
    case Fstat(fd, stat) => [fd, stat, 0]
    case Exit(code) => [ToWord(code), 0, 0]
    case Sleep(ms) => [ms, 0, 0]
    case Kill(pid, signal) => [pid, signal, 0]
    case Exec(path, args) => [path, args, 0]
    case Waitpid(target, ptr) => [ToWord(target), ptr, 0]
    case ThreadCreate(entry, arg) => [entry, arg, 0]
    case Waittid(tid) => [tid, 0, 0]
    case MutexCreate(blocking) => [if blocking then 1 else 0, 0, 0]
    case MutexLock(id) => [id, 0, 0]
    case MutexUnlock(id) => [id, 0, 0]
    case SemaphoreCreate(n) => [n, 0, 0]
    case SemaphoreUp(id) => [id, 0, 0]
    case SemaphoreDown(id) => [id, 0, 0]
    case CondvarSignal(id) => [id, 0, 0]
    case CondvarWait(cv, mx) => [cv, mx, 0]
    case _ => [0, 0, 0]
  }

  /** Every call placed in the registers under its own number reaches its
      handler with the same arguments: the numbers are pairwise distinct and
      the casts undo the user-side encoding. */
  lemma DispatchRoundTrip(c: Call)
    ensures Dispatch(Number(c), Args(c)) == Some(c)
  {
    if Number(c) < 100 {
      RoundTripBelow(c, 100);
    } else if Number(c) < 1000 {
      RoundTripBelow(c, 1000);
    } else if Number(c) < 1020 {
      RoundTripBelow(c, 1020);
    } else {
      RoundTripBelow(c, 4000);
    }
  }

  /** The round trip for the calls numbered below `bound`, `bound` one of
      the split points of the table. */
  lemma RoundTripBelow(c: Call, bound: nat)
    requires Number(c) < bound && bound in {100, 1000, 1020, 4000}
    ensures Dispatch(Number(c), Args(c)) == Some(c)
  {
    if c.Exit? {
      assert AsI32(ToWord(c.code)) == c.code;
    }
  }

  /** `syscall` panics exactly on the numbers the table lacks, and what it
      calls is the handler with that number, receiving arguments of the
      handler's types. */
  lemma DispatchKnown(id: nat, args: seq<Word>)
    requires |args| == 3
    ensures Dispatch(id, args).None? <==> id !in NUMBERS
    ensures Dispatch(id, args).Some? ==> Number(Dispatch(id, args).value) == id
  {
    if id < 100 {
      KnownFileCalls(id, args);
    } else if id < 1000 {
      KnownProcessCalls(id, args);
    } else if id < 1020 {
      KnownThreadCalls(id, args);
    } else if id < 2000 {
      KnownSyncCalls(id, args);
    } else {
      KnownDeviceCalls(id, args);
    }
  }

  /** `DispatchKnown` below 100: the file-system calls. */
  lemma KnownFileCalls(id: nat, args: seq<Word>)
    requires |args| == 3 && id < 100
    ensures Dispatch(id, args).None? <==> id !in NUMBERS
    ensures Dispatch(id, args).Some? ==> Number(Dispatch(id, args).value) == id
  {
  }

  /** `DispatchKnown` from 100 to 999: the process calls. */
  lemma KnownProcessCalls(id: nat, args: seq<Word>)
    requires |args| == 3 && 100 <= id < 1000
    ensures Dispatch(id, args).None? <==> id !in NUMBERS
    ensures Dispatch(id, args).Some? ==> Number(Dispatch(id, args).value) == id
  {
  }

  /** `DispatchKnown` from 1000 to 1019: threads and mutexes. */
  lemma KnownThreadCalls(id: nat, args: seq<Word>)
    requires |args| == 3 && 1000 <= id < 1020
    ensures Dispatch(id, args).None? <==> id !in NUMBERS
    ensures Dispatch(id, args).Some? ==> Number(Dispatch(id, args).value) == id
  {
  }

  /** `DispatchKnown` from 1020 to 1999: semaphores and condition
      variables. */
  lemma KnownSyncCalls(id: nat, args: seq<Word>)
    requires |args| == 3 && 1020 <= id < 2000
    ensures Dispatch(id, args).None? <==> id !in NUMBERS
    ensures Dispatch(id, args).Some? ==> Number(Dispatch(id, args).value) == id
  {
  }

  /** `DispatchKnown` from 2000 on: the graphics and input calls. */
  lemma KnownDeviceCalls(id: nat, args: seq<Word>)
    requires |args| == 3 && 2000 <= id
    ensures Dispatch(id, args).None? <==> id !in NUMBERS
    ensures Dispatch(id, args).Some? ==> Number(Dispatch(id, args).value) == id
  {
  }

  /** The register encoding loses nothing: two calls with the same number
      and the same registers are the same call. */
  lemma EncodingInjective(c1: Call, c2: Call)
    requires Number(c1) == Number(c2) && Args(c1) == Args(c2)
    ensures c1 == c2
  {
    DispatchRoundTrip(c1);
    DispatchRoundTrip(c2);
  }
}
