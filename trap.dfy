/** Trap classification (kernel/src/trap/mod.rs and os/src/trap/mod.rs).
    The cause register `scause` is decoded as in section 4.1.8 of the
    RISC-V Privileged Architecture (v1.12): the top bit tells an interrupt
    from an exception, the remaining bits are the code. Each kernel maps a
    cause to what it does; the two kernels differ on faults: the current
    one raises a signal and lets the post-trap signal check end the thread,
    the older one exits at once with a fixed code. */
module Trap {
  import opened Wrappers
  import opened Process
  import opened Signals

  const XLEN_RANGE: nat := 0x1_0000_0000_0000_0000
  const INTERRUPT_BIT: nat := 0x8000_0000_0000_0000

  /** Exception codes (Privileged Architecture, table 4.2). */
  const INSTRUCTION_FAULT: nat := 1
  const ILLEGAL_INSTRUCTION: nat := 2
  const LOAD_FAULT: nat := 5
  const STORE_FAULT: nat := 7
  const USER_ENV_CALL: nat := 8
  const INSTRUCTION_PAGE_FAULT: nat := 12
  const LOAD_PAGE_FAULT: nat := 13
  const STORE_PAGE_FAULT: nat := 15

  /** Interrupt codes. */
  const SUPERVISOR_TIMER: nat := 5
  const SUPERVISOR_EXTERNAL: nat := 9

  datatype Cause = Exception(code: nat) | Interrupt(code: nat)

  /** `scause.cause()`. */
  function DecodeScause(scause: nat): (c: Cause)
    requires scause < XLEN_RANGE
    ensures c.Interrupt? <==> scause >= INTERRUPT_BIT
    ensures c.code < INTERRUPT_BIT
  {
    if scause >= INTERRUPT_BIT then Interrupt(scause - INTERRUPT_BIT) else Exception(scause)
  }

  /** What the hardware writes into scause for a cause. */
  function EncodeScause(c: Cause): (scause: nat)
    requires c.code < INTERRUPT_BIT
    ensures scause < XLEN_RANGE
  {
    match c
    case Exception(code) => code
    case Interrupt(code) => INTERRUPT_BIT + code
  }

  /** Decoding inverts encoding, and encoding inverts decoding. */
  lemma ScauseRoundTrip(c: Cause, scause: nat)
    requires c.code < INTERRUPT_BIT && scause < XLEN_RANGE
    ensures DecodeScause(EncodeScause(c)) == c
    ensures EncodeScause(DecodeScause(scause)) == scause
  {
  }

  /** The access faults and page faults both kernels treat alike. */
  predicate IsMemoryFault(c: Cause)
  {
    c.Exception? && c.code in {STORE_FAULT, STORE_PAGE_FAULT, INSTRUCTION_FAULT, INSTRUCTION_PAGE_FAULT, LOAD_FAULT, LOAD_PAGE_FAULT}
  }

  /** What a trap from user mode makes the kernel do. */
  datatype TrapAction =
    | Syscall
    | RaiseSignal(flag: bv32)
    | ExitWith(code: int)
    | Preempt(checkTimers: bool)
    | DeviceInterrupt
    | Unsupported

  /** `trap_handler` of the current kernel. */
  function KernelUserTrap(c: Cause): (a: TrapAction)
    ensures a == Syscall <==> c == Exception(USER_ENV_CALL)
    ensures IsMemoryFault(c) <==> a == RaiseSignal(KERNEL_SIGSEGV)
    ensures c == Exception(ILLEGAL_INSTRUCTION) <==> a == RaiseSignal(KERNEL_SIGILL)
    ensures c == Interrupt(SUPERVISOR_TIMER) <==> a == Preempt(true)
    ensures c == Interrupt(SUPERVISOR_EXTERNAL) <==> a == DeviceInterrupt
    ensures !a.ExitWith?
  {
    if c == Exception(USER_ENV_CALL) then Syscall
    else if IsMemoryFault(c) then RaiseSignal(KERNEL_SIGSEGV)
    else if c == Exception(ILLEGAL_INSTRUCTION) then RaiseSignal(KERNEL_SIGILL)
    else if c == Interrupt(SUPERVISOR_TIMER) then Preempt(true)
    else if c == Interrupt(SUPERVISOR_EXTERNAL) then DeviceInterrupt
    else Unsupported
  }

  /** `user_handler` of the older kernel: faults exit with -2, an illegal
      instruction with -3, the timer only preempts, and device interrupts
      are not supported. */
  function OsUserTrap(c: Cause): (a: TrapAction)
    ensures a == Syscall <==> c == Exception(USER_ENV_CALL)
    ensures IsMemoryFault(c) <==> a == ExitWith(-2)
    ensures c == Exception(ILLEGAL_INSTRUCTION) <==> a == ExitWith(-3)
    ensures c == Interrupt(SUPERVISOR_TIMER) <==> a == Preempt(false)
    ensures !a.RaiseSignal? && !a.DeviceInterrupt?
  {
    if c == Exception(USER_ENV_CALL) then Syscall
    else if IsMemoryFault(c) then ExitWith(-2)
    else if c == Exception(ILLEGAL_INSTRUCTION) then ExitWith(-3)
    else if c == Interrupt(SUPERVISOR_TIMER) then Preempt(false)
    else Unsupported
  }

  /** The two kernels route system calls and the timer the same way; every
      cause the older kernel supports the current one supports too. */
  lemma KernelsAgreeOnSyscallsAndTimer(c: Cause)
    ensures KernelUserTrap(c) == Syscall <==> OsUserTrap(c) == Syscall
    ensures KernelUserTrap(c).Preempt? <==> OsUserTrap(c).Preempt?
    ensures OsUserTrap(c) != Unsupported ==> KernelUserTrap(c) != Unsupported
  {
  }

  /** `trap_from_kernel`: a timer interrupt only re-arms the timer and
      wakes due sleepers (no rescheduling); everything else but a device
      interrupt panics. The older kernel's `kernel_handler` always panics. */
  function KernelTrapFromKernel(c: Cause): (a: TrapAction)
    ensures a == Preempt(false) <==> c == Interrupt(SUPERVISOR_TIMER)
    ensures a == DeviceInterrupt <==> c == Interrupt(SUPERVISOR_EXTERNAL)
    ensures a in {Preempt(false), DeviceInterrupt, Unsupported}
  {
    if c == Interrupt(SUPERVISOR_EXTERNAL) then DeviceInterrupt
    else if c == Interrupt(SUPERVISOR_TIMER) then Preempt(false)
    else Unsupported
  }

  /** `result as usize`: a negative isize wraps to 2^64 + result. */
  function AsUsize(result: int): (u: nat)
    requires -(INTERRUPT_BIT as int) <= result < INTERRUPT_BIT
    ensures u < XLEN_RANGE
    ensures result >= 0 ==> u == result
    ensures result < 0 ==> u == XLEN_RANGE + result
  {
    if result < 0 then XLEN_RANGE + result else result
  }

  /** The user context after a system call: the ecall is stepped over
      (sepc + 4) and the result goes to a0 (x10). A call that replaced the
      context (`exec`) resumes from the new one instead, with a0 set
      likewise. */
  function AfterSyscall(cx: TrapContext, replaced: Option<TrapContext>, result: int): (r: TrapContext)
    requires |cx.x| == 32 && (replaced.Some? ==> |replaced.value.x| == 32)
    requires -(INTERRUPT_BIT as int) <= result < INTERRUPT_BIT
    ensures |r.x| == 32 && r.x[10] == AsUsize(result)
    ensures replaced.None? ==> r.sepc == cx.sepc + 4 && forall i :: 0 <= i < 32 && i != 10 ==> r.x[i] == cx.x[i]
    ensures replaced.Some? ==> r.sepc == replaced.value.sepc && forall i :: 0 <= i < 32 && i != 10 ==> r.x[i] == replaced.value.x[i]
  {
    var base := if replaced.Some? then replaced.value else cx.(sepc := cx.sepc + 4);
    base.(x := base.x[10 := AsUsize(result)])
  }

  /** The signal check at the end of the current kernel's `trap_handler`:
      the exit code of the pending error signal, if any. */
  function PostTrapExit(signals: bv32): (code: Option<int>)
    ensures code.Some? <==> KernelCheckError(signals).Some?
    ensures code.Some? ==> code.value == KernelCheckError(signals).value.0
  {
    match KernelCheckError(signals)
    case Some((errno, _)) => Some(errno)
    case None => None
  }

  /** The exit code of a user trap in the current kernel: a fault raises its
      signal, and the post-trap check then ends the thread with the code of
      the lowest pending error signal. */
  function KernelTrapExit(c: Cause, signals: bv32): Option<int>
  {
    match KernelUserTrap(c)
    case RaiseSignal(flag) => PostTrapExit(signals | flag)
    case _ => PostTrapExit(signals)
  }

  /** A memory fault with no error signal pending ends the thread with
      SIGSEGV's -11 in the current kernel, and with -2 in the older one; an
      illegal instruction ends it with -4 and -3. */
  lemma FaultExitCodes(c: Cause, signals: bv32)
    requires KernelCheckError(signals) == None
    ensures IsMemoryFault(c) ==> KernelTrapExit(c, signals) == Some(-11) && OsUserTrap(c) == ExitWith(-2)
    ensures c == Exception(ILLEGAL_INSTRUCTION) ==> KernelTrapExit(c, signals) == Some(-4) && OsUserTrap(c) == ExitWith(-3)
  {
    if IsMemoryFault(c) {
      KernelOrSegv(signals);
    }
    if c == Exception(ILLEGAL_INSTRUCTION) {
      KernelOrIll(signals);
    }
  }

  lemma KernelOrSegv(s: bv32)
    requires KernelCheckError(s) == None
    ensures KernelCheckError(s | KERNEL_SIGSEGV) == Some((-11, "Segmentation Fault, SIGSEGV=11"))
  {
  }

  lemma KernelOrIll(s: bv32)
    requires KernelCheckError(s) == None
    ensures KernelCheckError(s | KERNEL_SIGILL) == Some((-4, "Illegal Instruction, SIGILL=4"))
  {
  }
}
