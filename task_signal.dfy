/** Signals (os/src/task/signal.rs, os/src/task/mod.rs and
    kernel/src/task/signal.rs). A task's signal state is a set of pending
    signals, a mask of blocked ones, the signal whose user handler is
    running, a table of 32 actions, the `killed` and `frozen` flags, and the
    trap context with its backup while a user handler runs. Delivery scans
    the signals from 0 to 31; the kernel acts on SIGDEF, SIGILL, SIGSTOP and
    SIGCONT itself and hands every other signal to the user's handler, after
    which the scan stops. */
module Signals {
  import opened Wrappers
  import opened Process

  const MAX_SIG: nat := 31

  const SIGDEF: nat := 0
  const SIGINT: nat := 2
  const SIGQUIT: nat := 3
  const SIGILL: nat := 4
  const SIGTRAP: nat := 5
  const SIGABRT: nat := 6
  const SIGFPE: nat := 8
  const SIGKILL: nat := 9
  const SIGSEGV: nat := 11
  const SIGCONT: nat := 18
  const SIGSTOP: nat := 19

  /** The older kernel's `SignalFlags` as the set of signal numbers whose
      bit is set; `|=` is union and `^=` toggles membership. */
  type SignalSet = set<nat>

  /** `^=` with a single signal. */
  function Toggle(s: SignalSet, n: nat): (r: SignalSet)
    ensures n in s ==> r == s - {n}
    ensures n !in s ==> r == s + {n}
  {
    if n in s then s - {n} else s + {n}
  }

  /** The current kernel's `SignalFlags` keep their bits: the five flags it
      defines. */
  const KERNEL_SIGINT: bv32 := 1 << 2
  const KERNEL_SIGILL: bv32 := 1 << 4
  const KERNEL_SIGABRT: bv32 := 1 << 6
  const KERNEL_SIGFPE: bv32 := 1 << 8
  const KERNEL_SIGSEGV: bv32 := 1 << 11

  /** Every bit the current kernel's `SignalFlags` defines. */
  const KERNEL_SIGNAL_BITS: bv32 := KERNEL_SIGINT | KERNEL_SIGILL | KERNEL_SIGABRT | KERNEL_SIGFPE | KERNEL_SIGSEGV

  /** `add_signal_to_current` of the current kernel ORs the flags in: every
      flag already pending stays, the added ones become pending, and adding
      the same flags again changes nothing. */
  lemma KernelAddSignal(s: bv32, f: bv32)
    ensures (s | f) & s == s && (s | f) & f == f
    ensures (s | f) | f == s | f
  {
  }

  /** `SignalFlags::check_error` of the older kernel: the first of SIGINT,
      SIGILL, SIGABRT, SIGFPE, SIGKILL and SIGSEGV that is pending, as a
      negative exit code and a message. */
  function CheckError(s: SignalSet): Option<(int, string)>
  {
    if SIGINT in s then Some((-2, "Killed, SIGINT=2"))
    else if SIGILL in s then Some((-4, "Illegal Instruction, SIGILL=4"))
    else if SIGABRT in s then Some((-6, "Aborted, SIGABRT=6"))
    else if SIGFPE in s then Some((-8, "Erroneous Arithmetic Operation, SIGFPE=8"))
    else if SIGKILL in s then Some((-9, "Killed, SIGKILL=9"))
    else if SIGSEGV in s then Some((-11, "Segmentation Fault, SIGSEGV=11"))
    else None
  }

  /** The current kernel's `check_error` on its flag bits: the same order
      without SIGKILL, which its `SignalFlags` does not define. */
  function KernelCheckError(s: bv32): Option<(int, string)>
  {
    if s & KERNEL_SIGINT != 0 then Some((-2, "Killed, SIGINT=2"))
    else if s & KERNEL_SIGILL != 0 then Some((-4, "Illegal Instruction, SIGILL=4"))
    else if s & KERNEL_SIGABRT != 0 then Some((-6, "Aborted, SIGABRT=6"))
    else if s & KERNEL_SIGFPE != 0 then Some((-8, "Erroneous Arithmetic Operation, SIGFPE=8"))
    else if s & KERNEL_SIGSEGV != 0 then Some((-11, "Segmentation Fault, SIGSEGV=11"))
    else None
  }

  /** The error signals check_error looks at, in increasing order. */
  const ERROR_SIGNALS: set<nat> := {SIGINT, SIGILL, SIGABRT, SIGFPE, SIGKILL, SIGSEGV}

  /** check_error reports the lowest-numbered pending error signal n as exit
      code -n, and None exactly when no error signal is pending. */
  lemma CheckErrorLowestPending(s: SignalSet)
    ensures CheckError(s).None? <==> forall m :: m in ERROR_SIGNALS ==> m !in s
    ensures CheckError(s).Some? ==>
      var n := -CheckError(s).value.0;
      n >= 0 && n in ERROR_SIGNALS && n in s && forall m :: m in ERROR_SIGNALS && m in s ==> n <= m
  {
  }

  /** The current kernel's signal set as signal numbers. */
  function KernelSignalSet(s: bv32): (r: SignalSet)
    ensures r <= ERROR_SIGNALS - {SIGKILL}
  {
    (if s & KERNEL_SIGINT != 0 then {SIGINT} else {}) +
    (if s & KERNEL_SIGILL != 0 then {SIGILL} else {}) +
    (if s & KERNEL_SIGABRT != 0 then {SIGABRT} else {}) +
    (if s & KERNEL_SIGFPE != 0 then {SIGFPE} else {}) +
    (if s & KERNEL_SIGSEGV != 0 then {SIGSEGV} else {})
  }

  /** On the signals both kernels define, their check_error agree; so the
      current kernel also reports the lowest pending error signal, and never
      SIGKILL. */
  lemma CheckErrorsAgree(s: bv32)
    ensures KernelCheckError(s) == CheckError(KernelSignalSet(s))
    ensures KernelCheckError(s) != Some((-9, "Killed, SIGKILL=9"))
  {
  }

  /** The exit codes the user test table expects: -4 for an illegal
      instruction, -6 for an abort, -11 for a segmentation fault. */
  lemma SingleErrorCodes()
    ensures CheckError({SIGILL}).value.0 == -4 && KernelCheckError(KERNEL_SIGILL).value.0 == -4
    ensures CheckError({SIGABRT}).value.0 == -6 && KernelCheckError(KERNEL_SIGABRT).value.0 == -6
    ensures CheckError({SIGSEGV}).value.0 == -11 && KernelCheckError(KERNEL_SIGSEGV).value.0 == -11
  {
  }

  /** `SignalAction`: a handler address (0 for the default action) and the
      signals blocked while it runs. */
  datatype SignalAction = SignalAction(handler: nat, mask: SignalSet)

  /** `SignalAction::default()`: no handler, and the mask of bits 40, that
      is SIGQUIT (bit 3) and SIGTRAP (bit 5). */
  function DefaultAction(): (a: SignalAction)
    ensures a.handler == 0 && a.mask == {SIGQUIT, SIGTRAP}
  {
    SignalAction(0, {SIGQUIT, SIGTRAP})
  }

  /** `SignalActions::default()`: MAX_SIG + 1 default actions. */
  function DefaultActions(): (t: seq<SignalAction>)
    ensures |t| == MAX_SIG + 1
    ensures forall i :: 0 <= i < |t| ==> t[i] == DefaultAction()
  {
    seq(MAX_SIG + 1, _ => DefaultAction())
  }

  /** The signal part of a task's state. */
  datatype SigState = SigState(
    signals: SignalSet,
    mask: SignalSet,
    handlingSig: Option<nat>,
    actions: seq<SignalAction>,
    killed: bool,
    frozen: bool,
    trapCx: TrapContext,
    backup: Option<TrapContext>)

  /** The action table has its 32 entries, the signal being handled is one
      of them, and the trap context has its 32 registers. */
  predicate SigValid(st: SigState)
  {
    |st.actions| == MAX_SIG + 1 &&
    (st.handlingSig.Some? ==> st.handlingSig.value <= MAX_SIG) &&
    |st.trapCx.x| == 32
  }

  /** A pending signal is acted on only if neither the task's mask nor the
      mask of the action being handled blocks it. */
  predicate Deliverable(st: SigState, n: nat)
    requires SigValid(st) && n <= MAX_SIG
  {
    n in st.signals && n !in st.mask &&
    !(st.handlingSig.Some? && n in st.actions[st.handlingSig.value].mask)
  }

  predicate IsKernelSignal(n: nat)
  {
    n == SIGILL || n == SIGSTOP || n == SIGCONT || n == SIGDEF
  }

  /** `call_kernel_signal_handler`: SIGSTOP freezes the task and clears
      SIGSTOP; SIGCONT, when pending, is cleared and unfreezes it; any other
      kernel signal kills it. */
  function KernelHandler(st: SigState, n: nat): (r: SigState)
    requires n <= MAX_SIG
    ensures n == SIGSTOP && SIGSTOP in st.signals ==> r == st.(frozen := true, signals := st.signals - {SIGSTOP})
    ensures n == SIGCONT && SIGCONT in st.signals ==> r == st.(frozen := false, signals := st.signals - {SIGCONT})
    ensures n == SIGCONT && SIGCONT !in st.signals ==> r == st
    ensures n != SIGSTOP && n != SIGCONT ==> r == st.(killed := true)
  {
    if n == SIGSTOP then st.(frozen := true, signals := Toggle(st.signals, SIGSTOP))
    else if n == SIGCONT then
      if SIGCONT in st.signals then st.(signals := Toggle(st.signals, SIGCONT), frozen := false) else st
    else st.(killed := true)
  }

  /** `call_user_signal_handler`: with a handler installed, record the signal
      as being handled, clear it, back up the trap context, and resume at
      the handler with the signal number in a0 (x10); with handler 0 nothing
      changes. */
  function UserHandler(st: SigState, n: nat): (r: SigState)
    requires SigValid(st) && n <= MAX_SIG
    ensures SigValid(r)
    ensures st.actions[n].handler == 0 ==> r == st
    ensures st.actions[n].handler != 0 ==>
      r.handlingSig == Some(n) && r.signals == Toggle(st.signals, n) && r.backup == Some(st.trapCx) &&
      r.trapCx == st.trapCx.(sepc := st.actions[n].handler, x := st.trapCx.x[10 := n]) &&
      r.mask == st.mask && r.actions == st.actions && r.killed == st.killed && r.frozen == st.frozen
  {
    var handler := st.actions[n].handler;
    if handler != 0 then
      var cx := st.trapCx.(sepc := handler, x := st.trapCx.x[10 := n]);
      st.(handlingSig := Some(n), signals := Toggle(st.signals, n), backup := Some(st.trapCx), trapCx := cx)
    else st
  }

  /** The kernel handlers change neither the action table, the handled
      signal nor the trap context. */
  lemma KernelHandlerKeepsValid(st: SigState, n: nat)
    requires SigValid(st) && n <= MAX_SIG
    ensures SigValid(KernelHandler(st, n))
    ensures KernelHandler(st, n).actions == st.actions && KernelHandler(st, n).handlingSig == st.handlingSig
    ensures KernelHandler(st, n).mask == st.mask
  {
  }

  /** `check_pending_signals` from signal n on: each deliverable signal in
      turn, kernel signals handled in place, and the scan ending at the first
      deliverable user signal. */
  function CheckFrom(st: SigState, n: nat): (r: SigState)
    requires SigValid(st)
    ensures SigValid(r)
    decreases MAX_SIG + 1 - n
  {
    if n > MAX_SIG then st
    else if !Deliverable(st, n) then CheckFrom(st, n + 1)
    else if IsKernelSignal(n) then
      KernelHandlerKeepsValid(st, n);
      CheckFrom(KernelHandler(st, n), n + 1)
    else UserHandler(st, n)
  }

  /** With nothing deliverable, checking changes nothing. */
  lemma {:induction false} NothingDeliverable(st: SigState, n: nat)
    requires SigValid(st)
    requires forall m: nat :: n <= m <= MAX_SIG ==> !Deliverable(st, m)
    ensures CheckFrom(st, n) == st
    decreases MAX_SIG + 1 - n
  {
    if n <= MAX_SIG {
      NothingDeliverable(st, n + 1);
    }
  }

  /** If the first deliverable signal from n on is a user signal, checking
      runs its handler and nothing else: the scan stops there. */
  lemma {:induction false} StopsAtFirstUserSignal(st: SigState, n: nat, u: nat)
    requires SigValid(st) && n <= u <= MAX_SIG
    requires Deliverable(st, u) && !IsKernelSignal(u)
    requires forall m: nat :: n <= m < u ==> !Deliverable(st, m)
    ensures CheckFrom(st, n) == UserHandler(st, u)
    decreases u - n
  {
    if n < u {
      StopsAtFirstUserSignal(st, n + 1, u);
    }
  }

  /** A blocked signal is never acted on: if signal n is masked and nothing
      else is deliverable, checking leaves it pending. */
  lemma {:induction false} MaskedStaysPending(st: SigState, n: nat)
    requires SigValid(st) && n <= MAX_SIG && n in st.signals && n in st.mask
    requires forall m: nat :: m <= MAX_SIG && m != n ==> !Deliverable(st, m)
    ensures n in CheckFrom(st, 0).signals
  {
    NothingDeliverable(st, 0);
  }

  /** A lone pending SIGSTOP freezes the task and is consumed; a SIGCONT
      arriving afterwards unfreezes it. */
  lemma {:induction false} StopThenCont(st: SigState)
    requires SigValid(st) && st.signals == {SIGSTOP} && st.mask == {} && st.handlingSig == None
    ensures CheckFrom(st, 0).frozen && CheckFrom(st, 0).signals == {}
    ensures var st2 := CheckFrom(st, 0).(signals := {SIGCONT});
      !CheckFrom(st2, 0).frozen && CheckFrom(st2, 0).signals == {}
  {
    SkipUndeliverable(st, 0, SIGSTOP);
    var st1 := KernelHandler(st, SIGSTOP);
    NothingDeliverable(st1, SIGSTOP + 1);
    var st2 := st1.(signals := {SIGCONT});
    SkipUndeliverable(st2, 0, SIGCONT);
    var st3 := KernelHandler(st2, SIGCONT);
    NothingDeliverable(st3, SIGCONT + 1);
  }

  /** Signals that are not deliverable are passed over. */
  lemma {:induction false} SkipUndeliverable(st: SigState, n: nat, u: nat)
    requires SigValid(st) && n <= u <= MAX_SIG + 1
    requires forall m: nat :: n <= m < u ==> !Deliverable(st, m)
    ensures CheckFrom(st, n) == CheckFrom(st, u)
    decreases u - n
  {
    if n < u {
      SkipUndeliverable(st, n + 1, u);
    }
  }

  /** `handle_signals`: check, and while the task is frozen and not killed,
      yield and check again. What other tasks send while this one is
      suspended is given as `arrivals`, one signal set per yield. The result
      is the final state and whether the loop ended; it only ends when the
      task is not frozen or is killed. */
  function HandleFrom(st: SigState, arrivals: seq<SignalSet>): (r: (SigState, bool))
    requires SigValid(st)
    ensures SigValid(r.0)
    ensures r.1 ==> !r.0.frozen || r.0.killed
    ensures !r.1 ==> r.0.frozen && !r.0.killed
    decreases |arrivals|
  {
    var checked := CheckFrom(st, 0);
    if !checked.frozen || checked.killed then (checked, true)
    else if |arrivals| == 0 then (checked, false)
    else HandleFrom(checked.(signals := checked.signals + arrivals[0]), arrivals[1..])
  }
}
