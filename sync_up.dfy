/** Nested interrupt masking (kernel/src/sync/up.rs). Every exclusive
    access to a `UPIntrFreeCell` masks supervisor interrupts and every drop
    of the guard undoes one level; only the outermost exit restores the
    interrupt-enable bit that was in force before the outermost enter. */
module IntrMasking {
  /** `IntrMaskingInfo` together with the bit it manages, sstatus.SIE. */
  class IntrMaskingInfo {
    var nestedLevel: nat
    var sieBeforeMasking: bool
    /** sstatus.SIE. */
    var sie: bool

    /** Inside a masked section interrupts stay off. */
    ghost predicate Valid()
      reads this
    {
      nestedLevel > 0 ==> !sie
    }

    /** `IntrMaskingInfo::new`, with the interrupt bit as found. */
    constructor (sie: bool)
      ensures Valid() && nestedLevel == 0 && !sieBeforeMasking && this.sie == sie
    {
      nestedLevel := 0;
      sieBeforeMasking := false;
      this.sie := sie;
    }

    /** `enter`: read SIE, clear it, remember the value read when this is
        the outermost level, and go one level deeper. */
    method Enter()
      requires Valid()
      modifies this
      ensures Valid()
      ensures nestedLevel == old(nestedLevel) + 1 && !sie
      ensures sieBeforeMasking == if old(nestedLevel) == 0 then old(sie) else old(sieBeforeMasking)
    {
      var s := sie;
      sie := false;
      if nestedLevel == 0 {
        sieBeforeMasking := s;
      }
      nestedLevel := nestedLevel + 1;
    }

    /** `exit`: one level up; leaving the outermost level sets SIE again if
        it was set before. False stands for an exit without a matching
        enter, where the usize subtraction overflows. */
    method Exit() returns (ok: bool)
      requires Valid()
      modifies this
      ensures Valid()
      ensures ok <==> old(nestedLevel) > 0
      ensures !ok ==> nestedLevel == old(nestedLevel) && sie == old(sie)
      ensures ok ==> nestedLevel == old(nestedLevel) - 1 && sieBeforeMasking == old(sieBeforeMasking)
      ensures ok && nestedLevel == 0 ==> sie == (old(sie) || sieBeforeMasking)
      ensures ok && nestedLevel > 0 ==> !sie
    {
      if nestedLevel == 0 {
        return false;
      }
      nestedLevel := nestedLevel - 1;
      if nestedLevel == 0 && sieBeforeMasking {
        sie := true;
      }
      ok := true;
    }
  }

  /** Balanced nesting: entering k times and then exiting k times from the
      unmasked state leaves SIE as it was; in between it stays cleared (Valid). */
  method Session(info: IntrMaskingInfo, k: nat)
    requires info.Valid() && info.nestedLevel == 0
    modifies info
    ensures info.Valid() && info.nestedLevel == 0 && info.sie == old(info.sie)
  {
    var i := 0;
    while i < k
      invariant 0 <= i <= k && info.Valid()
      invariant info.nestedLevel == i
      invariant i > 0 ==> info.sieBeforeMasking == old(info.sie) && !info.sie
      invariant i == 0 ==> info.sie == old(info.sie)
    {
      info.Enter();
      i := i + 1;
    }
    while i > 0
      invariant 0 <= i <= k && info.Valid()
      invariant info.nestedLevel == i
      invariant i > 0 ==> info.sieBeforeMasking == old(info.sie) && !info.sie
      invariant i == 0 ==> info.sie == old(info.sie)
    {
      var ok := info.Exit();
      i := i - 1;
    }
  }

  /** `UPIntrFreeCell`: a `RefCell` whose exclusive access masks
      interrupts for as long as the guard lives. */
  class IntrFreeCell<T> {
    var value: T
    var borrowed: bool
    const info: IntrMaskingInfo

    constructor (value: T, info: IntrMaskingInfo)
      ensures this.value == value && !borrowed && this.info == info
    {
      this.value := value;
      borrowed := false;
      this.info := info;
    }

    /** `exclusive_access`: enter a masked level, then borrow the value;
        false stands for the panic of borrowing it twice. */
    method ExclusiveAccess() returns (ok: bool)
      requires info.Valid()
      modifies this, info
      ensures info.Valid() && info.nestedLevel == old(info.nestedLevel) + 1 && !info.sie
      ensures ok <==> !old(borrowed)
      ensures borrowed
    {
      info.Enter();
      ok := !borrowed;
      borrowed := true;
    }

    /** Dropping the guard: give the value back and leave one level. */
    method DropGuard() returns (ok: bool)
      requires info.Valid()
      modifies this, info
      ensures info.Valid() && !borrowed
      ensures ok <==> old(info.nestedLevel) > 0
      ensures ok ==> info.nestedLevel == old(info.nestedLevel) - 1
    {
      borrowed := false;
      ok := info.Exit();
    }
  }
}
