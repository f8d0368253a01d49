/** Sv39 page-table entries (os/src/mm/page_table.rs, kernel/src/mm/page_table.rs).
    An entry is a 64-bit word holding the flags in bits 0..7 and the physical
    page number in bits 10..53, as in section 4.4.1 of the RISC-V Privileged
    Architecture (v1.12). Flags are an 8-bit set (`PTEFlags: u8`). */
module Pte {
  import opened Address
  import opened Arith

  type Flags = bv8

  const V: Flags := 1
  const R: Flags := 2
  const W: Flags := 4
  const X: Flags := 8
  const U: Flags := 16
  const G: Flags := 32
  const A: Flags := 64
  const D: Flags := 128

  const PPN_SHIFT: nat := 1024        // 1 << 10
  const PPN_FIELD_LIMIT: nat := 0x40_0000_0000_0000   // 2^54: ppn values that survive `<< 10`

  /** `PageTableEntry::new`: `ppn << 10 | flags` on 64 bits. The shifted ppn
      has its low ten bits clear, so the OR with an 8-bit flag set is a sum. */
  function NewEntry(ppn: nat, flags: Flags): (bits: nat)
  {
    (ppn * PPN_SHIFT) % USIZE + flags as nat
  }

  /** `PageTableEntry::empty`. */
  const EMPTY: nat := 0

  /** `ppn()`: `bits >> 10 & ((1 << 44) - 1)`. */
  function EntryPpn(bits: nat): (ppn: nat)
    ensures ppn < PPN_LIMIT
  {
    (bits / PPN_SHIFT) % PPN_LIMIT
  }

  /** `flags()`: the low byte. Every byte is a defined flag set, so the
      `from_bits(..).unwrap()` of the source never panics. */
  function EntryFlags(bits: nat): Flags
  {
    (bits % 256) as Flags
  }

  predicate IsValid(bits: nat) { EntryFlags(bits) & V != 0 }
  predicate IsReadable(bits: nat) { EntryFlags(bits) & R != 0 }
  predicate IsWritable(bits: nat) { EntryFlags(bits) & W != 0 }
  predicate IsExecutable(bits: nat) { EntryFlags(bits) & X != 0 }

  /** The 64-bit shift `ppn << 10` keeps the low 54 bits of the ppn. */
  lemma {:induction false} ShiftedPpn(ppn: nat)
    ensures (ppn * PPN_SHIFT) % USIZE == (ppn % PPN_FIELD_LIMIT) * PPN_SHIFT
  {
    var q, r := ppn / PPN_FIELD_LIMIT, ppn % PPN_FIELD_LIMIT;
    assert ppn == q * PPN_FIELD_LIMIT + r;
    assert ppn * PPN_SHIFT == q * PPN_FIELD_LIMIT * PPN_SHIFT + r * PPN_SHIFT;
    assert PPN_FIELD_LIMIT * PPN_SHIFT == USIZE;
    assert ppn * PPN_SHIFT == q * USIZE + r * PPN_SHIFT;
    DivModUnique(ppn * PPN_SHIFT, USIZE, q, r * PPN_SHIFT);
  }

  /** The low 44 bits of the low 54 bits are the low 44 bits. */
  lemma {:induction false} LowBitsOfLowBits(ppn: nat)
    ensures (ppn % PPN_FIELD_LIMIT) % PPN_LIMIT == ppn % PPN_LIMIT
  {
    assert PPN_FIELD_LIMIT == PPN_LIMIT * 0x400;
    ModOfModMultiple(ppn, PPN_LIMIT, 0x400);
  }

  /** Packing and unpacking are inverse: `new(ppn, f).ppn()` is the ppn (its
      low 44 bits) and `new(ppn, f).flags()` is f; the word fits in 64 bits. */
  lemma {:induction false} EntryRoundTrip(ppn: nat, flags: Flags)
    ensures NewEntry(ppn, flags) < USIZE
    ensures EntryPpn(NewEntry(ppn, flags)) == ppn % PPN_LIMIT
    ensures EntryFlags(NewEntry(ppn, flags)) == flags
    ensures ppn < PPN_LIMIT ==> EntryPpn(NewEntry(ppn, flags)) == ppn
  {
    var r := ppn % PPN_FIELD_LIMIT;
    ShiftedPpn(ppn);
    var bits := r * PPN_SHIFT + flags as nat;
    assert NewEntry(ppn, flags) == bits;
    assert bits < USIZE;
    DivModUnique(bits, PPN_SHIFT, r, flags as nat);
    LowBitsOfLowBits(ppn);
    assert bits == (r * 4) * 256 + flags as nat;
    DivModUnique(bits, 256, r * 4, flags as nat);
  }

  /** The four tests read bits 0, 1, 2 and 3 of the entry. */
  lemma FlagTestsAreBits(bits: nat)
    ensures IsValid(bits) <==> bits % 2 == 1
    ensures IsReadable(bits) <==> (bits / 2) % 2 == 1
    ensures IsWritable(bits) <==> (bits / 4) % 2 == 1
    ensures IsExecutable(bits) <==> (bits / 8) % 2 == 1
  {
    ByteBits(bits % 256);
    ModOfModMultiple(bits, 2, 128);
    LowByteBit2(bits);
    LowByteBit4(bits);
    LowByteBit8(bits);
  }

  lemma LowByteBit2(bits: nat)
    ensures ((bits % 256) / 2) % 2 == (bits / 2) % 2
  {
    ModOfModMultiple(bits / 2, 2, 64);
    DivModUnique(bits / 2, 128, bits / 256, (bits % 256) / 2);
  }

  lemma LowByteBit4(bits: nat)
    ensures ((bits % 256) / 4) % 2 == (bits / 4) % 2
  {
    ModOfModMultiple(bits / 4, 2, 32);
    DivModUnique(bits / 4, 64, bits / 256, (bits % 256) / 4);
  }

  lemma LowByteBit8(bits: nat)
    ensures ((bits % 256) / 8) % 2 == (bits / 8) % 2
  {
    ModOfModMultiple(bits / 8, 2, 16);
    DivModUnique(bits / 8, 32, bits / 256, (bits % 256) / 8);
  }

  lemma ByteBits(b: nat)
    requires b < 256
    ensures ((b as Flags) & V != 0) <==> b % 2 == 1
    ensures ((b as Flags) & R != 0) <==> (b / 2) % 2 == 1
    ensures ((b as Flags) & W != 0) <==> (b / 4) % 2 == 1
    ensures ((b as Flags) & X != 0) <==> (b / 8) % 2 == 1
  {
  }

  /** A fresh entry is valid exactly when its flag set contains V, and an
      empty entry is invalid. */
  lemma NewEntryValid(ppn: nat, flags: Flags)
    ensures IsValid(NewEntry(ppn, flags)) <==> flags & V != 0
    ensures IsValid(NewEntry(ppn, flags | V))
    ensures !IsValid(EMPTY)
  {
    EntryRoundTrip(ppn, flags);
    EntryRoundTrip(ppn, flags | V);
  }
}
