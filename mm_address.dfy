/** Sv39 addresses and page numbers (os/src/mm/address.rs).
    Sv39 is the 39-bit paged virtual-memory scheme of section 4.4 of the
    RISC-V Privileged Architecture (v1.12): 4 KiB pages, 56-bit physical
    addresses and a three-level page table indexed by 9-bit slices of the
    virtual page number. Every value here is a `usize`, a natural below 2^64;
    a bit mask `& (2^k - 1)` is the remainder modulo 2^k and a shift `>> k`
    is division by 2^k. */
module Address {
  import opened Wrappers
  import Arith

  const USIZE: nat := 0x1_0000_0000_0000_0000   // 2^64
  const PAGE_SIZE: nat := 4096
  const PAGE_SIZE_BITS: nat := 12
  const PA_LIMIT: nat := 0x100_0000_0000_0000   // 2^56, PA_WIDTH_SV39 = 56
  const PPN_LIMIT: nat := 0x1000_0000_0000      // 2^44, PPN_WIDTH_SV39 = 44
  const VA_LIMIT: nat := 0x80_0000_0000         // 2^39, VA_WIDTH_SV39 = 39
  const VA_SIGN: nat := 0x40_0000_0000          // 2^38, the sign bit of a virtual address
  const VPN_LIMIT: nat := 0x800_0000            // 2^27, VPN_WIDTH_SV39 = 27
  /** `!((1 << 39) - 1)` on 64 bits: every bit from 39 to 63 set. */
  const VA_HIGH_BITS: nat := USIZE - VA_LIMIT

  // ---------------------------------------------------------------
  // usize -> address / page number: keep only the low bits
  // ---------------------------------------------------------------

  function PhysAddrFrom(v: nat): (pa: nat)
    ensures pa < PA_LIMIT
    ensures v < PA_LIMIT ==> pa == v
    ensures (v - pa) % PA_LIMIT == 0
  {
    v % PA_LIMIT
  }

  function PhysPageNumFrom(v: nat): (ppn: nat)
    ensures ppn < PPN_LIMIT
    ensures v < PPN_LIMIT ==> ppn == v
    ensures (v - ppn) % PPN_LIMIT == 0
  {
    v % PPN_LIMIT
  }

  function VirtAddrFrom(v: nat): (va: nat)
    ensures va < VA_LIMIT
    ensures v < VA_LIMIT ==> va == v
    ensures (v - va) % VA_LIMIT == 0
  {
    v % VA_LIMIT
  }

  function VirtPageNumFrom(v: nat): (vpn: nat)
    ensures vpn < VPN_LIMIT
    ensures v < VPN_LIMIT ==> vpn == v
    ensures (v - vpn) % VPN_LIMIT == 0
  {
    v % VPN_LIMIT
  }

  /** VirtAddr -> usize: an address at or above 2^38 has bits 39..63 set, so
      the 64-bit value is the sign extension of the 39-bit address. */
  function VirtAddrToUsize(va: nat): (u: nat)
    requires va < USIZE
    ensures u < USIZE
    ensures va < VA_SIGN ==> u == va
    ensures va >= VA_SIGN ==> u % VA_LIMIT == va % VA_LIMIT && u / VA_LIMIT == USIZE / VA_LIMIT - 1
  {
    if va >= VA_SIGN then va % VA_LIMIT + VA_HIGH_BITS else va
  }

  /** Truncating a sign-extended address gives the address back. */
  lemma VirtAddrRoundTrip(va: nat)
    requires va < VA_LIMIT
    ensures VirtAddrFrom(VirtAddrToUsize(va)) == va
    ensures va >= VA_SIGN ==> VirtAddrToUsize(va) == va + VA_HIGH_BITS
  {
    if va >= VA_SIGN {
      assert VirtAddrToUsize(va) == va + (USIZE / VA_LIMIT - 1) * VA_LIMIT;
    }
  }

  // ---------------------------------------------------------------
  // Page offset, alignment, rounding (shared by PhysAddr and VirtAddr)
  // ---------------------------------------------------------------

  function PageOffset(a: nat): (off: nat)
    ensures off < PAGE_SIZE
  {
    a % PAGE_SIZE
  }

  predicate IsAligned(a: nat)
  {
    PageOffset(a) == 0
  }

  /** `to_ppn_by_floor` / `to_vpn_by_floor`. */
  function Floor(a: nat): nat
  {
    a / PAGE_SIZE
  }

  /** `to_ppn_by_ceil` / `to_vpn_by_ceil`: zero stays zero. */
  function Ceil(a: nat): nat
  {
    if a == 0 then 0 else (a - 1 + PAGE_SIZE) / PAGE_SIZE
  }

  /** An address is its page number times the page size plus its offset,
      and it is aligned exactly when it is a multiple of the page size. */
  lemma OffsetDecomposition(a: nat)
    ensures a == Floor(a) * PAGE_SIZE + PageOffset(a)
    ensures IsAligned(a) <==> a % PAGE_SIZE == 0
  {
  }

  /** floor <= ceil <= floor + 1, equal exactly on aligned addresses; ceil is the
      least page number whose page start is at or above the address. */
  lemma {:induction false} Rounding(a: nat)
    ensures Floor(a) <= Ceil(a) <= Floor(a) + 1
    ensures Ceil(a) == Floor(a) <==> IsAligned(a)
    ensures Floor(a) * PAGE_SIZE <= a < (Floor(a) + 1) * PAGE_SIZE
    ensures a <= Ceil(a) * PAGE_SIZE
    ensures Ceil(a) > 0 ==> (Ceil(a) - 1) * PAGE_SIZE < a
  {
    var q, r := a / PAGE_SIZE, a % PAGE_SIZE;
    assert a == q * PAGE_SIZE + r;
    if a > 0 {
      if r == 0 {
        assert q >= 1;
        assert a - 1 + PAGE_SIZE == q * PAGE_SIZE + (PAGE_SIZE - 1);
        DivOfMultiplePlus(q, PAGE_SIZE - 1);
      } else {
        assert a - 1 + PAGE_SIZE == (q + 1) * PAGE_SIZE + (r - 1);
        DivOfMultiplePlus(q + 1, r - 1);
      }
    }
  }

  lemma DivOfMultiplePlus(q: nat, r: nat)
    requires r < PAGE_SIZE
    ensures (q * PAGE_SIZE + r) / PAGE_SIZE == q
  {
  }

  /** `PhysPageNum -> PhysAddr` and `VirtPageNum -> VirtAddr`: a left shift by
      PAGE_SIZE_BITS, in which bits beyond 63 are lost. */
  function PageToAddr(pn: nat): (a: nat)
    ensures a < USIZE
    ensures pn < USIZE / PAGE_SIZE ==> a == pn * PAGE_SIZE
  {
    (pn * PAGE_SIZE) % USIZE
  }

  /** `PhysAddr -> PhysPageNum` and `VirtAddr -> VirtPageNum`: panic (None)
      unless the address is aligned, else the floor page number. */
  function AddrToPage(a: nat): (r: Option<nat>)
    ensures r.Some? <==> IsAligned(a)
    ensures r.Some? ==> r.value * PAGE_SIZE == a
  {
    if IsAligned(a) then Some(Floor(a)) else None
  }

  /** The two conversions are inverse on aligned addresses and on page
      numbers whose address fits in 64 bits. */
  lemma PageAddrRoundTrip(pn: nat, a: nat)
    ensures pn < USIZE / PAGE_SIZE ==> AddrToPage(PageToAddr(pn)) == Some(pn)
    ensures a < USIZE && IsAligned(a) ==> PageToAddr(AddrToPage(a).value) == a
  {
    if pn < USIZE / PAGE_SIZE {
      DivOfMultiplePlus(pn, 0);
    }
  }

  // ---------------------------------------------------------------
  // The three 9-bit page-table indexes of a virtual page number
  // ---------------------------------------------------------------

  /** `indexes`: VPN[26..18], VPN[17..9], VPN[8..0]. */
  function Indexes(vpn: nat): (ix: (nat, nat, nat))
    ensures ix.0 < 512 && ix.1 < 512 && ix.2 < 512
  {
    ((vpn / 0x4_0000) % 512, (vpn / 512) % 512, vpn % 512)
  }

  /** The three indexes recombine into the low 27 bits of the page number, so
      two page numbers below 2^27 share their indexes only if they are equal. */
  lemma {:induction false} IndexesRecombine(vpn: nat)
    ensures Indexes(vpn).0 * 0x4_0000 + Indexes(vpn).1 * 512 + Indexes(vpn).2 == vpn % VPN_LIMIT
  {
    var a, b, c := (vpn / 0x4_0000) % 512, (vpn / 512) % 512, vpn % 512;
    var h := vpn / 512;
    var hh := h / 512;
    Arith.DivDiv(vpn, 512, 512);
    assert hh == vpn / 0x4_0000;
    var top := hh / 512;
    assert h == hh * 512 + b;
    assert hh == top * 512 + a;
    assert vpn == h * 512 + c;
    var low := a * 0x4_0000 + b * 512 + c;
    assert low < VPN_LIMIT by {
      assert a * 0x4_0000 <= 511 * 0x4_0000;
      assert b * 512 <= 511 * 512;
    }
    assert vpn == top * VPN_LIMIT + low;
    Arith.DivModUnique(vpn, VPN_LIMIT, top, low);
  }

  lemma IndexesInjective(v1: nat, v2: nat)
    requires v1 < VPN_LIMIT && v2 < VPN_LIMIT
    requires Indexes(v1) == Indexes(v2)
    ensures v1 == v2
  {
    IndexesRecombine(v1);
    IndexesRecombine(v2);
    Arith.DivModUnique(v1, VPN_LIMIT, 0, v1);
    Arith.DivModUnique(v2, VPN_LIMIT, 0, v2);
  }

  // ---------------------------------------------------------------
  // SimpleRange and its iterator (VPNRange)
  // ---------------------------------------------------------------

  datatype SimpleRange = SimpleRange(start: nat, end: nat)
  {
    /** The page numbers the range yields, in increasing order. */
    function Items(): (s: seq<nat>)
      ensures start <= end ==> |s| == end - start
      ensures forall i :: 0 <= i < |s| ==> s[i] == start + i
    {
      if start >= end then [] else seq(end - start, i => start + i)
    }
  }

  /** `SimpleRange::new` panics when start > end. */
  function NewRange(start: nat, end: nat): (r: Option<SimpleRange>)
    ensures r.Some? <==> start <= end
    ensures r.Some? ==> r.value.start == start && r.value.end == end
  {
    if start <= end then Some(SimpleRange(start, end)) else None
  }

  /** `SimpleRangeIterator`: `next` yields `current` and steps it by one until
      it equals `end`. */
  class SimpleRangeIterator {
    var current: nat
    var end: nat

    ghost predicate Valid() reads this { current <= end }

    /** What the iterator still has to yield. */
    ghost function Remaining(): seq<nat> reads this
    {
      SimpleRange(current, end).Items()
    }

    constructor (range: SimpleRange)
      requires range.start <= range.end
      ensures Valid() && current == range.start && end == range.end
      ensures Remaining() == range.Items()
    {
      current := range.start;
      end := range.end;
    }

    method Next() returns (item: Option<nat>)
      requires Valid()
      modifies this
      ensures Valid() && end == old(end)
      ensures old(current) == end ==> item == None && current == old(current)
      ensures old(current) < end ==> item == Some(old(current)) && current == old(current) + 1
      ensures old(Remaining()) == (if item.Some? then [item.value] + Remaining() else Remaining())
    {
      if current == end {
        item := None;
      } else {
        item := Some(current);
        current := current + 1;   // StepByOne::step
        assert old(Remaining()) == [old(current)] + Remaining();
      }
    }
  }

  /** Draining a range with `for vpn in range` visits start, start + 1, ...,
      end - 1: exactly end - start items in increasing order. */
  method Drain(range: SimpleRange) returns (visited: seq<nat>)
    requires range.start <= range.end
    ensures visited == range.Items()
    ensures |visited| == range.end - range.start
  {
    var it := new SimpleRangeIterator(range);
    visited := [];
    var item := it.Next();
    while item.Some?
      invariant it.Valid() && it.end == range.end
      invariant item.Some? ==> visited + [item.value] + it.Remaining() == range.Items()
      invariant item.None? ==> visited == range.Items()
      decreases it.end - it.current, item.Some?
    {
      visited := visited + [item.value];
      item := it.Next();
    }
  }
}
