/** User memory as the kernel sees it through another address space's page
    table (kernel/src/mm/mod.rs, os/src/mm/page_table.rs): the specification
    of the page-bounded slices behind a user buffer and of NUL-terminated
    strings, with their properties. The methods that compute them are in
    module UserBuffer. */
module UserView {
  import opened Wrappers
  import opened Address
  import opened Pte
  import opened PageTable

  /** A slice `[lo, hi)` of the bytes of physical frame `ppn`. */
  datatype Slice = Slice(ppn: nat, lo: nat, hi: nat)

  function SliceLen(s: Slice): nat
  {
    if s.lo <= s.hi then s.hi - s.lo else 0
  }

  /** `UserBuffer::len`: the lengths of the slices added up. */
  function TotalLen(bs: seq<Slice>): nat
  {
    if bs == [] then 0 else TotalLen(bs[..|bs| - 1]) + SliceLen(bs[|bs| - 1])
  }

  function Min(a: nat, b: nat): nat
  {
    if a <= b then a else b
  }

  /** Where one round of `translated_byte_buffer` stops: the next page
      boundary or the end of the buffer, whichever is first. */
  function ChunkEnd(start: nat, end: nat): nat
  {
    Min(PageToAddr(Floor(VirtAddrFrom(start)) + 1), VirtAddrFrom(end))
  }

  /** The slice one round pushes for the page of `start`. */
  function Chunk(ppn: nat, start: nat, end: nat): Slice
  {
    var endVa := ChunkEnd(start, end);
    if PageOffset(endVa) == 0 then Slice(ppn, PageOffset(VirtAddrFrom(start)), PAGE_SIZE)
    else Slice(ppn, PageOffset(VirtAddrFrom(start)), PageOffset(endVa))
  }

  /** Facts about one round for a buffer below the sign bit: the round ends
      past `start`, within `start`'s page and not past `end`. */
  lemma {:induction false} ChunkFacts(start: nat, end: nat)
    requires start < end <= VA_SIGN
    ensures start < ChunkEnd(start, end) <= end
    ensures ChunkEnd(start, end) <= (Floor(start) + 1) * PAGE_SIZE
    ensures ChunkEnd(start, end) < VA_SIGN ==> VirtAddrToUsize(ChunkEnd(start, end)) == ChunkEnd(start, end)
    ensures VirtAddrToUsize(ChunkEnd(start, end)) >= ChunkEnd(start, end)
    ensures forall p :: SliceLen(Chunk(p, start, end)) == ChunkEnd(start, end) - start
    ensures forall p :: Chunk(p, start, end).lo == PageOffset(start) && Chunk(p, start, end).hi <= PAGE_SIZE
    ensures forall a :: start <= a < ChunkEnd(start, end) ==> Floor(a) == Floor(start)
  {
    var vpn := Floor(start);
    assert VirtAddrFrom(start) == start && VirtAddrFrom(end) == end;
    assert start == vpn * PAGE_SIZE + PageOffset(start);
    assert (vpn + 1) * PAGE_SIZE < USIZE;
    assert PageToAddr(vpn + 1) == (vpn + 1) * PAGE_SIZE;
    var e := ChunkEnd(start, end);
    if e == end && PageOffset(e) != 0 {
      assert end < (vpn + 1) * PAGE_SIZE || end == (vpn + 1) * PAGE_SIZE;
      if end == (vpn + 1) * PAGE_SIZE {
        Arith.DivModUnique(end, PAGE_SIZE, vpn + 1, 0);
      }
      Arith.DivModUnique(end, PAGE_SIZE, vpn, end - vpn * PAGE_SIZE);
    } else if PageOffset(e) == 0 {
      if e == end && e < (vpn + 1) * PAGE_SIZE {
        Arith.DivModUnique(e, PAGE_SIZE, vpn, e - vpn * PAGE_SIZE);
      }
    } else {
      Arith.DivModUnique(e, PAGE_SIZE, vpn + 1, 0);
    }
    forall a | start <= a < e ensures Floor(a) == vpn {
      Arith.DivModUnique(a, PAGE_SIZE, vpn, a - vpn * PAGE_SIZE);
    }
  }

  /** The slices `translated_byte_buffer` collects for `[start, end)`; None
      stands for the panic when a page's leaf table is missing. */
  function Buffers(leaf: LeafView, start: nat, end: nat): Option<seq<Slice>>
    requires end <= VA_SIGN
    decreases end - start
  {
    if start >= end then Some([])
    else
      match leaf(Floor(VirtAddrFrom(start)))
      case None => None
      case Some(e) =>
        ChunkFacts(start, end);
        var next := VirtAddrToUsize(ChunkEnd(start, end));
        match Buffers(leaf, next, end)
        case None => None
        case Some(rest) => Some([Chunk(EntryPpn(e), start, end)] + rest)
  }

  lemma {:induction false} TotalLenCons(s: Slice, rest: seq<Slice>)
    ensures TotalLen([s] + rest) == SliceLen(s) + TotalLen(rest)
    decreases |rest|
  {
    if rest != [] {
      var n := |rest|;
      assert ([s] + rest)[..n] == [s] + rest[..n - 1];
      TotalLenCons(s, rest[..n - 1]);
    }
  }

  /** The last round of a buffer: the rest of the walk is empty. */
  lemma LastChunk(leaf: LeafView, start: nat, end: nat)
    requires start < end <= VA_SIGN && ChunkEnd(start, end) == end
    ensures Buffers(leaf, VirtAddrToUsize(ChunkEnd(start, end)), end) == Some([])
  {
    ChunkFacts(start, end);
  }

  /** The walk succeeds exactly when every page of the range has a leaf
      table. */
  lemma {:induction false} BuffersDefined(leaf: LeafView, start: nat, end: nat)
    requires end <= VA_SIGN
    ensures Buffers(leaf, start, end).Some? <==>
      (forall a :: start <= a < end ==> leaf(Floor(a)).Some?)
    decreases end - start
  {
    if start < end {
      ChunkFacts(start, end);
      var next := ChunkEnd(start, end);
      assert VirtAddrFrom(start) == start;
      if next == end {
        LastChunk(leaf, start, end);
      } else {
        BuffersDefined(leaf, next, end);
      }
      if Buffers(leaf, start, end).None? && leaf(Floor(start)).Some? {
        var a :| next <= a < end && leaf(Floor(a)).None?;
      }
    }
  }

  /** The slices cover `[start, end)` in order: their lengths add up to the
      length of the range, and the k-th slice begins at the page offset of
      the address where the earlier ones end, stays in one page, and is
      taken from the frame named by the leaf entry of that address's page. */
  lemma {:induction false} BuffersCover(leaf: LeafView, start: nat, end: nat)
    requires start <= end <= VA_SIGN
    requires Buffers(leaf, start, end).Some?
    ensures var bs := Buffers(leaf, start, end).value;
      TotalLen(bs) == end - start &&
      forall k :: 0 <= k < |bs| ==> SliceAt(leaf, start, bs, k)
    decreases end - start
  {
    if start < end {
      ChunkFacts(start, end);
      BuffersStep(leaf, start, end);
      var next := ChunkEnd(start, end);
      assert VirtAddrFrom(start) == start;
      var rest := Buffers(leaf, VirtAddrToUsize(next), end).value;
      if next == end {
        LastChunk(leaf, start, end);
      } else {
        BuffersCover(leaf, next, end);
      }
      ConsCover(leaf, start, end, rest);
    }
  }

  /** The first chunk of [start, end) in front of slices covering the rest
      of the range covers the whole of it. */
  lemma ConsCover(leaf: LeafView, start: nat, end: nat, rest: seq<Slice>)
    requires start < end <= VA_SIGN && leaf(Floor(start)).Some?
    requires TotalLen(rest) == end - ChunkEnd(start, end)
    requires forall k :: 0 <= k < |rest| ==> SliceAt(leaf, ChunkEnd(start, end), rest, k)
    ensures var bs := [Chunk(EntryPpn(leaf(Floor(start)).value), start, end)] + rest;
      TotalLen(bs) == end - start &&
      forall k :: 0 <= k < |bs| ==> SliceAt(leaf, start, bs, k)
  {
    ChunkFacts(start, end);
    var s0 := Chunk(EntryPpn(leaf(Floor(start)).value), start, end);
    var bs := [s0] + rest;
    TotalLenCons(s0, rest);
    forall k | 0 <= k < |bs| ensures SliceAt(leaf, start, bs, k) {
      if k == 0 {
        FirstSliceAt(leaf, start, end, rest);
      } else {
        ConsSliceAt(leaf, start, s0, rest, k);
      }
    }
  }

  lemma FirstSliceAt(leaf: LeafView, start: nat, end: nat, rest: seq<Slice>)
    requires start < end <= VA_SIGN && leaf(Floor(start)).Some?
    ensures SliceAt(leaf, start, [Chunk(EntryPpn(leaf(Floor(start)).value), start, end)] + rest, 0)
  {
    ChunkFacts(start, end);
    var bs := [Chunk(EntryPpn(leaf(Floor(start)).value), start, end)] + rest;
    assert bs[..0] == [];
  }

  lemma ConsSliceAt(leaf: LeafView, start: nat, s0: Slice, rest: seq<Slice>, k: nat)
    requires 0 < k <= |rest| && SliceAt(leaf, start + SliceLen(s0), rest, k - 1)
    ensures SliceAt(leaf, start, [s0] + rest, k)
  {
    assert ([s0] + rest)[..k] == [s0] + rest[..k - 1];
    TotalLenCons(s0, rest[..k - 1]);
  }

  /** The k-th slice of a buffer starting at `start`. */
  ghost predicate SliceAt(leaf: LeafView, start: nat, bs: seq<Slice>, k: nat)
    requires k < |bs|
  {
    var a := start + TotalLen(bs[..k]);
    bs[k].lo == PageOffset(a) && bs[k].lo < bs[k].hi <= PAGE_SIZE &&
    leaf(Floor(a)).Some? && bs[k].ppn == EntryPpn(leaf(Floor(a)).value)
  }

  /** Slices `v` in front of the outcome of a walk; a failed walk stays
      failed. */
  function Prepend(v: seq<Slice>, o: Option<seq<Slice>>): (r: Option<seq<Slice>>)
    ensures r.Some? <==> o.Some?
  {
    match o
    case None => None
    case Some(rest) => Some(v + rest)
  }

  lemma PrependNothing(o: Option<seq<Slice>>)
    ensures Prepend([], o) == o
  {
    if o.Some? {
      assert [] + o.value == o.value;
    }
  }

  lemma PrependTwice(v: seq<Slice>, w: seq<Slice>, o: Option<seq<Slice>>)
    ensures Prepend(v, Prepend(w, o)) == Prepend(v + w, o)
  {
    if o.Some? {
      assert v + (w + o.value) == (v + w) + o.value;
    }
  }

  /** The loop invariant of `translated_byte_buffer` survives a round that
      finds a leaf entry. */
  lemma RoundStep(leaf: LeafView, ptr: nat, start: nat, end: nat, v: seq<Slice>)
    requires start < end <= VA_SIGN && leaf(Floor(VirtAddrFrom(start))).Some?
    requires Buffers(leaf, ptr, end) == Prepend(v, Buffers(leaf, start, end))
    ensures VirtAddrToUsize(ChunkEnd(start, end)) > start
    ensures Buffers(leaf, ptr, end) ==
      Prepend(v + [Chunk(EntryPpn(leaf(Floor(VirtAddrFrom(start))).value), start, end)],
              Buffers(leaf, VirtAddrToUsize(ChunkEnd(start, end)), end))
  {
    ChunkFacts(start, end);
    BuffersStep(leaf, start, end);
    assert VirtAddrFrom(start) == start;
    var c := Chunk(EntryPpn(leaf(Floor(start)).value), start, end);
    PrependTwice(v, [c], Buffers(leaf, VirtAddrToUsize(ChunkEnd(start, end)), end));
  }

  /** One round of the walk: a page without a leaf table fails it, and
      otherwise the chunk of that page goes in front of the rest. */
  lemma BuffersStep(leaf: LeafView, start: nat, end: nat)
    requires start < end <= VA_SIGN
    ensures leaf(Floor(start)).None? ==> Buffers(leaf, start, end).None?
    ensures leaf(Floor(start)).Some? ==>
      ChunkEnd(start, end) <= VA_SIGN &&
      Buffers(leaf, start, end) ==
        Prepend([Chunk(EntryPpn(leaf(Floor(start)).value), start, end)],
                Buffers(leaf, VirtAddrToUsize(ChunkEnd(start, end)), end))
  {
    ChunkFacts(start, end);
    assert VirtAddrFrom(start) == start;
  }

  // ---------------------------------------------------------------
  // translated_str
  // ---------------------------------------------------------------

  /** Physical memory as bytes, for the strings read through a table. */
  type Ram = nat -> bv8

  /** How reading a string ends: the characters before the NUL, a page that
      has no leaf table (the source's `unwrap` panics), or the step budget
      running out before a NUL is seen. */
  datatype StrResult = Str(s: seq<char>) | Fault | NoTerminator

  /** The byte at virtual address va, through the table; None when the
      walk fails. */
  function Fetch(mem: Memory, root: nat, ram: Ram, va: nat): Option<bv8>
  {
    match TranslateVa(mem, root, VirtAddrFrom(va))
    case None => None
    case Some(pa) => Some(ram(pa))
  }

  /** User memory as `translated_str` sees it. */
  type ByteView = nat -> Option<bv8>

  function UserBytes(mem: Memory, root: nat, ram: Ram): ByteView
  {
    (va: nat) => Fetch(mem, root, ram, va)
  }

  /** `ch as char` for a byte. */
  function ToChar(b: bv8): char
  {
    (b as int) as char
  }

  /** `translated_str` with at most `fuel` bytes read. */
  function ReadStr(bytes: ByteView, va: nat, fuel: nat): StrResult
    decreases fuel
  {
    if fuel == 0 then NoTerminator
    else match bytes(va)
      case None => Fault
      case Some(b) =>
        if b == 0 then Str([])
        else match ReadStr(bytes, va + 1, fuel - 1)
          case Str(rest) => Str([ToChar(b)] + rest)
          case other => other
  }

  /** A string read gives, byte for byte, the non-zero bytes from va on and
      stops at the first zero byte, which it does not include. */
  lemma {:induction false} ReadStrContents(bytes: ByteView, va: nat, fuel: nat)
    ensures ReadStr(bytes, va, fuel).Str? ==>
      |ReadStr(bytes, va, fuel).s| < fuel && IsStringAt(bytes, va, ReadStr(bytes, va, fuel).s)
    decreases fuel
  {
    if fuel > 0 && ReadStr(bytes, va, fuel).Str? {
      var b := bytes(va).value;
      if b != 0 {
        var next := va + 1;
        ReadStrContents(bytes, next, fuel - 1);
        var rest := ReadStr(bytes, next, fuel - 1).s;
        var s := [ToChar(b)] + rest;
        assert ReadStr(bytes, va, fuel) == Str(s);
        forall k | 0 <= k < |s|
          ensures CharAt(bytes, va + k, s[k])
        {
          if k == 0 {
            assert CharAt(bytes, va, s[0]);
          } else {
            assert CharAt(bytes, next + (k - 1), rest[k - 1]);
            assert next + (k - 1) == va + k;
          }
        }
        assert bytes(next + |rest|) == Some(0);
        assert next + |rest| == va + |s|;
      } else {
        assert ReadStr(bytes, va, fuel) == Str([]);
      }
    }
  }

  /** Byte `a` is non-zero and reads as character `c`. */
  ghost predicate CharAt(bytes: ByteView, a: nat, c: char)
  {
    bytes(a).Some? && bytes(a).value != 0 && c == ToChar(bytes(a).value)
  }

  /** `s` is the string at `va`: its characters are the non-zero bytes from
      `va` on, and the byte after them is zero. */
  ghost predicate IsStringAt(bytes: ByteView, va: nat, s: seq<char>)
  {
    (forall k :: 0 <= k < |s| ==> CharAt(bytes, va + k, s[k])) &&
    bytes(va + |s|) == Some(0)
  }

  /** The string at an address is unique, and a read with enough budget
      finds it. */
  lemma {:induction false} ReadStrFinds(bytes: ByteView, va: nat, s: seq<char>, fuel: nat)
    requires IsStringAt(bytes, va, s) && |s| < fuel
    ensures ReadStr(bytes, va, fuel) == Str(s)
    decreases |s|
  {
    if s != [] {
      StringAtTail(bytes, va, s);
      ReadStrFinds(bytes, va + 1, s[1..], fuel - 1);
      assert s == [s[0]] + s[1..];
    } else {
      assert va + 0 == va;
    }
  }

  /** A non-empty string starts with its first byte, and the rest of it
      is the string one byte on. */
  lemma StringAtTail(bytes: ByteView, va: nat, s: seq<char>)
    requires IsStringAt(bytes, va, s) && s != []
    ensures CharAt(bytes, va, s[0]) && IsStringAt(bytes, va + 1, s[1..])
  {
    assert CharAt(bytes, va + 0, s[0]);
    var t, next := s[1..], va + 1;
    forall k | 0 <= k < |t|
      ensures CharAt(bytes, next + k, t[k])
    {
      assert CharAt(bytes, va + (k + 1), s[k + 1]);
      assert next + k == va + (k + 1);
    }
    assert next + |t| == va + |s|;
  }

  /** Characters `s` in front of the outcome of a read. */
  function Prefix(s: seq<char>, o: StrResult): (r: StrResult)
    ensures r.Str? <==> o.Str?
    ensures r.Str? ==> r.s == s + o.s
    ensures !o.Str? ==> r == o
  {
    match o
    case Str(rest) => Str(s + rest)
    case other => other
  }

  lemma PrefixNothing(o: StrResult)
    ensures Prefix([], o) == o
  {
    if o.Str? {
      assert [] + o.s == o.s;
    }
  }

  lemma PrefixTwice(s: seq<char>, t: seq<char>, o: StrResult)
    ensures Prefix(s, Prefix(t, o)) == Prefix(s + t, o)
  {
    if o.Str? {
      assert s + (t + o.s) == (s + t) + o.s;
    }
  }

  /** One byte of the read. */
  lemma ReadStrStep(bytes: ByteView, va: nat, fuel: nat)
    requires fuel > 0
    ensures bytes(va).None? ==> ReadStr(bytes, va, fuel) == Fault
    ensures bytes(va) == Some(0) ==> ReadStr(bytes, va, fuel) == Str([])
    ensures bytes(va).Some? && bytes(va).value != 0 ==>
      ReadStr(bytes, va, fuel) == Prefix([ToChar(bytes(va).value)], ReadStr(bytes, va + 1, fuel - 1))
  {
  }
}
