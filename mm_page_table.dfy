/** The three-level Sv39 page table (os/src/mm/page_table.rs and
    kernel/src/mm/page_table.rs), following section 4.3.2 of the RISC-V
    Privileged Architecture (v1.12) restricted to 4 KiB pages.

    Physical memory holding page-table frames is a map from a frame's page
    number to its 512 entry words; a frame that is not in the map reads as
    all-zero entries. */
module PageTable {
  import opened Wrappers
  import opened Address
  import opened Pte
  import opened FrameAllocator

  const ENTRIES: nat := 512

  type Memory = map<nat, seq<nat>>

  /** Where an entry lives: a table frame and an index in it. */
  datatype Location = Location(frame: nat, index: nat)

  function ReadEntry(mem: Memory, frame: nat, index: nat): nat
  {
    if frame in mem && index < |mem[frame]| then mem[frame][index] else EMPTY
  }

  /** A frame as `FrameTracker::new` leaves it: zero-filled. */
  function Zeros(n: nat): (s: seq<nat>)
    ensures |s| == n && forall i :: 0 <= i < n ==> s[i] == 0
  {
    if n == 0 then [] else Zeros(n - 1) + [0]
  }

  /** The index used at a given level of the walk. */
  function Idx(vpn: nat, level: nat): (i: nat)
    requires level <= 2
    ensures i < ENTRIES
  {
    var ix := Indexes(vpn);
    if level == 0 then ix.0 else if level == 1 then ix.1 else ix.2
  }

  /** One step of the walk: follow the entry if it is valid. */
  function Step(mem: Memory, frame: Option<nat>, index: nat): Option<nat>
  {
    match frame
    case None => None
    case Some(f) =>
      var e := ReadEntry(mem, f, index);
      if IsValid(e) then Some(EntryPpn(e)) else None
  }

  /** The table frame the walk of `find_pte` reaches at a level (0 is the
      root), or None once an intermediate entry is invalid. */
  function WalkFrame(mem: Memory, root: nat, vpn: nat, level: nat): Option<nat>
    requires level <= 2
  {
    if level == 0 then Some(root)
    else Step(mem, WalkFrame(mem, root, vpn, level - 1), Idx(vpn, level - 1))
  }

  /** `find_pte`: the location of the leaf entry for vpn. */
  function LeafLocation(mem: Memory, root: nat, vpn: nat): Option<Location>
  {
    match WalkFrame(mem, root, vpn, 2)
    case None => None
    case Some(f) => Some(Location(f, Idx(vpn, 2)))
  }

  /** `translate`: a copy of the leaf entry, valid or not. */
  function Translate(mem: Memory, root: nat, vpn: nat): Option<nat>
  {
    match LeafLocation(mem, root, vpn)
    case None => None
    case Some(loc) => Some(ReadEntry(mem, loc.frame, loc.index))
  }

  /** The entry that decides vpn's mapping, an empty entry when the walk
      stops early. */
  function LeafEntry(mem: Memory, root: nat, vpn: nat): nat
  {
    match Translate(mem, root, vpn)
    case None => EMPTY
    case Some(e) => e
  }

  /** The number of intermediate tables missing on vpn's path among levels
      1..upto. */
  function MissingTables(mem: Memory, root: nat, vpn: nat, upto: nat): (n: nat)
    requires upto <= 2
    ensures n <= upto
  {
    if upto == 0 then 0
    else MissingTables(mem, root, vpn, upto - 1) + (if WalkFrame(mem, root, vpn, upto).None? then 1 else 0)
  }

  /** `translate_va`: the leaf's page plus the page offset of va. */
  function TranslateVa(mem: Memory, root: nat, va: nat): (pa: Option<nat>)
  {
    match LeafLocation(mem, root, Floor(va))
    case None => None
    case Some(loc) =>
      var e := ReadEntry(mem, loc.frame, loc.index);
      Some(PhysAddrFrom(PageToAddr(EntryPpn(e)) + PageOffset(va)))
  }

  const SV39_MODE: nat := 8
  const MODE_SHIFT: nat := 0x1000_0000_0000_0000   // 1 << 60

  /** `token`: MODE = 8 in bits 63..60 over the root page number. The OR is
      a sum because a page number is below 2^44. */
  function SatpToken(root: nat): nat
    requires root < PPN_LIMIT
  {
    SV39_MODE * MODE_SHIFT + root
  }

  /** `from_token`: the root page number is the low 44 bits of satp. */
  function FromToken(satp: nat): (root: nat)
    ensures root < PPN_LIMIT
  {
    satp % PPN_LIMIT
  }

  /** A token fits in 64 bits, carries mode 8 in its top four bits and gives
      its root page number back. */
  lemma TokenRoundTrip(root: nat)
    requires root < PPN_LIMIT
    ensures SatpToken(root) < USIZE
    ensures SatpToken(root) / MODE_SHIFT == SV39_MODE
    ensures FromToken(SatpToken(root)) == root
  {
    Arith.DivModUnique(SatpToken(root), MODE_SHIFT, SV39_MODE, root);
    assert SV39_MODE * MODE_SHIFT == (SV39_MODE * 0x1_0000) * PPN_LIMIT;
    Arith.DivModUnique(SatpToken(root), PPN_LIMIT, SV39_MODE * 0x1_0000, root);
  }

  /** `translate_va` lands in the leaf's frame at va's page offset. */
  lemma TranslateVaSplits(mem: Memory, root: nat, va: nat)
    ensures TranslateVa(mem, root, va).Some? <==> Translate(mem, root, Floor(va)).Some?
    ensures TranslateVa(mem, root, va).Some? ==>
      Floor(TranslateVa(mem, root, va).value) == EntryPpn(LeafEntry(mem, root, Floor(va))) &&
      PageOffset(TranslateVa(mem, root, va).value) == PageOffset(va)
  {
    if LeafLocation(mem, root, Floor(va)).Some? {
      var ppn := EntryPpn(LeafEntry(mem, root, Floor(va)));
      var sum := ppn * PAGE_SIZE + PageOffset(va);
      assert PageToAddr(ppn) == ppn * PAGE_SIZE;
      assert sum < PA_LIMIT;
      Arith.DivModUnique(sum, PAGE_SIZE, ppn, PageOffset(va));
    }
  }

  // ---------------------------------------------------------------
  // The shape of a page table
  // ---------------------------------------------------------------

  /** The frames reachable from the root form a tree of depth two:
      `level` gives each frame's depth, every valid entry of a level-0 or
      level-1 frame points to a frame one level down, and `parent` records
      the one entry that points to each child. Leaf entries (level 2) may
      point anywhere. */
  ghost predicate TreeShaped(mem: Memory, root: nat, level: map<nat, nat>, parent: map<nat, Location>)
  {
    root in mem && root in level && level[root] == 0 &&
    (forall f :: f in mem ==> |mem[f]| == ENTRIES && f in level && level[f] <= 2) &&
    (forall f, i {:trigger IsValid(mem[f][i])} :: f in mem && f in level && level[f] < 2 && 0 <= i < |mem[f]| && IsValid(mem[f][i]) ==>
       var c := EntryPpn(mem[f][i]);
       c in mem && c in level && level[c] == level[f] + 1 && c in parent && parent[c] == Location(f, i))
  }

  /** The frame the walk reaches at level k is a table frame at depth k. */
  lemma {:induction false} WalkLevels(mem: Memory, root: nat, level: map<nat, nat>, parent: map<nat, Location>, vpn: nat, k: nat)
    requires TreeShaped(mem, root, level, parent) && k <= 2
    requires WalkFrame(mem, root, vpn, k).Some?
    ensures WalkFrame(mem, root, vpn, k).value in mem
    ensures level[WalkFrame(mem, root, vpn, k).value] == k
  {
    if k > 0 {
      WalkLevels(mem, root, level, parent, vpn, k - 1);
      var g := WalkFrame(mem, root, vpn, k - 1).value;
      assert ReadEntry(mem, g, Idx(vpn, k - 1)) == mem[g][Idx(vpn, k - 1)];
    }
  }

  /** Two walks that reach the same frame used the same indexes on the way. */
  lemma {:induction false} WalkDetermined(mem: Memory, root: nat, level: map<nat, nat>, parent: map<nat, Location>, v: nat, w: nat, k: nat)
    requires TreeShaped(mem, root, level, parent) && k <= 2
    requires WalkFrame(mem, root, v, k).Some? && WalkFrame(mem, root, v, k) == WalkFrame(mem, root, w, k)
    ensures forall j :: 0 <= j < k ==> Idx(v, j) == Idx(w, j)
  {
    if k > 0 {
      WalkLevels(mem, root, level, parent, v, k - 1);
      WalkLevels(mem, root, level, parent, w, k - 1);
      var gv := WalkFrame(mem, root, v, k - 1).value;
      var gw := WalkFrame(mem, root, w, k - 1).value;
      assert ReadEntry(mem, gv, Idx(v, k - 1)) == mem[gv][Idx(v, k - 1)];
      assert ReadEntry(mem, gw, Idx(w, k - 1)) == mem[gw][Idx(w, k - 1)];
      assert Location(gv, Idx(v, k - 1)) == Location(gw, Idx(w, k - 1));
      WalkDetermined(mem, root, level, parent, v, w, k - 1);
    }
  }

  /** A valid leaf entry means no table is missing on the path. */
  lemma ValidLeafHasFullPath(mem: Memory, root: nat, vpn: nat)
    requires IsValid(LeafEntry(mem, root, vpn))
    ensures MissingTables(mem, root, vpn, 2) == 0
  {
    NewEntryValid(0, 0);
  }

  /** Two memories that agree on every frame the walk of v reads below
      level k give the same walk up to k. */
  lemma {:induction false} WalkAgrees(mem: Memory, mem': Memory, root: nat, v: nat, k: nat)
    requires k <= 2
    requires forall j :: 0 <= j < k && WalkFrame(mem, root, v, j).Some? ==>
      ReadEntry(mem', WalkFrame(mem, root, v, j).value, Idx(v, j)) == ReadEntry(mem, WalkFrame(mem, root, v, j).value, Idx(v, j))
    ensures WalkFrame(mem', root, v, k) == WalkFrame(mem, root, v, k)
  {
    if k > 0 {
      WalkAgrees(mem, mem', root, v, k - 1);
    }
  }

  // ---------------------------------------------------------------
  // Installing a fresh intermediate table
  // ---------------------------------------------------------------

  /** `find_pte_then_alloc`'s step on an invalid entry: the fresh zeroed
      frame c becomes the child of (f, idx) with flags V only. */
  function Install(mem: Memory, f: nat, idx: nat, c: nat): Memory
    requires f in mem && idx < |mem[f]|
  {
    var row: seq<nat> := mem[f][idx := NewEntry(c, V)];
    mem[c := Zeros(ENTRIES)][f := row]
  }

  /** Installing keeps the tree shape and leaves every vpn's effective leaf
      entry unchanged (a new table has no valid entries); the walk of a vpn
      through (f, idx) now reaches c, and stops there. */
  /** `InstallFresh` for the table on the walk of one vpn at level i. */
  lemma AddTableFacts(mem: Memory, root: nat, level: map<nat, nat>, parent: map<nat, Location>, vpn: nat, i: nat, f: nat, c: nat)
    requires i < 2 && TreeShaped(mem, root, level, parent) && WalkFrame(mem, root, vpn, i) == Some(f)
    requires !IsValid(ReadEntry(mem, f, Idx(vpn, i)))
    requires c !in mem && c < PPN_LIMIT
    ensures f in mem && Idx(vpn, i) < |mem[f]|
    ensures var mem' := Install(mem, f, Idx(vpn, i), c);
      TreeShaped(mem', root, level[c := i + 1], parent[c := Location(f, Idx(vpn, i))]) &&
      (forall g :: g in mem' <==> g in mem || g == c) &&
      (forall v :: LeafEntry(mem', root, v) == LeafEntry(mem, root, v)) &&
      WalkFrame(mem', root, vpn, i + 1) == Some(c) &&
      (i == 0 ==> WalkFrame(mem', root, vpn, 2).None?)
  {
    WalkLevels(mem, root, level, parent, vpn, i);
    InstallFresh(mem, root, level, parent, f, Idx(vpn, i), c);
  }

  lemma {:induction false} InstallFresh(mem: Memory, root: nat, level: map<nat, nat>, parent: map<nat, Location>, f: nat, idx: nat, c: nat)
    requires TreeShaped(mem, root, level, parent)
    requires f in mem && level[f] < 2 && idx < ENTRIES && !IsValid(mem[f][idx])
    requires c !in mem && c < PPN_LIMIT
    ensures TreeShaped(Install(mem, f, idx, c), root, level[c := level[f] + 1], parent[c := Location(f, idx)])
    ensures forall v :: LeafEntry(Install(mem, f, idx, c), root, v) == LeafEntry(mem, root, v)
    ensures forall v, j :: 0 <= j <= level[f] ==> WalkFrame(Install(mem, f, idx, c), root, v, j) == WalkFrame(mem, root, v, j)
    ensures forall v :: WalkFrame(mem, root, v, level[f]) == Some(f) && Idx(v, level[f]) == idx ==>
      WalkFrame(Install(mem, f, idx, c), root, v, level[f] + 1) == Some(c) &&
      (level[f] == 0 ==> WalkFrame(Install(mem, f, idx, c), root, v, 2).None?)
  {
    InstallShape(mem, root, level, parent, f, idx, c);
    InstallWalks(mem, root, level, parent, f, idx, c);
    InstallReaches(mem, root, level, parent, f, idx, c);
    forall v ensures LeafEntry(Install(mem, f, idx, c), root, v) == LeafEntry(mem, root, v) {
      InstallKeepsLeaf(mem, root, level, parent, f, idx, c, v);
    }
  }

  /** The fresh table hangs below (f, idx), one level down. */
  lemma InstallShape(mem: Memory, root: nat, level: map<nat, nat>, parent: map<nat, Location>, f: nat, idx: nat, c: nat)
    requires TreeShaped(mem, root, level, parent)
    requires f in mem && level[f] < 2 && idx < ENTRIES && !IsValid(mem[f][idx])
    requires c !in mem && c < PPN_LIMIT
    ensures TreeShaped(Install(mem, f, idx, c), root, level[c := level[f] + 1], parent[c := Location(f, idx)])
  {
    var mem' := Install(mem, f, idx, c);
    var level', parent' := level[c := level[f] + 1], parent[c := Location(f, idx)];
    EntryRoundTrip(c, V);
    NewEntryValid(c, V);
    assert V | V == V;
    forall g, i | g in mem' && g in level' && level'[g] < 2 && 0 <= i < |mem'[g]| && IsValid(mem'[g][i])
      ensures var ch := EntryPpn(mem'[g][i]);
        ch in mem' && ch in level' && level'[ch] == level'[g] + 1 && ch in parent' && parent'[ch] == Location(g, i)
    {
      if g == c {
        assert false;
      } else if g == f && i == idx {
      } else {
        assert mem'[g][i] == mem[g][i];
      }
    }
  }

  /** Walks no deeper than f's level do not see the new entry. */
  lemma InstallWalks(mem: Memory, root: nat, level: map<nat, nat>, parent: map<nat, Location>, f: nat, idx: nat, c: nat)
    requires TreeShaped(mem, root, level, parent)
    requires f in mem && level[f] < 2 && idx < ENTRIES && !IsValid(mem[f][idx])
    requires c !in mem && c < PPN_LIMIT
    ensures forall v, j :: 0 <= j <= level[f] ==> WalkFrame(Install(mem, f, idx, c), root, v, j) == WalkFrame(mem, root, v, j)
  {
    var mem' := Install(mem, f, idx, c);
    forall v, j | 0 <= j <= level[f] ensures WalkFrame(mem', root, v, j) == WalkFrame(mem, root, v, j) {
      forall j' | 0 <= j' < j && WalkFrame(mem, root, v, j').Some?
        ensures ReadEntry(mem', WalkFrame(mem, root, v, j').value, Idx(v, j')) == ReadEntry(mem, WalkFrame(mem, root, v, j').value, Idx(v, j'))
      {
        WalkLevels(mem, root, level, parent, v, j');
      }
      WalkAgrees(mem, mem', root, v, j);
    }
  }

  /** A walk through (f, idx) now reaches the fresh table, which is empty. */
  lemma InstallReaches(mem: Memory, root: nat, level: map<nat, nat>, parent: map<nat, Location>, f: nat, idx: nat, c: nat)
    requires TreeShaped(mem, root, level, parent)
    requires f in mem && level[f] < 2 && idx < ENTRIES && !IsValid(mem[f][idx])
    requires c !in mem && c < PPN_LIMIT
    ensures forall v :: WalkFrame(mem, root, v, level[f]) == Some(f) && Idx(v, level[f]) == idx ==>
      WalkFrame(Install(mem, f, idx, c), root, v, level[f] + 1) == Some(c) &&
      (level[f] == 0 ==> WalkFrame(Install(mem, f, idx, c), root, v, 2).None?)
  {
    var mem' := Install(mem, f, idx, c);
    EntryRoundTrip(c, V);
    NewEntryValid(c, V);
    NewEntryValid(0, 0);
    assert V | V == V;
    InstallWalks(mem, root, level, parent, f, idx, c);
    forall v | WalkFrame(mem, root, v, level[f]) == Some(f) && Idx(v, level[f]) == idx
      ensures WalkFrame(mem', root, v, level[f] + 1) == Some(c) &&
        (level[f] == 0 ==> WalkFrame(mem', root, v, 2).None?)
    {
      assert WalkFrame(mem', root, v, level[f]) == Some(f);
      assert ReadEntry(mem', f, idx) == NewEntry(c, V);
      if level[f] == 0 {
        assert ReadEntry(mem', c, Idx(v, 1)) == 0;
      }
    }
  }

  lemma InstallKeepsLeaf(mem: Memory, root: nat, level: map<nat, nat>, parent: map<nat, Location>, f: nat, idx: nat, c: nat, v: nat)
    requires TreeShaped(mem, root, level, parent)
    requires f in mem && level[f] < 2 && idx < ENTRIES && !IsValid(mem[f][idx])
    requires c !in mem && c < PPN_LIMIT
    ensures LeafEntry(Install(mem, f, idx, c), root, v) == LeafEntry(mem, root, v)
  {
    if WalkFrame(mem, root, v, level[f]) == Some(f) && Idx(v, level[f]) == idx {
      InstallKeepsLeafThrough(mem, root, level, parent, f, idx, c, v);
    } else {
      InstallKeepsLeafOther(mem, root, level, parent, f, idx, c, v);
    }
  }

  lemma InstallKeepsLeafThrough(mem: Memory, root: nat, level: map<nat, nat>, parent: map<nat, Location>, f: nat, idx: nat, c: nat, v: nat)
    requires TreeShaped(mem, root, level, parent)
    requires f in mem && level[f] < 2 && idx < ENTRIES && !IsValid(mem[f][idx])
    requires c !in mem && c < PPN_LIMIT
    requires WalkFrame(mem, root, v, level[f]) == Some(f) && Idx(v, level[f]) == idx
    ensures LeafEntry(Install(mem, f, idx, c), root, v) == LeafEntry(mem, root, v)
  {
    var mem' := Install(mem, f, idx, c);
    var L := level[f];
    NewEntryValid(0, 0);
    EntryRoundTrip(c, V);
    // The old walk stops at the invalid entry; the new one reaches the
    // empty table c.
    assert WalkFrame(mem, root, v, L + 1).None?;
    assert WalkFrame(mem, root, v, 2).None?;
    forall j | 0 <= j <= L ensures WalkFrame(mem', root, v, j) == WalkFrame(mem, root, v, j) {
      forall j' | 0 <= j' < j && WalkFrame(mem, root, v, j').Some?
        ensures ReadEntry(mem', WalkFrame(mem, root, v, j').value, Idx(v, j')) == ReadEntry(mem, WalkFrame(mem, root, v, j').value, Idx(v, j'))
      {
        WalkLevels(mem, root, level, parent, v, j');
      }
      WalkAgrees(mem, mem', root, v, j);
    }
    assert ReadEntry(mem', f, idx) == NewEntry(c, V);
    assert WalkFrame(mem', root, v, L + 1) == Some(c);
    if L == 0 {
      assert ReadEntry(mem', c, Idx(v, 1)) == 0;
    } else {
      assert ReadEntry(mem', c, Idx(v, 2)) == 0;
    }
  }

  lemma InstallKeepsLeafOther(mem: Memory, root: nat, level: map<nat, nat>, parent: map<nat, Location>, f: nat, idx: nat, c: nat, v: nat)
    requires TreeShaped(mem, root, level, parent)
    requires f in mem && level[f] < 2 && idx < ENTRIES && !IsValid(mem[f][idx])
    requires c !in mem && c < PPN_LIMIT
    requires !(WalkFrame(mem, root, v, level[f]) == Some(f) && Idx(v, level[f]) == idx)
    ensures LeafEntry(Install(mem, f, idx, c), root, v) == LeafEntry(mem, root, v)
  {
    var mem' := Install(mem, f, idx, c);
    var L := level[f];
    // Every frame the walk reads is an old table frame other than the
    // changed location, and c is not one of them.
    forall j | 0 <= j < 3 && WalkFrame(mem, root, v, j).Some?
      ensures ReadEntry(mem', WalkFrame(mem, root, v, j).value, Idx(v, j)) == ReadEntry(mem, WalkFrame(mem, root, v, j).value, Idx(v, j))
    {
      WalkLevels(mem, root, level, parent, v, j);
      var g := WalkFrame(mem, root, v, j).value;
      assert g != c;
      if g == f {
        assert j == L;
        assert Idx(v, j) != idx;
      }
    }
    WalkAgrees(mem, mem', root, v, 2);
  }

  // ---------------------------------------------------------------
  // Writing a leaf entry
  // ---------------------------------------------------------------

  function SetEntry(mem: Memory, loc: Location, e: nat): Memory
    requires loc.frame in mem && loc.index < |mem[loc.frame]|
  {
    var row: seq<nat> := mem[loc.frame][loc.index := e];
    mem[loc.frame := row]
  }

  /** Writing vpn's leaf entry keeps the tree shape, makes `translate(vpn)`
      return the new entry, and leaves the leaf of every vpn with other
      indexes unchanged. */
  lemma {:induction false} SetLeaf(mem: Memory, root: nat, level: map<nat, nat>, parent: map<nat, Location>, vpn: nat, e: nat)
    requires TreeShaped(mem, root, level, parent)
    requires LeafLocation(mem, root, vpn).Some?
    ensures LeafLocation(mem, root, vpn).value.frame in mem
    ensures LeafLocation(mem, root, vpn).value.index < |mem[LeafLocation(mem, root, vpn).value.frame]|
    ensures var mem' := SetEntry(mem, LeafLocation(mem, root, vpn).value, e);
      TreeShaped(mem', root, level, parent) &&
      Translate(mem', root, vpn) == Some(e) &&
      (forall v :: Indexes(v) != Indexes(vpn) ==> LeafEntry(mem', root, v) == LeafEntry(mem, root, v))
  {
    WalkLevels(mem, root, level, parent, vpn, 2);
    var loc := LeafLocation(mem, root, vpn).value;
    var mem' := SetEntry(mem, loc, e);
    SetLeafShape(mem, root, level, parent, loc, e);
    SetLeafWalks(mem, root, level, parent, loc, e);
    SetLeafOthers(mem, root, level, parent, vpn, e);
  }

  /** A leaf-level write keeps the tree shape: only table-level entries
      link frames. */
  lemma SetLeafShape(mem: Memory, root: nat, level: map<nat, nat>, parent: map<nat, Location>, loc: Location, e: nat)
    requires TreeShaped(mem, root, level, parent)
    requires loc.frame in mem && loc.frame in level && level[loc.frame] == 2 && loc.index < |mem[loc.frame]|
    ensures TreeShaped(SetEntry(mem, loc, e), root, level, parent)
  {
    var mem' := SetEntry(mem, loc, e);
    forall g, i | g in mem' && g in level && level[g] < 2 && 0 <= i < |mem'[g]| && IsValid(mem'[g][i])
      ensures var ch := EntryPpn(mem'[g][i]);
        ch in mem' && ch in level && level[ch] == level[g] + 1 && ch in parent && parent[ch] == Location(g, i)
    {
      assert g != loc.frame;
      assert mem'[g][i] == mem[g][i];
    }
  }

  /** A leaf-level write changes no walk to a leaf table. */
  lemma SetLeafWalks(mem: Memory, root: nat, level: map<nat, nat>, parent: map<nat, Location>, loc: Location, e: nat)
    requires TreeShaped(mem, root, level, parent)
    requires loc.frame in mem && loc.frame in level && level[loc.frame] == 2 && loc.index < |mem[loc.frame]|
    ensures forall v :: WalkFrame(SetEntry(mem, loc, e), root, v, 2) == WalkFrame(mem, root, v, 2)
  {
    var mem' := SetEntry(mem, loc, e);
    forall v ensures WalkFrame(mem', root, v, 2) == WalkFrame(mem, root, v, 2) {
      forall j | 0 <= j < 2 && WalkFrame(mem, root, v, j).Some?
        ensures ReadEntry(mem', WalkFrame(mem, root, v, j).value, Idx(v, j)) == ReadEntry(mem, WalkFrame(mem, root, v, j).value, Idx(v, j))
      {
        WalkLevels(mem, root, level, parent, v, j);
      }
      WalkAgrees(mem, mem', root, v, 2);
    }
  }

  /** Writing vpn's leaf entry changes the leaf of no vpn with other
      indexes. */
  lemma SetLeafOthers(mem: Memory, root: nat, level: map<nat, nat>, parent: map<nat, Location>, vpn: nat, e: nat)
    requires TreeShaped(mem, root, level, parent)
    requires LeafLocation(mem, root, vpn).Some?
    requires LeafLocation(mem, root, vpn).value.frame in mem
    requires LeafLocation(mem, root, vpn).value.index < |mem[LeafLocation(mem, root, vpn).value.frame]|
    requires forall v :: WalkFrame(SetEntry(mem, LeafLocation(mem, root, vpn).value, e), root, v, 2) == WalkFrame(mem, root, v, 2)
    ensures var mem' := SetEntry(mem, LeafLocation(mem, root, vpn).value, e);
      Translate(mem', root, vpn) == Some(e) &&
      (forall v :: Indexes(v) != Indexes(vpn) ==> LeafEntry(mem', root, v) == LeafEntry(mem, root, v))
  {
    var loc := LeafLocation(mem, root, vpn).value;
    var mem' := SetEntry(mem, loc, e);
    forall v | Indexes(v) != Indexes(vpn) ensures LeafEntry(mem', root, v) == LeafEntry(mem, root, v) {
      if WalkFrame(mem, root, v, 2) == Some(loc.frame) {
        WalkDetermined(mem, root, level, parent, v, vpn, 2);
        assert Idx(v, 0) == Idx(vpn, 0) && Idx(v, 1) == Idx(vpn, 1);
        assert Idx(v, 2) != Idx(vpn, 2);
      }
    }
  }

  // ---------------------------------------------------------------
  // The page table object
  // ---------------------------------------------------------------

  /** The page table as its callers see it: `translate` of each virtual
      page number. */
  type LeafView = nat -> Option<nat>

  function TableView(mem: Memory, root: nat): LeafView
  {
    (vpn: nat) => Translate(mem, root, vpn)
  }

  /** The frame a leaf names; 0 where there is no leaf. */
  function LeafPpn(leaf: LeafView, vpn: nat): nat
  {
    match leaf(vpn)
    case None => 0
    case Some(e) => EntryPpn(e)
  }

  /** From one state of the allocator and a table's frames to a later one:
      no frame in use was released, and every frame the table gained was
      free before. */
  ghost predicate Grows(s0: AllocatorState, meta0: seq<nat>, s1: AllocatorState, meta1: seq<nat>)
  {
    Live(s0) <= Live(s1) && forall f :: f in meta1 && f !in meta0 ==> f !in Live(s0)
  }

  /** After i levels of `find_pte_then_alloc` from mem0: the walk reaches
      ppn, one fresh table was appended and one frame taken per table
      missing so far, the rest of the walk is as it was, and no leaf
      changed. */
  ghost predicate WalkProgress(mem0: Memory, meta0: seq<nat>, state0: AllocatorState,
                               mem: Memory, meta: seq<nat>, state: AllocatorState, root: nat, vpn: nat, i: nat, ppn: nat)
    requires i <= 2
  {
    |meta0| <= |meta| && meta[..|meta0|] == meta0 &&
    |meta| == |meta0| + MissingTables(mem0, root, vpn, i) &&
    Free(state) + MissingTables(mem0, root, vpn, i) == Free(state0) &&
    WalkFrame(mem, root, vpn, i) == Some(ppn) &&
    (i < 2 ==> WalkFrame(mem, root, vpn, 2) == WalkFrame(mem0, root, vpn, 2)) &&
    (forall v :: LeafEntry(mem, root, v) == LeafEntry(mem0, root, v)) &&
    (MissingTables(mem0, root, vpn, i) == 0 ==> mem == mem0 && meta == meta0 && state == state0) &&
    Grows(state0, meta0, state, meta)
  }

  /** Growth over two steps is growth. */
  lemma GrowsTrans(s0: AllocatorState, meta0: seq<nat>, s1: AllocatorState, meta1: seq<nat>, s2: AllocatorState, meta2: seq<nat>)
    requires Grows(s0, meta0, s1, meta1) && Grows(s1, meta1, s2, meta2)
    ensures Grows(s0, meta0, s2, meta2)
  {
  }

  /** A prefix survives an unchanged list or one more element. */
  lemma PrefixKept(meta0: seq<nat>, meta1: seq<nat>, meta2: seq<nat>)
    requires |meta0| <= |meta1| && meta1[..|meta0|] == meta0
    requires meta2 == meta1 || (|meta2| == |meta1| + 1 && meta2[..|meta1|] == meta1)
    ensures |meta0| <= |meta2| && meta2[..|meta0|] == meta0
  {
    if meta2 != meta1 {
      assert meta2[..|meta0|] == meta2[..|meta1|][..|meta0|];
    }
  }

  class PageTable {
    var root_ppn: nat
    var mem: Memory
    /** `data_frames`: the data frame owned for each virtual page. */
    var data_frames: map<nat, nat>
    /** `metadata_frames`: the frames holding the table itself. */
    var metadata_frames: seq<nat>
    ghost var level: map<nat, nat>
    ghost var parent: map<nat, Location>

    ghost predicate Valid()
      reads this
    {
      TreeShaped(mem, root_ppn, level, parent) && root_ppn < PPN_LIMIT &&
      (forall f :: f in mem <==> f in metadata_frames)
    }

    /** The table's frames are in use in the allocator, whose frames all
        have page numbers below 2^44. */
    ghost predicate Owns(alloc: StackFrameAllocator)
      reads this, alloc
    {
      alloc.Valid() && alloc.current <= alloc.end <= PPN_LIMIT &&
      forall f :: f in metadata_frames ==> f in Live(alloc.State())
    }

    /** `PageTable::new`: a zeroed root frame. The source panics when no
        frame is free. */
    constructor (alloc: StackFrameAllocator)
      requires alloc.Valid() && alloc.current <= alloc.end <= PPN_LIMIT
      requires Free(alloc.State()) > 0
      modifies alloc
      ensures Valid() && Owns(alloc)
      ensures metadata_frames == [root_ppn] && data_frames == map[]
      ensures forall v :: LeafEntry(mem, root_ppn, v) == EMPTY
      ensures AllocStep(old(alloc.State())) == AllocResult(Some(root_ppn), alloc.State())
    {
      AllocUsesOneFree(alloc.State());
      var frame := alloc.Alloc();
      var f := frame.value;
      root_ppn := f;
      mem := map[f := Zeros(ENTRIES)];
      data_frames := map[];
      metadata_frames := [f];
      level := map[f := 0];
      parent := map[];
      new;
      NewEntryValid(0, 0);
      forall v ensures LeafEntry(mem, root_ppn, v) == EMPTY {
        assert ReadEntry(mem, root_ppn, Idx(v, 0)) == 0;
      }
    }

    /** `insert`: replace vpn's data frame and return the previous one. */
    method Insert(vpn: nat, frame: nat) returns (prev: Option<nat>)
      modifies this
      ensures data_frames == old(data_frames)[vpn := frame]
      ensures prev == if vpn in old(data_frames) then Some(old(data_frames)[vpn]) else None
      ensures root_ppn == old(root_ppn) && mem == old(mem) && metadata_frames == old(metadata_frames)
      ensures level == old(level) && parent == old(parent)
    {
      prev := if vpn in data_frames then Some(data_frames[vpn]) else None;
      data_frames := data_frames[vpn := frame];
    }

    /** `remove`: take vpn's data frame out. */
    method Remove(vpn: nat) returns (prev: Option<nat>)
      modifies this
      ensures data_frames == old(data_frames) - {vpn}
      ensures prev == if vpn in old(data_frames) then Some(old(data_frames)[vpn]) else None
      ensures root_ppn == old(root_ppn) && mem == old(mem) && metadata_frames == old(metadata_frames)
      ensures level == old(level) && parent == old(parent)
    {
      prev := if vpn in data_frames then Some(data_frames[vpn]) else None;
      data_frames := data_frames - {vpn};
    }

    /** `find_pte`: walk down two levels, giving up at an invalid entry. */
    method FindPte(vpn: nat) returns (loc: Option<Location>)
      requires Valid()
      ensures loc == LeafLocation(mem, root_ppn, vpn)
    {
      var ppn := root_ppn;
      var i := 0;
      while i < 2
        invariant 0 <= i <= 2
        invariant WalkFrame(mem, root_ppn, vpn, i) == Some(ppn)
      {
        var pte := ReadEntry(mem, ppn, Idx(vpn, i));
        if !IsValid(pte) {
          assert WalkFrame(mem, root_ppn, vpn, i + 1).None?;
          assert WalkFrame(mem, root_ppn, vpn, 2).None?;
          return None;
        }
        ppn := EntryPpn(pte);
        i := i + 1;
      }
      loc := Some(Location(ppn, Idx(vpn, 2)));
    }

    /** One round of `find_pte_then_alloc`'s loop at level i: follow the
        entry, or install a fresh zeroed table when it is invalid. None
        stands for the panic when no frame is free. */
    method StepDown(vpn: nat, i: nat, ppn: nat, alloc: StackFrameAllocator) returns (child: Option<nat>)
      requires i < 2 && Valid() && Owns(alloc) && WalkFrame(mem, root_ppn, vpn, i) == Some(ppn)
      modifies this, alloc
      ensures Valid() && Owns(alloc)
      ensures root_ppn == old(root_ppn) && data_frames == old(data_frames)
      ensures forall v :: LeafEntry(mem, root_ppn, v) == LeafEntry(old(mem), root_ppn, v)
      ensures WalkFrame(old(mem), root_ppn, vpn, i + 1).Some? ==>
        mem == old(mem) && metadata_frames == old(metadata_frames) && alloc.State() == old(alloc.State()) &&
        child == WalkFrame(mem, root_ppn, vpn, i + 1)
      ensures WalkFrame(old(mem), root_ppn, vpn, i + 1).None? ==>
        (child.Some? <==> Free(old(alloc.State())) > 0)
      ensures child.None? ==> mem == old(mem) && metadata_frames == old(metadata_frames)
      ensures WalkFrame(old(mem), root_ppn, vpn, i + 1).None? && child.Some? ==>
        metadata_frames == old(metadata_frames) + [child.value] &&
        Free(alloc.State()) + 1 == Free(old(alloc.State())) &&
        WalkFrame(mem, root_ppn, vpn, i + 1) == child &&
        (i == 0 ==> WalkFrame(mem, root_ppn, vpn, 2).None?)
      ensures Grows(old(alloc.State()), old(metadata_frames), alloc.State(), metadata_frames)
    {
      WalkLevels(mem, root_ppn, level, parent, vpn, i);
      var idx := Idx(vpn, i);
      var pte := mem[ppn][idx];
      assert pte == ReadEntry(mem, ppn, idx);
      if IsValid(pte) {
        child := Some(EntryPpn(pte));
        return;
      }
      child := AllocTable(vpn, i, ppn, alloc);
    }

    /** The invalid-entry branch of one walk step: take a frame from the
        allocator and install it as a zeroed table. */
    method AllocTable(vpn: nat, i: nat, ppn: nat, alloc: StackFrameAllocator) returns (child: Option<nat>)
      requires i < 2 && Valid() && Owns(alloc) && WalkFrame(mem, root_ppn, vpn, i) == Some(ppn)
      requires !IsValid(ReadEntry(mem, ppn, Idx(vpn, i)))
      modifies this, alloc
      ensures Valid() && Owns(alloc)
      ensures root_ppn == old(root_ppn) && data_frames == old(data_frames)
      ensures forall v :: LeafEntry(mem, root_ppn, v) == LeafEntry(old(mem), root_ppn, v)
      ensures child.Some? <==> Free(old(alloc.State())) > 0
      ensures child.None? ==> mem == old(mem) && metadata_frames == old(metadata_frames)
      ensures child.Some? ==>
        metadata_frames == old(metadata_frames) + [child.value] &&
        Free(alloc.State()) + 1 == Free(old(alloc.State())) &&
        WalkFrame(mem, root_ppn, vpn, i + 1) == child &&
        (i == 0 ==> WalkFrame(mem, root_ppn, vpn, 2).None?)
      ensures Grows(old(alloc.State()), old(metadata_frames), alloc.State(), metadata_frames)
    {
      AllocUsesOneFree(alloc.State());
      var frame := alloc.Alloc();
      if frame.None? {
        return None;
      }
      var c := frame.value;
      assert c !in metadata_frames;
      assert c in Live(alloc.State());
      AddTable(vpn, i, ppn, c);
      child := Some(c);
    }

    /** Install the fresh frame c below (ppn, Idx(vpn, i)). */
    method AddTable(vpn: nat, i: nat, ppn: nat, c: nat)
      requires i < 2 && Valid() && WalkFrame(mem, root_ppn, vpn, i) == Some(ppn)
      requires !IsValid(ReadEntry(mem, ppn, Idx(vpn, i)))
      requires c !in metadata_frames && c < PPN_LIMIT
      modifies this`mem, this`level, this`parent, this`metadata_frames
      ensures Valid()
      ensures metadata_frames == old(metadata_frames) + [c]
      ensures forall v :: LeafEntry(mem, root_ppn, v) == LeafEntry(old(mem), root_ppn, v)
      ensures WalkFrame(mem, root_ppn, vpn, i + 1) == Some(c)
      ensures i == 0 ==> WalkFrame(mem, root_ppn, vpn, 2).None?
    {
      var idx := Idx(vpn, i);
      AddTableFacts(mem, root_ppn, level, parent, vpn, i, ppn, c);
      var meta' := metadata_frames + [c];
      mem := Install(mem, ppn, idx, c);
      level := level[c := i + 1];
      parent := parent[c := Location(ppn, idx)];
      metadata_frames := meta';
    }

    /** `find_pte_then_alloc`: walk down two levels, installing a fresh
        zeroed table at each invalid entry and recording it in
        `metadata_frames`. None stands for the panic when no frame is free. */
    method FindPteThenAlloc(vpn: nat, alloc: StackFrameAllocator) returns (loc: Option<Location>)
      requires Valid() && Owns(alloc)
      modifies this, alloc
      ensures Valid() && Owns(alloc)
      ensures root_ppn == old(root_ppn) && data_frames == old(data_frames)
      ensures |old(metadata_frames)| <= |metadata_frames| && metadata_frames[..|old(metadata_frames)|] == old(metadata_frames)
      ensures forall v :: LeafEntry(mem, root_ppn, v) == LeafEntry(old(mem), root_ppn, v)
      ensures loc.Some? <==> MissingTables(old(mem), root_ppn, vpn, 2) <= Free(old(alloc.State()))
      ensures loc.Some? ==> (loc == LeafLocation(mem, root_ppn, vpn) &&
        |metadata_frames| == |old(metadata_frames)| + MissingTables(old(mem), root_ppn, vpn, 2))
      ensures MissingTables(old(mem), root_ppn, vpn, 2) == 0 ==>
        mem == old(mem) && metadata_frames == old(metadata_frames) && alloc.State() == old(alloc.State())
      ensures Grows(old(alloc.State()), old(metadata_frames), alloc.State(), metadata_frames)
    {
      ghost var mem0, meta0, state0 := mem, metadata_frames, alloc.State();
      var ppn := root_ppn;
      var i := 0;
      while i < 2
        invariant 0 <= i <= 2
        invariant Valid() && Owns(alloc)
        invariant root_ppn == old(root_ppn) && data_frames == old(data_frames)
        invariant WalkProgress(mem0, meta0, state0, mem, metadata_frames, alloc.State(), root_ppn, vpn, i, ppn)
      {
        var child := Descend(vpn, i, ppn, alloc, mem0, meta0, state0);
        if child.None? {
          return None;
        }
        ppn := child.value;
        i := i + 1;
      }
      loc := Some(Location(ppn, Idx(vpn, 2)));
    }


    /** One level of `find_pte_then_alloc`: step below ppn, allocating the
        table when the entry is invalid. It fails only when a table is
        missing and no frame is free. */
    method Descend(vpn: nat, i: nat, ppn: nat, alloc: StackFrameAllocator,
                   ghost mem0: Memory, ghost meta0: seq<nat>, ghost state0: AllocatorState) returns (child: Option<nat>)
      requires i < 2 && Valid() && Owns(alloc)
      requires WalkProgress(mem0, meta0, state0, mem, metadata_frames, alloc.State(), root_ppn, vpn, i, ppn)
      modifies this, alloc
      ensures Valid() && Owns(alloc)
      ensures root_ppn == old(root_ppn) && data_frames == old(data_frames)
      ensures child.Some? ==> WalkProgress(mem0, meta0, state0, mem, metadata_frames, alloc.State(), root_ppn, vpn, i + 1, child.value)
      ensures child.None? ==> MissingTables(mem0, root_ppn, vpn, 2) > Free(state0)
      ensures child.None? ==> (mem == old(mem) && metadata_frames == old(metadata_frames) &&
        Grows(state0, meta0, alloc.State(), metadata_frames))
    {
      ghost var memA, metaA, stateA := mem, metadata_frames, alloc.State();
      child := StepDown(vpn, i, ppn, alloc);
      assert WalkFrame(memA, root_ppn, vpn, i + 1) == WalkFrame(mem0, root_ppn, vpn, i + 1);
      assert MissingTables(mem0, root_ppn, vpn, i + 1) ==
        MissingTables(mem0, root_ppn, vpn, i) + (if WalkFrame(mem0, root_ppn, vpn, i + 1).None? then 1 else 0);
      GrowsTrans(state0, meta0, stateA, metaA, alloc.State(), metadata_frames);
      if child.None? {
        return;
      }
      PrefixKept(meta0, metaA, metadata_frames);
    }

    /** `map`: install `ppn` with `flags | V` as vpn's leaf. False stands
        for the two panics: no frame for a missing table, or vpn already
        mapped. */
    method Map(vpn: nat, ppn: nat, flags: Flags, alloc: StackFrameAllocator) returns (ok: bool)
      requires Valid() && Owns(alloc)
      modifies this, alloc
      ensures Valid() && Owns(alloc)
      ensures root_ppn == old(root_ppn) && data_frames == old(data_frames)
      ensures ok <==> (!IsValid(LeafEntry(old(mem), root_ppn, vpn)) &&
        MissingTables(old(mem), root_ppn, vpn, 2) <= Free(old(alloc.State())))
      ensures ok ==> Translate(mem, root_ppn, vpn) == Some(NewEntry(ppn, flags | V))
      ensures ok ==> forall v :: Indexes(v) != Indexes(vpn) ==> LeafEntry(mem, root_ppn, v) == LeafEntry(old(mem), root_ppn, v)
      ensures Grows(old(alloc.State()), old(metadata_frames), alloc.State(), metadata_frames)
    {
      if IsValid(LeafEntry(mem, root_ppn, vpn)) {
        ValidLeafHasFullPath(mem, root_ppn, vpn);
      }
      var loc := FindPteThenAlloc(vpn, alloc);
      if loc.None? {
        return false;
      }
      SetLeaf(mem, root_ppn, level, parent, vpn, NewEntry(ppn, flags | V));
      var l := loc.value;
      if IsValid(mem[l.frame][l.index]) {
        return false;
      }
      WriteLeaf(vpn, l, NewEntry(ppn, flags | V));
      ok := true;
    }

    /** Store e in vpn's leaf entry, found at l. */
    method WriteLeaf(vpn: nat, l: Location, e: nat)
      requires Valid() && LeafLocation(mem, root_ppn, vpn) == Some(l)
      modifies this`mem
      ensures Valid()
      ensures Translate(mem, root_ppn, vpn) == Some(e)
      ensures forall v :: Indexes(v) != Indexes(vpn) ==> LeafEntry(mem, root_ppn, v) == LeafEntry(old(mem), root_ppn, v)
    {
      SetLeaf(mem, root_ppn, level, parent, vpn, e);
      mem := SetEntry(mem, l, e);
    }

    /** `unmap`: clear vpn's leaf. False stands for the two panics: no leaf
        table on the path, or the leaf not valid. */
    method Unmap(vpn: nat) returns (ok: bool)
      requires Valid()
      modifies this
      ensures Valid()
      ensures root_ppn == old(root_ppn) && data_frames == old(data_frames) && metadata_frames == old(metadata_frames)
      ensures ok <==> IsValid(LeafEntry(old(mem), root_ppn, vpn))
      ensures ok ==> Translate(mem, root_ppn, vpn) == Some(EMPTY)
      ensures ok ==> forall v :: Indexes(v) != Indexes(vpn) ==> LeafEntry(mem, root_ppn, v) == LeafEntry(old(mem), root_ppn, v)
      ensures !ok ==> mem == old(mem)
    {
      NewEntryValid(0, 0);
      var loc := FindPte(vpn);
      if loc.None? {
        return false;
      }
      SetLeaf(mem, root_ppn, level, parent, vpn, EMPTY);
      var l := loc.value;
      if !IsValid(mem[l.frame][l.index]) {
        return false;
      }
      WriteLeaf(vpn, l, EMPTY);
      ok := true;
    }

    /** `translate`: the leaf entry, copied out, when the walk reaches a
        leaf table. */
    method TranslatePage(vpn: nat) returns (pte: Option<nat>)
      requires Valid()
      ensures pte == Translate(mem, root_ppn, vpn)
      ensures pte.Some? ==> pte.value == LeafEntry(mem, root_ppn, vpn)
    {
      var loc := FindPte(vpn);
      if loc.None? {
        return None;
      }
      pte := Some(ReadEntry(mem, loc.value.frame, loc.value.index));
    }

    /** `token`. */
    function Token(): (satp: nat)
      requires Valid()
      reads this
      ensures FromToken(satp) == root_ppn && satp / MODE_SHIFT == SV39_MODE
    {
      TokenRoundTrip(root_ppn);
      SatpToken(root_ppn)
    }
  }
}
