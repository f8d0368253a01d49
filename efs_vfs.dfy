/** The inode layer of easy-fs (easy-fs/src/vfs.rs) over an abstract disk:
    every disk inode is a Node holding its kind, its directory entries (for
    a directory, whose size is the number of entries times DIRENT_SIZE) and
    its bytes (for a regular file, whose size is their number). Blocks,
    bitmaps and the block cache underneath are modelled on their own
    (EfsLayout, EfsBitmap, EfsBlockCache). */
module Vfs {
  import opened Wrappers
  import Utf8

  /** `size_of::<Dirent>()`: a 28-byte name field and a u32 inode number. */
  const DIRENT_SIZE: nat := 32

  /** The root directory's inode number. */
  const ROOT: nat := 0

  datatype Kind = RegularFile | Directory

  datatype DirEntry = DirEntry(name: string, inode: nat)

  datatype Node = Node(kind: Kind, entries: seq<DirEntry>, data: seq<bv8>)

  /** `DiskInode::initialize`: a node of the given kind with size 0. */
  function EmptyNode(kind: Kind): (n: Node)
    ensures FileSize(n) == 0 && n.kind == kind
  {
    Node(kind, [], [])
  }

  /** `file_size`: the size field of the disk inode. */
  function FileSize(n: Node): nat
  {
    if n.kind == Directory then |n.entries| * DIRENT_SIZE else |n.data|
  }

  /** `NAME_LENGTH_LIMIT + 1`: the bytes of an entry's name field. */
  const NAME_FIELD: nat := 28

  /** The name field of an entry: the name's UTF-8 bytes followed by zeros
      up to 28 bytes (a longer name keeps its first 28 bytes). */
  function NameField(name: string): (f: seq<bv8>)
    ensures |f| == NAME_FIELD
  {
    var b := Utf8.Encode(name);
    if |b| <= NAME_FIELD then b + seq(NAME_FIELD - |b|, _ => 0) else b[..NAME_FIELD]
  }

  /** How a reader such as `ls` recovers a name from its field: the bytes
      before the first zero. */
  function NameBytes(f: seq<bv8>): (b: seq<bv8>)
    ensures |b| <= |f| && b == f[..|b|]
    ensures forall i :: 0 <= i < |b| ==> b[i] != 0
    ensures |b| < |f| ==> f[|b|] == 0
  {
    if f == [] || f[0] == 0 then [] else [f[0]] + NameBytes(f[1..])
  }

  /** Bytes without a zero, then a zero: the name read back is those
      bytes. */
  lemma {:induction false} NameBytesOfPadded(b: seq<bv8>, z: seq<bv8>)
    requires forall i :: 0 <= i < |b| ==> b[i] != 0
    requires |z| > 0 && z[0] == 0
    ensures NameBytes(b + z) == b
  {
    if b != [] {
      assert (b + z)[1..] == b[1..] + z;
      NameBytesOfPadded(b[1..], z);
    } else {
      assert (b + z)[0] == 0;
    }
  }

  /** A name of at most 27 bytes without NUL characters is read back from
      its field exactly. */
  lemma NameFieldRoundTrip(name: string)
    requires forall i :: 0 <= i < |name| ==> name[i] != 0 as char
    requires |Utf8.Encode(name)| < NAME_FIELD
    ensures NameBytes(NameField(name)) == Utf8.Encode(name)
  {
    var b := Utf8.Encode(name);
    Utf8.EncodeNoZero(name);
    NameBytesOfPadded(b, seq(NAME_FIELD - |b|, _ => 0));
  }

  /** A u32 in little-endian byte order, as it lies in memory on RISC-V;
      the number is cut to 32 bits. */
  function Le32(x: nat): (bs: seq<bv8>)
    ensures |bs| == 4 && DecodeLe32(bs) == (x % 0x1_0000_0000) as bv32
  {
    var v := (x % 0x1_0000_0000) as bv32;
    [(v & 0xFF) as bv8, ((v >> 8) & 0xFF) as bv8, ((v >> 16) & 0xFF) as bv8, (v >> 24) as bv8]
  }

  function DecodeLe32(bs: seq<bv8>): bv32
    requires |bs| == 4
  {
    bs[0] as bv32 | (bs[1] as bv32 << 8) | (bs[2] as bv32 << 16) | (bs[3] as bv32 << 24)
  }

  /** `DirEntry::as_bytes`: the name field, then the inode number. */
  function EncodeEntry(e: DirEntry): (bs: seq<bv8>)
    ensures |bs| == DIRENT_SIZE
    ensures bs[..NAME_FIELD] == NameField(e.name)
    ensures DecodeLe32(bs[NAME_FIELD..]) == (e.inode % 0x1_0000_0000) as bv32
  {
    assert (NameField(e.name) + Le32(e.inode))[NAME_FIELD..] == Le32(e.inode);
    NameField(e.name) + Le32(e.inode)
  }

  /** A directory's bytes: its entries' encodings one after another. */
  function EncodeEntries(es: seq<DirEntry>): seq<bv8>
  {
    if es == [] then [] else EncodeEntry(es[0]) + EncodeEntries(es[1..])
  }

  /** One entry in front of a directory's bytes moves entry i - 1 of
      the rest to entry i. */
  lemma ChunkAfterHead(head: seq<bv8>, tail: seq<bv8>, i: nat, e: seq<bv8>)
    requires |head| == DIRENT_SIZE && 1 <= i && i * DIRENT_SIZE <= |tail|
    requires tail[(i - 1) * DIRENT_SIZE..i * DIRENT_SIZE] == e
    ensures (head + tail)[i * DIRENT_SIZE..(i + 1) * DIRENT_SIZE] == e
  {
    assert (head + tail)[i * DIRENT_SIZE..(i + 1) * DIRENT_SIZE] == tail[(i - 1) * DIRENT_SIZE..i * DIRENT_SIZE];
  }

  /** Entry i occupies bytes 32 i to 32 (i + 1) of the directory, which is
      how `ls` cuts the bytes it reads into entries. */
  lemma {:induction false} EncodeEntriesChunks(es: seq<DirEntry>)
    ensures |EncodeEntries(es)| == |es| * DIRENT_SIZE
    ensures forall i :: 0 <= i < |es| ==>
      EncodeEntries(es)[i * DIRENT_SIZE..(i + 1) * DIRENT_SIZE] == EncodeEntry(es[i])
  {
    if es != [] {
      var head := EncodeEntry(es[0]);
      var tail := EncodeEntries(es[1..]);
      EncodeEntriesChunks(es[1..]);
      assert EncodeEntries(es) == head + tail;
      forall i | 0 <= i < |es|
        ensures (head + tail)[i * DIRENT_SIZE..(i + 1) * DIRENT_SIZE] == EncodeEntry(es[i])
      {
        if i == 0 {
          assert (head + tail)[..DIRENT_SIZE] == head;
        } else {
          assert es[1..][i - 1] == es[i];
          ChunkAfterHead(head, tail, i, EncodeEntry(es[i]));
        }
      }
    }
  }

  /** The bytes `read_at` sees: a directory's encoded entries, or a regular
      file's data; there are as many as the size field says. */
  function Bytes(n: Node): (bs: seq<bv8>)
    ensures |bs| == FileSize(n)
  {
    EncodeEntriesChunks(n.entries);
    if n.kind == Directory then EncodeEntries(n.entries) else n.data
  }

  /** The index of the first entry with this name. */
  function FirstEntry(entries: seq<DirEntry>, name: string): (r: Option<nat>)
    ensures r.Some? ==> r.value < |entries| && entries[r.value].name == name
    ensures r.Some? ==> forall j :: 0 <= j < r.value ==> entries[j].name != name
    ensures r.None? <==> forall j :: 0 <= j < |entries| ==> entries[j].name != name
  {
    if |entries| == 0 then None
    else if entries[0].name == name then Some(0)
    else match FirstEntry(entries[1..], name)
      case None => None
      case Some(i) => Some(i + 1)
  }

  lemma {:induction false} FirstEntryIs(entries: seq<DirEntry>, name: string, i: nat)
    requires i < |entries| && entries[i].name == name
    requires forall j :: 0 <= j < i ==> entries[j].name != name
    ensures FirstEntry(entries, name) == Some(i)
  {
    if i > 0 {
      FirstEntryIs(entries[1..], name, i - 1);
    }
  }

  /** What `find_inode_id` gives for a node: a panic unless it is a
      directory, else the inode number of the first entry with the name. */
  function Lookup(n: Node, name: string): Outcome<Option<nat>>
  {
    if n.kind != Directory then Panics
    else match FirstEntry(n.entries, name)
      case None => Returns(None)
      case Some(i) => Returns(Some(n.entries[i].inode))
  }

  /** `read_at`: the bytes from offset up to offset + len, cut at the end of
      the file; nothing at or past the end. */
  function ReadAt(data: seq<bv8>, offset: nat, len: nat): (r: seq<bv8>)
    ensures |r| == if offset >= |data| then 0 else if offset + len <= |data| then len else |data| - offset
    ensures forall i :: 0 <= i < |r| ==> r[i] == data[offset + i]
  {
    if offset >= |data| then []
    else if offset + len <= |data| then data[offset..offset + len]
    else data[offset..]
  }

  /** `write_at` on the bytes: the file grows to cover offset + |buf|
      (new bytes before offset read as zero) and the buffer lands at
      offset. */
  function WriteBytes(data: seq<bv8>, offset: nat, buf: seq<bv8>): (r: seq<bv8>)
    ensures |r| == if offset + |buf| > |data| then offset + |buf| else |data|
  {
    var padded := if |data| < offset then data + seq(offset - |data|, _ => 0 as bv8) else data;
    padded[..offset] + buf + (if offset + |buf| < |padded| then padded[offset + |buf|..] else [])
  }

  /** What a write leaves byte by byte: the buffer at offset, the old
      bytes elsewhere, zeros in the gap past the old end. */
  lemma WriteBytesContents(data: seq<bv8>, offset: nat, buf: seq<bv8>)
    ensures var r := WriteBytes(data, offset, buf);
      (forall i :: 0 <= i < |buf| ==> r[offset + i] == buf[i]) &&
      (forall i :: 0 <= i < |data| && !(offset <= i < offset + |buf|) ==> r[i] == data[i]) &&
      (forall i :: |data| <= i < offset ==> r[i] == 0)
  {
  }

  /** Reading back what was just written returns it; a cleared file reads
      as empty. */
  lemma WriteThenRead(data: seq<bv8>, offset: nat, buf: seq<bv8>, len: nat)
    ensures ReadAt(WriteBytes(data, offset, buf), offset, |buf|) == buf
    ensures ReadAt([], offset, len) == []
  {
    WriteBytesContents(data, offset, buf);
  }

  /** Two writes back to back are one write of both buffers. */
  lemma WriteBytesConcat(data: seq<bv8>, offset: nat, a: seq<bv8>, b: seq<bv8>)
    ensures WriteBytes(WriteBytes(data, offset, a), offset + |a|, b) == WriteBytes(data, offset, a + b)
  {
    var l := WriteBytes(WriteBytes(data, offset, a), offset + |a|, b);
    var r := WriteBytes(data, offset, a + b);
    WriteBytesContents(data, offset, a);
    WriteBytesContents(WriteBytes(data, offset, a), offset + |a|, b);
    WriteBytesContents(data, offset, a + b);
    assert |l| == |r|;
    forall i | 0 <= i < |l|
      ensures l[i] == r[i]
    {
      if offset + |a| <= i < offset + |a| + |b| {
        assert l[i] == b[i - offset - |a|] == (a + b)[i - offset];
      } else if offset <= i < offset + |a| {
        assert l[i] == a[i - offset] == (a + b)[i - offset];
      }
    }
  }

  /** The loop of `delete`: `count` entries are scanned; an entry with the
      name is overwritten with `last` (the entry that was last before the
      loop) and the directory shrinks to count - 1 entries. A slot past the
      shrunk end reads as the empty entry, taken here to match no name. */
  function DeleteScan(entries: seq<DirEntry>, name: string, last: DirEntry, count: nat, i: nat): seq<DirEntry>
    requires count >= 1
    decreases count - i
  {
    if i >= count then entries
    else if i < |entries| && entries[i].name == name then
      DeleteScan(ShrinkTo(entries[i := last], count - 1), name, last, count, i + 1)
    else DeleteScan(entries, name, last, count, i + 1)
  }

  /** `decrease_size` to n entries: a no-op when there are not more. */
  function ShrinkTo(entries: seq<DirEntry>, n: nat): (r: seq<DirEntry>)
    ensures |r| == if n < |entries| then n else |entries|
    ensures forall i :: 0 <= i < |r| ==> r[i] == entries[i]
  {
    if n < |entries| then entries[..n] else entries
  }

  /** Names are unique within the directory. */
  predicate DistinctNames(entries: seq<DirEntry>)
  {
    forall i, j :: 0 <= i < j < |entries| ==> entries[i].name != entries[j].name
  }

  lemma {:induction false} DeleteScanNoMatch(entries: seq<DirEntry>, name: string, last: DirEntry, count: nat, i: nat)
    requires count >= 1
    requires forall j :: i <= j < count && j < |entries| ==> entries[j].name != name
    ensures DeleteScan(entries, name, last, count, i) == entries
    decreases count - i
  {
    if i < count {
      DeleteScanNoMatch(entries, name, last, count, i + 1);
    }
  }

  lemma {:induction false} DeleteScanFrom(entries: seq<DirEntry>, name: string, last: DirEntry, count: nat, i: nat, k: nat)
    requires count >= 1 && i <= k < count && k < |entries| && entries[k].name == name
    requires forall j :: i <= j < k ==> entries[j].name != name
    requires forall j :: k < j < count && j < |entries| ==> entries[j].name != name
    requires |entries| == count
    ensures DeleteScan(entries, name, last, count, i) == entries[k := last][..count - 1]
    decreases k - i
  {
    if i < k {
      DeleteScanFrom(entries, name, last, count, i + 1, k);
    } else {
      var shrunk := ShrinkTo(entries[k := last], count - 1);
      assert shrunk == entries[k := last][..count - 1];
      forall j | k + 1 <= j < count && j < |shrunk|
        ensures shrunk[j].name != name
      {
        assert shrunk[j] == entries[j];
      }
      DeleteScanNoMatch(shrunk, name, last, count, k + 1);
    }
  }

  /** With unique names, `delete` is a swap-remove: the entry with the name
      is replaced by the last one and the directory loses one entry; a
      missing name changes nothing. */
  lemma DeleteSwapRemove(entries: seq<DirEntry>, name: string)
    requires |entries| >= 1 && DistinctNames(entries)
    ensures var r := DeleteScan(entries, name, entries[|entries| - 1], |entries|, 0);
      match FirstEntry(entries, name)
      case None => r == entries
      case Some(k) => (r == entries[k := entries[|entries| - 1]][..|entries| - 1] &&
        |r| == |entries| - 1 && name !in (set e | e in r :: e.name))
  {
    var last := entries[|entries| - 1];
    match FirstEntry(entries, name)
    case None =>
      DeleteScanNoMatch(entries, name, last, |entries|, 0);
    case Some(k) =>
      DeleteScanFrom(entries, name, last, |entries|, 0, k);
      var r := entries[k := last][..|entries| - 1];
      forall e | e in r
        ensures e.name != name
      {
        var j :| 0 <= j < |r| && r[j] == e;
        if j == k {
          assert e == last;
        } else {
          assert e == entries[j];
        }
      }
  }

  /** Every directory entry names an inode that exists. */
  predicate Closed(nodes: map<nat, Node>)
  {
    forall id, k :: id in nodes && 0 <= k < |nodes[id].entries| ==> nodes[id].entries[k].inode in nodes
  }

  /** Every entry a delete scan leaves was in the directory before or is
      the remembered last entry. */
  lemma {:induction false} DeleteScanEntries(entries: seq<DirEntry>, name: string, last: DirEntry, count: nat, i: nat)
    requires count >= 1
    ensures forall e :: e in DeleteScan(entries, name, last, count, i) ==> e in entries || e == last
    decreases count - i
  {
    if i < count {
      if i < |entries| && entries[i].name == name {
        var next := ShrinkTo(entries[i := last], count - 1);
        DeleteScanEntries(next, name, last, count, i + 1);
        forall e | e in next
          ensures e in entries || e == last
        {
          var j :| 0 <= j < |next| && next[j] == e;
          if j != i {
            assert e == entries[j];
          }
        }
      } else {
        DeleteScanEntries(entries, name, last, count, i + 1);
      }
    }
  }

  class Volume {
    var nodes: map<nat, Node>

    /** The root exists and no entry dangles. */
    ghost predicate Valid()
      reads this
    {
      ROOT in nodes && Closed(nodes)
    }

    /** `EasyFileSystem::create`: the only inode is the root, an empty
        directory at inode 0. */
    constructor ()
      ensures Valid() && nodes == map[ROOT := EmptyNode(Directory)]
    {
      nodes := map[ROOT := EmptyNode(Directory)];
    }

    /** `find_inode_id` / `find`: assert the node is a directory, then scan
        its entries in order for the first with the name. */
    method Find(dir: nat, name: string) returns (r: Outcome<Option<nat>>)
      requires dir in nodes
      ensures r == Lookup(nodes[dir], name)
      ensures r == Panics <==> nodes[dir].kind != Directory
    {
      var node := nodes[dir];
      if node.kind != Directory {
        return Panics;
      }
      var i := 0;
      while i < |node.entries|
        invariant 0 <= i <= |node.entries|
        invariant forall j :: 0 <= j < i ==> node.entries[j].name != name
      {
        if node.entries[i].name == name {
          FirstEntryIs(node.entries, name, i);
          return Returns(Some(node.entries[i].inode));
        }
        i := i + 1;
      }
      r := Returns(None);
    }

    /** `create_inode`: None if the name is taken; otherwise the new inode
        (number `newId`, since `alloc_inode` is not implemented) is
        initialised empty and an entry for it is appended to the directory. */
    method CreateInode(dir: nat, name: string, kind: Kind, newId: nat) returns (r: Outcome<Option<nat>>)
      requires Valid() && dir in nodes && newId !in nodes
      modifies this
      ensures Valid()
      ensures old(nodes[dir]).kind != Directory ==> r == Panics && nodes == old(nodes)
      ensures old(nodes[dir]).kind == Directory && FirstEntry(old(nodes[dir]).entries, name).Some? ==>
        r == Returns(None) && nodes == old(nodes)
      ensures old(nodes[dir]).kind == Directory && FirstEntry(old(nodes[dir]).entries, name).None? ==>
        r == Returns(Some(newId)) &&
        nodes == old(nodes)[newId := EmptyNode(kind)][dir := old(nodes[dir]).(entries := old(nodes[dir]).entries + [DirEntry(name, newId)])]
      ensures r.Returns? && r.value.Some? ==> FileSize(nodes[dir]) == FileSize(old(nodes[dir])) + DIRENT_SIZE
    {
      var found := Find(dir, name);
      if found.Panics? {
        return Panics;
      }
      if found.value.Some? {
        return Returns(None);
      }
      var d := nodes[dir];
      nodes := nodes[newId := EmptyNode(kind)];
      nodes := nodes[dir := d.(entries := d.entries + [DirEntry(name, newId)])];
      assert forall k :: 0 <= k < |d.entries| ==> d.entries[k].inode in old(nodes);
      r := Returns(Some(newId));
    }

    /** `set_default_dirent`: grow the directory to at least two entries
        and write "." (the node itself) at entry 0 and ".." (the parent) at
        entry 1. */
    method SetDefaultDirent(id: nat, parent: nat)
      requires Valid() && id in nodes && nodes[id].kind == Directory && parent in nodes
      modifies this
      ensures Valid()
      ensures nodes == old(nodes)[id := old(nodes[id]).(entries := DefaultDirents(old(nodes[id]).entries, id, parent))]
      ensures |nodes[id].entries| >= 2 && nodes[id].entries[0] == DirEntry(".", id) && nodes[id].entries[1] == DirEntry("..", parent)
    {
      var d := nodes[id];
      var es := if |d.entries| >= 2 then d.entries else [DirEntry("", 0), DirEntry("", 0)];
      es := es[0 := DirEntry(".", id)][1 := DirEntry("..", parent)];
      assert forall i :: 0 <= i < |es| ==> es[i] == DefaultDirents(d.entries, id, parent)[i];
      assert es == DefaultDirents(d.entries, id, parent);
      nodes := nodes[id := d.(entries := es)];
    }

    /** `create_dir`: create a directory entry and give the new directory
        its "." and ".." entries. */
    method CreateDir(dir: nat, name: string, newId: nat) returns (r: Outcome<Option<nat>>)
      requires Valid() && dir in nodes && newId !in nodes
      modifies this
      ensures Valid()
      ensures old(nodes[dir]).kind != Directory <==> r == Panics
      ensures r.Returns? && r.value.None? <==> old(nodes[dir]).kind == Directory && FirstEntry(old(nodes[dir]).entries, name).Some?
      ensures (r.Returns? && r.value.None?) || r.Panics? ==> nodes == old(nodes)
      ensures r.Returns? && r.value.Some? ==> (r.value.value == newId && newId in nodes && dir in nodes &&
        nodes[newId] == Node(Directory, [DirEntry(".", newId), DirEntry("..", dir)], []) &&
        nodes[dir].entries == old(nodes[dir]).entries + [DirEntry(name, newId)] &&
        nodes == old(nodes)[newId := Node(Directory, [DirEntry(".", newId), DirEntry("..", dir)], [])]
                           [dir := old(nodes[dir]).(entries := old(nodes[dir]).entries + [DirEntry(name, newId)])])
    {
      r := CreateInode(dir, name, Directory, newId);
      if r.Returns? && r.value.Some? {
        SetDefaultDirent(newId, dir);
      }
    }

    /** `clear`: the size drops to 0 (the data blocks go back to the data
        bitmap). */
    method Clear(id: nat)
      requires Valid() && id in nodes
      modifies this
      ensures Valid()
      ensures nodes == old(nodes)[id := old(nodes[id]).(entries := [], data := [])]
      ensures FileSize(nodes[id]) == 0
    {
      var n := nodes[id];
      nodes := nodes[id := n.(entries := [], data := [])];
    }

    /** `write_at`: assert a regular file, grow it to cover the write and
        write the buffer; the whole buffer counts as written. */
    method WriteAt(id: nat, offset: nat, buf: seq<bv8>) returns (r: Outcome<nat>)
      requires Valid() && id in nodes
      modifies this
      ensures Valid()
      ensures r == Panics <==> old(nodes[id]).kind != RegularFile
      ensures r == Panics ==> nodes == old(nodes)
      ensures r.Returns? ==> (r.value == |buf| &&
        nodes == old(nodes)[id := old(nodes[id]).(data := WriteBytes(old(nodes[id]).data, offset, buf))])
    {
      var n := nodes[id];
      if n.kind != RegularFile {
        return Panics;
      }
      nodes := nodes[id := n.(data := WriteBytes(n.data, offset, buf))];
      r := Returns(|buf|);
    }

    /** `delete`: assert a directory, remember its last entry, and scan
        every entry; a match is overwritten with the remembered last entry
        and the directory shrinks by one entry. False stands for the failing
        assertion. On an empty directory the offset `size - DIRENT_SIZE`
        wraps (release build), the read at it ends at offset + 32, which
        wraps to 0, so it reads nothing, and the scan runs zero times:
        nothing changes. */
    method Delete(dir: nat, name: string) returns (ok: bool)
      requires Valid() && dir in nodes
      modifies this
      ensures Valid()
      ensures ok <==> old(nodes[dir]).kind == Directory
      ensures !ok || |old(nodes[dir]).entries| == 0 ==> nodes == old(nodes)
      ensures ok && |old(nodes[dir]).entries| >= 1 ==> (
        var es := old(nodes[dir]).entries;
        nodes == old(nodes)[dir := old(nodes[dir]).(entries := DeleteScan(es, name, es[|es| - 1], |es|, 0))])
    {
      var d := nodes[dir];
      if d.kind != Directory {
        return false;
      }
      ok := true;
      var count := |d.entries|;
      if count == 0 {
        return;
      }
      var last := d.entries[count - 1];
      var es := d.entries;
      var i := 0;
      while i < count
        invariant 0 <= i <= count
        invariant DeleteScan(es, name, last, count, i) == DeleteScan(d.entries, name, last, count, 0)
      {
        if i < |es| && es[i].name == name {
          es := es[i := last];
          if count - 1 < |es| {
            es := es[..count - 1];
          }
        }
        i := i + 1;
      }
      DeleteScanEntries(d.entries, name, last, count, 0);
      assert forall k :: 0 <= k < |es| ==> es[k] in d.entries;
      nodes := nodes[dir := d.(entries := es)];
    }
  }

  /** The entries `set_default_dirent` leaves: "." and ".." in front of
      whatever followed the first two. */
  function DefaultDirents(entries: seq<DirEntry>, id: nat, parent: nat): (r: seq<DirEntry>)
    ensures |r| == if |entries| >= 2 then |entries| else 2
    ensures r[0] == DirEntry(".", id) && r[1] == DirEntry("..", parent)
    ensures forall i :: 2 <= i < |r| ==> r[i] == entries[i]
  {
    [DirEntry(".", id), DirEntry("..", parent)] + (if |entries| >= 2 then entries[2..] else [])
  }
}
