/** The kernel's file layer over easy-fs (kernel/src/fs/inode.rs, and the
    older os/src/fs/inode.rs): open flags, path lookup from the root,
    `open_file` in both generations, and the offset-keeping OSInode whose
    reads and writes go through the inode's `read_at` / `write_at`. */
module FsInode {
  import opened Wrappers
  import opened FsPath
  import opened Vfs

  const RDONLY: bv32 := 0
  const WRONLY: bv32 := 1
  const RDWR: bv32 := 2
  const CREATE: bv32 := 0x200
  const TRUNC: bv32 := 0x400

  /** `OpenFlags::contains`: every bit of f is set. */
  predicate Contains(flags: bv32, f: bv32)
  {
    flags & f == f
  }

  /** `OpenFlags::from_bits` accepts only the five defined bits. */
  predicate KnownFlags(flags: bv32)
  {
    flags & !(WRONLY | RDWR | CREATE | TRUNC) == 0
  }

  function Readable(flags: bv32): bool
  {
    Contains(flags, RDONLY) || Contains(flags, RDWR)
  }

  function Writable(flags: bv32): bool
  {
    Contains(flags, WRONLY) || Contains(flags, RDWR)
  }

  /** RDONLY is the empty flag set, so every open is readable; an open is
      writable exactly when one of the two low bits is set. */
  lemma AccessModes(flags: bv32)
    ensures Readable(flags)
    ensures Writable(flags) <==> flags & 3 != 0
  {
  }

  /** `StatMode`'s file kinds (octal 040000, 0100000 and 0120000). */
  const STAT_DIR: bv32 := 0x4000
  const STAT_REG: bv32 := 0x8000
  const STAT_LNK: bv32 := 0xA000

  /** `OSInode::mode`: REG for a regular file, else DIR for a directory,
      else LNK. Every inode is one of the first two, so LNK never comes
      back. */
  function Mode(n: Node): (m: bv32)
    ensures m == STAT_REG <==> n.kind == RegularFile
    ensures m == STAT_DIR <==> n.kind == Directory
    ensures m != STAT_LNK
  {
    match n.kind
    case RegularFile => STAT_REG
    case Directory => STAT_DIR
  }

  /** `find_inode` as a value: fold over the pieces of the path from the
      given inode, skipping empty pieces; a lookup below a regular file
      panics (the directory assertion of `find_inode_id`). */
  function Walk(nodes: map<nat, Node>, id: nat, pieces: seq<string>): (r: Outcome<Option<nat>>)
    requires id in nodes && Closed(nodes)
    ensures r.Returns? && r.value.Some? ==> r.value.value in nodes
    decreases |pieces|
  {
    if |pieces| == 0 then Returns(Some(id))
    else if pieces[0] == "" then Walk(nodes, id, pieces[1..])
    else match Lookup(nodes[id], pieces[0])
      case Panics => Panics
      case Returns(None) => Returns(None)
      case Returns(Some(child)) => Walk(nodes, child, pieces[1..])
  }

  /** Empty pieces (repeated, leading or trailing separators) never change
      where a walk ends. */
  lemma {:induction false} WalkSkipsEmpty(nodes: map<nat, Node>, id: nat, pieces: seq<string>)
    requires id in nodes && Closed(nodes)
    ensures Walk(nodes, id, [""] + pieces) == Walk(nodes, id, pieces)
    ensures Walk(nodes, id, pieces + [""]) == Walk(nodes, id, pieces)
    decreases |pieces|
  {
    assert ([""] + pieces)[1..] == pieces;
    if |pieces| > 0 {
      assert (pieces + [""])[1..] == pieces[1..] + [""];
      if pieces[0] == "" {
        WalkSkipsEmpty(nodes, id, pieces[1..]);
      } else {
        match Lookup(nodes[id], pieces[0])
        case Panics =>
        case Returns(None) =>
        case Returns(Some(child)) =>
          LookupInNodes(nodes, id, pieces[0]);
          WalkSkipsEmpty(nodes, child, pieces[1..]);
      }
    } else {
      assert pieces + [""] == [""];
    }
  }

  lemma LookupInNodes(nodes: map<nat, Node>, id: nat, name: string)
    requires id in nodes && Closed(nodes)
    ensures Lookup(nodes[id], name).Returns? && Lookup(nodes[id], name).value.Some? ==>
      Lookup(nodes[id], name).value.value in nodes
  {
  }

  /** `find_inode`: walk the pieces of the path from the root. */
  method FindInode(vol: Volume, path: string) returns (r: Outcome<Option<nat>>)
    requires vol.Valid()
    ensures r == Walk(vol.nodes, ROOT, Split(path))
  {
    var pieces := Split(path);
    var cur := ROOT;
    var i := 0;
    while i < |pieces|
      invariant 0 <= i <= |pieces| && cur in vol.nodes
      invariant Walk(vol.nodes, cur, pieces[i..]) == Walk(vol.nodes, ROOT, pieces)
    {
      assert pieces[i..][0] == pieces[i] && pieces[i..][1..] == pieces[i + 1..];
      if pieces[i] != "" {
        var found := vol.Find(cur, pieces[i]);
        match found {
          case Panics => return Panics;
          case Returns(None) => return Returns(None);
          case Returns(Some(child)) =>
            LookupInNodes(vol.nodes, cur, pieces[i]);
            cur := child;
        }
      }
      i := i + 1;
    }
    assert pieces[i..] == [];
    r := Returns(Some(cur));
  }

  /** The position of the last separator. */
  function LastSlash(s: string): (r: Option<nat>)
    ensures r.Some? ==> r.value < |s| && s[r.value] == '/' && '/' !in s[r.value + 1..]
    ensures r.None? <==> '/' !in s
  {
    if |s| == 0 then None
    else if s[|s| - 1] == '/' then Some(|s| - 1)
    else
      var r := LastSlash(s[..|s| - 1]);
      assert forall c :: c in s ==> c in s[..|s| - 1] || c == s[|s| - 1];
      if r.Some? then
        assert s[r.value + 1..] == s[..|s| - 1][r.value + 1..] + [s[|s| - 1]];
        r
      else r
  }

  /** `rsplit_once('/')`, and `("", path)` when there is no separator:
      the parent path and the last name, which holds no separator. */
  function ParentAndName(path: string): (r: (string, string))
    ensures '/' !in r.1
    ensures path == (if '/' in path then r.0 + "/" + r.1 else r.1)
  {
    match LastSlash(path)
    case None => ("", path)
    case Some(i) =>
      assert path == path[..i] + "/" + path[i + 1..];
      (path[..i], path[i + 1..])
  }

  class OSInode {
    const readable: bool
    const writable: bool
    const inode: nat
    var offset: nat

    /** `OSInode::new`: the offset starts at 0. */
    constructor (readable: bool, writable: bool, inode: nat)
      ensures this.readable == readable && this.writable == writable && this.inode == inode && offset == 0
    {
      this.readable := readable;
      this.writable := writable;
      this.inode := inode;
      offset := 0;
    }

    /** `set_offset`: only the offset changes. */
    method SetOffset(newOffset: nat)
      modifies this`offset
      ensures offset == newOffset
    {
      offset := newOffset;
    }

    /** `read`: fill the slices in order from the offset, advancing it by
        each read, and stop at the first read that returns nothing. The
        bytes delivered are the inode's bytes (Bytes: a directory's encoded
        entries, a file's data) from the old offset on; when
        no slice is empty, they are as many as fit or as remain. */
    method Read(vol: Volume, lens: seq<nat>) returns (total: nat, out: seq<seq<bv8>>)
      requires inode in vol.nodes
      modifies this
      ensures offset == old(offset) + total
      ensures Concat(out) == ReadAt(Bytes(vol.nodes[inode]), old(offset), total) && |Concat(out)| == total
      ensures |out| <= |lens| && forall k :: 0 <= k < |out| ==> |out[k]| <= lens[k]
      ensures (forall k :: 0 <= k < |lens| ==> lens[k] > 0) ==>
        total == |ReadAt(Bytes(vol.nodes[inode]), old(offset), Sum(lens))|
    {
      var data := Bytes(vol.nodes[inode]);
      ghost var off0 := offset;
      ghost var avail: nat := if off0 >= |data| then 0 else |data| - off0;
      total := 0;
      out := [];
      var k := 0;
      while k < |lens|
        invariant 0 <= k <= |lens| && |out| == k
        invariant offset == off0 + total && total <= avail
        invariant Concat(out) == ReadAt(data, off0, total) && |Concat(out)| == total
        invariant forall j :: 0 <= j < |out| ==> |out[j]| <= lens[j]
        invariant (forall j :: 0 <= j < |lens| ==> lens[j] > 0) ==>
          total == (if Sum(lens[..k]) <= avail then Sum(lens[..k]) else avail)
      {
        var chunk := ReadAt(data, offset, lens[k]);
        if |chunk| == 0 {
          ReadStopsAtEnd(lens, k, total, avail);
          return;
        }
        ReadStep(data, off0, avail, lens, k, total, out, chunk);
        offset := offset + |chunk|;
        total := total + |chunk|;
        out := out + [chunk];
        k := k + 1;
      }
      assert lens[..k] == lens;
    }

    /** `write`: write every slice in order at the offset, advancing it by
        each slice's length; the first write into something other than a
        regular file panics. All slices together land as one write. */
    method Write(vol: Volume, bufs: seq<seq<bv8>>) returns (r: Outcome<nat>)
      requires vol.Valid() && inode in vol.nodes
      modifies this, vol
      ensures vol.Valid()
      ensures r == Panics <==> |bufs| > 0 && old(vol.nodes[inode]).kind != RegularFile
      ensures r == Panics || |bufs| == 0 ==> vol.nodes == old(vol.nodes)
      ensures r.Returns? ==> r.value == |Concat(bufs)| && offset == old(offset) + r.value
      ensures r.Returns? && |bufs| > 0 ==>
        vol.nodes == old(vol.nodes)[inode := old(vol.nodes[inode]).(data := WriteBytes(old(vol.nodes[inode]).data, old(offset), Concat(bufs)))]
    {
      ghost var node0 := vol.nodes[inode];
      ghost var off0 := offset;
      var total := 0;
      var k := 0;
      while k < |bufs|
        invariant 0 <= k <= |bufs| && inode in vol.nodes && vol.Valid()
        invariant total == |Concat(bufs[..k])| && offset == off0 + total
        invariant k == 0 ==> vol.nodes == old(vol.nodes)
        invariant k > 0 ==> node0.kind == RegularFile
        invariant k > 0 ==> vol.nodes == old(vol.nodes)[inode := node0.(data := WriteBytes(node0.data, off0, Concat(bufs[..k])))]
      {
        ghost var before := vol.nodes;
        ghost var cur := before[inode].data;
        assert before[inode] == node0.(data := cur);
        var written := vol.WriteAt(inode, offset, bufs[k]);
        if written.Panics? {
          return Panics;
        }
        WriteStep(node0.data, off0, bufs, k, cur);
        ghost var next := WriteBytes(node0.data, off0, Concat(bufs[..k + 1]));
        assert WriteBytes(cur, offset, bufs[k]) == next;
        assert vol.nodes[inode] == node0.(data := next);
        offset := offset + written.value;
        total := total + written.value;
        k := k + 1;
      }
      assert bufs[..k] == bufs;
      r := Returns(total);
    }

    /** `read_all`: read 512 bytes at a time from the offset until a read
        returns nothing; the result is the rest of the file, and the offset
        is left at its end. */
    method ReadAll(vol: Volume) returns (v: seq<bv8>)
      requires inode in vol.nodes
      modifies this
      ensures var data := Bytes(vol.nodes[inode]);
        v == (if old(offset) >= |data| then [] else data[old(offset)..]) &&
        offset == (if old(offset) >= |data| then old(offset) else |data|)
      ensures old(offset) == 0 && vol.nodes[inode].kind == Directory ==> v == EncodeEntries(vol.nodes[inode].entries)
    {
      var data := Bytes(vol.nodes[inode]);
      ghost var off0 := offset;
      v := [];
      while true
        invariant offset == off0 + |v|
        invariant off0 < |data| ==> offset <= |data| && v == data[off0..offset]
        invariant off0 >= |data| ==> v == []
        decreases |data| - offset
      {
        var chunk := ReadAt(data, offset, 512);
        if |chunk| == 0 {
          return;
        }
        assert data[off0..offset + |chunk|] == data[off0..offset] + chunk;
        offset := offset + |chunk|;
        v := v + chunk;
      }
    }
  }

  /** One slice of `write` extends the bytes written so far: after the
      first k slices the file holds all of them written at off0, and the
      next slice lands right after them. */
  lemma WriteStep(data0: seq<bv8>, off0: nat, bufs: seq<seq<bv8>>, k: nat, cur: seq<bv8>)
    requires k < |bufs|
    requires cur == if k == 0 then data0 else WriteBytes(data0, off0, Concat(bufs[..k]))
    ensures Concat(bufs[..k + 1]) == Concat(bufs[..k]) + bufs[k]
    ensures WriteBytes(cur, off0 + |Concat(bufs[..k])|, bufs[k]) == WriteBytes(data0, off0, Concat(bufs[..k + 1]))
  {
    assert bufs[..k + 1] == bufs[..k] + [bufs[k]];
    ConcatAppend(bufs[..k], [bufs[k]]);
    assert Concat([bufs[k]]) == bufs[k] + Concat([]);
    if k > 0 {
      WriteBytesConcat(data0, off0, Concat(bufs[..k]), bufs[k]);
    } else {
      assert Concat(bufs[..k]) == [];
    }
  }

  /** One slice of `read`: the chunk read at the offset continues the
      bytes read so far, and the total follows the sum of the lengths
      asked for, cut at the end of the file. */
  lemma ReadStep(data: seq<bv8>, off0: nat, avail: nat, lens: seq<nat>, k: nat, total: nat, out: seq<seq<bv8>>, chunk: seq<bv8>)
    requires k < |lens| && avail == (if off0 >= |data| then 0 else |data| - off0)
    requires total <= avail && Concat(out) == ReadAt(data, off0, total)
    requires (forall j :: 0 <= j < |lens| ==> lens[j] > 0) ==>
      total == (if Sum(lens[..k]) <= avail then Sum(lens[..k]) else avail)
    requires chunk == ReadAt(data, off0 + total, lens[k]) && |chunk| > 0
    ensures total + |chunk| <= avail
    ensures Concat(out + [chunk]) == ReadAt(data, off0, total + |chunk|)
    ensures (forall j :: 0 <= j < |lens| ==> lens[j] > 0) ==>
      total + |chunk| == (if Sum(lens[..k + 1]) <= avail then Sum(lens[..k + 1]) else avail)
  {
    assert lens[..k + 1] == lens[..k] + [lens[k]];
    SumAppend(lens[..k], [lens[k]]);
    ConcatAppend(out, [chunk]);
    assert Concat([chunk]) == chunk + Concat([]);
    assert ReadAt(data, off0, total + |chunk|) == ReadAt(data, off0, total) + chunk;
  }

  /** When a read returns nothing with every slice non-empty, the file is
      exhausted, so the total is what remained, which is also the bound
      for the whole request. */
  lemma ReadStopsAtEnd(lens: seq<nat>, k: nat, total: nat, avail: nat)
    requires k < |lens|
    requires (forall j :: 0 <= j < |lens| ==> lens[j] > 0) ==>
      total == (if Sum(lens[..k]) <= avail then Sum(lens[..k]) else avail)
    requires total <= avail
    requires (forall j :: 0 <= j < |lens| ==> lens[j] > 0) ==> total == avail
    ensures (forall j :: 0 <= j < |lens| ==> lens[j] > 0) ==>
      total == (if Sum(lens) <= avail then Sum(lens) else avail)
  {
    if forall j :: 0 <= j < |lens| ==> lens[j] > 0 {
      SumPrefix(lens, k);
    }
  }

  lemma {:induction false} SumPrefix(s: seq<nat>, k: nat)
    requires k <= |s|
    ensures Sum(s[..k]) <= Sum(s)
  {
    assert s == s[..k] + s[k..];
    SumAppend(s[..k], s[k..]);
  }

  /** `open_file` of the current kernel. With CREATE an existing path is
      opened, being cleared first only if it is a regular file, and a
      missing one is created as a regular file in its parent (None if the
      parent is missing). Without CREATE a missing path gives None and
      TRUNC clears an existing one. The new file object starts at offset
      0 with the access the flags give. `newId` is the inode number a
      creation uses. */
  method OpenFile(vol: Volume, path: string, flags: bv32, newId: nat) returns (r: Outcome<Option<OSInode>>)
    requires vol.Valid() && newId !in vol.nodes
    modifies vol
    ensures vol.Valid()
    ensures r.Returns? && r.value.Some? ==> (fresh(r.value.value) && r.value.value.inode in vol.nodes &&
      r.value.value.readable && r.value.value.writable == Writable(flags) && r.value.value.offset == 0)
    ensures (Contains(flags, CREATE) && Walk(old(vol.nodes), ROOT, Split(path)).Returns? &&
             Walk(old(vol.nodes), ROOT, Split(path)).value.Some?) ==> (
      var id := Walk(old(vol.nodes), ROOT, Split(path)).value.value;
      r.Returns? && r.value.Some? && r.value.value.inode == id &&
      vol.nodes == if old(vol.nodes[id]).kind == RegularFile then old(vol.nodes)[id := old(vol.nodes[id]).(entries := [], data := [])]
                   else old(vol.nodes))
    ensures Contains(flags, CREATE) && Walk(old(vol.nodes), ROOT, Split(path)) == Returns(None) ==> (
      var (parent, name) := ParentAndName(path);
      match Walk(old(vol.nodes), ROOT, Split(parent))
      case Panics => r == Panics
      case Returns(None) => r == Returns(None) && vol.nodes == old(vol.nodes)
      case Returns(Some(p)) =>
        (old(vol.nodes[p]).kind != Directory ==> r == Panics) &&
        (old(vol.nodes[p]).kind == Directory && FirstEntry(old(vol.nodes[p]).entries, name).Some? ==>
          r == Returns(None) && vol.nodes == old(vol.nodes)) &&
        (old(vol.nodes[p]).kind == Directory && FirstEntry(old(vol.nodes[p]).entries, name).None? ==>
          r.Returns? && r.value.Some? && r.value.value.inode == newId &&
          vol.nodes == old(vol.nodes)[newId := EmptyNode(RegularFile)][p := old(vol.nodes[p]).(entries := old(vol.nodes[p]).entries + [DirEntry(name, newId)])]))
    ensures !Contains(flags, CREATE) ==> (
      match Walk(old(vol.nodes), ROOT, Split(path))
      case Panics => r == Panics
      case Returns(None) => r == Returns(None) && vol.nodes == old(vol.nodes)
      case Returns(Some(id)) =>
        r.Returns? && r.value.Some? && r.value.value.inode == id &&
        vol.nodes == if Contains(flags, TRUNC) then old(vol.nodes)[id := old(vol.nodes[id]).(entries := [], data := [])]
                     else old(vol.nodes))
    ensures Walk(old(vol.nodes), ROOT, Split(path)) == Panics ==> r == Panics
  {
    var readable := Readable(flags);
    var writable := Writable(flags);
    var found := FindInode(vol, path);
    if found.Panics? {
      return Panics;
    }
    if Contains(flags, CREATE) {
      if found.value.Some? {
        var id := found.value.value;
        if vol.nodes[id].kind == RegularFile {
          vol.Clear(id);
        }
        var f := new OSInode(readable, writable, id);
        return Returns(Some(f));
      }
      var (parent, name) := ParentAndName(path);
      var dir := FindInode(vol, parent);
      if dir.Panics? {
        return Panics;
      }
      if dir.value.None? {
        return Returns(None);
      }
      var created := vol.CreateInode(dir.value.value, name, RegularFile, newId);
      if created.Panics? {
        return Panics;
      }
      if created.value.None? {
        return Returns(None);
      }
      var f := new OSInode(readable, writable, newId);
      return Returns(Some(f));
    }
    if found.value.None? {
      return Returns(None);
    }
    var id := found.value.value;
    if Contains(flags, TRUNC) {
      vol.Clear(id);
    }
    var f := new OSInode(readable, writable, id);
    r := Returns(Some(f));
  }

  /** `open_file` of the older kernel: the same, except that CREATE on an
      existing path clears it whatever it is, directories included. */
  method OpenFileOs(vol: Volume, path: string, flags: bv32, newId: nat) returns (r: Outcome<Option<OSInode>>)
    requires vol.Valid() && newId !in vol.nodes
    modifies vol
    ensures vol.Valid()
    ensures r.Returns? && r.value.Some? ==> (fresh(r.value.value) && r.value.value.inode in vol.nodes &&
      r.value.value.readable && r.value.value.writable == Writable(flags) && r.value.value.offset == 0)
    ensures (Contains(flags, CREATE) && Walk(old(vol.nodes), ROOT, Split(path)).Returns? &&
             Walk(old(vol.nodes), ROOT, Split(path)).value.Some?) ==> (
      var id := Walk(old(vol.nodes), ROOT, Split(path)).value.value;
      r.Returns? && r.value.Some? && r.value.value.inode == id &&
      vol.nodes == old(vol.nodes)[id := old(vol.nodes[id]).(entries := [], data := [])])
    ensures Contains(flags, CREATE) && Walk(old(vol.nodes), ROOT, Split(path)) == Returns(None) ==> (
      var (parent, name) := ParentAndName(path);
      match Walk(old(vol.nodes), ROOT, Split(parent))
      case Panics => r == Panics
      case Returns(None) => r == Returns(None) && vol.nodes == old(vol.nodes)
      case Returns(Some(p)) =>
        (old(vol.nodes[p]).kind != Directory ==> r == Panics) &&
        (old(vol.nodes[p]).kind == Directory && FirstEntry(old(vol.nodes[p]).entries, name).Some? ==>
          r == Returns(None) && vol.nodes == old(vol.nodes)) &&
        (old(vol.nodes[p]).kind == Directory && FirstEntry(old(vol.nodes[p]).entries, name).None? ==>
          r.Returns? && r.value.Some? && r.value.value.inode == newId &&
          vol.nodes == old(vol.nodes)[newId := EmptyNode(RegularFile)][p := old(vol.nodes[p]).(entries := old(vol.nodes[p]).entries + [DirEntry(name, newId)])]))
    ensures !Contains(flags, CREATE) ==> (
      match Walk(old(vol.nodes), ROOT, Split(path))
      case Panics => r == Panics
      case Returns(None) => r == Returns(None) && vol.nodes == old(vol.nodes)
      case Returns(Some(id)) =>
        r.Returns? && r.value.Some? && r.value.value.inode == id &&
        vol.nodes == if Contains(flags, TRUNC) then old(vol.nodes)[id := old(vol.nodes[id]).(entries := [], data := [])]
                     else old(vol.nodes))
    ensures Walk(old(vol.nodes), ROOT, Split(path)) == Panics ==> r == Panics
  {
    var readable := Readable(flags);
    var writable := Writable(flags);
    var found := FindInode(vol, path);
    if found.Panics? {
      return Panics;
    }
    if Contains(flags, CREATE) {
      if found.value.Some? {
        var id := found.value.value;
        vol.Clear(id);
        var f := new OSInode(readable, writable, id);
        return Returns(Some(f));
      }
      var (parent, name) := ParentAndName(path);
      var dir := FindInode(vol, parent);
      if dir.Panics? {
        return Panics;
      }
      if dir.value.None? {
        return Returns(None);
      }
      var created := vol.CreateInode(dir.value.value, name, RegularFile, newId);
      if created.Panics? {
        return Panics;
      }
      if created.value.None? {
        return Returns(None);
      }
      var f := new OSInode(readable, writable, newId);
      return Returns(Some(f));
    }
    if found.value.None? {
      return Returns(None);
    }
    var id := found.value.value;
    if Contains(flags, TRUNC) {
      vol.Clear(id);
    }
    var f := new OSInode(readable, writable, id);
    r := Returns(Some(f));
  }

  /** The two generations differ only on CREATE over an existing
      directory: the current kernel leaves it intact, the older one empties
      it. */
  lemma CreateOverDirectory(nodes: map<nat, Node>, id: nat)
    requires id in nodes && nodes[id].kind == Directory && |nodes[id].entries| > 0
    ensures nodes != nodes[id := nodes[id].(entries := [], data := [])]
  {
    assert nodes[id := nodes[id].(entries := [], data := [])][id].entries == [];
  }
}
