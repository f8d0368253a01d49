/** The file-system system calls of the current kernel
    (kernel/src/syscall/fs.rs), on the calling process's record and the
    volume. A call that would hit a kernel panic returns `Panics`. */
module FsCalls {
  import opened Wrappers
  import opened Process
  import opened FsPath
  import opened Vfs
  import opened FsInode
  import Utf8

  /** `AT_REMOVEDIR` of `sys_unlink`. */
  const AT_REMOVEDIR: bv32 := 1

  /** The file a descriptor names: the slot if it exists, else nothing. */
  function Opened(t: FdTable, fd: nat): (r: Option<File>)
    ensures r.Some? ==> fd < |t| && t[fd] == r
    ensures fd < |t| ==> r == t[fd]
  {
    if fd < |t| then t[fd] else None
  }

  /** `sys_getcwd`: -1 when the working directory's UTF-8 bytes do not fit
      in the buffer, else their number, with the bytes copied into the
      buffer. */
  method Getcwd(p: Proc, len: nat) returns (r: int, out: seq<bv8>)
    ensures r == -1 <==> |Utf8.Encode(p.cwd)| > len
    ensures r == -1 ==> out == []
    ensures r != -1 ==> r == |out| && out == Utf8.Encode(p.cwd) && |out| <= len
  {
    var bytes := Utf8.Encode(p.cwd);
    if |bytes| > len {
      return -1, [];
    }
    out := bytes;
    r := |out|;
  }

  /** `sys_dup`: an open descriptor is copied into the lowest empty slot
      (or a new slot at the end); any other descriptor gives -1. */
  method Dup(p: Proc, fd: nat) returns (r: int)
    modifies p`fdTable
    ensures r == -1 <==> Opened(old(p.fdTable), fd).None?
    ensures r == -1 ==> p.fdTable == old(p.fdTable)
    ensures r != -1 ==> (
      var t0 := old(p.fdTable);
      0 <= r < |p.fdTable| && r <= |t0| && r != fd && p.fdTable[r] == t0[fd] &&
      (r < |t0| ==> t0[r].None?) && (forall i :: 0 <= i < r ==> t0[i].Some?) &&
      |p.fdTable| == (if r == |t0| then |t0| + 1 else |t0|) &&
      (forall i :: 0 <= i < |t0| && i != r ==> p.fdTable[i] == t0[i]))
  {
    var t0 := p.fdTable;
    match Opened(p.fdTable, fd) {
      case None =>
        return -1;
      case Some(file) =>
        AllocFdLowest(t0);
        var newFd := p.AllocFd();
        p.fdTable := p.fdTable[newFd := Some(file)];
        r := newFd;
    }
  }

  /** `sys_dup2`: -1 when the old descriptor is past the table; otherwise
      the table grows with empty slots to hold the new descriptor, which
      gets whatever the old slot holds (empty included), and 0. */
  method Dup2(p: Proc, oldFd: nat, newFd: nat) returns (r: int)
    modifies p`fdTable
    ensures r == -1 <==> oldFd >= |old(p.fdTable)|
    ensures r == -1 ==> p.fdTable == old(p.fdTable)
    ensures r != -1 ==> (
      var t0 := old(p.fdTable);
      r == 0 && |p.fdTable| == (if newFd < |t0| then |t0| else newFd + 1) &&
      p.fdTable[newFd] == t0[oldFd] &&
      (forall i :: 0 <= i < |p.fdTable| && i != newFd ==> p.fdTable[i] == (if i < |t0| then t0[i] else None)))
    ensures r != -1 && oldFd == newFd ==> p.fdTable == old(p.fdTable)
  {
    if oldFd >= |p.fdTable| {
      return -1;
    }
    if newFd >= |p.fdTable| {
      p.fdTable := p.fdTable + seq(newFd + 1 - |p.fdTable|, _ => None);
    }
    p.fdTable := p.fdTable[newFd := p.fdTable[oldFd]];
    r := 0;
  }

  /** `sys_close`: an open descriptor is emptied and 0 returned; any other
      descriptor gives -1. Afterwards the descriptor is not open, so a second
      close of it fails. */
  method Close(p: Proc, fd: nat) returns (r: int)
    modifies p`fdTable
    ensures r == 0 <==> Opened(old(p.fdTable), fd).Some?
    ensures r != 0 ==> r == -1 && p.fdTable == old(p.fdTable)
    ensures r == 0 ==> p.fdTable == old(p.fdTable)[fd := None]
    ensures Opened(p.fdTable, fd).None? && |p.fdTable| == |old(p.fdTable)|
  {
    if fd >= |p.fdTable| {
      return -1;
    }
    var slot := p.fdTable[fd];
    p.fdTable := p.fdTable[fd := None];
    match slot {
      case Some(_) => r := 0;
      case None => r := -1;
    }
  }

  /** `sys_read`: the file the read goes to — an open descriptor whose file
      is readable; None stands for the -1 return. */
  method Read(p: Proc, fd: nat) returns (r: Option<File>)
    ensures r.Some? <==> Opened(p.fdTable, fd).Some? && Opened(p.fdTable, fd).value.readable
    ensures r.Some? ==> r == p.fdTable[fd]
  {
    if fd >= |p.fdTable| {
      return None;
    }
    match p.fdTable[fd] {
      case Some(file) =>
        if !file.readable {
          return None;
        }
        r := Some(file);
      case None =>
        r := None;
    }
  }

  /** `sys_write`: the file the write goes to — an open descriptor whose
      file is writable; None stands for the -1 return. */
  method Write(p: Proc, fd: nat) returns (r: Option<File>)
    ensures r.Some? <==> Opened(p.fdTable, fd).Some? && Opened(p.fdTable, fd).value.writable
    ensures r.Some? ==> r == p.fdTable[fd]
  {
    if fd >= |p.fdTable| {
      return None;
    }
    match p.fdTable[fd] {
      case Some(file) =>
        if !file.writable {
          return None;
        }
        r := Some(file);
      case None =>
        r := None;
    }
  }

  /** `sys_fstat`: the file whose status is copied out, or None for -1. */
  method Fstat(p: Proc, fd: nat) returns (r: Option<File>)
    ensures r == Opened(p.fdTable, fd)
    ensures r.Some? <==> fd < |p.fdTable| && p.fdTable[fd].Some?
  {
    if fd >= |p.fdTable| || p.fdTable[fd].None? {
      return None;
    }
    r := p.fdTable[fd];
  }

  /** `sys_pipe`: the read end (readable only, identity `readId`) goes into
      the lowest empty slot, then the write end (writable only, identity
      `writeId`) into the lowest slot still empty; so the read descriptor is
      the smaller one, every slot below the write descriptor other than the
      read one was open, and no open descriptor changes. */
  method Pipe(p: Proc, readId: nat, writeId: nat) returns (readFd: nat, writeFd: nat)
    modifies p`fdTable
    ensures readFd < writeFd < |p.fdTable| && |old(p.fdTable)| <= |p.fdTable| <= |old(p.fdTable)| + 2
    ensures p.fdTable[readFd] == Some(File(readId, true, false))
    ensures p.fdTable[writeFd] == Some(File(writeId, false, true))
    ensures readFd < |old(p.fdTable)| ==> old(p.fdTable)[readFd].None?
    ensures writeFd < |old(p.fdTable)| ==> old(p.fdTable)[writeFd].None?
    ensures forall i :: 0 <= i < writeFd && i != readFd ==> i < |old(p.fdTable)| && old(p.fdTable)[i].Some?
    ensures forall i :: 0 <= i < |old(p.fdTable)| && i != readFd && i != writeFd ==> p.fdTable[i] == old(p.fdTable)[i]
  {
    var t0 := p.fdTable;
    AllocFdLowest(t0);
    readFd := p.AllocFd();
    p.fdTable := p.fdTable[readFd := Some(File(readId, true, false))];
    var t1 := p.fdTable;
    AllocFdLowest(t1);
    writeFd := p.AllocFd();
    assert writeFd != readFd by {
      if writeFd < |t1| {
        assert p.fdTable[writeFd] == t1[writeFd];
      }
    }
    forall i | 0 <= i < writeFd && i != readFd
      ensures i < |t0| && t0[i].Some?
    {
      assert p.fdTable[i] == t1[i];
    }
    p.fdTable := p.fdTable[writeFd := Some(File(writeId, false, true))];
  }

  /** `sys_chdir`: normalise the path against the working directory and
      walk it; -1 when it is missing, -2 when it is not a directory, else
      it becomes the working directory and 0 is returned. A working
      directory set this way is absolute and already normalised. */
  method Chdir(p: Proc, vol: Volume, path: string) returns (r: Outcome<int>)
    requires vol.Valid()
    modifies p`cwd
    ensures var full := FullPath(old(p.cwd), path);
      match Walk(vol.nodes, ROOT, Split(full))
      case Panics => r == Panics && p.cwd == old(p.cwd)
      case Returns(None) => r == Returns(-1) && p.cwd == old(p.cwd)
      case Returns(Some(id)) =>
        if vol.nodes[id].kind == Directory then r == Returns(0) && p.cwd == full
        else r == Returns(-2) && p.cwd == old(p.cwd)
    ensures r == Returns(0) ==> p.cwd[0] == '/' && forall c :: FullPath(c, p.cwd) == p.cwd
  {
    var full := GetFullPath(p.cwd, path);
    forall c
      ensures FullPath(c, full) == full && full[0] == '/'
    {
      FullPathNormalised(p.cwd, path, c);
    }
    var found := FindInode(vol, full);
    match found {
      case Panics => r := Panics;
      case Returns(None) => r := Returns(-1);
      case Returns(Some(id)) =>
        if vol.nodes[id].kind == Directory {
          p.cwd := full;
          r := Returns(0);
        } else {
          r := Returns(-2);
        }
    }
  }

  /** `sys_mkdir`: split the normalised path at its last separator, find
      the parent and create the directory there; -1 when the parent is
      missing, -2 when the name is taken. The new directory (inode `newId`)
      holds "." and ".." and is then found at the path it was made at. */
  method Mkdir(p: Proc, vol: Volume, path: string, newId: nat) returns (r: Outcome<int>)
    requires vol.Valid() && newId !in vol.nodes
    modifies vol
    ensures vol.Valid()
    ensures var (parent, name) := ParentAndName(FullPath(p.cwd, path));
      match Walk(old(vol.nodes), ROOT, Split(parent))
      case Panics => r == Panics && vol.nodes == old(vol.nodes)
      case Returns(None) => r == Returns(-1) && vol.nodes == old(vol.nodes)
      case Returns(Some(d)) =>
        (old(vol.nodes[d]).kind != Directory ==> r == Panics && vol.nodes == old(vol.nodes)) &&
        (old(vol.nodes[d]).kind == Directory && FirstEntry(old(vol.nodes[d]).entries, name).Some? ==>
          r == Returns(-2) && vol.nodes == old(vol.nodes)) &&
        (old(vol.nodes[d]).kind == Directory && FirstEntry(old(vol.nodes[d]).entries, name).None? ==>
          r == Returns(0) &&
          vol.nodes == old(vol.nodes)[newId := Node(Directory, [DirEntry(".", newId), DirEntry("..", d)], [])]
                                     [d := old(vol.nodes[d]).(entries := old(vol.nodes[d]).entries + [DirEntry(name, newId)])])
    ensures var (parent, name) := ParentAndName(FullPath(p.cwd, path));
      r == Returns(0) && name != "" ==> Walk(vol.nodes, ROOT, Split(FullPath(p.cwd, path))) == Returns(Some(newId))
  {
    var full := GetFullPath(p.cwd, path);
    FullPathNormalised(p.cwd, path, p.cwd);
    var (parent, name) := ParentAndName(full);
    var dir := FindInode(vol, parent);
    match dir {
      case Panics => r := Panics;
      case Returns(None) => r := Returns(-1);
      case Returns(Some(d)) =>
        ghost var before := vol.nodes;
        var created := vol.CreateDir(d, name, newId);
        match created {
          case Panics => r := Panics;
          case Returns(None) => r := Returns(-2);
          case Returns(Some(_)) =>
            r := Returns(0);
            if name != "" {
              MadeDirectoryIsFound(before, vol.nodes, parent, name, d, newId);
            }
        }
    }
  }

  /** A directory whose entry was appended under the node the parent path
      leads to is found at parent + "/" + name. */
  lemma MadeDirectoryIsFound(before: map<nat, Node>, after: map<nat, Node>, parent: string, name: string, d: nat, newId: nat)
    requires ROOT in before && Closed(before) && Closed(after) && name != "" && '/' !in name
    requires d in before && before[d].kind == Directory && FirstEntry(before[d].entries, name).None?
    requires newId !in before
    requires after == before[newId := Node(Directory, [DirEntry(".", newId), DirEntry("..", d)], [])]
                            [d := before[d].(entries := before[d].entries + [DirEntry(name, newId)])]
    requires Walk(before, ROOT, Split(parent)) == Returns(Some(d))
    ensures Walk(after, ROOT, Split(parent + "/" + name)) == Returns(Some(newId))
  {
    AppendExtends(before, d, DirEntry(name, newId), newId, Node(Directory, [DirEntry(".", newId), DirEntry("..", d)], []));
    WalkExtends(before, after, ROOT, Split(parent));
    SplitConcat(parent, name);
    SplitSingle(name);
    WalkConcat(after, ROOT, Split(parent), [name]);
    WalkToAppended(before[d].entries, after, d, name, newId);
  }

  /** One step from a directory whose last entry is the first one named
      `name` reaches that entry's node. */
  lemma WalkToAppended(es0: seq<DirEntry>, after: map<nat, Node>, d: nat, name: string, newId: nat)
    requires d in after && newId in after && Closed(after) && name != ""
    requires after[d].kind == Directory && after[d].entries == es0 + [DirEntry(name, newId)]
    requires FirstEntry(es0, name).None?
    ensures Walk(after, d, [name]) == Returns(Some(newId))
  {
    var es := after[d].entries;
    FirstEntryIs(es, name, |es| - 1);
    assert Lookup(after[d], name) == Returns(Some(newId));
    assert [name][1..] == [];
    assert Walk(after, d, [name]) == Walk(after, newId, []);
  }

  /** Adding a node and appending an entry to a directory extends the
      volume. */
  lemma AppendExtends(before: map<nat, Node>, d: nat, e: DirEntry, newId: nat, n: Node)
    requires d in before && newId !in before
    ensures Extends(before, before[newId := n][d := before[d].(entries := before[d].entries + [e])])
  {
    var after := before[newId := n][d := before[d].(entries := before[d].entries + [e])];
    forall k | k in before
      ensures k in after && after[k].kind == before[k].kind
      ensures |before[k].entries| <= |after[k].entries| && after[k].entries[..|before[k].entries|] == before[k].entries
    {
      if k == d {
        assert after[k].entries == before[k].entries + [e];
      } else {
        assert after[k] == before[k];
      }
    }
  }

  /** The second map keeps every node of the first with its kind and its
      entries as a prefix (entries are only appended, nodes only added). */
  ghost predicate Extends(before: map<nat, Node>, after: map<nat, Node>)
  {
    forall k :: k in before ==>
      k in after && after[k].kind == before[k].kind &&
      |before[k].entries| <= |after[k].entries| && after[k].entries[..|before[k].entries|] == before[k].entries
  }

  /** A walk that reaches a node keeps reaching it after entries are
      appended. */
  lemma {:induction false} WalkExtends(before: map<nat, Node>, after: map<nat, Node>, id: nat, pieces: seq<string>)
    requires id in before && Closed(before) && Closed(after) && Extends(before, after)
    requires Walk(before, id, pieces).Returns? && Walk(before, id, pieces).value.Some?
    ensures id in after && Walk(after, id, pieces) == Walk(before, id, pieces)
    decreases |pieces|
  {
    if |pieces| > 0 {
      if pieces[0] == "" {
        WalkExtends(before, after, id, pieces[1..]);
      } else {
        var es := before[id].entries;
        var k := FirstEntry(es, pieces[0]).value;
        assert after[id].entries[..|es|] == es;
        assert after[id].entries[k] == es[k];
        FirstEntryIs(after[id].entries, pieces[0], k);
        LookupInNodes(before, id, pieces[0]);
        WalkExtends(before, after, es[k].inode, pieces[1..]);
      }
    }
  }

  /** Walking two lists of pieces walks the first, then the second from
      where the first ended. */
  lemma {:induction false} WalkConcat(nodes: map<nat, Node>, id: nat, xs: seq<string>, ys: seq<string>)
    requires id in nodes && Closed(nodes)
    ensures Walk(nodes, id, xs + ys) ==
      match Walk(nodes, id, xs)
      case Returns(Some(x)) => Walk(nodes, x, ys)
      case other => other
    decreases |xs|
  {
    if |xs| == 0 {
      assert xs + ys == ys;
    } else {
      assert (xs + ys)[0] == xs[0] && (xs + ys)[1..] == xs[1..] + ys;
      if xs[0] == "" {
        WalkConcat(nodes, id, xs[1..], ys);
      } else {
        match Lookup(nodes[id], xs[0])
        case Panics =>
        case Returns(None) =>
        case Returns(Some(child)) =>
          LookupInNodes(nodes, id, xs[0]);
          WalkConcat(nodes, child, xs[1..], ys);
      }
    }
  }

  /** The volume after `clear` on the target and `delete` of its name in
      the parent. */
  function Unlinked(nodes: map<nat, Node>, d: nat, id: nat, name: string): (r: map<nat, Node>)
    requires d in nodes && id in nodes
    ensures r.Keys == nodes.Keys
  {
    var cleared := nodes[id := nodes[id].(entries := [], data := [])];
    var es := cleared[d].entries;
    if |es| == 0 then cleared
    else cleared[d := cleared[d].(entries := DeleteScan(es, name, es[|es| - 1], |es|, 0))]
  }

  /** `sys_unlink`: find the parent and the target in it (-1 if either is
      missing). A regular file without AT_REMOVEDIR, or with it a directory
      holding exactly two entries, is cleared and its entry deleted from
      the parent (0); a directory of any other size gives -3, a kind that
      does not match the flag -2. */
  method Unlink(p: Proc, vol: Volume, path: string, flags: bv32) returns (r: Outcome<int>)
    requires vol.Valid()
    modifies vol
    ensures vol.Valid()
    ensures var (parent, name) := ParentAndName(FullPath(p.cwd, path));
      match Walk(old(vol.nodes), ROOT, Split(parent))
      case Panics => r == Panics && vol.nodes == old(vol.nodes)
      case Returns(None) => r == Returns(-1) && vol.nodes == old(vol.nodes)
      case Returns(Some(d)) => d in old(vol.nodes) && UnlinkedIn(old(vol.nodes), vol.nodes, d, name, flags, r)
  {
    var full := GetFullPath(p.cwd, path);
    var (parent, name) := ParentAndName(full);
    var dir := FindInode(vol, parent);
    match dir {
      case Panics => r := Panics;
      case Returns(None) => r := Returns(-1);
      case Returns(Some(d)) => r := UnlinkAt(vol, d, name, flags);
    }
  }

  /** What `sys_unlink` does once the parent d is found: -1 when the name
      is missing, -2 when the kind does not match AT_REMOVEDIR, -3 for a
      directory whose size is not exactly two entries, and otherwise 0
      with the target cleared and its entry deleted. */
  ghost predicate UnlinkedIn(nodes: map<nat, Node>, nodes': map<nat, Node>, d: nat, name: string, flags: bv32, r: Outcome<int>)
    requires d in nodes
  {
    match Lookup(nodes[d], name)
    case Panics => r == Panics && nodes' == nodes
    case Returns(None) => r == Returns(-1) && nodes' == nodes
    case Returns(Some(id)) =>
      id in nodes &&
      var removeDir := flags & AT_REMOVEDIR == AT_REMOVEDIR;
      var isDir := nodes[id].kind == Directory;
      (removeDir != isDir ==> r == Returns(-2) && nodes' == nodes) &&
      (removeDir && isDir && FileSize(nodes[id]) != 2 * DIRENT_SIZE ==>
        r == Returns(-3) && nodes' == nodes) &&
      ((!removeDir && !isDir) || (removeDir && isDir && FileSize(nodes[id]) == 2 * DIRENT_SIZE) ==>
        r == Returns(0) && nodes' == Unlinked(nodes, d, id, name))
  }

  /** The part of `sys_unlink` after the parent is found. */
  method UnlinkAt(vol: Volume, d: nat, name: string, flags: bv32) returns (r: Outcome<int>)
    requires vol.Valid() && d in vol.nodes
    modifies vol
    ensures vol.Valid() && UnlinkedIn(old(vol.nodes), vol.nodes, d, name, flags, r)
  {
    var target := vol.Find(d, name);
    match target {
      case Panics => r := Panics;
      case Returns(None) => r := Returns(-1);
      case Returns(Some(id)) =>
        LookupInNodes(vol.nodes, d, name);
        var removeDir := flags & AT_REMOVEDIR == AT_REMOVEDIR;
        var isDir := vol.nodes[id].kind == Directory;
        if !removeDir && !isDir {
          vol.Clear(id);
          var ok := vol.Delete(d, name);
          return Returns(0);
        }
        if removeDir && isDir {
          if FileSize(vol.nodes[id]) == DIRENT_SIZE * 2 {
            vol.Clear(id);
            var ok := vol.Delete(d, name);
            return Returns(0);
          } else {
            return Returns(-3);
          }
        }
        r := Returns(-2);
    }
  }

  /** With unique names in the parent, unlinking removes the name from it:
      the parent loses exactly one entry, the target is emptied, and no
      other node changes. */
  lemma UnlinkRemovesName(nodes: map<nat, Node>, d: nat, id: nat, name: string)
    requires d in nodes && id in nodes && d != id && nodes[d].kind == Directory
    requires DistinctNames(nodes[d].entries) && Lookup(nodes[d], name) == Returns(Some(id))
    ensures var u := Unlinked(nodes, d, id, name);
      Lookup(u[d], name) == Returns(None) && |u[d].entries| == |nodes[d].entries| - 1 &&
      FileSize(u[id]) == 0 && u[id].kind == nodes[id].kind &&
      forall k :: k in nodes && k != d && k != id ==> u[k] == nodes[k]
  {
    var es := nodes[d].entries;
    DeleteSwapRemove(es, name);
    var k := FirstEntry(es, name).value;
    var r := DeleteScan(es, name, es[|es| - 1], |es|, 0);
    assert name !in (set e | e in r :: e.name);
    forall j | 0 <= j < |r|
      ensures r[j].name != name
    {
      assert r[j] in r;
    }
  }

  /** `sys_open`: unknown flag bits panic (`from_bits().unwrap()`); else
      the normalised path is opened (`open_file`), -1 when that gives
      nothing, and otherwise the new file object (identity `handle`) is put
      into the lowest empty slot, whose number is returned. */
  method Open(p: Proc, vol: Volume, path: string, flags: bv32, newId: nat, handle: nat) returns (r: Outcome<int>)
    requires vol.Valid() && newId !in vol.nodes
    modifies vol, p`fdTable
    ensures vol.Valid()
    ensures !KnownFlags(flags) ==> r == Panics && vol.nodes == old(vol.nodes) && p.fdTable == old(p.fdTable)
    ensures r.Returns? ==> r.value >= -1
    ensures r.Returns? && r.value == -1 ==> p.fdTable == old(p.fdTable)
    ensures r.Returns? && r.value >= 0 ==> (
      var (t, fd) := AllocFdStep(old(p.fdTable));
      r.value == fd && p.fdTable == t[fd := Some(File(handle, true, Writable(flags)))])
    ensures KnownFlags(flags) ==> (
      match Walk(old(vol.nodes), ROOT, Split(FullPath(p.cwd, path)))
      case Panics => r == Panics
      case Returns(Some(_)) => r.Returns? && r.value >= 0
      case Returns(None) => !Contains(flags, CREATE) ==> r == Returns(-1) && vol.nodes == old(vol.nodes))
  {
    var full := GetFullPath(p.cwd, path);
    if !KnownFlags(flags) {
      return Panics;
    }
    var file := OpenFile(vol, full, flags, newId);
    match file {
      case Panics => r := Panics;
      case Returns(None) => r := Returns(-1);
      case Returns(Some(f)) =>
        var fd := p.AllocFd();
        p.fdTable := p.fdTable[fd := Some(File(handle, f.readable, f.writable))];
        r := Returns(fd);
    }
  }
}
