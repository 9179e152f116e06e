/** `fs/inode.c` as its clients see it, and `fs/dir.c` and `fs/file.c` on top. */
module FileSystem {
  import opened FsBytes
  import opened FsDisk
  import opened FsState
  import opened FsResize
  import opened FsWrite
  import opened FsVolume
  import opened FileStore
  import opened Dirents
  import opened DirVolume
  import opened Namespace
  import opened NamespaceOps
  import opened RootVolume

  ghost predicate StoreReady(store: Store)
    reads store
  {
    store.Sound() && Clean(store.View())
  }

  /** What the store stands for. */
  ghost function StoreImage(store: Store): Vol
    requires StoreReady(store)
    reads store
  {
    Volume(store.View())
  }

  class Files {
    const store: Store
    // The inodes whose lock the running program has; nobody else runs while it is in the file system.
    var held: set<nat>

    ghost predicate Ready()
      reads store
    {
      StoreReady(store)
    }

    ghost function Image(): Vol
      requires Ready()
      reads store
    {
      StoreImage(store)
    }

    /** The block bitmap on the disk. */
    ghost function BlockMarks(): seq<bool>
      requires Ready()
      reads store
    {
      store.View().m.marks
    }

    /** `partition_format` and `create_root_dir`. */
    constructor (part: Layout, image: seq<Block>, superBlock: Block)
      requires DiskOk(image, part) && |superBlock| == BLOCK_SIZE
      ensures fresh(store) && store.lay == part
      ensures Ready() && Image() == RootVol(part.blocks) && NsOk(Image(), map[]) && held == {}
    {
      RootConsistent(part.blocks);
      store := new Store(part, image, superBlock);
      held := {};
      new;
      FormattedVol(store.View());
      assert Ready() && Image() == BlankVol(part.blocks);
      CreateRootDir(part.blocks);
    }

    /** `create_root_dir`, whose three ASSERTs hold. */
    method CreateRootDir(ghost blocks: nat)
      requires blocks > RESERVED && Ready() && Image() == BlankVol(blocks) && held == {}
      modifies store
      ensures Ready() && Image() == RootVol(blocks)
    {
      hide Ready, Image, AddVol, WriteVol, RootVol, BlankVol, Entries, EncodeDirent, Find, LeastClear;
      RootAdds(blocks);
      var r := Create();
      assert r == 0;
      Open(0);
      r := DirentAdd(0, Dirent(0, DOTDOT, FT_DIR));
      assert r > 0;
      r := DirentAdd(0, Dirent(0, DOT, FT_DIR));
      assert r > 0;
      var closed := Close(0);
    }

    // ----- the inode locks

    /** `sema_down` on the lock of an inode.  False: the program has it already, and sleeps for good
        (`TaskLocks.SelfDownNeverReturns`). */
    method Down(i: nat) returns (taken: bool)
      modifies this`held
      ensures taken <==> i !in old(held)
      ensures held == old(held) + {i}
    {
      taken := i !in held;
      held := held + {i};
    }

    method Up(i: nat)
      requires i in held
      modifies this`held
      ensures held == old(held) - {i}
    {
      held := held - {i};
    }

    // ----- the inode operations on the volume

    /** `inode_open`, which takes and gives back the lock to count. */
    method Open(i: nat)
      requires Ready() && InUse(Image(), i) && i !in held
      modifies store
      ensures Ready() && Image() == OpenVol(old(Image()), i) && BlockMarks() == old(BlockMarks())
    {
      ghost var f := store.View();
      KnownExactly(f, i);
      CleanOpen(f, i);
      var ok := store.InodeOpen(i);
    }

    /** `inode_close`, which starts by taking the lock: false if that is where it stays. */
    method Close(i: nat) returns (done: bool)
      requires Ready() && VolShape(Image()) && i < INODE_CNT && Image().opens[i] > 0
      modifies store
      ensures Ready() && (done <==> i !in held) && BlockMarks() == old(BlockMarks())
      ensures Image() == if done then CloseVol(old(Image()), i) else old(Image())
    {
      if i in held {
        return false;
      }
      ghost var f := store.View();
      KnownExactly(f, i);
      CleanClose(f, i);
      store.InodeClose(i);
      done := true;
    }

    /** The size field of the open object. */
    method Size(i: nat) returns (size: nat)
      requires Ready() && VolShape(Image()) && i < INODE_CNT && Image().opens[i] > 0
      ensures size == |Image().files[i]|
    {
      KnownExactly(store.View(), i);
      size := store.openInodes[OpenIdx(store.openInodes, i)].node.size;
    }

    /** The clipped slice of the file. */
    method Read(i: nat, nbyte: nat, offset: nat) returns (buf: seq<Byte>)
      requires Ready() && VolShape(Image()) && i < INODE_CNT && Image().opens[i] > 0 && nbyte > 0
      ensures buf == Slice(Image().files[i], offset, nbyte)
    {
      KnownExactly(store.View(), i);
      buf := store.InodeRead(i, nbyte, offset);
    }

    method Write(i: nat, buf: seq<Byte>, offset: nat) returns (r: int)
      requires Ready() && VolShape(Image()) && i < INODE_CNT && Image().opens[i] > 0 && Image().marks[i]
      requires |buf| > 0 && offset <= |Image().files[i]|
      modifies store
      ensures Ready() && (Image(), r) == WriteVol(old(Image()), i, buf, offset)
      // A write that fails for want of one block takes none.
      ensures r < 0 && Blocks(offset + |buf|) <= Blocks(|old(Image()).files[i]|) + 1 ==> BlockMarks() == old(BlockMarks())
    {
      ghost var f := store.View();
      KnownExactly(f, i);
      r := store.InodeWrite(i, buf, offset);
      CleanWrite(f, store.View(), i, buf, offset, r);
      if r < 0 && Blocks(offset + |buf|) <= Blocks(Eff(f, i).size) + 1 { FailedAppendKeepsMarks(f, store.View(), i, buf, offset, r); }
    }

    method Cut(i: nat, size: nat) returns (r: int)
      requires Ready() && VolShape(Image()) && i < INODE_CNT && Image().opens[i] > 0 && Image().marks[i]
      requires size <= |Image().files[i]|
      modifies store
      ensures r == 0 && Ready() && Image() == CutVol(old(Image()), i, size)
    {
      ghost var f := store.View();
      KnownExactly(f, i);
      r := store.InodeSizeChange(i, size);
      CleanCut(f, store.View(), i, size, r);
    }

    method Create() returns (r: int)
      requires Ready() && VolShape(Image())
      modifies store
      ensures Ready() && BlockMarks() == old(BlockMarks())
      ensures var i := LeastClear(old(Image()).marks);
        if i == INODE_CNT then r == NO_BIT && Image() == old(Image())
        else r == i && Image() == CreateVol(old(Image()), i) && Image().files[i] == []
    {
      ghost var f := store.View();
      r := store.DiskInodeCreate();
      if r != NO_BIT { CleanCreate(f, r); }
    }

    /** `disk_inode_delete`, which takes the lock of the inode. */
    method Delete(i: nat)
      requires Ready() && InUse(Image(), i) && i !in held
      modifies store
      ensures Ready() && Image() == DeleteVol(old(Image()), i)
      ensures old(Image()).files[i] == [] ==> BlockMarks() == old(BlockMarks())
    {
      ghost var f := store.View();
      KnownExactly(f, i);
      store.DiskInodeDelete(i);
      CleanDelete(f, store.View(), i);
      if Eff(f, i).size == 0 { EmptyDeleteKeepsMarks(f, store.View(), i); }
    }

    // ----- fs/dir.c

    method DirentSearch(d: nat, name: Name) returns (idx: int)
      requires Ready() && VolShape(Image()) && d < INODE_CNT && Image().opens[d] > 0
      ensures var es := Ents(Image(), d);
        idx == if Find(es, name) < |es| then Find(es, name) else DIRENT_ISNT_EXIST
    {
      hide Ready, Image, Find;
      ghost var es := Ents(Image(), d);
      var k := 0;
      var size := Size(d);
      while k != size / DIRENT_SIZE
        invariant k <= size / DIRENT_SIZE == |es| && forall j | 0 <= j < k :: es[j].name != name
        decreases size / DIRENT_SIZE - k
      {
        var de := ReadEntry(d, k);
        if de.name == name {
          return k;
        }
        k := k + 1;
      }
      idx := DIRENT_ISNT_EXIST;
    }

    method ReadEntry(d: nat, k: nat) returns (e: Dirent)
      requires Ready() && VolShape(Image()) && d < INODE_CNT && Image().opens[d] > 0 && k < |Ents(Image(), d)|
      ensures e == Ents(Image(), d)[k]
    {
      assert Ents(Image(), d)[k] == DecodeDirent(Record(Image().files[d], k));
      var buf := Read(d, DIRENT_SIZE, k * DIRENT_SIZE);
      e := DecodeDirent(buf);
    }

    method DirentAdd(d: nat, e: Dirent) returns (r: int)
      requires Ready() && VolShape(Image()) && d < INODE_CNT && Image().opens[d] > 0 && Image().marks[d]
      requires |e.name| <= NAME_MAX
      modifies store
      ensures Ready() && (Image(), r) == AddVol(old(Image()), d, e)
      ensures r < 0 ==> BlockMarks() == old(BlockMarks())
    {
      var size := Size(d);
      var idx := DirentSearch(d, e.name);
      if idx == DIRENT_ISNT_EXIST {
        OneBlockMore(size);
        r := Write(d, EncodeDirent(e), size);
      } else {
        r := DIRENT_ALREADY_EXIST;
      }
    }

    method DirentDelete(d: nat, name: Name) returns (r: int)
      requires Ready() && VolShape(Image()) && d < INODE_CNT && Image().opens[d] > 0
      requires Image().marks[d] || Image().files[d] == []
      modifies store
      ensures Ready() && (Image(), r) == RemoveVol(old(Image()), d, name)
    {
      hide Ready, Image, Find, Entries, WriteVol, MoveVol, Overwrite;
      ghost var v := Image();
      var size := Size(d);
      var idx := DirentSearch(d, name);
      if idx == DIRENT_ISNT_EXIST {
        return idx;
      }
      MoveIsWrite(v, d, idx);
      var last := Read(d, DIRENT_SIZE, size - DIRENT_SIZE);
      assert last == v.files[d][size - DIRENT_SIZE..];
      var written := Write(d, last, idx * DIRENT_SIZE);
      assert Image() == MoveVol(v, d, idx);
      var cut := Cut(d, size - DIRENT_SIZE);
      r := 0;
    }

    /** One intermediate component of `path_prase`: looked up under the directory's lock, which is not given back if
        the component is missing. */
    method Descend(ino: nat, name: Name, ghost v: Vol) returns (k: int, de: Dirent)
      requires Ready() && VolShape(v) && ino < INODE_CNT && Image() == OpenVol(v, ino) && held == {}
      modifies this`held
      ensures var es := Ents(v, ino);
        var j := Find(es, name);
        if j == |es| then k < 0 && held == {ino} else k >= 0 && de == es[j] && held == {}
    {
      hide Ready, Image, Find, Entries;
      de := Dirent(0, [], 0);
      var taken := Down(ino);
      assert taken;
      k := DirentSearch(ino, name);
      if k >= 0 {
        de := ReadEntry(ino, k);
        Up(ino);
      }
    }

    /** `path_prase`: the character loop is the recursive resolver, with the last directory left open.  On the way out
        after a missing component it closes a directory whose lock it has. */
    method PathPrase(path: seq<Byte>, ghost dirs: set<nat>) returns (l: Lookup)
      requires Ready() && path != [] && Walkable(Image(), dirs) && held == {}
      modifies store, this`held
      ensures Ready() && l == Lookedup(old(Image()), path) && Image() == Held(old(Image()), l)
      ensures held == LocksLeft(l) && BlockMarks() == old(BlockMarks())
    {
      hide Ready, Image, BlockMarks, Find, Entries, Ents, Split, Resolve, Walkable, OpenVol, CloseVol;
      ghost var v := Image();
      WalkableRoot(v, dirs);
      var oldIdx, idx, ino := 0, 1, 0;
      Open(0);
      while idx != |path|
        invariant oldIdx < idx <= |path| && ino in dirs && ino < INODE_CNT && NoSlash(path, oldIdx + 1, idx)
        invariant Ready() && Image() == OpenVol(v, ino) && held == {} && BlockMarks() == old(BlockMarks())
        invariant Lookedup(v, path) == Resolve(v, ino, Split(path[oldIdx + 1..]))
        decreases |path| - idx
      {
        if path[idx] == SLASH {
          StepIn(v, dirs, path, oldIdx + 1, idx, ino);
          var k, de := Descend(ino, path[oldIdx + 1..idx], v);
          if k < 0 || de.ftype != FT_DIR {
            break;
          }
          OpenClose(v, ino);
          var closed := Close(ino);
          Open(de.ino);
          ino := de.ino;
          oldIdx := idx;
        }
        idx := idx + 1;
      }
      if idx != |path| {
        OpenClose(v, ino);
        var closed := Close(ino);
        return if closed then NotADirectory else Hangs(ino);
      }
      StepLast(v, dirs, path, oldIdx + 1, ino);
      l := LastComponent(ino, path[oldIdx + 1..], v);
    }

    /** The last component: an empty one stands for entry 0. */
    method LastComponent(ino: nat, name: Name, ghost v: Vol) returns (l: Lookup)
      requires Ready() && VolShape(v) && ino < INODE_CNT && Image() == OpenVol(v, ino) && Ents(v, ino) != []
      requires held == {}
      modifies this`held
      ensures held == {}
      ensures var es := Ents(v, ino);
        var k := if name == [] then 0 else Find(es, name);
        l == if k == |es| then Absent(ino, name) else Present(ino, es[k])
    {
      hide Ready, Image, Find, Entries;
      var taken := Down(ino);
      var k := 0;
      if name != [] {
        k := DirentSearch(ino, name);
      }
      if k < 0 {
        l := Absent(ino, name);
      } else {
        var de := ReadEntry(ino, k);
        l := Present(ino, de);
      }
      Up(ino);
    }

    // ----- fs/file.c and the rest of fs/dir.c

    /** `sys_mknod` after the lookup. */
    method AddEntry(p: nat, name: Name, ftype: nat, dev: nat) returns (r: Ret)
      requires Ready() && VolShape(Image()) && p < INODE_CNT && Image().marks[p] && |name| <= NAME_MAX && held == {}
      modifies store, this`held
      ensures Ready() && (Image(), r) == NewEntry(old(Image()), p, name, ftype, dev) && held == {}
      // All or nothing on the disk's bitmap too.
      ensures r.Done? && r.code < 0 ==> BlockMarks() == old(BlockMarks())
    {
      hide Ready, Image, BlockMarks, AddVol;
      var ino := dev;
      if ftype == FT_REG {
        var created := Create();
        if created < 0 {
          return Done(created);
        }
        ino := created;
      }
      ghost var c := Image();
      Open(p);
      AddUnderOpen(c, p, p, Dirent(ino, name, ftype));
      var taken := Down(p);
      var added := DirentAdd(p, Dirent(ino, name, ftype));
      ghost var w := AddVol(c, p, Dirent(ino, name, ftype)).0;
      FailedAddKeepsFiles(c, p, Dirent(ino, name, ftype));
      if added != DIRENT_SIZE {
        if ftype == FT_REG {
          Delete(ino);
          OpenClose(DeleteVol(w, ino), p);
        } else {
          OpenClose(w, p);
        }
        Up(p);
        var closed := Close(p);
        return Done(added);
      }
      OpenClose(w, p);
      Up(p);
      var closed := Close(p);
      r := Done(ino);
    }

    method SysMknod(path: seq<Byte>, ftype: nat, dev: nat, ghost t: Tree) returns (r: Ret)
      requires Ready() && PathOk(path) && NsOk(Image(), t) && held == {}
      modifies store, this`held
      ensures Ready() && (Image(), r) == MknodVol(old(Image()), path, ftype, dev)
      ensures r != Hung ==> held == {}
      ensures r.Done? && r.code < 0 ==> BlockMarks() == old(BlockMarks())
    {
      hide Ready, Image, BlockMarks, NewEntry, Resolve, Split, NsOk;
      if ftype != FT_CHR && ftype != FT_REG {
        return Done(FILE_TYPE_INVALID);
      }
      LookupFacts(Image(), t, path);
      NsWalkable(Image(), t);
      NsShape(Image(), t);
      var l := PathPrase(path, Dirs(t));
      match l
      case Hangs(_) => r := Hung;
      case NotADirectory => r := Done(DIRENT_ISNT_EXIST);
      case Present(_, _) => r := Done(DIRENT_ALREADY_EXIST);
      case Absent(p, name) => r := AddEntry(p, name, ftype, dev);
    }

    /** The ends of `sys_unlink` and `sys_rmdir`: the inode, then the entry. */
    method RemoveEntry(p: nat, e: Dirent)
      requires Ready() && VolShape(Image()) && p < INODE_CNT && Image().marks[p] && Image().opens[p] > 0
      requires InUse(Image(), e.ino) && held == {}
      modifies store, this`held
      ensures Ready() && Image() == DropEntry(old(Image()), p, e) && held == {}
    {
      hide Ready, Image, RemoveVol;
      Delete(e.ino);
      ghost var c := Image();
      Open(p);
      RemoveUnderOpen(c, p, e.name);
      var taken := Down(p);
      var r := DirentDelete(p, e.name);
      Up(p);
      OpenClose(RemoveVol(c, p, e.name).0, p);
      var closed := Close(p);
    }

    method SysUnlink(path: seq<Byte>, ghost t: Tree) returns (r: Ret)
      requires Ready() && path != [] && NsOk(Image(), t) && held == {}
      requires DeviceInUse(Image(), Lookedup(Image(), path))
      modifies store, this`held
      ensures Ready() && (Image(), r) == UnlinkVol(old(Image()), path)
      ensures r != Hung ==> held == {}
    {
      hide Ready, Image, DropEntry, Resolve, Split, NsOk;
      NamedFacts(Image(), t, path);
      NsWalkable(Image(), t);
      NsShape(Image(), t);
      var l := PathPrase(path, Dirs(t));
      match l
      case Hangs(_) => r := Hung;
      case NotADirectory => r := Done(DIRENT_ISNT_EXIST);
      case Absent(_, _) => r := Done(FILE_ISNT_EXIST);
      case Present(p, e) =>
        if e.ftype == FT_DIR {
          return Done(ISNT_DIR);
        }
        // The ASSERT in fs_bitmap_free.
        if e.ino >= INODE_CNT {
          return Hung;
        }
        RemoveEntry(p, e);
        r := Done(0);
    }

    method SysRmdir(path: seq<Byte>, ghost t: Tree) returns (r: Ret)
      requires Ready() && path != [] && NsOk(Image(), t) && held == {}
      modifies store, this`held
      ensures Ready() && (Image(), r) == RmdirVol(old(Image()), path)
      ensures r != Hung ==> held == {}
    {
      hide Ready, Image, DropEntry, Resolve, Split, NsOk;
      NamedFacts(Image(), t, path);
      NsWalkable(Image(), t);
      NsShape(Image(), t);
      var l := PathPrase(path, Dirs(t));
      match l
      case Hangs(_) => r := Hung;
      case NotADirectory => r := Done(DIRENT_ISNT_EXIST);
      case Absent(_, _) => r := Done(FILE_ISNT_EXIST);
      case Present(p, e) =>
        if e.ftype != FT_DIR {
          return Done(ISNT_DIR);
        }
        ghost var w := Image();
        Open(e.ino);
        var taken := Down(e.ino);
        var size := Size(e.ino);
        Up(e.ino);
        OpenClose(w, e.ino);
        var closed := Close(e.ino);
        if size != 2 * DIRENT_SIZE {
          return Done(DIR_ISNT_EMPTY);
        }
        RemoveEntry(p, e);
        r := Done(0);
    }

    /** `sys_mkdir` after the second lookup. */
    method PromoteEntry(p: nat, e: Dirent)
      requires Ready() && VolShape(Image()) && p < INODE_CNT && e.ino < INODE_CNT && |e.name| <= NAME_MAX
      requires Image().marks[p] && Image().marks[e.ino] && held == {}
      modifies store, this`held
      ensures Ready() && Image() == Promote(old(Image()), p, e) && held == {}
    {
      hide Ready, Image, AddVol, RemoveVol;
      ghost var v := Image();
      ghost var de := e.(ftype := FT_DIR);
      Open(p);
      RemoveUnderOpen(v, p, e.name);
      var taken := Down(p);
      var deleted := DirentDelete(p, e.name);
      ghost var v1 := RemoveVol(v, p, e.name).0;
      AddUnderOpen(v1, p, p, de);
      var added := DirentAdd(p, e.(ftype := FT_DIR));
      ghost var v2 := AddVol(v1, p, de).0;
      OpenClose(v2, p);
      Up(p);
      var closed := Close(p);
      Open(e.ino);
      taken := Down(e.ino);
      AddUnderOpen(v2, e.ino, e.ino, Dirent(e.ino, DOT, FT_DIR));
      added := DirentAdd(e.ino, Dirent(e.ino, DOT, FT_DIR));
      ghost var v3 := AddVol(v2, e.ino, Dirent(e.ino, DOT, FT_DIR)).0;
      AddUnderOpen(v3, e.ino, e.ino, Dirent(p, DOTDOT, FT_DIR));
      added := DirentAdd(e.ino, Dirent(p, DOTDOT, FT_DIR));
      OpenClose(AddVol(v3, e.ino, Dirent(p, DOTDOT, FT_DIR)).0, e.ino);
      Up(e.ino);
      closed := Close(e.ino);
    }

    method SysMkdir(path: seq<Byte>, ghost t: Tree) returns (r: Ret)
      requires Ready() && PathOk(path) && NsOk(Image(), t) && held == {}
      modifies store, this`held
      ensures Ready() && (Image(), r) == MkdirVol(old(Image()), path)
      ensures r != Hung ==> held == {}
      ensures r.Done? && r.code < 0 ==> BlockMarks() == old(BlockMarks())
    {
      hide Ready, Image, BlockMarks, MknodVol, Promote, Resolve, Split, NsOk, MknodFits, Named, Lookedup;
      ghost var v := Image();
      NsShape(v, t);
      ghost var t1 := MknodKeeps(v, t, path, FT_REG, 0);
      MkdirSecond(v, t, path);
      r := SysMknod(path, FT_REG, 0, t);
      if r.Hung? || r.code < 0 {
        return;
      }
      ghost var v1 := Image();
      NsShape(v1, t1);
      NamedFacts(v1, t1, path);
      NsWalkable(v1, t1);
      var l := PathPrase(path, Dirs(t1));
      match l {
        case Present(p, e) =>
          PromoteEntry(p, e);
          r := Done(0);
        case _ => assert false;
      }
    }
  }

  lemma AddUnderOpen(v: Vol, i: nat, d: nat, e: Dirent)
    requires i < |v.opens| && d < |v.files| && |e.name| <= NAME_MAX
    ensures AddVol(OpenVol(v, i), d, e) == (OpenVol(AddVol(v, d, e).0, i), AddVol(v, d, e).1)
  {
  }

  lemma FailedAddKeepsFiles(v: Vol, d: nat, e: Dirent)
    requires d < |v.files| && |e.name| <= NAME_MAX
    ensures AddVol(v, d, e).1 != DIRENT_SIZE ==> AddVol(v, d, e).1 < 0 && AddVol(v, d, e).0.files == v.files
  {
  }

  lemma OneBlockMore(size: nat)
    ensures Blocks(size + DIRENT_SIZE) <= Blocks(size) + 1
  {
  }

  lemma RemoveUnderOpen(v: Vol, d: nat, name: Name)
    requires d < |v.opens| && d < |v.files|
    ensures RemoveVol(OpenVol(v, d), d, name) == (OpenVol(RemoveVol(v, d, name).0, d), RemoveVol(v, d, name).1)
  {
  }

  /** The inode of an entry found by a path is marked. */
  lemma NamedFacts(v: Vol, t: Tree, path: seq<Byte>)
    requires NsOk(v, t) && path != []
    ensures var l := Lookedup(v, path);
      && l != Undefined && VolShape(v)
      && (l.Present? ==> l.dir < INODE_CNT && v.marks[l.dir] && |l.entry.name| <= NAME_MAX)
      && (l.Present? && l.entry.ftype != FT_CHR ==> l.entry.ino < INODE_CNT && v.marks[l.entry.ino])
  {
    LookupFacts(v, t, path);
    var l := Lookedup(v, path);
    if l.Present? { EntryLeadsOn(v, t, l.dir, l.entry); }
  }

  lemma MkdirSecond(v: Vol, t: Tree, path: seq<Byte>)
    requires NsOk(v, t) && PathOk(path)
    ensures var (v1, r) := MknodVol(v, path, FT_REG, 0);
      r.Done? && r.code >= 0 ==> Lookedup(v1, path).Present? && Lookedup(v1, path).entry.ftype == FT_REG
  {
    MknodAllOrNothing(v, t, path, FT_REG, 0);
    if MknodFits(v, path, FT_REG) { MkdirFinds(v, t, path); }
  }

  lemma WalkableRoot(v: Vol, dirs: set<nat>)
    requires Walkable(v, dirs)
    ensures 0 in dirs && InUse(v, 0)
  {
    assert Walks(v, dirs, 0);
  }
}
