/** The volume after formatting, and inputs on which the system calls do not keep its names a tree. */
module RootVolume {
  import opened FsBytes
  import opened FsDisk
  import opened FsState
  import opened FsResize
  import opened FsRuns
  import opened FsVolume
  import opened Dirents
  import opened DirVolume
  import opened Namespace
  import opened NamespaceOps

  // ----- the first volume

  function Repeat<T>(x: T, n: nat): (r: seq<T>)
    ensures |r| == n && forall i | 0 <= i < n :: r[i] == x
  {
    if n == 0 then [] else [x] + Repeat(x, n - 1)
  }

  /** After `partition_format`. */
  function BlankVol(blocks: nat): (v: Vol)
    requires blocks > RESERVED
    ensures VolShape(v)
  {
    Vol(Repeat(false, INODE_CNT), Repeat([], INODE_CNT), blocks - RESERVED, Repeat(0, INODE_CNT))
  }

  function RootBytes(): seq<Byte> {
    EncodeDirent(Dirent(0, DOTDOT, FT_DIR)) + EncodeDirent(Dirent(0, DOT, FT_DIR))
  }

  /** After `create_root_dir`. */
  function RootVol(blocks: nat): (v: Vol)
    requires blocks > RESERVED
    ensures VolShape(v)
  {
    var b := BlankVol(blocks);
    b.(marks := b.marks[0 := true], files := b.files[0 := RootBytes()], free := b.free - 1)
  }

  lemma {:induction false} RangeCount(lo: nat, hi: nat, s: set<nat>)
    requires lo <= hi && forall b: nat :: b in s <==> lo <= b < hi
    ensures |s| == hi - lo
  {
    if lo < hi {
      RangeCount(lo, hi - 1, s - {hi - 1});
      assert s == s - {hi - 1} + {hi - 1};
    } else {
      assert s == {};
    }
  }

  lemma FormattedFree(f: Fs)
    requires Formatted(f)
    ensures |Free(f)| == f.lay.blocks - RESERVED
  {
    RangeCount(RESERVED, f.lay.blocks, Free(f));
  }

  lemma FormattedVol(f: Fs)
    requires Formatted(f)
    ensures Clean(f) && f.lay.blocks > RESERVED && Volume(f) == BlankVol(f.lay.blocks)
  {
    hide Free, BlankVol, AllFiles, AllCounts, Inv, Clean;
    FormattedFree(f);
    FormattedParts(f);
    FormattedClean(f);
  }

  lemma FormattedClean(f: Fs)
    requires Formatted(f)
    ensures Clean(f)
  {
  }

  lemma FormattedParts(f: Fs)
    requires Formatted(f)
    ensures f.lay.blocks > RESERVED && |f.m.slots| == INODE_CNT
    ensures var b := BlankVol(f.lay.blocks);
      && f.m.imarks == b.marks && AllFiles(f) == b.files && AllCounts(f.open, |f.m.slots|) == b.opens
      && b.free == f.lay.blocks - RESERVED
  {
    var b := BlankVol(f.lay.blocks);
    assert Shape(f);
    assert f.m.imarks == b.marks;
    assert AllFiles(f) == b.files;
    assert AllCounts(f.open, |f.m.slots|) == b.opens;
  }

  /** The two entries of the root fit its first block, which is free. */
  lemma RootAdds(blocks: nat)
    requires blocks > RESERVED
    ensures LeastClear(BlankVol(blocks).marks) == 0
    ensures var v := OpenVol(CreateVol(BlankVol(blocks), 0), 0);
      var p := AddVol(v, 0, Dirent(0, DOTDOT, FT_DIR));
      var q := AddVol(p.0, 0, Dirent(0, DOT, FT_DIR));
      p.1 == q.1 == DIRENT_SIZE && q.0.opens[0] == 1 && CloseVol(q.0, 0) == RootVol(blocks)
  {
    var b := BlankVol(blocks);
    var v := OpenVol(CreateVol(b, 0), 0);
    var ddot, dot := Dirent(0, DOTDOT, FT_DIR), Dirent(0, DOT, FT_DIR);
    assert v.files[0] == [] && Ents(v, 0) == [];
    TwoAdds(v, ddot, dot);
    hide Entries, EncodeDirent, AddVol;
    var two := EncodeDirent(ddot) + EncodeDirent(dot);
    var v2 := v.(files := v.files[0 := two], free := v.free - 1);
    assert two == RootBytes();
    OpenClose(CreateVol(b, 0), 0);
    assert v2.files == RootVol(blocks).files;
  }

  /** Two entries go into an empty directory. */
  lemma TwoAdds(v: Vol, e: Dirent, f: Dirent)
    requires |v.files| > 0 && v.files[0] == [] && Ents(v, 0) == [] && v.free > 0 && Fits(e) && Fits(f) && e.name != f.name
    ensures AddVol(v, 0, e).1 == DIRENT_SIZE
    ensures AddVol(AddVol(v, 0, e).0, 0, f) ==
      (v.(files := v.files[0 := EncodeDirent(e) + EncodeDirent(f)], free := v.free - 1), DIRENT_SIZE)
  {
    hide Entries, EncodeDirent, AddVol;
    AddFresh(v, 0, e);
    var v1 := AddVol(v, 0, e).0;
    assert v.files[0] + EncodeDirent(e) == EncodeDirent(e);
    assert Ents(v1, 0) == [e];
    assert Find([e], f.name) == 1;
    AddFresh(v1, 0, f);
    assert v.files[0 := EncodeDirent(e)][0 := EncodeDirent(e) + EncodeDirent(f)] == v.files[0 := EncodeDirent(e) + EncodeDirent(f)];
  }

  lemma RootEntries(blocks: nat)
    requires blocks > RESERVED
    ensures |RootVol(blocks).files[0]| == 2 * DIRENT_SIZE
    ensures Ents(RootVol(blocks), 0) == [Dirent(0, DOTDOT, FT_DIR), Dirent(0, DOT, FT_DIR)]
  {
    var ddot, dot := Dirent(0, DOTDOT, FT_DIR), Dirent(0, DOT, FT_DIR);
    var one := EncodeDirent(ddot);
    EntriesAppend([], ddot);
    assert [] + one == one && Entries([]) == [];
    EntriesAppend(one, dot);
  }

  /** The volume `filesys_init` starts from. */
  lemma RootConsistent(blocks: nat)
    requires blocks > RESERVED
    ensures NsOk(RootVol(blocks), map[])
  {
    var v, t: Tree := RootVol(blocks), map[];
    RootEntries(blocks);
    RootDirOk(t, v.files[0]);
    hide DirOk, RootBytes;
    forall i | 0 <= i < INODE_CNT ensures MarkOk(v, t, i) {}
  }

  lemma RootDirOk(t: Tree, bytes: seq<Byte>)
    requires 0 !in t && |bytes| == 2 * DIRENT_SIZE && Entries(bytes) == [Dirent(0, DOTDOT, FT_DIR), Dirent(0, DOT, FT_DIR)]
    ensures DirOk(t, 0, bytes)
  {
    var es := Entries(bytes);
    assert es[0].name == DOTDOT && es[1].name == DOT;
    FindUnique(es, 0);
    FindUnique(es, 1);
  }

  // ----- inputs on which the system calls leave no tree

  /** `sys_mkdir("/a")` on a partition whose only data block is the root's: success, and a directory without dots. */
  lemma MkdirWithoutABlock()
    ensures MkdirVol(RootVol(RESERVED + 1), [SLASH, 97]).1 == Done(0)
    ensures !Consistent(MkdirVol(RootVol(RESERVED + 1), [SLASH, 97]).0)
  {
    var v, path := RootVol(RESERVED + 1), [SLASH, 97];
    RootEntries(RESERVED + 1);
    RootConsistent(RESERVED + 1);
    ShortPath();
    var es := Ents(v, 0);
    assert Find(es, [97]) == 2;
    assert Lookedup(v, path) == Absent(0, [97]);
    assert v.marks[1] == false;
    hide Resolve, MkdirVol, MknodVol, NsOk, Consistent, Entries, RootVol, Split, Find;
    MkdirOutcome(v, map[], path);
    MkdirKeepsExactly(v, map[], path);
  }

  lemma ShortPath()
    ensures Split([SLASH, 97][1..]) == [[97]] && PathOk([SLASH, 97])
  {
    var s: seq<Byte> := [97];
    assert [SLASH, 97][1..] == s;
    assert s[1..] == [];
    assert SlashAt(s) == 1;
  }

  lemma FindA(blocks: nat)
    requires blocks > RESERVED
    ensures Lookedup(RootVol(blocks), [SLASH, 97]) == Absent(0, [97])
    ensures LeastClear(RootVol(blocks).marks) == 1 && MknodFits(RootVol(blocks), [SLASH, 97], FT_REG)
  {
    RootEntries(blocks);
    FirstMarks(blocks);
    ShortPath();
    var v := RootVol(blocks);
    hide RootVol, Entries, Split, LeastClear;
    assert Find(Ents(v, 0), [97]) == 2;
  }

  lemma FirstMarks(blocks: nat)
    requires blocks > RESERVED
    ensures var v := RootVol(blocks);
      v.marks[0] && !v.marks[1] && LeastClear(v.marks) == 1 && v.free == blocks - RESERVED - 1
  {
    var v := RootVol(blocks);
    assert LeastClear(v.marks[1..]) == 0;
  }

  /** The volume after `sys_mkdir("/a")`: the root has a third entry, inode 1 holds the dots. */
  lemma MkdirA(blocks: nat) returns (t: Tree)
    requires blocks > RESERVED + 1
    ensures var v := MkdirVol(RootVol(blocks), [SLASH, 97]).0;
      && MkdirVol(RootVol(blocks), [SLASH, 97]).1 == Done(0) && NsOk(v, t) && VolShape(v) && |v.files[1]| == 2 * DIRENT_SIZE
      && Ents(v, 0) == [Dirent(0, DOTDOT, FT_DIR), Dirent(0, DOT, FT_DIR), Dirent(1, [97], FT_DIR)]
      && Ents(v, 1) == [Dirent(1, DOT, FT_DIR), Dirent(0, DOTDOT, FT_DIR)]
  {
    var v, path := RootVol(blocks), [SLASH, 97];
    RootEntries(blocks);
    RootConsistent(blocks);
    ShortPath();
    FindA(blocks);
    assert v.free > 0 && EntryNeed(|v.files[0]|) == 0;
    hide Resolve, MkdirVol, MknodVol, NsOk, Consistent, Entries, RootVol, Split, Find, LeastClear, MknodFits;
    MkdirOutcome(v, map[], path);
    t := MkdirKeeps(v, map[], path);
  }

  lemma SlashPath()
    ensures Split([SLASH, 97, SLASH][1..]) == [[97], []] && EndsInDot([SLASH, 97, SLASH])
  {
    var path := [SLASH, 97, SLASH];
    SplitStep(path, 1, 2);
    assert path[1..2] == [97] && path[3..] == [] && Split([]) == [[]];
  }

  /** "/a/" finds entry 0 of the directory "/a". */
  lemma SlashLookup(v: Vol)
    requires VolShape(v) && |Ents(v, 0)| == 3 && Find(Ents(v, 0), [97]) == 2 && Ents(v, 0)[2] == Dirent(1, [97], FT_DIR)
    requires Ents(v, 1) != []
    ensures Lookedup(v, [SLASH, 97, SLASH]) == Present(1, Ents(v, 1)[0])
  {
    SlashPath();
    hide Split, Find, Entries;
    assert Resolve(v, 1, [[]]) == Present(1, Ents(v, 1)[0]);
    assert [[97], []][1..] == [[]];
  }

  lemma EmptyDirGoes(v: Vol, path: seq<Byte>, e: Dirent)
    requires VolShape(v) && path != [] && e.ino < INODE_CNT && e.ftype == FT_DIR && |v.files[e.ino]| == 2 * DIRENT_SIZE
    requires Lookedup(v, path) == Present(1, e)
    ensures RmdirVol(v, path).1 == Done(0)
  {
  }

  /** `sys_mkdir("/a")`, then `sys_rmdir("/a/")`: success, and an entry "a" that names a freed inode. */
  lemma RmdirByTrailingSlash(blocks: nat)
    requires blocks > RESERVED + 1
    ensures MkdirVol(RootVol(blocks), [SLASH, 97]).1 == Done(0) && Consistent(MkdirVol(RootVol(blocks), [SLASH, 97]).0)
    ensures var v := MkdirVol(RootVol(blocks), [SLASH, 97]).0;
      RmdirVol(v, [SLASH, 97, SLASH]).1 == Done(0) && !Consistent(RmdirVol(v, [SLASH, 97, SLASH]).0)
  {
    hide *;
    ShortPath();
    var v := MkdirVol(RootVol(blocks), [SLASH, 97]).0;
    var t := MkdirA(blocks);
    TrailingSlash(v, t);
  }

  lemma ThirdFound(es: seq<Dirent>)
    requires es == [Dirent(0, DOTDOT, FT_DIR), Dirent(0, DOT, FT_DIR), Dirent(1, [97], FT_DIR)]
    ensures Find(es, [97]) == 2
  {
    assert es[0].name[0] == 46 && es[1].name[0] == 46 && es[2].name[0] == 97;
    assert Find(es[2..], [97]) == 0 && es[1..][1..] == es[2..];
    assert Find(es[1..], [97]) == 1;
  }

  lemma TrailingSlash(v: Vol, t: Tree)
    requires NsOk(v, t) && VolShape(v) && |v.files[1]| == 2 * DIRENT_SIZE
    requires Ents(v, 0) == [Dirent(0, DOTDOT, FT_DIR), Dirent(0, DOT, FT_DIR), Dirent(1, [97], FT_DIR)]
    requires Ents(v, 1) == [Dirent(1, DOT, FT_DIR), Dirent(0, DOTDOT, FT_DIR)]
    ensures Consistent(v) && RmdirVol(v, [SLASH, 97, SLASH]).1 == Done(0)
    ensures !Consistent(RmdirVol(v, [SLASH, 97, SLASH]).0)
  {
    ThirdFound(Ents(v, 0));
    hide NsOk, RmdirVol, Resolve, Split, Entries, Find;
    SlashLookup(v);
    EmptyDirGoes(v, [SLASH, 97, SLASH], Dirent(1, DOT, FT_DIR));
    SlashPath();
    RmdirKeepsExactly(v, t, [SLASH, 97, SLASH]);
  }

  /** The root with a device: `sys_mknod("/a", FT_CHR, 0)`. */
  lemma MknodDevice(blocks: nat)
    requires blocks > RESERVED
    ensures var (v, r) := MknodVol(RootVol(blocks), [SLASH, 97], FT_CHR, 0);
      && r == Done(0) && NsOk(v, map[]) && VolShape(v)
      && Ents(v, 0) == [Dirent(0, DOTDOT, FT_DIR), Dirent(0, DOT, FT_DIR), Dirent(0, [97], FT_CHR)]
  {
    hide RootVol, Entries, NewEntry, Lookedup, NsOk;
    var v := RootVol(blocks);
    RootEntries(blocks);
    RootConsistent(blocks);
    FindA(blocks);
    HeldKeeps(v, map[], Absent(0, [97]));
    DeviceAdded(Held(v, Absent(0, [97])));
  }

  lemma DeviceAdded(v: Vol)
    requires NsOk(v, map[]) && VolShape(v) && |v.files[0]| == 2 * DIRENT_SIZE
    requires Ents(v, 0) == [Dirent(0, DOTDOT, FT_DIR), Dirent(0, DOT, FT_DIR)]
    ensures var (w, r) := NewEntry(v, 0, [97], FT_CHR, 0);
      && r == Done(0) && NsOk(w, map[]) && VolShape(w)
      && Ents(w, 0) == [Dirent(0, DOTDOT, FT_DIR), Dirent(0, DOT, FT_DIR), Dirent(0, [97], FT_CHR)]
  {
    assert Find(Ents(v, 0), [97]) == 2;
    hide NsOk, Entries, Find, AddVol;
    DeviceEntry(v, map[], 0, [97], 0);
    AddFresh(v, 0, Dirent(0, [97], FT_CHR));
  }

  /** `sys_mknod("/a", FT_CHR, 0)`, then `sys_unlink("/a")`: success, and the root's inode is free.  The kernel's own
      "/dev/stdin" is such a device. */
  lemma UnlinkFreesTheRoot(blocks: nat) returns (v: Vol)
    requires blocks > RESERVED
    ensures PathOk([SLASH, 97]) && MknodVol(RootVol(blocks), [SLASH, 97], FT_CHR, 0) == (v, Done(0)) && Consistent(v)
    ensures VolShape(v) && DeviceInUse(v, Lookedup(v, [SLASH, 97]))
    ensures UnlinkVol(v, [SLASH, 97]).1 == Done(0) && !UnlinkVol(v, [SLASH, 97]).0.marks[0]
    ensures !Consistent(UnlinkVol(v, [SLASH, 97]).0)
  {
    hide *;
    ShortPath();
    MknodDevice(blocks);
    v := MknodVol(RootVol(blocks), [SLASH, 97], FT_CHR, 0).0;
    RootUnlinked(v);
  }

  lemma RootUnlinked(v: Vol)
    requires NsOk(v, map[]) && VolShape(v) && Split([SLASH, 97][1..]) == [[97]]
    requires Ents(v, 0) == [Dirent(0, DOTDOT, FT_DIR), Dirent(0, DOT, FT_DIR), Dirent(0, [97], FT_CHR)]
    ensures Consistent(v) && DeviceInUse(v, Lookedup(v, [SLASH, 97]))
    ensures UnlinkVol(v, [SLASH, 97]).1 == Done(0) && !UnlinkVol(v, [SLASH, 97]).0.marks[0]
    ensures !Consistent(UnlinkVol(v, [SLASH, 97]).0)
  {
    hide NsOk, Entries, Lookedup, UnlinkVol;
    DeviceUnlinked(v);
    UnlinkKeepsExactly(v, map[], [SLASH, 97]);
  }

  lemma DeviceUnlinked(v: Vol)
    requires NsOk(v, map[]) && VolShape(v) && Split([SLASH, 97][1..]) == [[97]]
    requires Ents(v, 0) == [Dirent(0, DOTDOT, FT_DIR), Dirent(0, DOT, FT_DIR), Dirent(0, [97], FT_CHR)]
    ensures Lookedup(v, [SLASH, 97]) == Present(0, Dirent(0, [97], FT_CHR)) && v.marks[0]
    ensures var (w, r) := UnlinkVol(v, [SLASH, 97]); r == Done(0) && !w.marks[0]
  {
    var es := Ents(v, 0);
    assert es[0].name[0] == 46 && es[1].name[0] == 46 && es[2].name[0] == 97;
    assert Find(es[2..], [97]) == 0 && es[1..][1..] == es[2..];
    assert Find(es[1..], [97]) == 1;
    assert Find(es, [97]) == 2;
    hide RemoveVol, Entries, Find, Split;
    assert Lookedup(v, [SLASH, 97]) == Present(0, Dirent(0, [97], FT_CHR));
  }

  /** A missing intermediate component: `path_prase("/a/b")` on the volume without "a". */
  lemma MissingDirectoryHangs(blocks: nat)
    requires blocks > RESERVED
    ensures Lookedup(RootVol(blocks), [SLASH, 97, SLASH, 98]) == Hangs(0)
  {
    var v, path := RootVol(blocks), [SLASH, 97, SLASH, 98];
    RootEntries(blocks);
    SplitStep(path, 1, 2);
    assert path[1..2] == [97];
    assert Find(Ents(v, 0), [97]) == 2;
  }
}
