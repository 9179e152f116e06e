/** What the system calls on names do to a consistent volume. */
module NamespaceOps {
  import opened FsBytes
  import opened FsDisk
  import opened FsState
  import opened FsVolume
  import opened Dirents
  import opened DirVolume
  import opened Namespace

  predicate PathOk(path: seq<Byte>) {
    path != [] && 0 !in path && ShortNames(path)
  }

  /** Components have no slash, and no character the path does not have. */
  lemma {:induction false} SplitClean(s: seq<Byte>)
    ensures forall c | c in Split(s) :: SLASH !in c && forall x | x in c :: x in s
    decreases |s|
  {
    var k := SlashAt(s);
    if k == |s| {
      assert s[..k] == s;
    } else {
      SplitClean(s[k + 1..]);
    }
  }

  lemma OpensKeep(v: Vol, v': Vol, t: Tree)
    requires NsOk(v, t) && v'.marks == v.marks && v'.files == v.files && VolShape(v')
    ensures NsOk(v', t)
  {
    forall j | j in t ensures LinkOk(v', t, j) { assert LinkOk(v, t, j); }
    forall j | 0 <= j < INODE_CNT ensures MarkOk(v', t, j) { assert MarkOk(v, t, j); }
  }

  lemma HeldKeeps(v: Vol, t: Tree, l: Lookup)
    requires NsOk(v, t)
    ensures NsOk(Held(v, l), t)
  {
    OpensKeep(v, Held(v, l), t);
  }

  // ----- sys_mknod

  predicate RoomFor(v: Vol, d: nat)
    requires d < |v.files|
  {
    |v.files[d]| + DIRENT_SIZE <= FILE_MAX && EntryNeed(|v.files[d]|) <= v.free
  }

  ghost predicate FreshName(v: Vol, t: Tree, d: nat, name: Name) {
    NsOk(v, t) && IsDir(t, d) && d < |v.files| && GoodName(name) && !IsDot(name) && Find(Ents(v, d), name) == |Ents(v, d)|
  }

  lemma AbsentIsFresh(v: Vol, t: Tree, path: seq<Byte>)
    requires NsOk(v, t) && PathOk(path) && Lookedup(v, path).Absent?
    ensures FreshName(Held(v, Lookedup(v, path)), t, Lookedup(v, path).dir, Lookedup(v, path).name)
  {
    LookupFacts(v, t, path);
    SplitClean(path[1..]);
    HeldKeeps(v, t, Lookedup(v, path));
    assert forall x | x in path[1..] :: x in path;
  }

  /** An entry for a new regular file goes in whole, or the volume is as before: one append crosses at most one block. */
  lemma RegularEntry(v: Vol, t: Tree, d: nat, name: Name, dev: nat)
    requires FreshName(v, t, d, name)
    ensures var (w, r) := NewEntry(v, d, name, FT_REG, dev);
      var i := LeastClear(v.marks);
      if i < INODE_CNT && RoomFor(v, d)
      then r == Done(i) && NewName(v, w, t, d, name, i, false) && w.free == v.free - EntryNeed(|v.files[d]|) && w.opens == v.opens
           && w.files[d] == v.files[d] + EncodeDirent(Dirent(i, name, FT_REG))
      else r.Done? && r.code < 0 && w == v
  {
    var i := LeastClear(v.marks);
    if i < INODE_CNT {
      if RoomFor(v, d) { RegularFits(v, t, d, name, i); } else { RegularRefused(v, t, d, name, i); }
    }
  }

  lemma RegularFits(v: Vol, t: Tree, d: nat, name: Name, i: nat)
    requires FreshName(v, t, d, name) && i < INODE_CNT && !v.marks[i] && RoomFor(v, d)
    ensures var e := Dirent(i, name, FT_REG);
      var (w, r) := AddVol(CreateVol(v, i), d, e);
      r == DIRENT_SIZE && NewName(v, w, t, d, name, i, false)
      && w.free == v.free - EntryNeed(|v.files[d]|) && w.opens == v.opens && w.files[d] == v.files[d] + EncodeDirent(e)
  {
    DirFacts(v, t, d);
    assert MarkOk(v, t, i);
    var c, e := CreateVol(v, i), Dirent(i, name, FT_REG);
    assert Ents(c, d) == Ents(v, d);
    hide WriteVol, Entries, EncodeDirent, NsOk, DirOk;
    AddFresh(c, d, e);
  }

  lemma RegularRefused(v: Vol, t: Tree, d: nat, name: Name, i: nat)
    requires FreshName(v, t, d, name) && i < INODE_CNT && !v.marks[i] && !RoomFor(v, d)
    ensures var (w, r) := AddVol(CreateVol(v, i), d, Dirent(i, name, FT_REG));
      r < 0 && DeleteVol(w, i) == v
  {
    DirFacts(v, t, d);
    assert MarkOk(v, t, i);
    var c := CreateVol(v, i);
    AddRefused(c, d, Dirent(i, name, FT_REG));
    assert DeleteVol(c, i).marks == v.marks && DeleteVol(c, i).files == v.files;
  }

  lemma DeviceEntry(v: Vol, t: Tree, d: nat, name: Name, dev: nat)
    requires FreshName(v, t, d, name) && dev < WORD_MAX
    ensures var (w, r) := NewEntry(v, d, name, FT_CHR, dev);
      if RoomFor(v, d) then r == Done(dev) && NsOk(w, t) && Ents(w, d) == Ents(v, d) + [Dirent(dev, name, FT_CHR)] else r.Done? && r.code < 0 && w == v
  {
    DirFacts(v, t, d);
    var e := Dirent(dev, name, FT_CHR);
    if RoomFor(v, d) {
      AddFresh(v, d, e);
      DeviceKeeps(v, AddVol(v, d, e).0, t, d, e);
    } else {
      AddRefused(v, d, e);
    }
  }

  /** Exactly when `sys_mknod` succeeds. */
  predicate MknodFits(v: Vol, path: seq<Byte>, ftype: nat)
    requires VolShape(v) && path != []
  {
    var l := Lookedup(v, path);
    (ftype == FT_CHR || ftype == FT_REG) && l.Absent? && RoomFor(v, l.dir) && (ftype == FT_REG ==> false in v.marks)
  }

  lemma {:induction false} LeastClearIff(marks: seq<bool>)
    ensures LeastClear(marks) < |marks| <==> false in marks
  {
    if marks != [] && marks[0] {
      LeastClearIff(marks[1..]);
      assert forall k | 0 < k < |marks| :: marks[k] == marks[1..][k - 1];
    }
  }

  /** All or nothing: a failing `sys_mknod` leaves marks, files and free blocks alone. */
  lemma MknodAllOrNothing(v: Vol, t: Tree, path: seq<Byte>, ftype: nat, dev: nat)
    requires NsOk(v, t) && PathOk(path) && dev < WORD_MAX
    ensures var (w, r) := MknodVol(v, path, ftype, dev);
      && (r.Done? && r.code >= 0 <==> MknodFits(v, path, ftype))
      && (!MknodFits(v, path, ftype) ==> w.marks == v.marks && w.files == v.files && w.free == v.free)
  {
    var l := Lookedup(v, path);
    LookupFacts(v, t, path);
    if l.Absent? {
      AbsentIsFresh(v, t, path);
      LeastClearIff(v.marks);
      if ftype == FT_REG { RegularEntry(Held(v, l), t, l.dir, l.name, dev); }
      if ftype == FT_CHR { DeviceEntry(Held(v, l), t, l.dir, l.name, dev); }
    }
  }

  /** `sys_mknod` keeps the tree; a regular file is a new leaf of it. */
  lemma MknodKeeps(v: Vol, t: Tree, path: seq<Byte>, ftype: nat, dev: nat) returns (t': Tree)
    requires NsOk(v, t) && PathOk(path) && dev < WORD_MAX
    ensures NsOk(MknodVol(v, path, ftype, dev).0, t')
    ensures MknodFits(v, path, ftype) && ftype == FT_REG ==> var l, i := Lookedup(v, path), LeastClear(v.marks);
              && t' == Grafted(t, l.dir, l.name, i, false)
              && NewName(Held(v, l), MknodVol(v, path, ftype, dev).0, t, l.dir, l.name, i, false)
  {
    var l := Lookedup(v, path);
    t' := t;
    HeldKeeps(v, t, l);
    if l.Absent? {
      AbsentIsFresh(v, t, path);
      LeastClearIff(v.marks);
      if ftype == FT_REG {
        RegularEntry(Held(v, l), t, l.dir, l.name, dev);
        if MknodFits(v, path, ftype) {
          GraftKeeps(Held(v, l), MknodVol(v, path, ftype, dev).0, t, l.dir, l.name, LeastClear(v.marks), false);
          t' := Grafted(t, l.dir, l.name, LeastClear(v.marks), false);
        }
      }
      if ftype == FT_CHR { DeviceEntry(Held(v, l), t, l.dir, l.name, dev); }
    }
  }

  // ----- sys_unlink, sys_rmdir

  /** Freeing a childless inode and deleting its entry. */
  lemma DropEntryDrops(v: Vol, t: Tree, i: nat)
    requires NsOk(v, t) && i in t && i < INODE_CNT && (t[i].isDir ==> |v.files[i]| == 2 * DIRENT_SIZE)
    requires t[i].parent < |v.files|
    ensures var w := DropEntry(v, t[i].parent, Dirent(i, t[i].name, TypeOf(t[i].isDir)));
      && NsOk(w, t - {i}) && DroppedName(v, w, t, i)
      && |v.files[t[i].parent]| >= DIRENT_SIZE
      && w.free == v.free + Blocks(|v.files[i]|) + EntryNeed(|v.files[t[i].parent]| - DIRENT_SIZE)
  {
    var p, e := t[i].parent, Dirent(i, t[i].name, TypeOf(t[i].isDir));
    hide *;
    NamedInParent(v, t, i);
    RemovedBytes(v, p, e);
    RemovedIsDropped(v, DropEntry(v, p, e), t, i);
    PruneKeeps(v, DropEntry(v, p, e), t, i);
  }

  lemma RemovedIsDropped(v: Vol, w: Vol, t: Tree, i: nat)
    requires NsOk(v, t) && i in t && LinkOk(v, t, i) && (t[i].isDir ==> |v.files[i]| == 2 * DIRENT_SIZE)
    requires Removed(v, w, t[i].parent, Dirent(i, t[i].name, TypeOf(t[i].isDir)))
    ensures DroppedName(v, w, t, i)
    ensures |v.files[t[i].parent]| >= DIRENT_SIZE
    ensures w.free == v.free + Blocks(|v.files[i]|) + EntryNeed(|v.files[t[i].parent]| - DIRENT_SIZE)
  {
    hide NsOk, Entries, Find, SwapOut;
  }

  /** An inode freed and its entry gone from the end or replaced by the last one. */
  ghost predicate Removed(v: Vol, w: Vol, p: nat, e: Dirent) {
    && VolShape(v) && VolShape(w) && p < INODE_CNT && e.ino < INODE_CNT
    && w.marks == v.marks[e.ino := false] && w.files[e.ino] == [] && w.opens == v.opens
    && Find(Ents(v, p), e.name) < |Ents(v, p)|
    && |w.files[p]| + DIRENT_SIZE == |v.files[p]| && Ents(w, p) == SwapOut(Ents(v, p), Find(Ents(v, p), e.name))
    && w.free == v.free + Blocks(|v.files[e.ino]|) + EntryNeed(|v.files[p]| - DIRENT_SIZE)
    && forall j {:trigger w.files[j]} | 0 <= j < INODE_CNT && j != p && j != e.ino :: w.files[j] == v.files[j]
  }

  lemma NamedInParent(v: Vol, t: Tree, i: nat)
    requires NsOk(v, t) && i in t
    ensures VolShape(v) && LinkOk(v, t, i)
    ensures var p := t[i].parent;
      && p != i && p < INODE_CNT && |v.files[p]| % DIRENT_SIZE == 0 && |v.files[p]| <= FILE_MAX
      && Find(Ents(v, p), t[i].name) < |Ents(v, p)|
  {
    NameAt(v, t, i);
    DirFacts(v, t, t[i].parent);
  }

  lemma RemovedBytes(v: Vol, p: nat, e: Dirent)
    requires VolShape(v) && p < INODE_CNT && e.ino < INODE_CNT && e.ino != p && Find(Ents(v, p), e.name) < |Ents(v, p)|
    requires |v.files[p]| % DIRENT_SIZE == 0 && |v.files[p]| <= FILE_MAX
    ensures Removed(v, DropEntry(v, p, e), p, e)
  {
    hide Entries, Find, RemoveVol, SwapOut;
    var d := DeleteVol(v, e.ino);
    assert Ents(d, p) == Ents(v, p);
    RemovePresent(d, p, e.name);
  }

  lemma EntryIsLink(v: Vol, t: Tree, d: nat, e: Dirent)
    requires NsOk(v, t) && EntryOk(t, d, e) && !IsDot(e.name) && (e.ftype == FT_DIR || e.ftype == FT_REG)
    ensures e.ino in t && e.ino < INODE_CNT && t[e.ino].parent == d && e == Dirent(e.ino, t[e.ino].name, TypeOf(t[e.ino].isDir))
  {
    assert LinkOk(v, t, e.ino);
  }

  /** The path names a device whose number is that of a marked inode. */
  predicate NamesakeDevice(v: Vol, path: seq<Byte>)
    requires path != []
  {
    var l := Lookedup(v, path);
    l.Present? && l.entry.ftype == FT_CHR && l.entry.ino < |v.marks| && v.marks[l.entry.ino]
  }

  /** Freeing an inode that is free already, and deleting the device's entry. */
  lemma DeviceDrops(v: Vol, t: Tree, d: nat, e: Dirent)
    requires NsOk(v, t) && IsDir(t, d) && d < INODE_CNT && e in Ents(v, d)
    requires e.ftype == FT_CHR && e.ino < INODE_CNT && !v.marks[e.ino]
    ensures NsOk(DropEntry(v, d, e), t)
  {
    hide *;
    FreeAlready(v, t, d, e.ino);
    DeviceAt(v, t, d, e);
    RemovedBytes(v, d, e);
    RemovedDevice(v, DropEntry(v, d, e), t, d, e);
  }

  lemma FreeAlready(v: Vol, t: Tree, d: nat, i: nat)
    requires NsOk(v, t) && IsDir(t, d) && d < INODE_CNT && i < INODE_CNT && !v.marks[i]
    ensures VolShape(v) && i != d && v.files[i] == []
  {
    DirFacts(v, t, d);
    assert MarkOk(v, t, i);
  }

  lemma RemovedDevice(v: Vol, w: Vol, t: Tree, d: nat, e: Dirent)
    requires NsOk(v, t) && IsDir(t, d) && d < INODE_CNT && e in Ents(v, d)
    requires e.ftype == FT_CHR && e.ino < INODE_CNT && !v.marks[e.ino] && v.files[e.ino] == [] && Removed(v, w, d, e)
    ensures NsOk(w, t)
  {
    hide NsOk, Entries, Find, SwapOut;
    DeviceGoes(v, w, t, d, e);
  }

  /** Unlinking a regular file keeps the tree and takes just that file out of it; unlinking a device whose number is
      that of no inode, or of one that is open but has no name, changes no other name. */
  lemma UnlinkKeeps(v: Vol, t: Tree, path: seq<Byte>) returns (t': Tree)
    requires NsOk(v, t) && path != [] && DeviceInUse(v, Lookedup(v, path)) && !NamesakeDevice(v, path)
    ensures NsOk(UnlinkVol(v, path).0, t')
    ensures UnlinkVol(v, path).1 == Done(0) ==> var l := Lookedup(v, path);
              l.Present? && if l.entry.ftype == FT_CHR then t' == t
              else t' == t - {l.entry.ino} && DroppedName(Held(v, l), UnlinkVol(v, path).0, t, l.entry.ino)
    ensures UnlinkVol(v, path).1 != Done(0) ==> UnlinkVol(v, path).0 == Held(v, Lookedup(v, path))
  {
    var l := Lookedup(v, path);
    LookupFacts(v, t, path);
    HeldKeeps(v, t, l);
    t' := t;
    if l.Present? && l.entry.ftype == FT_CHR {
      if l.entry.ino < INODE_CNT { DeviceDrops(Held(v, l), t, l.dir, l.entry); }
    } else if l.Present? && l.entry.ftype != FT_DIR {
      EntryIsLink(v, t, l.dir, l.entry);
      DropEntryDrops(Held(v, l), t, l.entry.ino);
      t' := t - {l.entry.ino};
    }
  }

  /** The last component of the path is empty or a dot. */
  predicate EndsInDot(path: seq<Byte>)
    requires path != []
  {
    var comps := Split(path[1..]);
    var last := comps[|comps| - 1];
    last == [] || IsDot(last)
  }

  lemma {:induction false} ResolveLast(v: Vol, d: nat, comps: seq<Name>)
    requires comps != [] && Resolve(v, d, comps).Present?
    ensures var l, last := Resolve(v, d, comps), comps[|comps| - 1];
      if last == [] then Ents(v, l.dir) != [] && l.entry == Ents(v, l.dir)[0] else l.entry.name == last
    decreases |comps|
  {
    if |comps| > 1 { ResolveLast(v, Ents(v, d)[Find(Ents(v, d), comps[0])].ino, comps[1..]); }
  }

  /** The entry a path finds is a dot exactly if the path's last component is one, or empty. */
  lemma DotFound(v: Vol, t: Tree, path: seq<Byte>)
    requires NsOk(v, t) && path != [] && Lookedup(v, path).Present?
    ensures IsDot(Lookedup(v, path).entry.name) <==> EndsInDot(path)
  {
    LookupFacts(v, t, path);
    ResolveLast(v, 0, Split(path[1..]));
    DirFacts(v, t, Lookedup(v, path).dir);
  }

  lemma RmdirKeeps(v: Vol, t: Tree, path: seq<Byte>) returns (t': Tree)
    requires NsOk(v, t) && path != []
    requires Lookedup(v, path).Present? ==> !EndsInDot(path)
    ensures NsOk(RmdirVol(v, path).0, t')
    ensures RmdirVol(v, path).1 == Done(0) ==> var l := Lookedup(v, path);
              l.Present? && t' == t - {l.entry.ino} && DroppedName(Held(v, l), RmdirVol(v, path).0, t, l.entry.ino)
    ensures RmdirVol(v, path).1 != Done(0) ==> RmdirVol(v, path).0 == Held(v, Lookedup(v, path))
  {
    var l := Lookedup(v, path);
    LookupFacts(v, t, path);
    HeldKeeps(v, t, l);
    t' := t;
    if RmdirVol(v, path).1 == Done(0) {
      DotFound(v, t, path);
      EntryIsLink(v, t, l.dir, l.entry);
      DropEntryDrops(Held(v, l), t, l.entry.ino);
      t' := t - {l.entry.ino};
    }
  }

  // ----- when the tree breaks

  /** A directory of `t` is a directory in any tree of a volume that still has the directory entries leading to it. */
  lemma {:induction false} ForcedDir(v: Vol, t: Tree, v': Vol, t': Tree, a: nat, d: nat)
    requires NsOk(v, t) && NsOk(v', t') && IsDir(t, d) && a != 0 && (a in t ==> DepthOf(t, d) < DepthOf(t, a))
    requires forall x: nat, e {:trigger KeepsEntry(v, v', x, e)} | IsDir(t, x) && x != a :: KeepsEntry(v, v', x, e)
    ensures IsDir(t', d) && d < INODE_CNT
    decreases DepthOf(t, d)
  {
    if d != 0 {
      assert LinkOk(v, t, d);
      var p, e := t[d].parent, Dirent(d, t[d].name, FT_DIR);
      if a !in t { NotParent(v, t, a, d); }
      ForcedDir(v, t, v', t', a, p);
      assert KeepsEntry(v, v', p, e);
      DirFacts(v', t', p);
      assert EntryOk(t', p, e);
    }
  }

  lemma NotParent(v: Vol, t: Tree, a: nat, d: nat)
    requires NsOk(v, t) && a !in t && a != 0 && d in t
    ensures t[d].parent != a
  {
    assert LinkOk(v, t, d);
  }

  /** Directory entries of `x` are not lost. */
  predicate KeepsEntry(v: Vol, v': Vol, x: nat, e: Dirent) {
    x < |v.files| && x < |v'.files| && e in Ents(v, x) && e.ftype == FT_DIR ==> e in Ents(v', x)
  }

  /** The target of a dot with only the dots in it. */
  lemma EmptyDotTarget(v: Vol, t: Tree, d: nat, e: Dirent)
    requires NsOk(v, t) && IsDir(t, d) && EntryOk(t, d, e) && IsDot(e.name)
    requires e.ino < INODE_CNT && |v.files[e.ino]| == 2 * DIRENT_SIZE
    ensures e.ino == d
  {
    if e.name == DOTDOT && d != 0 {
      NameAt(v, t, d);
      var p := t[d].parent;
      TwoEntriesAreDots(v, t, p, Dirent(d, t[d].name, TypeOf(t[d].isDir)));
      assert false;
    }
  }

  lemma LinkMarked(v: Vol, t: Tree, i: nat)
    requires NsOk(v, t) && i in t
    ensures i < INODE_CNT && v.marks[i]
  {
    assert LinkOk(v, t, i);
  }

  lemma DotDropped(v: Vol, d: nat, e: Dirent)
    requires VolShape(v) && d < INODE_CNT && e.ino == d
    ensures DropEntry(v, d, e) == DeleteVol(v, d)
  {
    assert Entries([]) == [];
  }

  /** An empty directory removed by way of a dot leaves its name behind. */
  lemma DotBreaks(v: Vol, t: Tree, d: nat, e: Dirent, t': Tree)
    requires NsOk(v, t) && IsDir(t, d) && EntryOk(t, d, e) && IsDot(e.name)
    requires d < INODE_CNT && e.ino == d
    ensures !NsOk(DropEntry(v, d, e), t')
  {
    var w := DropEntry(v, d, e);
    DotDropped(v, d, e);
    if NsOk(w, t') && d != 0 {
      NameAt(v, t, d);
      var p, x := t[d].parent, Dirent(d, t[d].name, FT_DIR);
      forall y: nat, z | IsDir(t, y) && y != d ensures KeepsEntry(v, w, y, z) { if y < INODE_CNT { assert w.files[y] == v.files[y]; } }
      ForcedDir(v, t, w, t', d, p);
      DirFacts(w, t', p);
      assert EntryOk(t', p, x);
      LinkMarked(w, t', d);
      assert false;
    }
  }

  /** `sys_rmdir` that succeeds keeps the names a tree exactly when the path's last component is neither a dot nor empty. */
  lemma RmdirKeepsExactly(v: Vol, t: Tree, path: seq<Byte>)
    requires NsOk(v, t) && path != [] && RmdirVol(v, path).1 == Done(0)
    ensures Lookedup(v, path).Present?
    ensures Consistent(RmdirVol(v, path).0) <==> !EndsInDot(path)
  {
    var l := Lookedup(v, path);
    var u, w := Held(v, l), RmdirVol(v, path).0;
    LookupFacts(v, t, path);
    HeldKeeps(v, t, l);
    DotFound(v, t, path);
    if IsDot(l.entry.name) {
      EmptyDotTarget(u, t, l.dir, l.entry);
      forall t' ensures !NsOk(w, t') { DotBreaks(u, t, l.dir, l.entry, t'); }
    } else {
      var t' := RmdirKeeps(v, t, path);
    }
  }

  /** A device whose number is a marked inode's, unlinked: the inode is freed and its name stays. */
  lemma DeviceBreaks(v: Vol, t: Tree, d: nat, e: Dirent, t': Tree)
    requires NsOk(v, t) && IsDir(t, d) && d < INODE_CNT && e in Ents(v, d)
    requires e.ftype == FT_CHR && e.ino < INODE_CNT && v.marks[e.ino]
    ensures !NsOk(DropEntry(v, d, e), t')
  {
    hide Entries, RemoveVol, Find, DirOk;
    var w, i := DropEntry(v, d, e), e.ino;
    if NsOk(w, t') && i != 0 {
      assert MarkOk(v, t, i);
      NameAt(v, t, i);
      var p, x := t[i].parent, Dirent(i, t[i].name, TypeOf(t[i].isDir));
      DroppedKeeps(v, t, d, e, p, x);
      DroppedDirs(v, t, d, e);
      ForcedDir(v, t, w, t', i, p);
      NamedIsMarked(w, t', p, x);
      assert false;
    }
  }

  lemma NamedIsMarked(v: Vol, t: Tree, p: nat, x: Dirent)
    requires NsOk(v, t) && IsDir(t, p) && p < INODE_CNT && x in Ents(v, p) && !IsDot(x.name) && x.ftype != FT_CHR
    ensures x.ino < INODE_CNT && v.marks[x.ino]
  {
    DirFacts(v, t, p);
    assert EntryOk(t, p, x);
    LinkMarked(v, t, x.ino);
  }

  lemma DroppedDirs(v: Vol, t: Tree, d: nat, e: Dirent)
    requires NsOk(v, t) && IsDir(t, d) && d < INODE_CNT && e in Ents(v, d) && e.ftype == FT_CHR && e.ino < INODE_CNT
    ensures forall y: nat, z {:trigger KeepsEntry(v, DropEntry(v, d, e), y, z)} | IsDir(t, y) && y != e.ino ::
              KeepsEntry(v, DropEntry(v, d, e), y, z)
  {
    hide NsOk, Entries, DropEntry;
    NsShape(v, t);
    forall y: nat, z | IsDir(t, y) && y != e.ino ensures KeepsEntry(v, DropEntry(v, d, e), y, z) {
      if y < |v.files| && z in Ents(v, y) && z.ftype == FT_DIR { DroppedKeeps(v, t, d, e, y, z); }
    }
  }

  /** The entries that the removal of a device's entry leaves. */
  lemma DroppedKeeps(v: Vol, t: Tree, d: nat, e: Dirent, y: nat, z: Dirent)
    requires NsOk(v, t) && IsDir(t, d) && d < INODE_CNT && e in Ents(v, d) && e.ftype == FT_CHR && e.ino < INODE_CNT
    requires y < |v.files| && y != e.ino && z in Ents(v, y) && z.ftype != FT_CHR
    ensures y < |DropEntry(v, d, e).files| && z in Ents(DropEntry(v, d, e), y)
  {
    if y == d {
      hide NsOk, RemoveVol, Entries, Find, SwapOut;
      DeviceAt(v, t, d, e);
      RemovedBytes(v, d, e);
      SwapOutMembers(Ents(v, d), Find(Ents(v, d), e.name));
    } else {
      assert DropEntry(v, d, e).files[y] == v.files[y];
    }
  }

  /** `sys_unlink` keeps the names a tree exactly when it is not given a device whose number is a marked inode's. */
  lemma UnlinkKeepsExactly(v: Vol, t: Tree, path: seq<Byte>)
    requires NsOk(v, t) && path != [] && DeviceInUse(v, Lookedup(v, path))
    ensures UnlinkVol(v, path).1 == Done(0) ==> Lookedup(v, path).Present?
    ensures Consistent(UnlinkVol(v, path).0) <==> !NamesakeDevice(v, path)
  {
    var l := Lookedup(v, path);
    var u, w := Held(v, l), UnlinkVol(v, path).0;
    LookupFacts(v, t, path);
    HeldKeeps(v, t, l);
    if NamesakeDevice(v, path) {
      forall t' ensures !NsOk(w, t') { DeviceBreaks(u, t, l.dir, l.entry, t'); }
    } else {
      var t' := UnlinkKeeps(v, t, path);
    }
  }

  // ----- sys_mkdir

  /** `v'` is `v` with one more entry, under a name it did not have, in directory `p`. */
  ghost predicate OneMore(v: Vol, v': Vol, p: nat, e: Dirent) {
    && |v'.files| == |v.files| && p < |v.files|
    && Ents(v', p) == Ents(v, p) + [e] && Find(Ents(v, p), e.name) == |Ents(v, p)| && e.name != []
    && forall j {:trigger v'.files[j]} | 0 <= j < |v.files| && j != p :: v'.files[j] == v.files[j]
  }

  lemma FindNew(es: seq<Dirent>, e: Dirent)
    requires Find(es, e.name) == |es|
    ensures Find(es + [e], e.name) == |es|
  {
    var all := es + [e];
    assert all[|es|] == e;
    assert forall x | 0 <= x < |es| :: all[x] == es[x];
  }

  /** The path that led nowhere leads to the new entry. */
  lemma {:induction false} ResolveNew(v: Vol, v': Vol, d: nat, comps: seq<Name>, p: nat, e: Dirent)
    requires comps != [] && OneMore(v, v', p, e) && Resolve(v, d, comps) == Absent(p, e.name)
    ensures Resolve(v', d, comps) == Present(p, e)
    decreases |comps|
  {
    if |comps| == 1 {
      FindNew(Ents(v, p), e);
    } else {
      var k := Find(Ents(v, d), comps[0]);
      if d == p { FindAppend(Ents(v, p), e, comps[0]); }
      ResolveNew(v, v', Ents(v, d)[k].ino, comps[1..], p, e);
    }
  }

  /** `u` is a volume in which inode `i` has just got its regular entry in `p`, as `sys_mkdir` finds it. */
  ghost predicate Named(v: Vol, u: Vol, t: Tree, p: nat, name: Name, i: nat) {
    NewName(v, u, t, p, name, i, false)
  }

  lemma SwapLast(es: seq<Dirent>, e: Dirent)
    ensures SwapOut(es + [e], |es|) == es
  {
  }

  /** The entry's type changes by deletion and re-addition, which needs no block the deletion did not free. */
  lemma Retyped(v: Vol, u: Vol, t: Tree, p: nat, name: Name, i: nat)
    requires Named(v, u, t, p, name, i)
    ensures var e := Dirent(i, name, FT_REG);
      var w := AddVol(RemoveVol(u, p, name).0, p, e.(ftype := FT_DIR)).0;
      && VolShape(w) && w.marks == u.marks && w.free == u.free && |w.files[p]| == |u.files[p]|
      && Ents(w, p) == Ents(v, p) + [e.(ftype := FT_DIR)]
      && forall j {:trigger w.files[j]} | 0 <= j < INODE_CNT && j != p :: w.files[j] == u.files[j]
  {
    hide NsOk, DirOk, Entries, RemoveVol, AddVol, GoodName, Find, LinkOk;
    DirFacts(v, t, p);
    Untyped(v, u, t, p, name, i);
    var x, d := RemoveVol(u, p, name).0, Dirent(i, name, FT_DIR);
    AddFresh(x, p, d);
    assert |x.files[p] + EncodeDirent(d)| == |u.files[p]|;
  }

  /** The deletion of the new entry. */
  lemma Untyped(v: Vol, u: Vol, t: Tree, p: nat, name: Name, i: nat)
    requires Named(v, u, t, p, name, i)
    ensures var x := RemoveVol(u, p, name).0;
      && Ents(x, p) == Ents(v, p) && |x.files[p]| == |v.files[p]| && |u.files[p]| == |v.files[p]| + DIRENT_SIZE <= FILE_MAX
      && |v.files[p]| % DIRENT_SIZE == 0 && Find(Ents(v, p), name) == |Ents(v, p)| && Fits(Dirent(i, name, FT_DIR))
      && x == u.(files := u.files[p := x.files[p]], free := u.free + EntryNeed(|v.files[p]|))
      && |u.files| == |u.opens| == INODE_CNT == |u.marks|
  {
    hide NsOk, Entries, RemoveVol, Find, SwapOut;
    NsShape(v, t);
    DirFacts(v, t, p);
    var e := Dirent(i, name, FT_REG);
    FindNew(Ents(v, p), e);
    SwapLast(Ents(v, p), e);
    RemovePresent(u, p, name);
  }

  /** The dots fit the first block of the new directory. */
  lemma DotsFit(w: Vol, i: nat, p: nat)
    requires VolShape(w) && i < INODE_CNT && p < INODE_CNT && w.files[i] == [] && w.free > 0
    ensures var x := AddDots(w, i, p);
      && VolShape(x) && x.marks == w.marks && |x.files[i]| == 2 * DIRENT_SIZE && Ents(x, i) == Dots(i, p) && x.free == w.free - 1
      && forall j {:trigger x.files[j]} | 0 <= j < INODE_CNT && j != i :: x.files[j] == w.files[j]
  {
    var dot, ddot := Dirent(i, DOT, FT_DIR), Dirent(p, DOTDOT, FT_DIR);
    assert Ents(w, i) == [];
    AddFresh(w, i, dot);
    var w1 := AddVol(w, i, dot).0;
    assert Ents(w1, i) == [dot] && w1.files[i] == w.files[i] + EncodeDirent(dot);
    assert Find([dot], DOTDOT) == 1;
    hide Entries, AddVol, EncodeDirent;
    AddFresh(w1, i, ddot);
  }

  lemma DotsRefused(w: Vol, i: nat, p: nat)
    requires VolShape(w) && i < INODE_CNT && w.files[i] == [] && w.free == 0
    ensures AddDots(w, i, p) == w
  {
    AddRefused(w, i, Dirent(i, DOT, FT_DIR));
    AddRefused(w, i, Dirent(p, DOTDOT, FT_DIR));
  }

  /** With a block to spare the new inode becomes a directory of the tree. */
  lemma PromoteKeeps(v: Vol, u: Vol, t: Tree, p: nat, name: Name, i: nat)
    requires Named(v, u, t, p, name, i) && u.free > 0
    ensures var w := Promote(u, p, Dirent(i, name, FT_REG));
      NsOk(w, Grafted(t, p, name, i, true)) && NewName(v, w, t, p, name, i, true)
  {
    var e := Dirent(i, name, FT_REG);
    NewNameUnmarked(v, u, t, p, name, i, false);
    Retyped(v, u, t, p, name, i);
    var w := AddVol(RemoveVol(u, p, name).0, p, e.(ftype := FT_DIR)).0;
    DotsFit(w, i, p);
    var x := Promote(u, p, e);
    assert x == AddDots(w, i, p);
    hide AddDots, Promote, AddVol, RemoveVol, Entries;
    assert NewName(v, x, t, p, name, i, true);
    GraftKeeps(v, x, t, p, name, i, true);
  }

  /** Without one it is a directory without dots. */
  lemma PromoteBreaks(v: Vol, u: Vol, t: Tree, p: nat, name: Name, i: nat, t': Tree)
    requires Named(v, u, t, p, name, i) && u.free == 0
    ensures !NsOk(Promote(u, p, Dirent(i, name, FT_REG)), t')
  {
    var e := Dirent(i, name, FT_REG);
    NewNameUnmarked(v, u, t, p, name, i, false);
    Retyped(v, u, t, p, name, i);
    var w := AddVol(RemoveVol(u, p, name).0, p, e.(ftype := FT_DIR)).0;
    DotsRefused(w, i, p);
    hide Promote, AddVol, RemoveVol, Entries;
    DotlessBreaks(v, w, t, p, name, i, t');
  }

  lemma DotlessBreaks(v: Vol, w: Vol, t: Tree, p: nat, name: Name, i: nat, t': Tree)
    requires NsOk(v, t) && IsDir(t, p) && p < INODE_CNT && i < INODE_CNT && i != 0 && i !in t && !IsDot(name)
    requires VolShape(w) && w.files[i] == [] && Ents(w, p) == Ents(v, p) + [Dirent(i, name, FT_DIR)]
    requires forall j {:trigger w.files[j]} | 0 <= j < INODE_CNT && j != p :: w.files[j] == v.files[j]
    ensures !NsOk(w, t')
  {
    if NsOk(w, t') {
      var e := Dirent(i, name, FT_DIR);
      forall y: nat, z | IsDir(t, y) && y != i ensures KeepsEntry(v, w, y, z) {
        if y < INODE_CNT && y != p { assert w.files[y] == v.files[y]; }
      }
      ForcedDir(v, t, w, t', i, p);
      DirFacts(w, t', p);
      assert Ents(w, p)[|Ents(v, p)|] == e;
      assert EntryOk(t', p, e);
      DirFacts(w, t', i);
      assert false;
    }
  }

  /** What `sys_mkdir` has before its last part, when its `sys_mknod` succeeds. */
  lemma MkdirFinds(v: Vol, t: Tree, path: seq<Byte>)
    requires NsOk(v, t) && PathOk(path) && MknodFits(v, path, FT_REG)
    ensures var l, i := Lookedup(v, path), LeastClear(v.marks);
      var v1 := MknodVol(v, path, FT_REG, 0).0;
      && MknodVol(v, path, FT_REG, 0).1 == Done(i) && l.Absent? && Named(Held(v, l), v1, t, l.dir, l.name, i)
      && Lookedup(v1, path) == Present(l.dir, Dirent(i, l.name, FT_REG))
      && v1.free == v.free - EntryNeed(|v.files[l.dir]|)
  {
    var l, i := Lookedup(v, path), LeastClear(v.marks);
    var u, v1 := Held(v, l), MknodVol(v, path, FT_REG, 0).0;
    AbsentIsFresh(v, t, path);
    LeastClearIff(v.marks);
    RegularEntry(u, t, l.dir, l.name, 0);
    NewNameUnmarked(u, v1, t, l.dir, l.name, i, false);
    forall j | 0 <= j < |v.files| && j != l.dir ensures v1.files[j] == v.files[j] { if j == i { assert v1.files[i] == []; } }
    hide MknodVol, NewName, Resolve;
    ResolveNew(v, v1, 0, Split(path[1..]), l.dir, Dirent(i, l.name, FT_REG));
  }

  lemma NamedHeld(v: Vol, u: Vol, t: Tree, p: nat, name: Name, i: nat, l: Lookup)
    requires Named(v, u, t, p, name, i)
    ensures Named(v, Held(u, l), t, p, name, i)
  {
  }

  /** Enough blocks for the entry and for the dots. */
  predicate MkdirFits(v: Vol, path: seq<Byte>)
    requires VolShape(v) && path != []
  {
    MknodFits(v, path, FT_REG) && v.free > EntryNeed(|v.files[Lookedup(v, path).dir]|)
  }

  /** `sys_mkdir` succeeds whenever `sys_mknod` would, and fails without effect otherwise. */
  lemma MkdirOutcome(v: Vol, t: Tree, path: seq<Byte>)
    requires NsOk(v, t) && PathOk(path)
    ensures var (w, r) := MkdirVol(v, path);
      && (r == Done(0) <==> MknodFits(v, path, FT_REG))
      && (!MknodFits(v, path, FT_REG) ==> w.marks == v.marks && w.files == v.files && w.free == v.free)
  {
    MknodAllOrNothing(v, t, path, FT_REG, 0);
    LookupFacts(v, t, path);
    if MknodFits(v, path, FT_REG) { MkdirFinds(v, t, path); AbsentIsFresh(v, t, path); }
  }

  lemma MkdirPromotes(v: Vol, t: Tree, path: seq<Byte>)
    requires NsOk(v, t) && PathOk(path) && MknodFits(v, path, FT_REG)
    ensures var l, i := Lookedup(v, path), LeastClear(v.marks);
      && l.Absent? && l.dir < INODE_CNT && i < INODE_CNT && |l.name| <= NAME_MAX
      && var u := MknodVol(v, path, FT_REG, 0).0;
      var x := Held(u, Lookedup(u, path));
      && MkdirVol(v, path).0 == Promote(x, l.dir, Dirent(i, l.name, FT_REG)) && Named(Held(v, l), x, t, l.dir, l.name, i)
      && x.free == v.free - EntryNeed(|v.files[l.dir]|)
  {
    var l, i := Lookedup(v, path), LeastClear(v.marks);
    MkdirFinds(v, t, path);
    AbsentIsFresh(v, t, path);
    var u := MknodVol(v, path, FT_REG, 0).0;
    LeastClearIff(v.marks);
    MkdirUnfolds(v, path, u, i, l.dir, Dirent(i, l.name, FT_REG));
    NamedHeld(Held(v, l), u, t, l.dir, l.name, i, Lookedup(u, path));
  }

  lemma MkdirUnfolds(v: Vol, path: seq<Byte>, u: Vol, i: nat, p: nat, e: Dirent)
    requires VolShape(v) && VolShape(u) && path != [] && ShortNames(path) && p < INODE_CNT && e.ino < INODE_CNT && |e.name| <= NAME_MAX
    requires MknodVol(v, path, FT_REG, 0) == (u, Done(i)) && Lookedup(u, path) == Present(p, e)
    ensures MkdirVol(v, path) == (Promote(Held(u, Present(p, e)), p, e), Done(0))
  {
    hide MknodVol, Promote, Resolve, Split;
  }

  lemma MkdirKeeps(v: Vol, t: Tree, path: seq<Byte>) returns (t': Tree)
    requires NsOk(v, t) && PathOk(path) && (MknodFits(v, path, FT_REG) ==> MkdirFits(v, path))
    ensures NsOk(MkdirVol(v, path).0, t')
    ensures MkdirFits(v, path) ==> var l, i := Lookedup(v, path), LeastClear(v.marks);
              t' == Grafted(t, l.dir, l.name, i, true) && NewName(Held(v, l), MkdirVol(v, path).0, t, l.dir, l.name, i, true)
  {
    t' := t;
    var l, i := Lookedup(v, path), LeastClear(v.marks);
    if MknodFits(v, path, FT_REG) {
      MkdirPromotes(v, t, path);
      var u := MknodVol(v, path, FT_REG, 0).0;
      PromoteKeeps(Held(v, l), Held(u, Lookedup(u, path)), t, l.dir, l.name, i);
      t' := Grafted(t, l.dir, l.name, i, true);
    } else {
      MkdirOutcome(v, t, path);
      OpensKeep(v, MkdirVol(v, path).0, t);
    }
  }

  /** `sys_mkdir` that returns 0 keeps the names a tree exactly when a block is left for the dots. */
  lemma MkdirKeepsExactly(v: Vol, t: Tree, path: seq<Byte>)
    requires NsOk(v, t) && PathOk(path) && MkdirVol(v, path).1 == Done(0)
    ensures Lookedup(v, path).Absent?
    ensures Consistent(MkdirVol(v, path).0) <==> v.free > EntryNeed(|v.files[Lookedup(v, path).dir]|)
  {
    MkdirOutcome(v, t, path);
    var l, i := Lookedup(v, path), LeastClear(v.marks);
    MkdirPromotes(v, t, path);
    if MkdirFits(v, path) {
      var t' := MkdirKeeps(v, t, path);
    } else {
      var u := MknodVol(v, path, FT_REG, 0).0;
      forall t' ensures !NsOk(MkdirVol(v, path).0, t') {
        PromoteBreaks(Held(v, l), Held(u, Lookedup(u, path)), t, l.dir, l.name, i, t');
      }
    }
  }
}
