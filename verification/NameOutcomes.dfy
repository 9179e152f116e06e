/** What each system call on names answers and does, by what its path leads to, and what the path leads to afterwards. */
module NameOutcomes {
  import opened FsBytes
  import opened FsDisk
  import opened FsState
  import opened FsResize
  import opened FsVolume
  import opened Dirents
  import opened DirVolume
  import opened Namespace
  import opened NamespaceOps
  import opened NamespaceRuns

  // ----- sys_unlink, sys_rmdir

  /** An entry found has one of the three types, and leads to a number an inode can have unless it is a device's. */
  lemma FoundTypes(v: Vol, t: Tree, path: seq<Byte>)
    requires NsOk(v, t) && path != [] && Lookedup(v, path).Present?
    ensures var l := Lookedup(v, path);
      && IsDir(t, l.dir) && l.dir < INODE_CNT && VolShape(v) && v.marks[l.dir] && l.entry in Ents(v, l.dir)
      && EntryOk(t, l.dir, l.entry)
      && (l.entry.ftype == FT_CHR
          || ((l.entry.ftype == FT_REG || l.entry.ftype == FT_DIR) && l.entry.ino < INODE_CNT && v.marks[l.entry.ino]))
  {
    LookupFacts(v, t, path);
    var l := Lookedup(v, path);
    EntryLeadsOn(v, t, l.dir, l.entry);
  }

  /** Every answer of `sys_unlink`. */
  lemma UnlinkAnswers(v: Vol, t: Tree, path: seq<Byte>)
    requires NsOk(v, t) && path != [] && DeviceInUse(v, Lookedup(v, path))
    ensures var (l, r) := (Lookedup(v, path), UnlinkVol(v, path).1);
      && (r == Done(0) <==> l.Present? && l.entry.ftype != FT_DIR && l.entry.ino < INODE_CNT)
      && (r == Done(DIRENT_ISNT_EXIST) <==> l.NotADirectory?)
      && (r == Done(FILE_ISNT_EXIST) <==> l.Absent?)
      && (r == Done(ISNT_DIR) <==> l.Present? && l.entry.ftype == FT_DIR)
      && (r == Hung <==> l.Hangs? || (l.Present? && l.entry.ftype == FT_CHR && l.entry.ino >= INODE_CNT))
  {
    LookupFacts(v, t, path);
    if Lookedup(v, path).Present? { FoundTypes(v, t, path); }
    hide Lookedup, NsOk, DropEntry;
  }

  /** Every answer of `sys_rmdir`. */
  lemma RmdirAnswers(v: Vol, t: Tree, path: seq<Byte>)
    requires NsOk(v, t) && path != []
    ensures var (l, r) := (Lookedup(v, path), RmdirVol(v, path).1);
      && (r == Done(0) <==> EmptyDirectory(v, path))
      && (r == Done(DIRENT_ISNT_EXIST) <==> l.NotADirectory?)
      && (r == Done(FILE_ISNT_EXIST) <==> l.Absent?)
      && (r == Done(ISNT_DIR) <==> l.Present? && l.entry.ftype != FT_DIR)
      && (r == Done(DIR_ISNT_EMPTY) <==> l.Present? && l.entry.ftype == FT_DIR && !EmptyDirectory(v, path))
      && (r == Hung <==> l.Hangs?)
  {
    LookupFacts(v, t, path);
    if Lookedup(v, path).Present? { FoundTypes(v, t, path); }
    hide Lookedup, NsOk, DropEntry;
  }

  /** `w` is `v` with the inode of entry `e` freed, the blocks of its file and the entry in directory `p` gone, and
      nothing else changed but open counts. */
  ghost predicate Erased(v: Vol, w: Vol, p: nat, e: Dirent) {
    && VolShape(v) && VolShape(w) && p < INODE_CNT && e.ino < INODE_CNT && p != e.ino
    && w.marks == v.marks[e.ino := false] && w.files[e.ino] == []
    && |w.files[p]| + DIRENT_SIZE == |v.files[p]|
    && (forall x :: x in Ents(w, p) <==> x in Ents(v, p) && x != e)
    && w.free + Blocks(|w.files[p]|) == v.free + Blocks(|v.files[e.ino]|) + Blocks(|v.files[p]|)
    && forall j {:trigger w.files[j]} | 0 <= j < INODE_CNT && j != p && j != e.ino :: w.files[j] == v.files[j]
  }

  /** The entry `e` of directory `p`, found by its name, is the only way to its inode and goes. */
  ghost predicate Goes(v: Vol, w: Vol, t: Tree, p: nat, e: Dirent) {
    && NsOk(v, t) && IsDir(t, p) && EntryOk(t, p, e) && !IsDot(e.name)
    && Removed(v, w, p, e) && Ents(v, p)[Find(Ents(v, p), e.name)] == e
    && (e.ftype == FT_CHR ==> !v.marks[e.ino])
    && (e.ftype == FT_DIR ==> |v.files[e.ino]| == 2 * DIRENT_SIZE)
  }

  /** No other entry leads to the inode as to a directory. */
  lemma OnlyWayIn(v: Vol, w: Vol, t: Tree, p: nat, e: Dirent, d: nat, x: Dirent)
    requires Goes(v, w, t, p, e) && IsDir(t, d) && d != e.ino && EntryOk(t, d, x) && x.ftype == FT_DIR
    requires d < |v.files| && x in Ents(v, d)
    ensures IsDir(t, x.ino) && (x.ino == e.ino ==> d == p && x == e)
  {
    hide Removed, Find, Entries;
    EntryLeadsOn(v, t, d, x);
    if x.ino == e.ino {
      assert e.ftype != FT_CHR;
      if d in t { assert LinkOk(v, t, d); }
      if e.ftype == FT_DIR && x.name == DOTDOT && d in t { Childless(v, t, e.ino, d); }
    }
  }

  /** A directory after the removal: the name that goes is missing, any other leads where it led. */
  lemma FindGone(v: Vol, w: Vol, t: Tree, d: nat, p: nat, e: Dirent, name: Name)
    requires Goes(v, w, t, p, e) && IsDir(t, d) && d != e.ino && d < |v.files| && Find(Ents(v, d), name) < |Ents(v, d)|
    ensures d < |w.files|
    ensures var x, k := Ents(v, d)[Find(Ents(v, d), name)], Find(Ents(w, d), name);
      if d == p && name == e.name then x == e && k == |Ents(w, d)| else k < |Ents(w, d)| && Ents(w, d)[k] == x
  {
    hide NsOk, Entries, SwapOut, EntryOk;
    DirFacts(v, t, d);
    if d == p {
      FindSwapOut(Ents(v, d), Find(Ents(v, d), e.name), name);
    } else {
      assert w.files[d] == v.files[d];
    }
  }

  /** Some component is a dot or empty. */
  ghost predicate HasDots(comps: seq<Name>) {
    exists c | c in comps :: c == [] || IsDot(c)
  }

  lemma TailHasDots(comps: seq<Name>)
    requires comps != [] && HasDots(comps[1..])
    ensures HasDots(comps)
  {
    var c :| c in comps[1..] && (c == [] || IsDot(c));
    assert c in comps;
  }

  /** After the removal the path that found the entry ends where it was, or, if it leads through the directory that is
      gone, hangs there. */
  lemma {:induction false} ResolveGone(v: Vol, w: Vol, t: Tree, d: nat, comps: seq<Name>, p: nat, e: Dirent)
    requires Goes(v, w, t, p, e) && IsDir(t, d) && d != e.ino && comps != [] && Resolve(v, d, comps) == Present(p, e)
    ensures Resolve(w, d, comps) == Absent(p, e.name)
            || (e.ftype == FT_DIR && Resolve(w, d, comps) == Hangs(p) && HasDots(comps))
    decreases |comps|
  {
    hide NsOk, Entries, Find, EntryOk, Removed;
    DirFacts(v, t, d);
    var es := Ents(v, d);
    var k := Find(es, comps[0]);
    if |comps| > 1 {
      var x := es[k];
      FindGone(v, w, t, d, p, e, comps[0]);
      assert EntryOk(t, d, x);
      OnlyWayIn(v, w, t, p, e, d, x);
      if x.ino == e.ino {
        ThroughGone(v, w, t, e.ino, comps[1..], p, e);
        TailHasDots(comps);
        assert Resolve(w, d, comps) == Hangs(p);
      } else {
        ResolveGone(v, w, t, x.ino, comps[1..], p, e);
        if HasDots(comps[1..]) { TailHasDots(comps); }
      }
    } else {
      FindGone(v, w, t, d, p, e, comps[0]);
    }
  }

  /** From an empty directory a path finds anything but dots only by way of a dot. */
  lemma ThroughGone(v: Vol, w: Vol, t: Tree, d: nat, comps: seq<Name>, p: nat, e: Dirent)
    requires Goes(v, w, t, p, e) && d == e.ino && IsDir(t, d) && e.ftype == FT_DIR && comps != []
    requires Resolve(v, d, comps) == Present(p, e)
    ensures HasDots(comps)
  {
    hide NsOk, Entries, Removed;
    DirFacts(v, t, d);
    var es := Ents(v, d);
    var k := Find(es, comps[0]);
    assert comps[0] in comps;
    if comps[0] != [] && k < |es| {
      TwoEntriesAreDots(v, t, d, es[k]);
    }
  }

  lemma RemovedErases(v: Vol, w: Vol, p: nat, e: Dirent)
    requires Removed(v, w, p, e) && p != e.ino && UniqueNames(Ents(v, p)) && |v.files[p]| % DIRENT_SIZE == 0
    requires Ents(v, p)[Find(Ents(v, p), e.name)] == e
    ensures Erased(v, w, p, e)
  {
    hide Entries, Find, SwapOut, UniqueNames, Blocks;
    SwapOutMembers(Ents(v, p), Find(Ents(v, p), e.name));
    BlocksOfEntry(|w.files[p]|);
  }

  /** The resolver reads nothing but files. */
  lemma {:induction false} ResolveByFiles(v: Vol, w: Vol, d: nat, comps: seq<Name>)
    requires v.files == w.files && comps != []
    ensures Resolve(v, d, comps) == Resolve(w, d, comps)
    decreases |comps|
  {
    if |comps| > 1 && d < |v.files| {
      var k := Find(Ents(v, d), comps[0]);
      if k < |Ents(v, d)| { ResolveByFiles(v, w, Ents(v, d)[k].ino, comps[1..]); }
    }
  }

  /** The entry `e` of directory `p` is no dot, and nothing depends on its inode. */
  ghost predicate CanGo(v: Vol, t: Tree, p: nat, e: Dirent) {
    && NsOk(v, t) && IsDir(t, p) && p < INODE_CNT && e in Ents(v, p) && EntryOk(t, p, e) && !IsDot(e.name) && e.ino < INODE_CNT
    && (e.ftype == FT_CHR ==> !v.marks[e.ino])
    && (e.ftype == FT_DIR ==> |v.files[e.ino]| == 2 * DIRENT_SIZE)
  }

  lemma CanGoFacts(v: Vol, t: Tree, p: nat, e: Dirent)
    requires CanGo(v, t, p, e)
    ensures VolShape(v) && p != e.ino && e.ino != 0 && UniqueNames(Ents(v, p))
    ensures |v.files[p]| % DIRENT_SIZE == 0 && |v.files[p]| <= FILE_MAX
    ensures Find(Ents(v, p), e.name) < |Ents(v, p)| && Ents(v, p)[Find(Ents(v, p), e.name)] == e
  {
    DirFacts(v, t, p);
    var k :| 0 <= k < |Ents(v, p)| && Ents(v, p)[k] == e;
    FindUnique(Ents(v, p), k);
    if e.ino in t { assert LinkOk(v, t, e.ino); }
  }

  /** Freeing the inode and deleting the entry. */
  lemma DropErases(v: Vol, t: Tree, p: nat, e: Dirent, comps: seq<Name>)
    requires CanGo(v, t, p, e) && VolShape(v) && comps != [] && Resolve(v, 0, comps) == Present(p, e)
    ensures var w := DropEntry(v, p, e);
      && Erased(v, w, p, e)
      && (Resolve(w, 0, comps) == Absent(p, e.name)
          || (e.ftype == FT_DIR && Resolve(w, 0, comps) == Hangs(p) && HasDots(comps)))
  {
    hide Entries, Find, NsOk, Removed, Erased, DropEntry, Resolve, EntryOk, UniqueNames;
    CanGoFacts(v, t, p, e);
    RemovedBytes(v, p, e);
    RemovedErases(v, DropEntry(v, p, e), p, e);
    ResolveGone(v, DropEntry(v, p, e), t, 0, comps, p, e);
  }

  lemma HeldSame(v: Vol, t: Tree, path: seq<Byte>)
    requires NsOk(v, t) && path != []
    ensures var u := Held(v, Lookedup(v, path));
      NsOk(u, t) && u.marks == v.marks && u.files == v.files && u.free == v.free && Lookedup(u, path) == Lookedup(v, path)
  {
    hide NsOk, Resolve, Split;
    HeldKeeps(v, t, Lookedup(v, path));
    ResolveByFiles(v, Held(v, Lookedup(v, path)), 0, Split(path[1..]));
  }

  /** `sys_unlink` of a file, or of a device whose number is no marked inode's: the inode is free, its file empty, its
      blocks are free again, and the path leads nowhere. */
  lemma UnlinkErases(v: Vol, t: Tree, path: seq<Byte>)
    requires NsOk(v, t) && path != [] && DeviceInUse(v, Lookedup(v, path)) && !NamesakeDevice(v, path)
    requires var l := Lookedup(v, path); l.Present? && l.entry.ftype != FT_DIR && l.entry.ino < INODE_CNT
    ensures var (l, (w, r)) := (Lookedup(v, path), UnlinkVol(v, path));
      r == Done(0) && Erased(v, w, l.dir, l.entry) && Lookedup(w, path) == Absent(l.dir, l.entry.name)
  {
    hide NsOk, Resolve, Split, Entries, Find, EntryOk, DropEntry;
    var l := Lookedup(v, path);
    var u := Held(v, l);
    FoundTypes(v, t, path);
    HeldSame(v, t, path);
    DotIsDir(t, l.dir, l.entry);
    DropErases(u, t, l.dir, l.entry, Split(path[1..]));
  }

  lemma DotIsDir(t: Tree, d: nat, e: Dirent)
    requires EntryOk(t, d, e)
    ensures IsDot(e.name) ==> e.ftype == FT_DIR
  {
  }

  /** `sys_rmdir` of an empty directory by its name.  A path with dots in it may have led through that directory, and
      then hangs now. */
  lemma RmdirErases(v: Vol, t: Tree, path: seq<Byte>)
    requires NsOk(v, t) && path != [] && EmptyDirectory(v, path) && !EndsInDot(path)
    ensures var (l, (w, r)) := (Lookedup(v, path), RmdirVol(v, path));
      && r == Done(0) && Erased(v, w, l.dir, l.entry)
      && (Lookedup(w, path) == Absent(l.dir, l.entry.name)
          || (Lookedup(w, path) == Hangs(l.dir) && HasDots(Split(path[1..]))))
  {
    hide NsOk, Resolve, Split, Entries, Find, EntryOk, DropEntry, EndsInDot;
    var l := Lookedup(v, path);
    var u := Held(v, l);
    FoundTypes(v, t, path);
    HeldSame(v, t, path);
    DotFound(v, t, path);
    DropErases(u, t, l.dir, l.entry, Split(path[1..]));
  }

  // ----- sys_mknod

  /** Why `dirent_add` refuses an absent name. */
  lemma AddCode(v: Vol, d: nat, e: Dirent)
    requires d < |v.files| && |e.name| <= NAME_MAX && |v.files[d]| % DIRENT_SIZE == 0 && Find(Ents(v, d), e.name) == |Ents(v, d)|
    ensures AddVol(v, d, e).1
      == if |v.files[d]| + DIRENT_SIZE > FILE_MAX then TOO_BIG
         else if EntryNeed(|v.files[d]|) > v.free then NO_BIT
         else DIRENT_SIZE
  {
    EntryCrossesOneBlock(|v.files[d]|, e);
  }

  lemma NewEntryCode(v: Vol, t: Tree, d: nat, name: Name, ftype: nat, dev: nat)
    requires FreshName(v, t, d, name) && dev < WORD_MAX
    ensures VolShape(v) && |name| <= NAME_MAX
    ensures NewEntry(v, d, name, ftype, dev).1
      == if ftype == FT_REG && false !in v.marks then Done(NO_BIT)
         else if |v.files[d]| + DIRENT_SIZE > FILE_MAX then Done(TOO_BIG)
         else if EntryNeed(|v.files[d]|) > v.free then Done(NO_BIT)
         else Done(if ftype == FT_REG then LeastClear(v.marks) else dev)
  {
    DirFacts(v, t, d);
    LeastClearIff(v.marks);
    var i := LeastClear(v.marks);
    if ftype == FT_REG {
      if i < |v.marks| {
        assert Ents(CreateVol(v, i), d) == Ents(v, d);
        AddCode(CreateVol(v, i), d, Dirent(i, name, ftype));
      }
    } else {
      AddCode(v, d, Dirent(dev, name, ftype));
    }
    hide AddVol, Entries, Find;
  }

  /** Every answer of `sys_mknod`. */
  lemma MknodAnswers(v: Vol, t: Tree, path: seq<Byte>, ftype: nat, dev: nat)
    requires NsOk(v, t) && PathOk(path) && dev < WORD_MAX
    ensures var (l, r) := (Lookedup(v, path), MknodVol(v, path, ftype, dev).1);
      if ftype != FT_CHR && ftype != FT_REG then r == Done(FILE_TYPE_INVALID)
      else
        && (r == Done(DIRENT_ISNT_EXIST) <==> l.NotADirectory?)
        && (r == Done(DIRENT_ALREADY_EXIST) <==> l.Present?)
        && (r == Hung <==> l.Hangs?)
        && (r == Done(TOO_BIG) <==>
              l.Absent? && (ftype == FT_REG ==> false in v.marks) && |v.files[l.dir]| + DIRENT_SIZE > FILE_MAX)
        && (r == Done(NO_BIT) <==>
              l.Absent? && if ftype == FT_REG && false !in v.marks then true
              else |v.files[l.dir]| + DIRENT_SIZE <= FILE_MAX && EntryNeed(|v.files[l.dir]|) > v.free)
        && (r.Done? && r.code >= 0 ==> l.Absent? && r.code == if ftype == FT_REG then LeastClear(v.marks) else dev)
  {
    var l := Lookedup(v, path);
    LookupFacts(v, t, path);
    if l.Absent? {
      AbsentIsFresh(v, t, path);
      NewEntryCode(Held(v, l), t, l.dir, l.name, ftype, dev);
    }
    hide NsOk, Lookedup, NewEntry, FreshName;
  }

  /** The volumes differ in open counts only. */
  predicate SameButOpens(v: Vol, w: Vol) {
    v.marks == w.marks && v.files == w.files && v.free == w.free
  }

  /** `w` is `v` with one more entry `e`, the last of directory `p`; unless the entry is a device's, with its inode, which
      was free and had no bytes; and without the blocks these need.  Nothing else changed but open counts. */
  ghost predicate Entered(v: Vol, w: Vol, p: nat, e: Dirent) {
    && VolShape(v) && VolShape(w) && p < INODE_CNT && |e.name| <= NAME_MAX
    && (if e.ftype == FT_CHR then w.marks == v.marks
        else e.ino < INODE_CNT && e.ino != p && !v.marks[e.ino] && w.marks == v.marks[e.ino := true] && v.files[e.ino] == [])
    && w.files[p] == v.files[p] + EncodeDirent(e) && Ents(w, p) == Ents(v, p) + [e]
    && w.free + Blocks(|w.files[p]|) + (if e.ftype == FT_CHR then 0 else Blocks(|w.files[e.ino]|)) == v.free + Blocks(|v.files[p]|)
    && forall j {:trigger w.files[j]} | 0 <= j < INODE_CNT && j != p && (e.ftype == FT_CHR || j != e.ino) :: w.files[j] == v.files[j]
  }

  /** `sys_mknod` that succeeds: the name is there, for the least free inode or for the device asked for, and the path
      finds it. */
  lemma MknodEnters(v: Vol, t: Tree, path: seq<Byte>, ftype: nat, dev: nat)
    requires NsOk(v, t) && PathOk(path) && dev < WORD_MAX && MknodFits(v, path, ftype)
    ensures var (l, w) := (Lookedup(v, path), MknodVol(v, path, ftype, dev).0);
      var e := Dirent(if ftype == FT_REG then LeastClear(v.marks) else dev, l.name, ftype);
      && Entered(v, w, l.dir, e) && (ftype == FT_REG ==> w.files[e.ino] == [])
      && Lookedup(w, path) == Present(l.dir, e)
  {
    hide NsOk, Entered, NewEntry, FreshName, Resolve, Split, MknodVol;
    var l := Lookedup(v, path);
    AbsentIsFresh(v, t, path);
    HeldSame(v, t, path);
    LeastClearIff(v.marks);
    NsShape(v, t);
    EntryEnters(Held(v, l), t, l.dir, l.name, ftype, dev);
    MknodIsNewEntry(v, path, ftype, dev);
    var w, e := MknodVol(v, path, ftype, dev).0, Dirent(if ftype == FT_REG then LeastClear(v.marks) else dev, l.name, ftype);
    EnteredBySame(Held(v, l), w, v, w, l.dir, e);
    LookupFacts(v, t, path);
    EnteredResolves(v, w, path, l.dir, e);
  }

  lemma MknodIsNewEntry(v: Vol, path: seq<Byte>, ftype: nat, dev: nat)
    requires VolShape(v) && path != [] && ShortNames(path) && (ftype == FT_CHR || ftype == FT_REG) && Lookedup(v, path).Absent?
    ensures var l := Lookedup(v, path); MknodVol(v, path, ftype, dev) == NewEntry(Held(v, l), l.dir, l.name, ftype, dev)
  {
  }

  /** Open counts do not matter. */
  lemma EnteredBySame(v: Vol, w: Vol, v': Vol, w': Vol, p: nat, e: Dirent)
    requires Entered(v, w, p, e) && SameButOpens(v, v') && SameButOpens(w, w') && VolShape(v') && VolShape(w')
    ensures Entered(v', w', p, e)
  {
    hide Entries, EncodeDirent, Blocks;
  }

  lemma EnteredResolves(v: Vol, w: Vol, path: seq<Byte>, p: nat, e: Dirent)
    requires path != [] && Entered(v, w, p, e) && Lookedup(v, path) == Absent(p, e.name)
    requires e.ftype != FT_CHR ==> w.files[e.ino] == []
    requires e.name != [] && Find(Ents(v, p), e.name) == |Ents(v, p)|
    ensures Lookedup(w, path) == Present(p, e)
  {
    hide Entries, EncodeDirent, Blocks, Resolve, Split, Find;
    ResolveNew(v, w, 0, Split(path[1..]), p, e);
  }

  lemma EntryEnters(v: Vol, t: Tree, d: nat, name: Name, ftype: nat, dev: nat)
    requires FreshName(v, t, d, name) && RoomFor(v, d) && dev < WORD_MAX && (ftype == FT_CHR || ftype == FT_REG)
    requires ftype == FT_REG ==> LeastClear(v.marks) < INODE_CNT
    ensures VolShape(v) && |name| <= NAME_MAX
    ensures var (w, e) := (NewEntry(v, d, name, ftype, dev).0, Dirent(if ftype == FT_REG then LeastClear(v.marks) else dev, name, ftype));
      && Entered(v, w, d, e) && |w.files| == INODE_CNT && (ftype == FT_REG ==> w.files[e.ino] == [])
  {
    hide Entered, NewEntry, RoomFor, NsOk;
    NsShape(v, t);
    if ftype == FT_REG { RegularEnters(v, t, d, name, dev); } else { DeviceEnters(v, t, d, name, dev); }
  }

  lemma RegularEnters(v: Vol, t: Tree, d: nat, name: Name, dev: nat)
    requires FreshName(v, t, d, name) && LeastClear(v.marks) < INODE_CNT && RoomFor(v, d)
    ensures VolShape(v) && |name| <= NAME_MAX
    ensures var w := NewEntry(v, d, name, FT_REG, dev).0;
      && Entered(v, w, d, Dirent(LeastClear(v.marks), name, FT_REG)) && |w.files| == INODE_CNT && w.files[LeastClear(v.marks)] == []
  {
    hide Entries, Find, EncodeDirent, AddVol;
    DirFacts(v, t, d);
    var i := LeastClear(v.marks);
    var w := NewEntry(v, d, name, FT_REG, dev).0;
    RegularEntry(v, t, d, name, dev);
    NewNameUnmarked(v, w, t, d, name, i, false);
    BlocksOfEntry(|v.files[d]|);
  }

  lemma DeviceEnters(v: Vol, t: Tree, d: nat, name: Name, dev: nat)
    requires FreshName(v, t, d, name) && dev < WORD_MAX && RoomFor(v, d)
    ensures VolShape(v) && |name| <= NAME_MAX
    ensures Entered(v, NewEntry(v, d, name, FT_CHR, dev).0, d, Dirent(dev, name, FT_CHR))
  {
    hide Entries, Find, EncodeDirent;
    DirFacts(v, t, d);
    AddFresh(v, d, Dirent(dev, name, FT_CHR));
    BlocksOfEntry(|v.files[d]|);
    hide AddVol;
  }

  // ----- undoing

  /** The deletion of the last entry of a directory. */
  lemma RemoveLast(v: Vol, d: nat, name: Name, b: seq<Byte>, r: seq<Byte>)
    requires d < |v.files| && v.files[d] == b + r && |r| == DIRENT_SIZE && |b| % DIRENT_SIZE == 0 && |b + r| <= FILE_MAX
    requires Find(Ents(v, d), name) == |b| / DIRENT_SIZE
    ensures RemoveVol(v, d, name).0 == v.(files := v.files[d := b], free := v.free + EntryNeed(|b|))
  {
    hide Entries, Find;
    var k := Find(Ents(v, d), name);
    assert |Ents(v, d)| == |b| / DIRENT_SIZE + 1;
    MoveIsWrite(v, d, k);
    RemovePresent(v, d, name);
    assert Overwrite(b + r, r, |b|) == b + r;
    assert (b + r)[|b|..] == r && (b + r)[..|b|] == b;
  }

  lemma DropUndoes(v: Vol, w: Vol, x: Vol, t: Tree, p: nat, e: Dirent)
    requires NsOk(v, t) && IsDir(t, p) && Entered(v, w, p, e) && e.ftype != FT_CHR && SameButOpens(w, x) && VolShape(x)
    requires Find(Ents(v, p), e.name) == |Ents(v, p)| && |w.files[p]| <= FILE_MAX
    ensures SameButOpens(DropEntry(x, p, e), v)
  {
    hide NsOk, Entries, Find, EncodeDirent, RemoveVol;
    DirFacts(v, t, p);
    var b, d := v.files[p], DeleteVol(x, e.ino);
    FindNew(Ents(v, p), e);
    assert Ents(d, p) == Ents(w, p);
    RemoveLast(d, p, e.name, b, EncodeDirent(e));
    BlocksOfEntry(|b|);
    assert DropEntry(x, p, e).files == v.files;
    assert DropEntry(x, p, e).marks == v.marks;
  }

  /** `sys_unlink` takes back all that `sys_mknod` did to marks, files and free blocks. */
  lemma UnlinkUndoesMknod(v: Vol, t: Tree, path: seq<Byte>, dev: nat)
    requires NsOk(v, t) && PathOk(path) && dev < WORD_MAX && MknodFits(v, path, FT_REG)
    ensures var w := MknodVol(v, path, FT_REG, dev).0;
      DeviceInUse(w, Lookedup(w, path)) && UnlinkVol(w, path).1 == Done(0) && SameButOpens(UnlinkVol(w, path).0, v)
  {
    hide NsOk, Entered, Resolve, Split, MknodVol, DropEntry, Entries, Find;
    NsShape(v, t);
    var l, w := Lookedup(v, path), MknodVol(v, path, FT_REG, dev).0;
    LookupFacts(v, t, path);
    MknodEnters(v, t, path, FT_REG, dev);
    var e := Dirent(LeastClear(v.marks), l.name, FT_REG);
    EnteredFacts(v, w, l.dir, e);
    DropUndoes(v, w, Held(w, Lookedup(w, path)), t, l.dir, e);
  }

  lemma EnteredFacts(v: Vol, w: Vol, p: nat, e: Dirent)
    requires Entered(v, w, p, e)
    ensures VolShape(w) && p < INODE_CNT && (e.ftype != FT_CHR ==> e.ino < INODE_CNT && e.ino != p)
    ensures |w.files[p]| == |v.files[p]| + DIRENT_SIZE
  {
  }

  // ----- sys_mkdir

  /** Every answer of `sys_mkdir`. */
  lemma MkdirAnswers(v: Vol, t: Tree, path: seq<Byte>)
    requires NsOk(v, t) && PathOk(path)
    ensures var (l, r) := (Lookedup(v, path), MkdirVol(v, path).1);
      && (r == Done(0) <==> MknodFits(v, path, FT_REG))
      && (r == Done(DIRENT_ISNT_EXIST) <==> l.NotADirectory?)
      && (r == Done(DIRENT_ALREADY_EXIST) <==> l.Present?)
      && (r == Hung <==> l.Hangs?)
      && (r == Done(TOO_BIG) <==> l.Absent? && false in v.marks && |v.files[l.dir]| + DIRENT_SIZE > FILE_MAX)
      && (r == Done(NO_BIT) <==>
            l.Absent? && (false in v.marks ==> |v.files[l.dir]| + DIRENT_SIZE <= FILE_MAX && EntryNeed(|v.files[l.dir]|) > v.free))
  {
    hide NsOk, Lookedup, MknodVol, Promote;
    MknodAnswers(v, t, path, FT_REG, 0);
    MkdirOutcome(v, t, path);
    MknodAllOrNothing(v, t, path, FT_REG, 0);
  }

  /** A path to a name that was missing leads to the inode created under it. */
  lemma {:induction false} ResolveGrafted(v: Vol, w: Vol, t: Tree, d: nat, comps: seq<Name>, p: nat, name: Name, i: nat, isDir: bool)
    requires NewName(v, w, t, p, name, i, isDir) && IsDir(t, d) && comps != [] && Resolve(v, d, comps) == Absent(p, name)
    ensures Resolve(w, d, comps) == Present(p, Dirent(i, name, TypeOf(isDir)))
    decreases |comps|
  {
    hide NsOk, Entries, EntryOk, Find;
    NewNameUnmarked(v, w, t, p, name, i, isDir);
    DirFacts(v, t, d);
    var e := Dirent(i, name, TypeOf(isDir));
    if |comps| == 1 {
      FindNew(Ents(v, p), e);
    } else {
      var k := Find(Ents(v, d), comps[0]);
      if d == p { FindAppend(Ents(v, p), e, comps[0]); }
      EntryLeadsOn(v, t, d, Ents(v, d)[k]);
      ResolveGrafted(v, w, t, Ents(v, d)[k].ino, comps[1..], p, name, i, isDir);
    }
  }

  /** The entry of the new inode as a directory's, byte for byte. */
  lemma PromotedBytes(v: Vol, x: Vol, t: Tree, p: nat, name: Name, i: nat)
    requires FreshName(v, t, p, name) && Entered(v, x, p, Dirent(i, name, FT_REG)) && |x.files[p]| <= FILE_MAX
    ensures VolShape(x) && p < INODE_CNT && |name| <= NAME_MAX
    ensures var e := Dirent(i, name, FT_DIR);
      AddVol(RemoveVol(x, p, name).0, p, e).0 == x.(files := x.files[p := v.files[p] + EncodeDirent(e)])
  {
    hide NsOk, Entries, Find, EncodeDirent, RemoveVol, AddVol;
    DirFacts(v, t, p);
    var e := Dirent(i, name, FT_DIR);
    FindNew(Ents(v, p), Dirent(i, name, FT_REG));
    RemoveLast(x, p, name, v.files[p], EncodeDirent(Dirent(i, name, FT_REG)));
    var y := RemoveVol(x, p, name).0;
    AddFresh(y, p, e);
    assert y.files[p := v.files[p] + EncodeDirent(e)] == x.files[p := v.files[p] + EncodeDirent(e)];
  }

  lemma PromoteEnters(v: Vol, x: Vol, t: Tree, p: nat, name: Name, i: nat)
    requires FreshName(v, t, p, name) && Entered(v, x, p, Dirent(i, name, FT_REG)) && |x.files[p]| <= FILE_MAX
    requires x.files[i] == [] && x.free > 0
    ensures VolShape(x) && p < INODE_CNT && i < INODE_CNT && |name| <= NAME_MAX
    ensures var w := Promote(x, p, Dirent(i, name, FT_REG));
      Entered(v, w, p, Dirent(i, name, FT_DIR)) && |w.files[i]| == 2 * DIRENT_SIZE && Ents(w, i) == Dots(i, p)
  {
    hide NsOk, Entries, Find, EncodeDirent, RemoveVol, AddVol, AddDots, FreshName;
    PromotedBytes(v, x, t, p, name, i);
    var e := Dirent(i, name, FT_DIR);
    var y := AddVol(RemoveVol(x, p, name).0, p, e).0;
    DotsFit(y, i, p);
    FreshAligned(v, t, p, name);
    EntriesAppend(v.files[p], e);
    assert Promote(x, p, Dirent(i, name, FT_REG)) == AddDots(y, i, p);
  }

  lemma FreshAligned(v: Vol, t: Tree, p: nat, name: Name)
    requires FreshName(v, t, p, name)
    ensures VolShape(v) && p < INODE_CNT && |v.files[p]| % DIRENT_SIZE == 0 && GoodName(name)
  {
    DirFacts(v, t, p);
  }

  /** `sys_mkdir` with a block to spare: the name is there, for the least free inode, which holds the two dots, and the
      path finds it. */
  lemma MkdirEnters(v: Vol, t: Tree, path: seq<Byte>)
    requires NsOk(v, t) && PathOk(path) && MkdirFits(v, path)
    ensures var (l, w) := (Lookedup(v, path), MkdirVol(v, path).0);
      var e := Dirent(LeastClear(v.marks), l.name, FT_DIR);
      && Entered(v, w, l.dir, e) && |w.files[e.ino]| == 2 * DIRENT_SIZE && Ents(w, e.ino) == Dots(e.ino, l.dir)
      && Lookedup(w, path) == Present(l.dir, e)
  {
    hide NsOk, Entered, NewName, Resolve, Split, MkdirVol, MknodVol, Promote, FreshName, Entries;
    var l, i := Lookedup(v, path), LeastClear(v.marks);
    NsShape(v, t);
    MknodEnters(v, t, path, FT_REG, 0);
    MkdirPromotes(v, t, path);
    AbsentIsFresh(v, t, path);
    HeldSame(v, t, path);
    var u := MknodVol(v, path, FT_REG, 0).0;
    var x := Held(u, Lookedup(u, path));
    EnteredFacts(v, u, l.dir, Dirent(i, l.name, FT_REG));
    EnteredBySame(v, u, Held(v, l), x, l.dir, Dirent(i, l.name, FT_REG));
    PromoteEnters(Held(v, l), x, t, l.dir, l.name, i);
    EnteredBySame(Held(v, l), MkdirVol(v, path).0, v, MkdirVol(v, path).0, l.dir, Dirent(i, l.name, FT_DIR));
    var t' := MkdirKeeps(v, t, path);
    ResolveGrafted(Held(v, l), MkdirVol(v, path).0, t, 0, Split(path[1..]), l.dir, l.name, i, true);
  }

  /** `sys_rmdir` takes back all that `sys_mkdir` did to marks, files and free blocks. */
  lemma RmdirUndoesMkdir(v: Vol, t: Tree, path: seq<Byte>)
    requires NsOk(v, t) && PathOk(path) && MkdirFits(v, path)
    ensures var w := MkdirVol(v, path).0;
      RmdirVol(w, path).1 == Done(0) && SameButOpens(RmdirVol(w, path).0, v)
  {
    hide NsOk, Entered, Resolve, Split, MkdirVol, DropEntry, Entries, Find;
    NsShape(v, t);
    var l, w := Lookedup(v, path), MkdirVol(v, path).0;
    LookupFacts(v, t, path);
    MkdirEnters(v, t, path);
    var e := Dirent(LeastClear(v.marks), l.name, FT_DIR);
    EnteredFacts(v, w, l.dir, e);
    DropUndoes(v, w, Held(w, Lookedup(w, path)), t, l.dir, e);
  }
}
