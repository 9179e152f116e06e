/** The names of a volume form a tree: the invariant of `fs/file.c` and `fs/dir.c` over every run. */
module Namespace {
  import opened FsBytes
  import opened FsDisk
  import opened FsState
  import opened FsVolume
  import opened Dirents
  import opened DirVolume

  /** Where a marked inode other than the root is named. */
  datatype Link = Link(parent: nat, name: Name, isDir: bool, depth: nat)

  type Tree = map<nat, Link>

  predicate IsDir(t: Tree, d: nat) {
    d == 0 || (d in t && t[d].isDir)
  }

  function DepthOf(t: Tree, d: nat): nat {
    if d in t then t[d].depth else 0
  }

  function ParentOf(t: Tree, d: nat): nat {
    if d in t then t[d].parent else 0
  }

  predicate IsDot(name: Name) {
    name == DOT || name == DOTDOT
  }

  predicate GoodName(name: Name) {
    name != [] && |name| <= NAME_MAX && 0 !in name && SLASH !in name
  }

  function TypeOf(isDir: bool): nat {
    if isDir then FT_DIR else FT_REG
  }

  /** An entry of directory `d`: a dot, the name of a marked inode, or a device. */
  ghost predicate EntryOk(t: Tree, d: nat, e: Dirent) {
    && GoodName(e.name)
    && if e.name == DOT then e.ftype == FT_DIR && e.ino == d
       else if e.name == DOTDOT then e.ftype == FT_DIR && e.ino == ParentOf(t, d)
       else if e.ftype == FT_DIR || e.ftype == FT_REG then
         e.ino in t && t[e.ino].parent == d && t[e.ino].name == e.name && t[e.ino].isDir == (e.ftype == FT_DIR)
       else e.ftype == FT_CHR
  }

  /** A directory's bytes: whole entries with different names, both dots among them, one of them first. */
  ghost predicate DirOk(t: Tree, d: nat, bytes: seq<Byte>) {
    && |bytes| % DIRENT_SIZE == 0 && |bytes| <= FILE_MAX && UniqueNames(Entries(bytes))
    && Find(Entries(bytes), DOT) < |Entries(bytes)| && Find(Entries(bytes), DOTDOT) < |Entries(bytes)|
    && IsDot(Entries(bytes)[0].name) && EntriesOk(t, d, Entries(bytes))
  }

  ghost predicate EntriesOk(t: Tree, d: nat, es: seq<Dirent>) {
    forall e {:trigger EntryOk(t, d, e)} | e in es :: EntryOk(t, d, e)
  }

  /** A marked inode is named once, in a directory nearer to the root. */
  ghost predicate LinkOk(v: Vol, t: Tree, i: nat)
    requires VolShape(v)
  {
    && i in t && 0 < i < INODE_CNT && v.marks[i]
    && var l := t[i];
    && IsDir(t, l.parent) && l.parent < INODE_CNT && l.depth == DepthOf(t, l.parent) + 1
    && GoodName(l.name) && !IsDot(l.name) && Dirent(i, l.name, TypeOf(l.isDir)) in Ents(v, l.parent)
  }

  ghost predicate MarkOk(v: Vol, t: Tree, i: nat)
    requires VolShape(v) && i < INODE_CNT
  {
    if v.marks[i] then i == 0 || i in t else v.files[i] == []
  }

  /** The marked inodes are the root and those named by an entry; each is named once; the names form a tree. */
  ghost predicate NsOk(v: Vol, t: Tree) {
    && VolShape(v) && v.marks[0] && 0 !in t
    && (forall i {:trigger LinkOk(v, t, i)} | i in t :: LinkOk(v, t, i))
    && (forall i {:trigger MarkOk(v, t, i)} | 0 <= i < INODE_CNT :: MarkOk(v, t, i))
    && (forall d {:trigger DirOk(t, d, v.files[d])} | 0 <= d < INODE_CNT && IsDir(t, d) :: DirOk(t, d, v.files[d]))
  }

  ghost predicate Consistent(v: Vol) {
    exists t :: NsOk(v, t)
  }

  lemma NsShape(v: Vol, t: Tree)
    requires NsOk(v, t)
    ensures VolShape(v)
  {
  }

  lemma DirFacts(v: Vol, t: Tree, d: nat)
    requires NsOk(v, t) && IsDir(t, d)
    ensures d < INODE_CNT && v.marks[d] && DirOk(t, d, v.files[d])
  {
    if d != 0 { assert LinkOk(v, t, d); }
    assert DirOk(t, d, v.files[d]);
  }

  /** Both directions at once: the marked inodes are exactly the root and the inodes named by an entry other than a
      dot in some directory, and no inode is named twice. */
  lemma NamedExactly(v: Vol, t: Tree, i: nat)
    requires NsOk(v, t) && i < INODE_CNT
    ensures v.marks[i] <==> i == 0 || exists d: nat, e :: IsDir(t, d) && d < INODE_CNT && NamesIt(v, d, e, i)
    ensures forall d: nat, e, d': nat, e' ::
              IsDir(t, d) && IsDir(t, d') && NamesIt(v, d, e, i) && NamesIt(v, d', e', i) ==> d == d' && e == e'
  {
    assert MarkOk(v, t, i);
    if v.marks[i] && i != 0 {
      assert LinkOk(v, t, i);
      assert NamesIt(v, t[i].parent, Dirent(i, t[i].name, TypeOf(t[i].isDir)), i);
    }
    forall d: nat, e | IsDir(t, d) && NamesIt(v, d, e, i)
      ensures v.marks[i] && i in t && d == t[i].parent && e == Dirent(i, t[i].name, TypeOf(t[i].isDir))
    {
      DirFacts(v, t, d);
      assert EntryOk(t, d, e);
      assert LinkOk(v, t, i);
    }
  }

  ghost predicate NamesIt(v: Vol, d: nat, e: Dirent, i: nat) {
    d < |v.files| && e in Ents(v, d) && e.ino == i && !IsDot(e.name) && (e.ftype == FT_DIR || e.ftype == FT_REG)
  }

  function Dirs(t: Tree): set<nat> {
    {0} + set d | d in t && t[d].isDir
  }

  /** Paths never leave the directories of the tree. */
  lemma NsWalkable(v: Vol, t: Tree)
    requires NsOk(v, t)
    ensures Walkable(v, Dirs(t)) && forall d :: d in Dirs(t) <==> IsDir(t, d)
  {
    forall d | d in Dirs(t) ensures Walks(v, Dirs(t), d) {
      DirFacts(v, t, d);
      forall k | 0 <= k < |Ents(v, d)| ensures LeadsOn(v, Dirs(t), Ents(v, d)[k]) {
        EntryLeadsOn(v, t, d, Ents(v, d)[k]);
      }
    }
  }

  lemma EntryLeadsOn(v: Vol, t: Tree, d: nat, e: Dirent)
    requires NsOk(v, t) && IsDir(t, d) && d < |v.files| && e in Ents(v, d)
    ensures EntryOk(t, d, e) && LeadsOn(v, Dirs(t), e)
    ensures e.ftype == FT_DIR ==> IsDir(t, e.ino) && e.ino < INODE_CNT && v.marks[e.ino]
    ensures e.ftype == FT_REG ==> e.ino in t && e.ino < INODE_CNT && v.marks[e.ino] && !t[e.ino].isDir
  {
    DirFacts(v, t, d);
    assert EntryOk(t, d, e);
    if d != 0 { assert LinkOk(v, t, d); }
    if e.ino in t { assert LinkOk(v, t, e.ino); }
  }

  /** What a lookup in a consistent volume finds. */
  lemma LookupFacts(v: Vol, t: Tree, path: seq<Byte>)
    requires NsOk(v, t) && path != []
    ensures var l := Lookedup(v, path);
      && l != Undefined
      && (l.Present? || l.Absent? || l.Hangs? ==> IsDir(t, l.dir) && l.dir < INODE_CNT && v.marks[l.dir])
      && (l.Present? ==> l.entry in Ents(v, l.dir) && EntryOk(t, l.dir, l.entry))
      && (l.Absent? ==>
            l.name in Split(path[1..]) && l.name != [] && !IsDot(l.name) && Find(Ents(v, l.dir), l.name) == |Ents(v, l.dir)|)
  {
    NsWalkable(v, t);
    ResolveStays(v, Dirs(t), 0, Split(path[1..]));
    var l := Lookedup(v, path);
    if l.Present? || l.Absent? || l.Hangs? {
      DirFacts(v, t, l.dir);
      if l.Present? { EntryLeadsOn(v, t, l.dir, l.entry); }
    }
  }

  // ----- a new name

  /** `v'` is `v` with inode `i` created and named `name` in directory `p`. */
  ghost predicate NewName(v: Vol, v': Vol, t: Tree, p: nat, name: Name, i: nat, isDir: bool) {
    && NsOk(v, t) && IsDir(t, p) && p < INODE_CNT && i < INODE_CNT && !v.marks[i]
    && GoodName(name) && !IsDot(name) && Find(Ents(v, p), name) == |Ents(v, p)|
    && VolShape(v') && v'.marks == v.marks[i := true]
    && |v'.files[p]| == |v.files[p]| + DIRENT_SIZE <= FILE_MAX
    && Ents(v', p) == Ents(v, p) + [Dirent(i, name, TypeOf(isDir))]
    && (if isDir then |v'.files[i]| == 2 * DIRENT_SIZE && Ents(v', i) == Dots(i, p) else v'.files[i] == [])
    && forall j {:trigger v'.files[j]} | 0 <= j < INODE_CNT && j != p && j != i :: v'.files[j] == v.files[j]
  }

  function Dots(i: nat, p: nat): seq<Dirent> {
    [Dirent(i, DOT, FT_DIR), Dirent(p, DOTDOT, FT_DIR)]
  }

  function Grafted(t: Tree, p: nat, name: Name, i: nat, isDir: bool): Tree {
    t[i := Link(p, name, isDir, DepthOf(t, p) + 1)]
  }

  lemma NewNameUnmarked(v: Vol, v': Vol, t: Tree, p: nat, name: Name, i: nat, isDir: bool)
    requires NewName(v, v', t, p, name, i, isDir)
    ensures i !in t && i != 0 && i != p && v.files[i] == []
    ensures forall j | j in t :: t[j].parent != i
  {
    DirFacts(v, t, p);
    assert MarkOk(v, t, i);
    forall j | j in t ensures j != i && t[j].parent != i {
      assert LinkOk(v, t, j);
      DirFacts(v, t, t[j].parent);
    }
  }

  lemma FindAppend(es: seq<Dirent>, e: Dirent, name: Name)
    requires Find(es, name) < |es|
    ensures Find(es + [e], name) == Find(es, name)
  {
    var all := es + [e];
    var j := Find(all, name);
    assert all[Find(es, name)].name == name;
    assert forall x | 0 <= x < |es| :: all[x] == es[x];
  }

  lemma GraftedDir(v: Vol, v': Vol, t: Tree, p: nat, name: Name, i: nat, isDir: bool, d: nat)
    requires NewName(v, v', t, p, name, i, isDir) && d < INODE_CNT && IsDir(Grafted(t, p, name, i, isDir), d)
    ensures DirOk(Grafted(t, p, name, i, isDir), d, v'.files[d])
  {
    hide NsOk, EntryOk, Entries, Find, DirOk;
    NsShape(v, t);
    NewNameUnmarked(v, v', t, p, name, i, isDir);
    var t' := Grafted(t, p, name, i, isDir);
    if d == i {
      DotsOk(t', i, p, v'.files[i]);
    } else {
      DirFacts(v, t, d);
      GraftedEntries(v, v', t, p, name, i, isDir, d);
      if d == p {
        AppendedDirOk(t, t', d, v.files[d], v'.files[d], Dirent(i, name, TypeOf(isDir)));
      } else {
        RetreedDirOk(t, t', d, v.files[d]);
      }
    }
  }

  lemma GraftedEntries(v: Vol, v': Vol, t: Tree, p: nat, name: Name, i: nat, isDir: bool, d: nat)
    requires NewName(v, v', t, p, name, i, isDir) && d < INODE_CNT && d != i && EntriesOk(t, d, Ents(v, d))
    ensures var t' := Grafted(t, p, name, i, isDir);
      EntriesOk(t', d, Ents(v, d)) && EntryOk(t', p, Dirent(i, name, TypeOf(isDir)))
  {
    hide NsOk, Entries, Find;
    NsShape(v, t);
    var t', es := Grafted(t, p, name, i, isDir), Ents(v, d);
    forall x | x in es ensures EntryOk(t', d, x) {
      assert EntryOk(t, d, x);
      GraftedEntry(v, v', t, p, name, i, isDir, d, x);
    }
  }

  lemma RetreedDirOk(t: Tree, t': Tree, d: nat, bytes: seq<Byte>)
    requires DirOk(t, d, bytes) && EntriesOk(t', d, Entries(bytes))
    ensures DirOk(t', d, bytes)
  {
  }

  /** One more entry, under a new name. */
  lemma AppendedDirOk(t: Tree, t': Tree, d: nat, was: seq<Byte>, now: seq<Byte>, e: Dirent)
    requires DirOk(t, d, was) && EntriesOk(t', d, Entries(was)) && EntryOk(t', d, e)
    requires Find(Entries(was), e.name) == |Entries(was)|
    requires |now| == |was| + DIRENT_SIZE <= FILE_MAX && Entries(now) == Entries(was) + [e]
    ensures DirOk(t', d, now)
  {
    var es := Entries(was);
    FindAppend(es, e, DOT);
    FindAppend(es, e, DOTDOT);
    AddIsInsert(es, e);
  }

  lemma GraftedEntry(v: Vol, v': Vol, t: Tree, p: nat, name: Name, i: nat, isDir: bool, d: nat, x: Dirent)
    requires NewName(v, v', t, p, name, i, isDir) && d != i && EntryOk(t, d, x)
    ensures EntryOk(Grafted(t, p, name, i, isDir), d, x)
  {
    NewNameUnmarked(v, v', t, p, name, i, isDir);
  }

  lemma DotsOk(t: Tree, i: nat, p: nat, bytes: seq<Byte>)
    requires i in t && t[i].parent == p && |bytes| == 2 * DIRENT_SIZE && Entries(bytes) == Dots(i, p)
    ensures DirOk(t, i, bytes)
  {
    var es := Entries(bytes);
    assert es[0].name == DOT && es[1].name == DOTDOT;
    FindUnique(es, 0);
    FindUnique(es, 1);
  }

  lemma GraftedLink(v: Vol, v': Vol, t: Tree, p: nat, name: Name, i: nat, isDir: bool, j: nat)
    requires NewName(v, v', t, p, name, i, isDir) && j in Grafted(t, p, name, i, isDir)
    ensures LinkOk(v', Grafted(t, p, name, i, isDir), j)
  {
    NewNameUnmarked(v, v', t, p, name, i, isDir);
    if j == i {
      assert Ents(v', p)[|Ents(v, p)|] == Dirent(i, name, TypeOf(isDir));
    } else {
      assert LinkOk(v, t, j);
    }
  }

  /** Creating and naming an inode keeps the tree. */
  lemma GraftKeeps(v: Vol, v': Vol, t: Tree, p: nat, name: Name, i: nat, isDir: bool)
    requires NewName(v, v', t, p, name, i, isDir)
    ensures NsOk(v', Grafted(t, p, name, i, isDir))
  {
    NewNameUnmarked(v, v', t, p, name, i, isDir);
    var t' := Grafted(t, p, name, i, isDir);
    DirFacts(v, t, p);
    forall j | j in t' ensures LinkOk(v', t', j) { GraftedLink(v, v', t, p, name, i, isDir, j); }
    forall j | 0 <= j < INODE_CNT ensures MarkOk(v', t', j) { assert MarkOk(v, t, j); }
    forall d | 0 <= d < INODE_CNT && IsDir(t', d) ensures DirOk(t', d, v'.files[d]) {
      GraftedDir(v, v', t, p, name, i, isDir, d);
    }
  }

  // ----- a name dropped

  /** `v'` is `v` with the inode `i` freed and its entry removed. */
  ghost predicate DroppedName(v: Vol, v': Vol, t: Tree, i: nat) {
    && NsOk(v, t) && i in t && LinkOk(v, t, i) && (t[i].isDir ==> |v.files[i]| == 2 * DIRENT_SIZE)
    && VolShape(v') && v'.marks == v.marks[i := false] && v'.files[i] == []
    && var p := t[i].parent;
    && var k := Find(Ents(v, p), t[i].name);
    && |v'.files[p]| + DIRENT_SIZE == |v.files[p]| && k < |Ents(v, p)| && Ents(v', p) == SwapOut(Ents(v, p), k)
    && forall j {:trigger v'.files[j]} | 0 <= j < INODE_CNT && j != p && j != i :: v'.files[j] == v.files[j]
  }

  /** A directory of two entries holds the dots only. */
  lemma TwoEntriesAreDots(v: Vol, t: Tree, d: nat, e: Dirent)
    requires NsOk(v, t) && IsDir(t, d) && d < INODE_CNT && |v.files[d]| == 2 * DIRENT_SIZE && e in Ents(v, d)
    ensures IsDot(e.name)
  {
    DirFacts(v, t, d);
    var es := Ents(v, d);
    assert es[Find(es, DOT)].name == DOT && es[Find(es, DOTDOT)].name == DOTDOT;
    var k :| 0 <= k < |es| && es[k] == e;
  }

  lemma Childless(v: Vol, t: Tree, i: nat, j: nat)
    requires NsOk(v, t) && i in t && i < INODE_CNT && (t[i].isDir ==> |v.files[i]| == 2 * DIRENT_SIZE) && j in t
    ensures t[j].parent != i
  {
    assert LinkOk(v, t, i) && LinkOk(v, t, j);
    if t[i].isDir && t[j].parent == i {
      TwoEntriesAreDots(v, t, i, Dirent(j, t[j].name, TypeOf(t[j].isDir)));
      assert false;
    }
  }

  lemma NameAt(v: Vol, t: Tree, i: nat)
    requires NsOk(v, t) && i in t
    ensures LinkOk(v, t, i)
    ensures var p := t[i].parent;
      var k := Find(Ents(v, p), t[i].name);
      k < |Ents(v, p)| && Ents(v, p)[k] == Dirent(i, t[i].name, TypeOf(t[i].isDir))
  {
    assert LinkOk(v, t, i);
    var p := t[i].parent;
    DirFacts(v, t, p);
    var k :| 0 <= k < |Ents(v, p)| && Ents(v, p)[k] == Dirent(i, t[i].name, TypeOf(t[i].isDir));
    FindUnique(Ents(v, p), k);
  }

  lemma PrunedDir(v: Vol, v': Vol, t: Tree, i: nat, d: nat)
    requires DroppedName(v, v', t, i) && d < INODE_CNT && IsDir(t - {i}, d)
    ensures DirOk(t - {i}, d, v'.files[d])
  {
    var t', es, es' := t - {i}, Ents(v, d), Ents(v', d);
    DirFacts(v, t, d);
    NameAt(v, t, i);
    forall e | e in es' ensures e in es && EntryOk(t', d, e) {
      if d == t[i].parent { SwapOutMembers(es, Find(es, t[i].name)); }
      assert EntryOk(t, d, e);
      PrunedEntry(v, v', t, i, d, e);
    }
    hide NsOk, LinkOk, EntryOk, Find, SwapOut;
    if d == t[i].parent {
      SwappedDirOk(t, t', d, v.files[d], v'.files[d], Find(es, t[i].name));
    }
  }

  lemma SwappedDirOk(t: Tree, t': Tree, d: nat, was: seq<Byte>, now: seq<Byte>, k: nat)
    requires DirOk(t, d, was) && k < |Entries(was)| && !IsDot(Entries(was)[k].name)
    requires |now| + DIRENT_SIZE == |was| && Entries(now) == SwapOut(Entries(was), k) && EntriesOk(t', d, Entries(now))
    ensures DirOk(t', d, now)
  {
    var es := Entries(was);
    SwapOutUnique(es, k);
    SwapOutAt(es, k);
    FindSwapOut(es, k, DOT);
    FindSwapOut(es, k, DOTDOT);
  }

  lemma PrunedEntry(v: Vol, v': Vol, t: Tree, i: nat, d: nat, e: Dirent)
    requires DroppedName(v, v', t, i) && d < INODE_CNT && d != i && IsDir(t, d) && e in Ents(v', d) && e in Ents(v, d)
    requires EntryOk(t, d, e)
    ensures EntryOk(t - {i}, d, e)
  {
    DirFacts(v, t, d);
    NameAt(v, t, i);
    if e.ino == i && !IsDot(e.name) && (e.ftype == FT_DIR || e.ftype == FT_REG) {
      var k := Find(Ents(v, d), t[i].name);
      SwapOutMembers(Ents(v, d), k);
      assert false;
    }
  }

  lemma PrunedLink(v: Vol, v': Vol, t: Tree, i: nat, j: nat)
    requires DroppedName(v, v', t, i) && j in t && j != i
    ensures LinkOk(v', t - {i}, j)
  {
    assert LinkOk(v, t, j);
    Childless(v, t, i, j);
    NameAt(v, t, i);
    var p := t[i].parent;
    if t[j].parent == p {
      DirFacts(v, t, p);
      SwapOutMembers(Ents(v, p), Find(Ents(v, p), t[i].name));
    }
  }

  /** Freeing an inode without children and dropping its name keeps the tree. */
  lemma PruneKeeps(v: Vol, v': Vol, t: Tree, i: nat)
    requires DroppedName(v, v', t, i)
    ensures NsOk(v', t - {i})
  {
    var t' := t - {i};
    forall j | j in t' ensures LinkOk(v', t', j) { PrunedLink(v, v', t, i, j); }
    forall j | 0 <= j < INODE_CNT ensures MarkOk(v', t', j) {
      assert MarkOk(v, t, j);
      if j == t[i].parent { DirFacts(v, t, j); }
    }
    forall d | 0 <= d < INODE_CNT && IsDir(t', d) ensures DirOk(t', d, v'.files[d]) { PrunedDir(v, v', t, i, d); }
  }

  // ----- a device

  /** `v'` is `v` with one more device entry `e` in directory `p`. */
  ghost predicate DeviceNew(v: Vol, v': Vol, t: Tree, p: nat, e: Dirent) {
    && NsOk(v, t) && IsDir(t, p) && p < INODE_CNT && GoodName(e.name) && !IsDot(e.name) && e.ftype == FT_CHR
    && Find(Ents(v, p), e.name) == |Ents(v, p)|
    && VolShape(v') && v'.marks == v.marks && |v'.files[p]| == |v.files[p]| + DIRENT_SIZE <= FILE_MAX
    && Ents(v', p) == Ents(v, p) + [e]
    && forall j {:trigger v'.files[j]} | 0 <= j < INODE_CNT && j != p :: v'.files[j] == v.files[j]
  }

  /** Everything a directory's change leaves alone. */
  lemma OtherFilesKeep(v: Vol, v': Vol, t: Tree, p: nat, j: nat)
    requires NsOk(v, t) && p < INODE_CNT && VolShape(v') && v'.marks == v.marks && (v.files[p] == v'.files[p] || v.marks[p])
    requires forall x {:trigger v'.files[x]} | 0 <= x < INODE_CNT && x != p :: v'.files[x] == v.files[x]
    requires forall x | x in Ents(v, p) && x.ftype != FT_CHR :: x in Ents(v', p)
    ensures j in t ==> LinkOk(v', t, j)
    ensures j < INODE_CNT ==> MarkOk(v', t, j) && (j != p && IsDir(t, j) ==> DirOk(t, j, v'.files[j]))
  {
    hide DirOk, Find, Entries;
    if j in t { assert LinkOk(v, t, j); }
    if j < INODE_CNT {
      assert MarkOk(v, t, j);
      if IsDir(t, j) { assert DirOk(t, j, v.files[j]); }
    }
  }

  /** An entry of a character device is not part of the tree. */
  lemma DeviceKeeps(v: Vol, v': Vol, t: Tree, p: nat, e: Dirent)
    requires DeviceNew(v, v', t, p, e)
    ensures NsOk(v', t)
  {
    hide DirOk, LinkOk, MarkOk, Find, Entries;
    DirFacts(v, t, p);
    DeviceNewDir(v, v', t, p, e);
    forall j: nat
      ensures j in t ==> LinkOk(v', t, j)
      ensures j < INODE_CNT ==> MarkOk(v', t, j) && (IsDir(t, j) ==> DirOk(t, j, v'.files[j]))
    {
      OtherFilesKeep(v, v', t, p, j);
    }
  }

  lemma DeviceNewDir(v: Vol, v': Vol, t: Tree, p: nat, e: Dirent)
    requires DeviceNew(v, v', t, p, e)
    ensures DirOk(t, p, v'.files[p]) && forall x | x in Ents(v, p) :: x in Ents(v', p)
  {
    DirFacts(v, t, p);
    hide NsOk, Find, Entries, UniqueNames;
    AppendedDirOk(t, t, p, v.files[p], v'.files[p], e);
  }

  /** `v'` is `v` without the entry `e` of a device in directory `p`. */
  ghost predicate DeviceGone(v: Vol, v': Vol, t: Tree, p: nat, e: Dirent) {
    && NsOk(v, t) && IsDir(t, p) && p < INODE_CNT && e in Ents(v, p) && e.ftype == FT_CHR
    && VolShape(v') && v'.marks == v.marks && |v'.files[p]| + DIRENT_SIZE == |v.files[p]|
    && Find(Ents(v, p), e.name) < |Ents(v, p)| && Ents(v', p) == SwapOut(Ents(v, p), Find(Ents(v, p), e.name))
    && forall j {:trigger v'.files[j]} | 0 <= j < INODE_CNT && j != p :: v'.files[j] == v.files[j]
  }

  lemma DeviceGoneEntries(v: Vol, v': Vol, t: Tree, p: nat, e: Dirent)
    requires DeviceGone(v, v', t, p, e)
    ensures forall x :: x in Ents(v', p) <==> x in Ents(v, p) && x != e
    ensures DirOk(t, p, v'.files[p])
  {
    var es, k := Ents(v, p), Find(Ents(v, p), e.name);
    DirFacts(v, t, p);
    DeviceAt(v, t, p, e);
    SwapOutMembers(es, k);
    hide NsOk, EntryOk, Find, SwapOut, Entries;
    SwappedDirOk(t, t, p, v.files[p], v'.files[p], k);
  }

  /** Nor is its removal. */
  lemma DeviceGoes(v: Vol, v': Vol, t: Tree, p: nat, e: Dirent)
    requires DeviceGone(v, v', t, p, e)
    ensures NsOk(v', t)
  {
    hide DirOk, LinkOk, MarkOk, Find, SwapOut, Entries;
    DirFacts(v, t, p);
    DeviceGoneEntries(v, v', t, p, e);
    forall j: nat
      ensures j in t ==> LinkOk(v', t, j)
      ensures j < INODE_CNT ==> MarkOk(v', t, j) && (IsDir(t, j) ==> DirOk(t, j, v'.files[j]))
    {
      OtherFilesKeep(v, v', t, p, j);
    }
  }

  /** The search for a device's name finds the device. */
  lemma DeviceAt(v: Vol, t: Tree, p: nat, e: Dirent)
    requires NsOk(v, t) && IsDir(t, p) && p < INODE_CNT && e in Ents(v, p) && e.ftype == FT_CHR
    ensures Find(Ents(v, p), e.name) < |Ents(v, p)| && Ents(v, p)[Find(Ents(v, p), e.name)] == e && !IsDot(e.name)
    ensures UniqueNames(Ents(v, p)) && |v.files[p]| % DIRENT_SIZE == 0 && |v.files[p]| <= FILE_MAX
  {
    DirFacts(v, t, p);
    assert EntryOk(t, p, e);
    var k :| 0 <= k < |Ents(v, p)| && Ents(v, p)[k] == e;
    FindUnique(Ents(v, p), k);
  }

  /** Writing a regular file is none of the namespace's business. */
  lemma WriteKeeps(v: Vol, v': Vol, t: Tree, i: nat)
    requires NsOk(v, t) && i in t && !t[i].isDir && VolShape(v') && v'.marks == v.marks
    requires forall j {:trigger v'.files[j]} | 0 <= j < INODE_CNT && j != i :: v'.files[j] == v.files[j]
    ensures NsOk(v', t)
  {
    hide DirOk, MarkOk, Find, Entries;
    assert LinkOk(v, t, i);
    forall j: nat
      ensures j in t ==> LinkOk(v', t, j)
      ensures j < INODE_CNT ==> MarkOk(v', t, j) && (IsDir(t, j) ==> DirOk(t, j, v'.files[j]))
    {
      WriteKeepsOne(v, v', t, i, j);
    }
  }

  lemma WriteKeepsOne(v: Vol, v': Vol, t: Tree, i: nat, j: nat)
    requires NsOk(v, t) && i in t && !t[i].isDir && VolShape(v') && v'.marks == v.marks
    requires forall x {:trigger v'.files[x]} | 0 <= x < INODE_CNT && x != i :: v'.files[x] == v.files[x]
    ensures j in t ==> LinkOk(v', t, j)
    ensures j < INODE_CNT ==> MarkOk(v', t, j) && (IsDir(t, j) ==> DirOk(t, j, v'.files[j]))
  {
    hide DirOk, Find, Entries;
    assert LinkOk(v, t, i);
    if j in t { assert LinkOk(v, t, j); }
    if j < INODE_CNT {
      assert MarkOk(v, t, j);
      if IsDir(t, j) { assert DirOk(t, j, v.files[j]); }
    }
  }
}
