/** The file table and one task's descriptors: what `sys_open` and `sys_close` do to them and to the volume. */
module OpenFiles {
  import opened FsBytes
  import opened FsDisk
  import opened FsVolume
  import opened Dirents
  import opened DirVolume
  import opened Namespace
  import opened NamespaceOps

  const FD_INVALID: int := -8
  const MAX_FILES_OPEN_PER_PROC: nat := 32
  const FILE_TABLE_SIZE: nat := 170
  const FDS_FULL: int := -32
  const FILE_TABLE_FULL: int := -170

  /** `struct file`.  For a device the position counts the descriptors. */
  datatype Slot = Unused | Slot(ino: nat, pos: nat, ftype: nat)

  /** The slot has inode `i` open. */
  predicate Holds(s: Slot, i: nat) {
    s.Slot? && s.ftype != FT_CHR && s.ino == i
  }

  function Count(b: bool): nat {
    if b then 1 else 0
  }

  /** How many slots have inode `i` open. */
  function Holders(slots: seq<Slot>, i: nat): nat {
    if slots == [] then 0 else Count(Holds(slots[0], i)) + Holders(slots[1..], i)
  }

  lemma {:induction false} HoldersPut(slots: seq<Slot>, k: nat, x: Slot, i: nat)
    requires k < |slots|
    ensures Holders(slots[k := x], i) + Count(Holds(slots[k], i)) == Holders(slots, i) + Count(Holds(x, i))
  {
    if k == 0 {
      assert slots[k := x][1..] == slots[1..];
    } else {
      HoldersPut(slots[1..], k - 1, x, i);
      assert slots[k := x][1..] == slots[1..][k - 1 := x];
    }
  }

  lemma {:induction false} NoHolders(slots: seq<Slot>, i: nat)
    requires forall k | 0 <= k < |slots| :: slots[k] == Unused
    ensures Holders(slots, i) == 0
  {
    if slots != [] { NoHolders(slots[1..], i); }
  }

  predicate SlotOk(s: Slot) {
    s.Unused? || (s.ftype == FT_CHR && s.pos > 0) || ((s.ftype == FT_REG || s.ftype == FT_DIR) && s.ino < INODE_CNT)
  }

  /** A slot in use stands for one `inode_open` of its inode. */
  ghost predicate SlotsOk(v: Vol, slots: seq<Slot>) {
    && VolShape(v) && |slots| == FILE_TABLE_SIZE
    && (forall k {:trigger slots[k]} | 0 <= k < |slots| :: SlotOk(slots[k]))
    && (forall i {:trigger Holders(slots, i)} | 0 <= i < INODE_CNT :: Holders(slots, i) <= v.opens[i])
  }

  /** Descriptors lead to different slots in use. */
  predicate FdsOk(slots: seq<Slot>, fds: seq<int>) {
    && |fds| == MAX_FILES_OPEN_PER_PROC
    && (forall a | 0 <= a < |fds| :: fds[a] == -1 || (0 <= fds[a] < |slots| && slots[fds[a]].Slot?))
    && (forall a, b | 0 <= a < b < |fds| && fds[a] != -1 :: fds[a] != fds[b])
  }

  lemma SlotFacts(v: Vol, slots: seq<Slot>, k: nat)
    requires SlotsOk(v, slots) && k < |slots| && slots[k].Slot?
    ensures VolShape(v) && SlotOk(slots[k]) && (slots[k].ftype != FT_CHR ==> slots[k].ino < INODE_CNT && v.opens[slots[k].ino] > 0)
  {
    if slots[k].ftype != FT_CHR {
      assert SlotOk(slots[k]);
      HoldersPut(slots, k, Unused, slots[k].ino);
      assert Holders(slots, slots[k].ino) <= v.opens[slots[k].ino];
    }
  }

  /** Another slot in place `k`, and the open counts that go with it. */
  lemma SlotPut(v: Vol, v': Vol, slots: seq<Slot>, k: nat, x: Slot)
    requires SlotsOk(v, slots) && k < |slots| && SlotOk(x) && VolShape(v')
    requires forall i | 0 <= i < INODE_CNT :: v'.opens[i] + Count(Holds(slots[k], i)) >= v.opens[i] + Count(Holds(x, i))
    ensures SlotsOk(v', slots[k := x])
  {
    forall i | 0 <= i < INODE_CNT ensures Holders(slots[k := x], i) <= v'.opens[i] {
      HoldersPut(slots, k, x, i);
      assert Holders(slots, i) <= v.opens[i];
    }
  }

  lemma SlotMoved(v: Vol, v': Vol, slots: seq<Slot>, k: nat, pos: nat)
    requires SlotsOk(v, slots) && k < |slots| && slots[k].Slot? && v'.opens == v.opens && VolShape(v')
    requires slots[k].ftype == FT_CHR ==> pos > 0
    ensures SlotsOk(v', slots) && SlotsOk(v', slots[k := slots[k].(pos := pos)])
  {
    assert SlotOk(slots[k]);
    SlotPut(v, v', slots, k, slots[k]);
    assert slots[k := slots[k]] == slots;
    SlotPut(v, v', slots, k, slots[k].(pos := pos));
  }

  /** More opens than before do no harm. */
  lemma SlotsStay(v: Vol, v': Vol, slots: seq<Slot>)
    requires SlotsOk(v, slots) && VolShape(v') && forall i | 0 <= i < INODE_CNT :: v.opens[i] <= v'.opens[i]
    ensures SlotsOk(v', slots)
  {
    forall i | 0 <= i < INODE_CNT ensures Holders(slots, i) <= v'.opens[i] { assert Holders(slots, i) <= v.opens[i]; }
  }

  // ----- sys_open, sys_close

  /** The first place that is free, or the length. */
  function FirstFree(slots: seq<Slot>): (k: nat)
    ensures k <= |slots| && (k < |slots| ==> slots[k] == Unused) && forall j | 0 <= j < k :: slots[j] != Unused
  {
    if slots == [] || slots[0] == Unused then 0 else 1 + FirstFree(slots[1..])
  }

  function FirstFd(fds: seq<int>): (k: nat)
    ensures k <= |fds| && (k < |fds| ==> fds[k] == -1) && forall j | 0 <= j < k :: fds[j] != -1
  {
    if fds == [] || fds[0] == -1 then 0 else 1 + FirstFd(fds[1..])
  }

  /** The volume, the file table, the descriptors and the result. */
  datatype After = After(v: Vol, slots: seq<Slot>, fds: seq<int>, r: Ret)

  /** The inode of an entry is opened unless the entry is a device's. */
  function Reached(v: Vol, e: Dirent): Vol {
    if e.ftype == FT_CHR || e.ino >= |v.opens| then v else OpenVol(v, e.ino)
  }

  function OpenFile(v: Vol, slots: seq<Slot>, fds: seq<int>, path: seq<Byte>): After
    requires path != []
  {
    var l := Lookedup(v, path);
    var w := Held(v, l);
    if l.Hangs? || l.Undefined? then After(w, slots, fds, Hung)
    else if !l.Present? then After(w, slots, fds, Done(FILE_ISNT_EXIST))
    else if FirstFd(fds) == |fds| then After(w, slots, fds, Done(FDS_FULL))
    else if FirstFree(slots) == |slots| then After(Reached(w, l.entry), slots, fds, Done(FILE_TABLE_FULL))
    else
      var x := Slot(l.entry.ino, if l.entry.ftype == FT_CHR then 1 else 0, l.entry.ftype);
      After(Reached(w, l.entry), slots[FirstFree(slots) := x], fds[FirstFd(fds) := FirstFree(slots)], Done(FirstFd(fds)))
  }

  /** The lowest free descriptor leads to entry `e`, through the first free slot, and the file is open once more for it. */
  predicate LeadsTo(v: Vol, slots: seq<Slot>, fds: seq<int>, a: After, d: nat, e: Dirent) {
    && a.r.Done? && 0 <= a.r.code < |fds| && fds[a.r.code] == -1 && (forall j | 0 <= j < a.r.code :: fds[j] != -1)
    && |a.fds| == |fds|
    && var k := a.fds[a.r.code];
    && 0 <= k < |slots| && slots[k] == Unused && (forall j | 0 <= j < k :: slots[j] != Unused)
    && a.fds == fds[a.r.code := k] && a.slots == slots[k := Slot(e.ino, if e.ftype == FT_CHR then 1 else 0, e.ftype)]
    && |a.v.opens| == |v.opens|
    && forall i | 0 <= i < |v.opens| ::
         a.v.opens[i] == v.opens[i] + Count(i == d) + Count(e.ftype != FT_CHR && i == e.ino)
  }

  /** Which of its results `sys_open` gives, and that a descriptor leads to the file the path names. */
  ghost predicate OpenOutcome(v: Vol, slots: seq<Slot>, fds: seq<int>, path: seq<Byte>, a: After)
    requires path != []
  {
    var l := Lookedup(v, path);
    && a.v.marks == v.marks && a.v.files == v.files && a.v.free == v.free
    && (a.r == Hung <==> l.Hangs?)
    && (a.r == Done(FILE_ISNT_EXIST) <==> l.Absent? || l.NotADirectory?)
    && (a.r == Done(FDS_FULL) <==> l.Present? && forall j | 0 <= j < |fds| :: fds[j] != -1)
    && (a.r == Done(FILE_TABLE_FULL) <==>
          l.Present? && (exists j :: 0 <= j < |fds| && fds[j] == -1) && forall k | 0 <= k < |slots| :: slots[k] != Unused)
    && (a.r.Done? && a.r.code >= 0 ==> l.Present? && LeadsTo(v, slots, fds, a, l.dir, l.entry))
    && (a.r.Hung? || a.r.code < 0 ==> a.slots == slots && a.fds == fds)
  }

  lemma OpenDoes(v: Vol, t: Tree, slots: seq<Slot>, fds: seq<int>, path: seq<Byte>)
    requires NsOk(v, t) && path != [] && EntryFound(v, path)
    ensures OpenOutcome(v, slots, fds, path, OpenFile(v, slots, fds, path))
  {
    hide NsOk, Lookedup, FirstFree, FirstFd, LeadsTo;
    NsShape(v, t);
    LookupFacts(v, t, path);
    if Lookedup(v, path).Present? && FirstFd(fds) < |fds| && FirstFree(slots) < |slots| { OpenLeads(v, slots, fds, path); }
  }

  lemma OpenLeads(v: Vol, slots: seq<Slot>, fds: seq<int>, path: seq<Byte>)
    requires VolShape(v) && path != [] && Lookedup(v, path).Present? && EntryFound(v, path)
    requires FirstFd(fds) < |fds| && FirstFree(slots) < |slots|
    ensures var l := Lookedup(v, path); LeadsTo(v, slots, fds, OpenFile(v, slots, fds, path), l.dir, l.entry)
  {
    hide Lookedup, FirstFree, FirstFd;
  }

  predicate Usable(slots: seq<Slot>, fds: seq<int>, fd: int) {
    0 <= fd < |fds| && 0 <= fds[fd] < |slots|
  }

  /** A device's slot stays while other descriptors use it. */
  function Dropped(s: Slot): Slot {
    if s.Slot? && s.ftype == FT_CHR && s.pos > 1 then s.(pos := s.pos - 1) else Unused
  }

  function CloseFile(v: Vol, slots: seq<Slot>, fds: seq<int>, fd: int): After {
    if !Usable(slots, fds, fd) then After(v, slots, fds, Done(FD_INVALID))
    else
      var s := slots[fds[fd]];
      var u := if s.Slot? && s.ftype != FT_CHR && s.ino < |v.opens| && v.opens[s.ino] > 0 then CloseVol(v, s.ino) else v;
      After(u, slots[fds[fd] := Dropped(s)], fds[fd := -1], Done(0))
  }

  /** A descriptor in use is free again, and nothing else changes for a bad one.  A device used by more descriptors counts
      one less; any other slot is free again and its inode is open once less. */
  predicate CloseOutcome(v: Vol, slots: seq<Slot>, fds: seq<int>, fd: int, a: After) {
    && |a.v.opens| == |v.opens|
    && if !Usable(slots, fds, fd) then a == After(v, slots, fds, Done(FD_INVALID))
       else
         var s := slots[fds[fd]];
         && a.r == Done(0) && a.fds == fds[fd := -1] && s.Slot?
         && a.slots == slots[fds[fd] := if s.ftype == FT_CHR && s.pos > 1 then Slot(s.ino, s.pos - 1, FT_CHR) else Unused]
         && a.v.marks == v.marks && a.v.files == v.files && a.v.free == v.free
         && forall i | 0 <= i < |v.opens| :: a.v.opens[i] == v.opens[i] - Count(s.ftype != FT_CHR && i == s.ino)
  }

  lemma CloseDoes(v: Vol, slots: seq<Slot>, fds: seq<int>, fd: int)
    requires SlotsOk(v, slots) && FdsOk(slots, fds)
    ensures CloseOutcome(v, slots, fds, fd, CloseFile(v, slots, fds, fd))
  {
    if Usable(slots, fds, fd) { SlotFacts(v, slots, fds[fd]); }
  }

  /** What a successful lookup says of the entry it found. */
  predicate EntryFound(v: Vol, path: seq<Byte>)
    requires path != []
  {
    var l := Lookedup(v, path);
    l.Present? ==> l.entry.ftype == FT_CHR
                   || ((l.entry.ftype == FT_REG || l.entry.ftype == FT_DIR) && l.entry.ino < INODE_CNT)
  }

  /** Both tables stay as they have to be. */
  lemma OpenKeeps(v: Vol, slots: seq<Slot>, fds: seq<int>, path: seq<Byte>)
    requires SlotsOk(v, slots) && FdsOk(slots, fds) && path != [] && EntryFound(v, path)
    ensures var a := OpenFile(v, slots, fds, path); SlotsOk(a.v, a.slots) && FdsOk(a.slots, a.fds)
  {
    hide Lookedup, Holders, FirstFree, FirstFd;
    var l := Lookedup(v, path);
    var w := Held(v, l);
    SlotsStay(v, w, slots);
    if l.Present? {
      SlotsStay(w, Reached(w, l.entry), slots);
      if FirstFree(slots) < |slots| {
        SlotPut(w, Reached(w, l.entry), slots, FirstFree(slots),
                Slot(l.entry.ino, if l.entry.ftype == FT_CHR then 1 else 0, l.entry.ftype));
      }
    }
  }

  lemma CloseKeeps(v: Vol, slots: seq<Slot>, fds: seq<int>, fd: int)
    requires SlotsOk(v, slots) && FdsOk(slots, fds)
    ensures var a := CloseFile(v, slots, fds, fd); SlotsOk(a.v, a.slots) && FdsOk(a.slots, a.fds)
  {
    if Usable(slots, fds, fd) {
      var k := fds[fd];
      SlotFacts(v, slots, k);
      SlotPut(v, CloseFile(v, slots, fds, fd).v, slots, k, Dropped(slots[k]));
    }
  }

  /** `sys_close` takes back what a successful `sys_open` did to both tables and to the file, not the opening of the
      directory that the lookup leaves behind. */
  lemma CloseUndoesOpen(v: Vol, slots: seq<Slot>, fds: seq<int>, path: seq<Byte>)
    requires VolShape(v) && |slots| == FILE_TABLE_SIZE && FdsOk(slots, fds) && path != [] && EntryFound(v, path)
    requires var r := OpenFile(v, slots, fds, path).r; r.Done? && r.code >= 0
    ensures var a := OpenFile(v, slots, fds, path);
      && Usable(a.slots, a.fds, a.r.code) && !Usable(slots, fds, a.r.code)
      && CloseFile(a.v, a.slots, a.fds, a.r.code) == After(Held(v, Lookedup(v, path)), slots, fds, Done(0))
  {
    hide Lookedup, Holders;
    var l := Lookedup(v, path);
    var w := Held(v, l);
    var a := OpenFile(v, slots, fds, path);
    var fd, k := FirstFd(fds), FirstFree(slots);
    if l.entry.ftype != FT_CHR { OpenClose(w, l.entry.ino); }
    assert slots[k := a.slots[k]][k := Unused] == slots;
    assert fds[fd := k][fd := -1] == fds;
  }

  // ----- open counts nobody gives back

  /** Opens of inode `i` that no slot stands for. */
  function Excess(v: Vol, slots: seq<Slot>, i: nat): int
    requires i < |v.opens|
  {
    v.opens[i] - Holders(slots, i)
  }

  /** Each lookup that ends in a directory leaves it open once more; so does a full file table the file. */
  lemma OpenExcess(v: Vol, slots: seq<Slot>, fds: seq<int>, path: seq<Byte>, i: nat)
    requires VolShape(v) && FdsOk(slots, fds) && |slots| == FILE_TABLE_SIZE && path != [] && EntryFound(v, path) && i < INODE_CNT
    ensures var (a, l) := (OpenFile(v, slots, fds, path), Lookedup(v, path));
      && VolShape(a.v)
      && Excess(a.v, a.slots, i) == Excess(v, slots, i)
           + Count((l.Present? || l.Absent? || l.Hangs?) && l.dir == i)
           + Count(a.r == Done(FILE_TABLE_FULL) && l.Present? && l.entry.ftype != FT_CHR && l.entry.ino == i)
  {
    hide Lookedup, Holders;
    var l := Lookedup(v, path);
    if l.Present? && FirstFd(fds) < |fds| && FirstFree(slots) < |slots| {
      HoldersPut(slots, FirstFree(slots), OpenFile(v, slots, fds, path).slots[FirstFree(slots)], i);
    }
  }

  /** And `sys_close` gives none of them back. */
  lemma CloseExcess(v: Vol, slots: seq<Slot>, fds: seq<int>, fd: int, i: nat)
    requires SlotsOk(v, slots) && FdsOk(slots, fds) && i < INODE_CNT
    ensures var a := CloseFile(v, slots, fds, fd); VolShape(a.v) && Excess(a.v, a.slots, i) == Excess(v, slots, i)
  {
    if Usable(slots, fds, fd) {
      SlotFacts(v, slots, fds[fd]);
      HoldersPut(slots, fds[fd], Dropped(slots[fds[fd]]), i);
    }
  }

  /** The lookup ends, or hangs, in directory `i`. */
  predicate EndsIn(v: Vol, path: seq<Byte>, i: nat)
    requires path != []
  {
    var l := Lookedup(v, path);
    (l.Present? || l.Absent? || l.Hangs?) && l.dir == i
  }

  lemma HeldExcess(v: Vol, path: seq<Byte>, i: nat)
    requires VolShape(v) && path != [] && i < INODE_CNT
    ensures Held(v, Lookedup(v, path)).opens[i] == v.opens[i] + Count(EndsIn(v, path, i))
  {
    hide Lookedup;
  }

  lemma NewEntryOpens(v: Vol, d: nat, name: Name, ftype: nat, dev: nat)
    requires VolShape(v) && d < |v.files| && |name| <= NAME_MAX
    ensures NewEntry(v, d, name, ftype, dev).0.opens == v.opens
  {
    hide AddVol, LeastClear;
  }

  /** Nor does any call on names: each lookup in it leaves its directory open once more, and that is all. */
  lemma MknodExcess(v: Vol, path: seq<Byte>, ftype: nat, dev: nat, i: nat)
    requires VolShape(v) && path != [] && ShortNames(path) && i < INODE_CNT
    ensures MknodVol(v, path, ftype, dev).0.opens[i]
      == v.opens[i] + if ftype == FT_CHR || ftype == FT_REG then Count(EndsIn(v, path, i)) else 0
  {
    HeldExcess(v, path, i);
    hide Lookedup, EndsIn, NewEntry;
    var l := Lookedup(v, path);
    if l.Absent? { NewEntryOpens(Held(v, l), l.dir, l.name, ftype, dev); }
  }

  lemma RemovalExcess(v: Vol, path: seq<Byte>, i: nat)
    requires VolShape(v) && path != [] && i < INODE_CNT
    ensures DeviceInUse(v, Lookedup(v, path)) ==> UnlinkVol(v, path).0.opens[i] == v.opens[i] + Count(EndsIn(v, path, i))
    ensures RmdirVol(v, path).0.opens[i] == v.opens[i] + Count(EndsIn(v, path, i))
  {
    HeldExcess(v, path, i);
    hide Lookedup, EndsIn, RemoveVol;
  }

  /** A directory is made by two lookups of its parent. */
  lemma MkdirExcess(v: Vol, t: Tree, path: seq<Byte>, i: nat)
    requires NsOk(v, t) && VolShape(v) && PathOk(path) && i < INODE_CNT
    ensures MkdirVol(v, path).0.opens[i]
      == v.opens[i] + (if MknodFits(v, path, FT_REG) then 2 else 1) * Count(EndsIn(v, path, i))
  {
    hide NsOk, Lookedup, AddVol, RemoveVol, MknodVol;
    var (v1, r) := MknodVol(v, path, FT_REG, 0);
    MknodAllOrNothing(v, t, path, FT_REG, 0);
    MknodExcess(v, path, FT_REG, 0, i);
    if MknodFits(v, path, FT_REG) {
      MkdirFinds(v, t, path);
      AbsentIsFresh(v, t, path);
      HeldExcess(v1, path, i);
    }
  }
}
