/** What `fs/dir.c` and `fs/file.c` do to a volume, as functions of it. */
module DirVolume {
  import opened FsBytes
  import opened FsDisk
  import opened FsState
  import opened FsResize
  import opened FsWrite
  import opened FsVolume
  import opened Dirents

  const DIRENT_ISNT_EXIST: int := -3
  const DIRENT_ALREADY_EXIST: int := -4
  const FILE_ISNT_EXIST: int := -5
  const ISNT_DIR: int := -6
  const DIR_ISNT_EMPTY: int := -7
  const FILE_TYPE_INVALID: int := -9

  const SLASH: Byte := 47
  const DOT: Name := [46]
  const DOTDOT: Name := [46, 46]

  function Ents(v: Vol, d: nat): seq<Dirent>
    requires d < |v.files|
  {
    Entries(v.files[d])
  }

  // ----- dirent_add, dirent_delete

  function AddVol(v: Vol, d: nat, e: Dirent): (p: (Vol, int))
    requires d < |v.files| && |e.name| <= NAME_MAX
    ensures p.0.marks == v.marks && p.0.opens == v.opens && |p.0.files| == |v.files|
  {
    if Find(Ents(v, d), e.name) < |Ents(v, d)| then (v, DIRENT_ALREADY_EXIST)
    else WriteVol(v, d, EncodeDirent(e), |v.files[d]|)
  }

  /** The copy of the last record into place `k`. */
  function MoveVol(v: Vol, d: nat, k: nat): (w: Vol)
    requires d < |v.files| && k < |Ents(v, d)|
    ensures w.marks == v.marks && w.opens == v.opens
    ensures |w.files| == |v.files| && |w.files[d]| == |v.files[d]| >= DIRENT_SIZE
  {
    var bytes := v.files[d];
    assert DIRENT_SIZE * k + DIRENT_SIZE <= |bytes| by { assert Ents(v, d)[k] == Ents(v, d)[k]; }
    WriteVol(v, d, bytes[|bytes| - DIRENT_SIZE..], DIRENT_SIZE * k).0
  }

  function RemoveVol(v: Vol, d: nat, name: Name): (p: (Vol, int))
    requires d < |v.files|
    ensures p.0.marks == v.marks && p.0.opens == v.opens && |p.0.files| == |v.files|
  {
    var k := Find(Ents(v, d), name);
    if k == |Ents(v, d)| then (v, DIRENT_ISNT_EXIST)
    else (CutVol(MoveVol(v, d, k), d, |v.files[d]| - DIRENT_SIZE), 0)
  }

  /** Blocks an entry adds to a directory: one if it starts a block, never more. */
  function EntryNeed(size: nat): nat {
    if size % BLOCK_SIZE == 0 then 1 else 0
  }

  lemma EntryCrossesOneBlock(size: nat, e: Dirent)
    requires size % DIRENT_SIZE == 0 && |e.name| <= NAME_MAX
    ensures Needed(size, EncodeDirent(e), size) == EntryNeed(size)
  {
    BlocksOfEntry(size);
  }

  /** A name that is absent is appended if the directory may grow and a block is there. */
  lemma AddFresh(v: Vol, d: nat, e: Dirent)
    requires d < |v.files| && Fits(e) && |v.files[d]| % DIRENT_SIZE == 0 && Find(Ents(v, d), e.name) == |Ents(v, d)|
    requires |v.files[d]| + DIRENT_SIZE <= FILE_MAX && EntryNeed(|v.files[d]|) <= v.free
    ensures var w := v.(files := v.files[d := v.files[d] + EncodeDirent(e)], free := v.free - EntryNeed(|v.files[d]|));
      AddVol(v, d, e) == (w, DIRENT_SIZE) && Ents(w, d) == Ents(v, d) + [e]
  {
    EntriesAppend(v.files[d], e);
    EntryCrossesOneBlock(|v.files[d]|, e);
    assert Overwrite(v.files[d], EncodeDirent(e), |v.files[d]|) == v.files[d] + EncodeDirent(e);
  }

  /** Otherwise nothing happens: what a failed append could use up is what is not there. */
  lemma AddRefused(v: Vol, d: nat, e: Dirent)
    requires d < |v.files| && |e.name| <= NAME_MAX && |v.files[d]| % DIRENT_SIZE == 0
    requires !(Find(Ents(v, d), e.name) == |Ents(v, d)| && |v.files[d]| + DIRENT_SIZE <= FILE_MAX && EntryNeed(|v.files[d]|) <= v.free)
    ensures AddVol(v, d, e).0 == v && AddVol(v, d, e).1 < 0
  {
    EntryCrossesOneBlock(|v.files[d]|, e);
  }

  lemma MoveIsWrite(v: Vol, d: nat, k: nat)
    requires d < |v.files| && k < |Ents(v, d)|
    ensures DIRENT_SIZE * k + DIRENT_SIZE <= |v.files[d]|
    ensures WriteVol(v, d, v.files[d][|v.files[d]| - DIRENT_SIZE..], DIRENT_SIZE * k).0 == MoveVol(v, d, k)
  {
    assert Ents(v, d)[k] == Ents(v, d)[k];
  }

  /** A deletion: the entries with the last one in the place of the one deleted, a block less if one is left empty. */
  lemma RemovePresent(v: Vol, d: nat, name: Name)
    requires d < |v.files| && |v.files[d]| % DIRENT_SIZE == 0 && |v.files[d]| <= FILE_MAX
    requires Find(Ents(v, d), name) < |Ents(v, d)|
    ensures var w := RemoveVol(v, d, name).0;
      && Ents(w, d) == SwapOut(Ents(v, d), Find(Ents(v, d), name))
      && |v.files[d]| >= DIRENT_SIZE && |w.files[d]| == |v.files[d]| - DIRENT_SIZE
      && w == v.(files := v.files[d := w.files[d]], free := v.free + EntryNeed(|v.files[d]| - DIRENT_SIZE))
  {
    var k := Find(Ents(v, d), name);
    var bytes := v.files[d];
    MoveIsWrite(v, d, k);
    var last := bytes[|bytes| - DIRENT_SIZE..];
    assert last == Record(bytes, |bytes| / DIRENT_SIZE - 1);
    hide Entries;
    assert MoveVol(v, d, k) == v.(files := v.files[d := Overwrite(bytes, last, DIRENT_SIZE * k)]);
    assert Overwrite(bytes, last, DIRENT_SIZE * k) == Splice(bytes, DIRENT_SIZE * k, last);
    var w := RemoveVol(v, d, name).0;
    EntriesSwapOut(w.files[d], k, bytes);
    BlocksOfEntry(|bytes| - DIRENT_SIZE);
  }

  lemma BlocksOfEntry(size: nat)
    requires size % DIRENT_SIZE == 0
    ensures Blocks(size + DIRENT_SIZE) - Blocks(size) == EntryNeed(size)
  {
    var q, rest := size / BLOCK_SIZE, size % BLOCK_SIZE;
    assert rest + DIRENT_SIZE <= BLOCK_SIZE by { assert size == BLOCK_SIZE * q + rest; assert rest % DIRENT_SIZE == 0; }
    QuotientIs(size + DIRENT_SIZE + BLOCK_SIZE - 1, q + 1);
    QuotientIs(size + BLOCK_SIZE - 1, if rest == 0 then q else q + 1);
  }

  lemma QuotientIs(a: nat, q: nat)
    requires BLOCK_SIZE * q <= a < BLOCK_SIZE * q + BLOCK_SIZE
    ensures a / BLOCK_SIZE == q
  {
  }

  /** `dirent_add` on the directory as a map: insertion of an absent name, or nothing. */
  lemma AddOnTable(v: Vol, d: nat, e: Dirent)
    requires d < |v.files| && Fits(e) && |v.files[d]| % DIRENT_SIZE == 0 && UniqueNames(Ents(v, d))
    ensures var (w, r) := AddVol(v, d, e);
      && (r == DIRENT_SIZE <==>
            e.name !in Table(Ents(v, d)) && |v.files[d]| + DIRENT_SIZE <= FILE_MAX && EntryNeed(|v.files[d]|) <= v.free)
      && (if r == DIRENT_SIZE then UniqueNames(Ents(w, d)) && Table(Ents(w, d)) == Table(Ents(v, d))[e.name := e] else w == v)
  {
    SearchIsLookup(Ents(v, d), e.name);
    hide AddVol, Table, Entries, Find;
    if e.name !in Table(Ents(v, d)) && |v.files[d]| + DIRENT_SIZE <= FILE_MAX && EntryNeed(|v.files[d]|) <= v.free {
      AddFresh(v, d, e);
      AddIsInsert(Ents(v, d), e);
    } else {
      AddRefused(v, d, e);
    }
  }

  /** `dirent_delete` on the directory as a map: exactly that name goes. */
  lemma RemoveOnTable(v: Vol, d: nat, name: Name)
    requires d < |v.files| && |v.files[d]| % DIRENT_SIZE == 0 && |v.files[d]| <= FILE_MAX && UniqueNames(Ents(v, d))
    ensures var (w, r) := RemoveVol(v, d, name);
      && (r == 0 <==> name in Table(Ents(v, d)))
      && UniqueNames(Ents(w, d)) && Table(Ents(w, d)) == Table(Ents(v, d)) - {name}
      && (r != 0 ==> r == DIRENT_ISNT_EXIST && w == v)
  {
    SearchIsLookup(Ents(v, d), name);
    if name in Table(Ents(v, d)) {
      RemovePresent(v, d, name);
      DeleteIsRemove(Ents(v, d), Find(Ents(v, d), name));
    } else {
      MapWithout(Table(Ents(v, d)), Table(Ents(v, d)), name);
    }
  }

  // ----- path_prase

  /** The outcomes of a path: an entry in a directory; a name missing from a directory; an intermediate component
      that is no directory; an intermediate component that is missing, which leaves the caller asleep on a lock it
      holds itself; and whatever follows a broken directory. */
  datatype Lookup =
    | Present(dir: nat, entry: Dirent)
    | Absent(dir: nat, name: Name)
    | NotADirectory
    | Hangs(dir: nat)
    | Undefined

  function SlashAt(s: seq<Byte>): (k: nat)
    ensures k <= |s| && (k < |s| ==> s[k] == SLASH) && SLASH !in s[..k]
  {
    if s == [] || s[0] == SLASH then 0 else
      var k := SlashAt(s[1..]);
      assert s[..k + 1] == [s[0]] + s[1..][..k];
      1 + k
  }

  /** The components of a path; a trailing slash gives an empty last one. */
  function Split(s: seq<Byte>): (r: seq<Name>)
    ensures r != []
    decreases |s|
  {
    var k := SlashAt(s);
    if k == |s| then [s] else [s[..k]] + Split(s[k + 1..])
  }

  lemma {:induction false} SlashAtFirst(s: seq<Byte>, k: nat)
    requires k <= |s| && SLASH !in s[..k] && (k < |s| ==> s[k] == SLASH)
    ensures SlashAt(s) == k
  {
    var j := SlashAt(s);
    forall x | 0 <= x < k ensures s[x] != SLASH { assert s[..k][x] == s[x]; }
    forall x | 0 <= x < j ensures s[x] != SLASH { assert s[..j][x] == s[x]; }
  }

  /** The recursive resolver: look up every component but the last in the directory the ones before lead to. */
  function Resolve(v: Vol, d: nat, comps: seq<Name>): (l: Lookup)
    requires comps != []
    ensures l.Present? || l.Absent? || l.Hangs? ==> l.dir < |v.files|
    ensures l.Absent? ==> l.name in comps
    decreases |comps|
  {
    if d >= |v.files| then Undefined
    else if |comps| == 1 then Last(v, d, comps[0])
    else
      var k := Find(Ents(v, d), comps[0]);
      if k == |Ents(v, d)| then Hangs(d)
      else if Ents(v, d)[k].ftype != FT_DIR then NotADirectory
      else Resolve(v, Ents(v, d)[k].ino, comps[1..])
  }

  /** The last component; an empty one stands for the first entry. */
  function Last(v: Vol, d: nat, name: Name): Lookup
    requires d < |v.files|
  {
    if name == [] then if Ents(v, d) == [] then Undefined else Present(d, Ents(v, d)[0])
    else
      var k := Find(Ents(v, d), name);
      if k == |Ents(v, d)| then Absent(d, name) else Present(d, Ents(v, d)[k])
  }

  function Lookedup(v: Vol, path: seq<Byte>): (l: Lookup)
    requires path != []
    ensures l.Present? || l.Absent? || l.Hangs? ==> l.dir < |v.files|
    ensures l.Absent? && ShortNames(path) ==> |l.name| <= NAME_MAX
  {
    Resolve(v, 0, Split(path[1..]))
  }

  /** The components fit the 16 bytes of a file name. */
  predicate ShortNames(path: seq<Byte>)
    requires path != []
  {
    forall c | c in Split(path[1..]) :: |c| <= NAME_MAX
  }

  /** The directory `path_prase` leaves open. */
  function Held(v: Vol, l: Lookup): (w: Vol)
    ensures VolShape(v) ==> VolShape(w)
    ensures w.marks == v.marks && w.files == v.files && w.free == v.free
  {
    if (l.Present? || l.Absent? || l.Hangs?) && l.dir < |v.opens| then OpenVol(v, l.dir) else v
  }

  /** The inode locks `path_prase` has when it is done, or when it sleeps. */
  function LocksLeft(l: Lookup): set<nat> {
    if l.Hangs? then {l.dir} else {}
  }

  /** Directories from which lookups stay among directories. */
  ghost predicate Walkable(v: Vol, dirs: set<nat>) {
    VolShape(v) && 0 in dirs && forall d {:trigger Walks(v, dirs, d)} | d in dirs :: Walks(v, dirs, d)
  }

  ghost predicate Walks(v: Vol, dirs: set<nat>, d: nat) {
    && d < |v.files| && d < |v.marks| && v.marks[d] && Ents(v, d) != []
    && forall k {:trigger Ents(v, d)[k]} | 0 <= k < |Ents(v, d)| :: LeadsOn(v, dirs, Ents(v, d)[k])
  }

  predicate LeadsOn(v: Vol, dirs: set<nat>, e: Dirent) {
    (e.ftype == FT_DIR ==> e.ino in dirs) && (e.ftype == FT_REG ==> e.ino < |v.marks| && v.marks[e.ino])
  }

  lemma {:induction false} ResolveStays(v: Vol, dirs: set<nat>, d: nat, comps: seq<Name>)
    requires Walkable(v, dirs) && d in dirs && comps != []
    ensures Resolve(v, d, comps) != Undefined
    ensures var l := Resolve(v, d, comps); l.Present? || l.Absent? || l.Hangs? ==> l.dir in dirs && l.dir < INODE_CNT
    ensures var l := Resolve(v, d, comps); l.Present? ==> l.entry in Ents(v, l.dir)
    ensures var l := Resolve(v, d, comps);
      l.Absent? ==> l.name == comps[|comps| - 1] != [] && Find(Ents(v, l.dir), l.name) == |Ents(v, l.dir)|
    decreases |comps|
  {
    assert Walks(v, dirs, d);
    if |comps| > 1 {
      var k := Find(Ents(v, d), comps[0]);
      if k < |Ents(v, d)| && Ents(v, d)[k].ftype == FT_DIR {
        ResolveStays(v, dirs, Ents(v, d)[k].ino, comps[1..]);
      }
    }
  }

  predicate NoSlash(s: seq<Byte>, from: nat, to: nat) {
    forall k {:trigger s[k]} | from <= k < to && k < |s| :: s[k] != SLASH
  }

  /** A character loop cuts off the first component where it meets a slash. */
  lemma SplitStep(s: seq<Byte>, from: nat, k: nat)
    requires from <= k <= |s| && NoSlash(s, from, k)
    ensures k < |s| && s[k] == SLASH ==> Split(s[from..]) == [s[from..k]] + Split(s[k + 1..])
    ensures k == |s| ==> Split(s[from..]) == [s[from..]]
  {
    var t := s[from..];
    assert t[..k - from] == s[from..k];
    if k == |s| || s[k] == SLASH { SlashAtFirst(t, k - from); }
    if k < |s| { assert t[k - from + 1..] == s[k + 1..]; }
  }

  /** The loop at a slash. */
  lemma StepIn(v: Vol, dirs: set<nat>, path: seq<Byte>, from: nat, idx: nat, ino: nat)
    requires Walkable(v, dirs) && ino in dirs && from <= idx < |path| && path[idx] == SLASH && NoSlash(path, from, idx)
    ensures ino < INODE_CNT
    ensures var es, here := Ents(v, ino), Resolve(v, ino, Split(path[from..]));
      var k := Find(es, path[from..idx]);
      if k == |es| then here == Hangs(ino)
      else if es[k].ftype != FT_DIR then here == NotADirectory
      else here == Resolve(v, es[k].ino, Split(path[idx + 1..])) && es[k].ino in dirs && es[k].ino < INODE_CNT && v.marks[es[k].ino]
  {
    SplitStep(path, from, idx);
    assert Walks(v, dirs, ino);
    var es := Ents(v, ino);
    var k := Find(es, path[from..idx]);
    if k < |es| && es[k].ftype == FT_DIR {
      assert LeadsOn(v, dirs, es[k]);
      assert Walks(v, dirs, es[k].ino);
    }
  }

  /** After the loop. */
  lemma StepLast(v: Vol, dirs: set<nat>, path: seq<Byte>, from: nat, ino: nat)
    requires Walkable(v, dirs) && ino in dirs && from <= |path| && NoSlash(path, from, |path|)
    ensures ino < INODE_CNT && Ents(v, ino) != []
    ensures var es, here := Ents(v, ino), Resolve(v, ino, Split(path[from..]));
      var k := if from == |path| then 0 else Find(es, path[from..]);
      here == if k == |es| then Absent(ino, path[from..]) else Present(ino, es[k])
  {
    SplitStep(path, from, |path|);
    assert Walks(v, dirs, ino);
    assert path[from..|path|] == path[from..];
  }

  // ----- sys_mknod, sys_unlink, sys_mkdir, sys_rmdir

  /** A system call's result, or no result because the task never returns or an ASSERT fails. */
  datatype Ret = Done(code: int) | Hung

  function LeastClear(marks: seq<bool>): (k: nat)
    ensures k <= |marks| && (k < |marks| ==> !marks[k]) && forall j | 0 <= j < k :: marks[j]
  {
    if marks == [] || !marks[0] then 0 else 1 + LeastClear(marks[1..])
  }

  /** `path_prase` did not find a name: what every caller then does. */
  function Refused(l: Lookup): Ret {
    if l.NotADirectory? then Done(DIRENT_ISNT_EXIST) else Hung
  }

  function MknodVol(v: Vol, path: seq<Byte>, ftype: nat, dev: nat): (p: (Vol, Ret))
    requires VolShape(v) && path != [] && ShortNames(path)
    ensures VolShape(p.0)
  {
    if ftype != FT_CHR && ftype != FT_REG then (v, Done(FILE_TYPE_INVALID))
    else
      var l := Lookedup(v, path);
      var w := Held(v, l);
      if l.Present? then (w, Done(DIRENT_ALREADY_EXIST))
      else if l.Absent? then NewEntry(w, l.dir, l.name, ftype, dev)
      else (w, Refused(l))
  }

  /** The part of `sys_mknod` after the lookup: an inode for a regular file, then the entry, else roll back. */
  function NewEntry(v: Vol, d: nat, name: Name, ftype: nat, dev: nat): (p: (Vol, Ret))
    requires VolShape(v) && d < |v.files| && |name| <= NAME_MAX
    ensures VolShape(p.0)
  {
    if ftype == FT_REG then
      var i := LeastClear(v.marks);
      if i == |v.marks| then (v, Done(NO_BIT))
      else
        var (w, r) := AddVol(CreateVol(v, i), d, Dirent(i, name, ftype));
        if r == DIRENT_SIZE then (w, Done(i)) else (DeleteVol(w, i), Done(r))
    else
      var (w, r) := AddVol(v, d, Dirent(dev, name, ftype));
      (w, Done(if r == DIRENT_SIZE then dev else r))
  }

  /** Free the inode, then drop the entry. */
  function DropEntry(v: Vol, d: nat, e: Dirent): (w: Vol)
    requires VolShape(v) && d < |v.files| && e.ino < |v.files|
    ensures VolShape(w)
  {
    RemoveVol(DeleteVol(v, e.ino), d, e.name).0
  }

  predicate InUse(v: Vol, i: nat) {
    VolShape(v) && i < INODE_CNT && (v.marks[i] || v.opens[i] > 0)
  }

  /** A device that is found has a number no inode can have, or that of an inode in use.  For other numbers the code
      goes by an inode table slot that holds whatever was there. */
  predicate DeviceInUse(v: Vol, l: Lookup) {
    l.Present? && l.entry.ftype == FT_CHR ==> l.entry.ino >= INODE_CNT || InUse(v, l.entry.ino)
  }

  function UnlinkVol(v: Vol, path: seq<Byte>): (p: (Vol, Ret))
    requires VolShape(v) && path != [] && DeviceInUse(v, Lookedup(v, path))
    ensures VolShape(p.0)
  {
    var l := Lookedup(v, path);
    var w := Held(v, l);
    if l.Absent? then (w, Done(FILE_ISNT_EXIST))
    else if !l.Present? then (w, Refused(l))
    else if l.entry.ftype == FT_DIR then (w, Done(ISNT_DIR))
    // The ASSERT in fs_bitmap_free.
    else if l.entry.ino >= INODE_CNT then (w, Hung)
    else (DropEntry(w, l.dir, l.entry), Done(0))
  }

  function RmdirVol(v: Vol, path: seq<Byte>): (p: (Vol, Ret))
    requires VolShape(v) && path != []
    ensures VolShape(p.0)
  {
    var l := Lookedup(v, path);
    var w := Held(v, l);
    if l.Absent? then (w, Done(FILE_ISNT_EXIST))
    else if !l.Present? then (w, Refused(l))
    else if l.entry.ftype != FT_DIR then (w, Done(ISNT_DIR))
    else if l.entry.ino >= INODE_CNT then (w, Hung)
    else if |v.files[l.entry.ino]| != 2 * DIRENT_SIZE then (w, Done(DIR_ISNT_EMPTY))
    else (DropEntry(w, l.dir, l.entry), Done(0))
  }

  /** The part of `sys_mkdir` after the second lookup: the entry becomes a directory's, the dots are added. */
  function Promote(v: Vol, d: nat, e: Dirent): (w: Vol)
    requires VolShape(v) && d < |v.files| && |e.name| <= NAME_MAX && e.ino < |v.files|
    ensures VolShape(w)
  {
    AddDots(AddVol(RemoveVol(v, d, e.name).0, d, e.(ftype := FT_DIR)).0, e.ino, d)
  }

  function AddDots(v: Vol, i: nat, d: nat): (w: Vol)
    requires VolShape(v) && i < |v.files|
    ensures VolShape(w)
  {
    AddVol(AddVol(v, i, Dirent(i, DOT, FT_DIR)).0, i, Dirent(d, DOTDOT, FT_DIR)).0
  }

  function MkdirVol(v: Vol, path: seq<Byte>): (p: (Vol, Ret))
    requires VolShape(v) && path != [] && ShortNames(path)
    ensures VolShape(p.0)
  {
    var (v1, r) := MknodVol(v, path, FT_REG, 0);
    if r.Hung? || r.code < 0 then (v1, r)
    else
      var l := Lookedup(v1, path);
      var v2 := Held(v1, l);
      if l.Present? && l.entry.ino < INODE_CNT && |l.entry.name| <= NAME_MAX
      then (Promote(v2, l.dir, l.entry), Done(0))
      else (v2, Hung)
  }
}
