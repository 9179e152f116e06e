/** Whole runs of system calls on names, and what the tree means for paths. */
module NamespaceRuns {
  import opened FsBytes
  import opened FsDisk
  import opened FsVolume
  import opened Dirents
  import opened DirVolume
  import opened Namespace
  import opened NamespaceOps
  import opened RootVolume

  datatype Call =
    | Mknod(path: seq<Byte>, ftype: nat, dev: nat)
    | Unlink(path: seq<Byte>)
    | Mkdir(path: seq<Byte>)
    | Rmdir(path: seq<Byte>)
    | WriteFile(ino: nat, buf: seq<Byte>, offset: nat)
    // sys_open, sys_close and sys_stat change open counts and nothing else.
    | Counts(opens: seq<nat>)

  /** The path leads to a regular file with inode `i`. */
  predicate LeadsToFile(v: Vol, path: seq<Byte>, i: nat) {
    path != [] && var l := Lookedup(v, path); l.Present? && l.entry.ftype == FT_REG && l.entry.ino == i
  }

  /** What a program can ask for, in any volume: names that fit, and writes up to the end of a regular file that has a
      path.  Not the removal of a device for which an inode not in use would be taken. */
  ghost predicate Callable(v: Vol, c: Call) {
    && VolShape(v)
    && match c
    case Mknod(path, _, dev) => PathOk(path) && dev < WORD_MAX
    case Unlink(path) => path != [] && DeviceInUse(v, Lookedup(v, path))
    case Mkdir(path) => PathOk(path)
    case Rmdir(path) => path != []
    case WriteFile(i, buf, offset) =>
      i < INODE_CNT && buf != [] && offset <= |v.files[i]| && exists path :: LeadsToFile(v, path, i)
    case Counts(opens) => |opens| == INODE_CNT
  }

  function Step(v: Vol, c: Call): Vol
    requires Callable(v, c)
  {
    match c
    case Mknod(path, ftype, dev) => MknodVol(v, path, ftype, dev).0
    case Unlink(path) => UnlinkVol(v, path).0
    case Mkdir(path) => MkdirVol(v, path).0
    case Rmdir(path) => RmdirVol(v, path).0
    case WriteFile(i, buf, offset) => WriteVol(v, i, buf, offset).0
    case Counts(opens) => v.(opens := opens)
  }

  /** The path leads to a directory with nothing but the dots in it. */
  predicate EmptyDirectory(v: Vol, path: seq<Byte>)
    requires path != []
  {
    var l := Lookedup(v, path);
    l.Present? && l.entry.ftype == FT_DIR && l.entry.ino < |v.files| && |v.files[l.entry.ino]| == 2 * DIRENT_SIZE
  }

  /** None of the three calls that leave names astray: the removal of a device with the number of a marked inode, the
      removal of an empty directory by way of a dot, the making of a directory without a block for its dots. */
  predicate Safe(v: Vol, c: Call)
    requires VolShape(v)
  {
    match c
    case Unlink(path) => path != [] ==> !NamesakeDevice(v, path)
    case Mkdir(path) => path != [] && MknodFits(v, path, FT_REG) ==> MkdirFits(v, path)
    case Rmdir(path) => path != [] && EmptyDirectory(v, path) ==> !EndsInDot(path)
    case _ => true
  }

  /** One call, from a consistent volume. */
  lemma StepKeepsExactly(v: Vol, t: Tree, c: Call)
    requires NsOk(v, t) && Callable(v, c)
    ensures Consistent(Step(v, c)) <==> Safe(v, c)
  {
    match c
    case Mknod(path, ftype, dev) => var t' := MknodKeeps(v, t, path, ftype, dev);
    case Unlink(path) => UnlinkKeepsExactly(v, t, path);
    case Mkdir(path) => MkdirStep(v, t, path);
    case Rmdir(path) => RmdirStep(v, t, path);
    case WriteFile(i, buf, offset) => WriteStep(v, t, i, buf, offset);
    case Counts(opens) => OpensKeep(v, Step(v, c), t);
  }

  lemma MkdirStep(v: Vol, t: Tree, path: seq<Byte>)
    requires NsOk(v, t) && VolShape(v) && PathOk(path)
    ensures Consistent(MkdirVol(v, path).0) <==> (MknodFits(v, path, FT_REG) ==> MkdirFits(v, path))
  {
    hide NsOk, MkdirVol, Lookedup;
    MkdirOutcome(v, t, path);
    if MknodFits(v, path, FT_REG) {
      MkdirKeepsExactly(v, t, path);
    } else {
      var t' := MkdirKeeps(v, t, path);
    }
  }

  lemma RmdirStep(v: Vol, t: Tree, path: seq<Byte>)
    requires NsOk(v, t) && VolShape(v) && path != []
    ensures Consistent(RmdirVol(v, path).0) <==> (EmptyDirectory(v, path) ==> !EndsInDot(path))
  {
    var l := Lookedup(v, path);
    LookupFacts(v, t, path);
    HeldKeeps(v, t, l);
    hide NsOk, Lookedup, EndsInDot, DropEntry;
    if RmdirVol(v, path).1 == Done(0) {
      RmdirKeepsExactly(v, t, path);
    } else {
      if l.Present? && l.entry.ftype == FT_DIR { DirEntryInRange(v, t, l.dir, l.entry); }
      assert RmdirVol(v, path).0 == Held(v, l);
    }
  }

  lemma DirEntryInRange(v: Vol, t: Tree, d: nat, e: Dirent)
    requires NsOk(v, t) && IsDir(t, d) && EntryOk(t, d, e) && e.ftype == FT_DIR && d < INODE_CNT && e in Ents(v, d)
    ensures VolShape(v) && e.ino < INODE_CNT
  {
    EntryLeadsOn(v, t, d, e);
  }

  lemma WriteStep(v: Vol, t: Tree, i: nat, buf: seq<Byte>, offset: nat)
    requires NsOk(v, t) && Callable(v, WriteFile(i, buf, offset))
    ensures NsOk(WriteVol(v, i, buf, offset).0, t)
  {
    var path :| LeadsToFile(v, path, i);
    LookupFacts(v, t, path);
    WriteKeeps(v, WriteVol(v, i, buf, offset).0, t, i);
  }

  // ----- runs

  /** A run from a formatted disk: any calls, one after another. */
  ghost predicate Run(vs: seq<Vol>, cs: seq<Call>) {
    && |vs| == |cs| + 1
    && (exists blocks: nat | blocks > RESERVED :: vs[0] == RootVol(blocks))
    && forall k {:trigger StepAt(vs, cs, k)} | 0 <= k < |cs| :: StepAt(vs, cs, k)
  }

  ghost predicate StepAt(vs: seq<Vol>, cs: seq<Call>, k: nat)
    requires k < |cs| && k + 1 < |vs|
  {
    Callable(vs[k], cs[k]) && vs[k + 1] == Step(vs[k], cs[k])
  }

  ghost predicate ConsistentAt(vs: seq<Vol>, k: nat)
    requires k < |vs|
  {
    Consistent(vs[k])
  }

  predicate SafeAt(vs: seq<Vol>, cs: seq<Call>, k: nat)
    requires k < |vs| && k < |cs|
  {
    VolShape(vs[k]) && Safe(vs[k], cs[k])
  }

  ghost predicate Consistents(vs: seq<Vol>, n: nat)
    requires n < |vs|
  {
    forall k {:trigger ConsistentAt(vs, k)} | 0 <= k <= n :: ConsistentAt(vs, k)
  }

  ghost predicate Safes(vs: seq<Vol>, cs: seq<Call>, n: nat)
    requires n <= |cs| && n < |vs|
  {
    forall k {:trigger SafeAt(vs, cs, k)} | 0 <= k < n :: SafeAt(vs, cs, k)
  }

  /** The names are a tree in every state of a run exactly if none of its calls was one of the three that break it. */
  lemma {:induction false} RunKeepsTreeExactly(vs: seq<Vol>, cs: seq<Call>, n: nat)
    requires Run(vs, cs) && n < |vs|
    ensures Consistents(vs, n) <==> Safes(vs, cs, n)
  {
    hide Callable, Step, Safe, NsOk;
    if n == 0 {
      var blocks: nat :| blocks > RESERVED && vs[0] == RootVol(blocks);
      RootConsistent(blocks);
    } else {
      RunKeepsTreeExactly(vs, cs, n - 1);
      assert StepAt(vs, cs, n - 1);
      assert Consistents(vs, n) <==> Consistents(vs, n - 1) && ConsistentAt(vs, n);
      assert Safes(vs, cs, n) <==> Safes(vs, cs, n - 1) && SafeAt(vs, cs, n - 1);
      if Consistents(vs, n - 1) {
        assert ConsistentAt(vs, n - 1);
        var t :| NsOk(vs[n - 1], t);
        NsShape(vs[n - 1], t);
        StepKeepsExactly(vs[n - 1], t, cs[n - 1]);
      }
    }
  }

  // ----- a file has one path

  /** The names from the root to inode `i`. */
  function PathTo(t: Tree, i: nat): seq<Name>
    decreases DepthOf(t, i)
  {
    if i in t && DepthOf(t, t[i].parent) < t[i].depth then PathTo(t, t[i].parent) + [t[i].name] else []
  }

  predicate NoDots(comps: seq<Name>) {
    forall c | c in comps :: c != [] && !IsDot(c)
  }

  lemma {:induction false} ResolveSnoc(v: Vol, d: nat, comps: seq<Name>, last: Name, p: nat, e: Dirent)
    requires comps != [] && NoDots(comps) && Resolve(v, d, comps) == Present(p, e) && e.ftype == FT_DIR
    ensures Resolve(v, d, comps + [last]) == Resolve(v, e.ino, [last])
    decreases |comps|
  {
    var all := comps + [last];
    assert comps[0] in comps;
    if |comps| == 1 {
      assert all[1..] == [last];
    } else {
      assert all[1..] == comps[1..] + [last];
      assert forall c | c in comps[1..] :: c in comps;
      ResolveSnoc(v, Ents(v, d)[Find(Ents(v, d), comps[0])].ino, comps[1..], last, p, e);
    }
  }

  /** Every marked inode is found at the end of its path. */
  lemma {:induction false} PathLeadsThere(v: Vol, t: Tree, i: nat)
    requires NsOk(v, t) && i in t
    ensures i < INODE_CNT && PathTo(t, i) != [] && NoDots(PathTo(t, i))
    ensures Resolve(v, 0, PathTo(t, i)) == Present(t[i].parent, Dirent(i, t[i].name, TypeOf(t[i].isDir)))
    decreases DepthOf(t, i)
  {
    NameAt(v, t, i);
    var p := t[i].parent;
    if p in t {
      PathLeadsThere(v, t, p);
      ResolveSnoc(v, 0, PathTo(t, p), t[i].name, t[p].parent, Dirent(p, t[p].name, FT_DIR));
      assert PathTo(t, i) == PathTo(t, p) + [t[i].name];
    } else {
      assert PathTo(t, p) == [];
      assert PathTo(t, i) == [t[i].name];
    }
  }

  lemma FirstStep(v: Vol, d: nat, comps: seq<Name>, p: nat, e: Dirent)
    requires comps != [] && NoDots(comps) && d < |v.files| && Resolve(v, d, comps) == Present(p, e)
    ensures Find(Ents(v, d), comps[0]) < |Ents(v, d)|
    ensures var x := Ents(v, d)[Find(Ents(v, d), comps[0])];
      if |comps| == 1 then x == e else x.ftype == FT_DIR && Resolve(v, x.ino, comps[1..]) == Present(p, e)
  {
    assert comps[0] in comps;
  }

  /** And by no other path without dots: the names below a directory `d` are the rest of the path. */
  lemma {:induction false} PathIsUnique(v: Vol, t: Tree, d: nat, comps: seq<Name>, p: nat, e: Dirent)
    requires NsOk(v, t) && IsDir(t, d) && comps != [] && NoDots(comps) && Resolve(v, d, comps) == Present(p, e)
    requires e.ftype == FT_DIR || e.ftype == FT_REG
    ensures e.ino in t && PathTo(t, e.ino) == PathTo(t, d) + comps
    decreases |comps|
  {
    hide *;
    var x := PathStep(v, t, d, comps, p, e);
    if |comps| == 1 {
      assert comps == [comps[0]];
    } else {
      PathIsUnique(v, t, x.ino, comps[1..], p, e);
      assert comps == [comps[0]] + comps[1..];
    }
  }

  lemma PathStep(v: Vol, t: Tree, d: nat, comps: seq<Name>, p: nat, e: Dirent) returns (x: Dirent)
    requires NsOk(v, t) && IsDir(t, d) && comps != [] && NoDots(comps) && Resolve(v, d, comps) == Present(p, e)
    requires e.ftype == FT_DIR || e.ftype == FT_REG
    ensures x.ino in t && PathTo(t, x.ino) == PathTo(t, d) + [comps[0]]
    ensures if |comps| == 1 then x == e
            else IsDir(t, x.ino) && NoDots(comps[1..]) && Resolve(v, x.ino, comps[1..]) == Present(p, e)
  {
    DirFacts(v, t, d);
    FirstStep(v, d, comps, p, e);
    x := Ents(v, d)[Find(Ents(v, d), comps[0])];
    assert x in Ents(v, d);
    TailNoDots(comps);
    ChildPath(v, t, d, x);
  }

  lemma TailNoDots(comps: seq<Name>)
    requires NoDots(comps) && comps != []
    ensures NoDots(comps[1..]) && !IsDot(comps[0])
  {
    assert comps[0] in comps;
  }

  lemma ChildPath(v: Vol, t: Tree, d: nat, x: Dirent)
    requires NsOk(v, t) && IsDir(t, d) && d < INODE_CNT && x in Ents(v, d) && !IsDot(x.name)
    requires x.ftype == FT_DIR || x.ftype == FT_REG
    ensures x.ino in t && PathTo(t, x.ino) == PathTo(t, d) + [x.name]
    ensures x.ftype == FT_DIR ==> IsDir(t, x.ino)
  {
    EntryLeadsOn(v, t, d, x);
    EntryIsLink(v, t, d, x);
    assert LinkOk(v, t, x.ino);
  }

  /** Names and marked inodes: a path without dots finds inode `i` exactly if it is the path of `i`. */
  lemma OnePathEach(v: Vol, t: Tree, i: nat, comps: seq<Name>)
    requires NsOk(v, t) && i in t && comps != [] && NoDots(comps)
    ensures comps == PathTo(t, i) <==>
            var l := Resolve(v, 0, comps); l.Present? && l.entry.ino == i && (l.entry.ftype == FT_DIR || l.entry.ftype == FT_REG)
  {
    PathLeadsThere(v, t, i);
    var l := Resolve(v, 0, comps);
    if l.Present? && (l.entry.ftype == FT_DIR || l.entry.ftype == FT_REG) {
      PathIsUnique(v, t, 0, comps, l.dir, l.entry);
      assert PathTo(t, 0) == [] && [] + comps == comps;
    }
  }

  /** The names `comps`, none of them a dot, lead to a file or directory with inode `i`. */
  predicate IsNameOf(v: Vol, comps: seq<Name>, i: nat) {
    comps != [] && NoDots(comps)
    && var l := Resolve(v, 0, comps); l.Present? && l.entry.ino == i && (l.entry.ftype == FT_DIR || l.entry.ftype == FT_REG)
  }

  /** In every state of a run of safe calls the marked inodes are exactly the root and those with a name, and each
      of them has one name. */
  lemma RunNamesExactly(vs: seq<Vol>, cs: seq<Call>, n: nat, i: nat)
    requires Run(vs, cs) && n < |vs| && Safes(vs, cs, n) && i < INODE_CNT
    ensures VolShape(vs[n]) && (vs[n].marks[i] <==> i == 0 || exists comps :: IsNameOf(vs[n], comps, i))
    ensures forall a, b | IsNameOf(vs[n], a, i) && IsNameOf(vs[n], b, i) :: a == b
  {
    hide Run, Safes, NsOk;
    RunKeepsTreeExactly(vs, cs, n);
    assert ConsistentAt(vs, n);
    var t :| NsOk(vs[n], t);
    NsShape(vs[n], t);
    NamesOfTree(vs[n], t, i);
  }

  lemma NamesOfTree(v: Vol, t: Tree, i: nat)
    requires NsOk(v, t) && VolShape(v) && i < INODE_CNT
    ensures v.marks[i] <==> i == 0 || exists comps :: IsNameOf(v, comps, i)
    ensures forall a, b | IsNameOf(v, a, i) && IsNameOf(v, b, i) :: a == b
  {
    MarkedIsListed(v, t, i);
    hide NsOk, PathTo;
    if i in t {
      PathLeadsThere(v, t, i);
      assert IsNameOf(v, PathTo(t, i), i);
    }
    forall a | IsNameOf(v, a, i) ensures i in t && a == PathTo(t, i) {
      var l := Resolve(v, 0, a);
      PathIsUnique(v, t, 0, a, l.dir, l.entry);
      OnePathEach(v, t, i, a);
    }
  }

  lemma MarkedIsListed(v: Vol, t: Tree, i: nat)
    requires NsOk(v, t) && VolShape(v) && i < INODE_CNT
    ensures v.marks[i] <==> i == 0 || i in t
  {
    assert MarkOk(v, t, i);
    if i in t { assert LinkOk(v, t, i); }
  }
}
