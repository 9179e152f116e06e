/** A missing component in the middle of a path: when exactly, and that the caller never comes back. */
module PathHang {
  import opened FsBytes
  import opened FsDisk
  import opened FsVolume
  import opened Dirents
  import opened DirVolume
  import opened Namespace
  import opened TaskState
  import opened TaskInvariant
  import opened TaskRuns
  import opened TaskLocks

  /** From directory `d` the names `comps` lead through directories to directory `e`. */
  predicate Reaches(v: Vol, d: nat, comps: seq<Name>, e: nat)
    decreases |comps|
  {
    if comps == [] then d == e
    else
      && d < |v.files|
      && var k := Find(Ents(v, d), comps[0]);
      k < |Ents(v, d)| && Ents(v, d)[k].ftype == FT_DIR && Reaches(v, Ents(v, d)[k].ino, comps[1..], e)
  }

  /** The components before `j` lead to directory `e`, which has no entry for component `j`, and that is not the last. */
  predicate MissingAt(v: Vol, d: nat, comps: seq<Name>, j: nat, e: nat) {
    && j + 1 < |comps| && e < |v.files| && Reaches(v, d, comps[..j], e)
    && Find(Ents(v, e), comps[j]) == |Ents(v, e)|
  }

  lemma {:induction false} HangIsMissing(v: Vol, d: nat, comps: seq<Name>, e: nat) returns (j: nat)
    requires comps != [] && Resolve(v, d, comps) == Hangs(e)
    ensures MissingAt(v, d, comps, j, e)
    decreases |comps|
  {
    var k := Find(Ents(v, d), comps[0]);
    if k == |Ents(v, d)| {
      j := 0;
    } else {
      var i := HangIsMissing(v, Ents(v, d)[k].ino, comps[1..], e);
      j := i + 1;
      assert comps[..j][1..] == comps[1..][..i] && comps[..j][0] == comps[0];
    }
  }

  lemma {:induction false} MissingHangs(v: Vol, d: nat, comps: seq<Name>, j: nat, e: nat)
    requires MissingAt(v, d, comps, j, e)
    ensures Resolve(v, d, comps) == Hangs(e)
    decreases |comps|
  {
    if j > 0 {
      assert comps[..j][1..] == comps[1..][..j - 1] && comps[..j][0] == comps[0];
      MissingHangs(v, Ents(v, d)[Find(Ents(v, d), comps[0])].ino, comps[1..], j - 1, e);
    }
  }

  ghost predicate Missing(v: Vol, d: nat, comps: seq<Name>, e: nat) {
    exists j: nat :: MissingAt(v, d, comps, j, e)
  }

  lemma ResolveHangsExactly(v: Vol, d: nat, comps: seq<Name>, e: nat)
    requires comps != []
    ensures Resolve(v, d, comps) == Hangs(e) <==> Missing(v, d, comps, e)
  {
    if Resolve(v, d, comps) == Hangs(e) {
      var j := HangIsMissing(v, d, comps, e);
    }
    if Missing(v, d, comps, e) {
      var j: nat :| MissingAt(v, d, comps, j, e);
      MissingHangs(v, d, comps, j, e);
    }
  }

  /** A lookup hangs, with the lock of directory `e`, exactly if a component that is not the last is missing from `e`
      and those before it lead there. */
  lemma HangsExactly(v: Vol, t: Tree, path: seq<Byte>, e: nat)
    requires NsOk(v, t) && path != []
    ensures Lookedup(v, path) == Hangs(e) <==> Missing(v, 0, Split(path[1..]), e)
    ensures Lookedup(v, path) == Hangs(e) ==> IsDir(t, e) && e < INODE_CNT && v.marks[e]
  {
    hide Resolve, MissingAt, Missing, NsOk, Split;
    NsShape(v, t);
    ResolveHangsExactly(v, 0, Split(path[1..]), e);
    LookupFacts(v, t, path);
  }

  /** The semaphores a program is inside when it has the locks of the inodes in `held`. */
  ghost predicate HasLocks(k: Kernel, t: Tid, held: set<nat>, lock: nat -> Sid) {
    forall i | i in held :: Inside(k, lock(i), t)
  }

  /** In the kernel: a path with a missing component, and a program that has the locks `path_prase` leaves it and calls
      `inode_close`, whose first step is to take the lock of `e`.  In no later state of the run is it past that step. */
  lemma HangsForever(v: Vol, t: Tree, path: seq<Byte>, e: nat, ks: seq<Kernel>, es: seq<Event>, i: nat, j: nat,
                     lock: nat -> Sid)
    requires NsOk(v, t) && path != [] && Missing(v, 0, Split(path[1..]), e)
    requires Run(ks, es) && |ks| == |es| + 1 && i < j < |ks|
    requires HasLocks(ks[i], ks[i].cpu, LocksLeft(Lookedup(v, path)), lock) && es[i] == DownE(lock(e))
    ensures SelfLocked(ks[j], lock(e), ks[i].cpu)
    ensures ks[i].cpu in ks[j].tasks && ks[j].tasks[ks[i].cpu].resume == Retest(lock(e))
  {
    HangsExactly(v, t, path, e);
    assert e in LocksLeft(Lookedup(v, path));
    SelfDownNeverReturns(ks, es, i, j, lock(e));
  }
}
