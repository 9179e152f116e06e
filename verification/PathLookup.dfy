/** What a path leads to, by walking it: both directions of every outcome of a lookup. */
module PathLookup {
  import opened FsBytes
  import opened FsVolume
  import opened Dirents
  import opened DirVolume
  import opened Namespace
  import opened PathHang

  // ----- components

  function Join(comps: seq<Name>): seq<Byte>
    requires comps != []
  {
    if |comps| == 1 then comps[0] else comps[0] + [SLASH] + Join(comps[1..])
  }

  lemma {:induction false} SplitJoins(s: seq<Byte>)
    ensures Join(Split(s)) == s
    decreases |s|
  {
    var k := SlashAt(s);
    if k < |s| {
      SplitJoins(s[k + 1..]);
      assert Split(s)[1..] == Split(s[k + 1..]);
      assert s == s[..k] + [SLASH] + s[k + 1..];
    }
  }

  /** Components are what stands between slashes, and nothing else: splitting and joining are inverses. */
  lemma {:induction false} JoinSplits(comps: seq<Name>)
    requires comps != [] && forall c | c in comps :: SLASH !in c
    ensures Split(Join(comps)) == comps
    decreases |comps|
  {
    var s := Join(comps);
    assert comps[0] in comps;
    if |comps| == 1 {
      assert s[..|s|] == s;
      SlashAtFirst(s, |s|);
    } else {
      assert s[..|comps[0]|] == comps[0];
      SlashAtFirst(s, |comps[0]|);
      JoinSplits(comps[1..]);
      assert s[|comps[0]| + 1..] == Join(comps[1..]);
    }
  }

  // ----- what a path finds

  function Init(comps: seq<Name>): seq<Name>
    requires comps != []
  {
    comps[..|comps| - 1]
  }

  function Final(comps: seq<Name>): Name
    requires comps != []
  {
    comps[|comps| - 1]
  }

  lemma {:induction false} ResolveEnds(v: Vol, d: nat, comps: seq<Name>)
    requires comps != []
    ensures var l := Resolve(v, d, comps);
      l.Present? || l.Absent? ==> l.dir < |v.files| && Reaches(v, d, Init(comps), l.dir) && l == Last(v, l.dir, Final(comps))
    decreases |comps|
  {
    if |comps| > 1 && d < |v.files| {
      var k := Find(Ents(v, d), comps[0]);
      if k < |Ents(v, d)| {
        ResolveEnds(v, Ents(v, d)[k].ino, comps[1..]);
        assert Init(comps)[1..] == Init(comps[1..]);
      }
    }
  }

  lemma {:induction false} ReachedResolves(v: Vol, d: nat, comps: seq<Name>, e: nat)
    requires comps != [] && e < |v.files| && Reaches(v, d, Init(comps), e)
    ensures Resolve(v, d, comps) == Last(v, e, Final(comps))
    decreases |comps|
  {
    if |comps| > 1 {
      assert Init(comps)[1..] == Init(comps[1..]);
      ReachedResolves(v, Ents(v, d)[Find(Ents(v, d), comps[0])].ino, comps[1..], e);
    }
  }

  /** The components before `j` lead to directory `e`, where component `j`, which is not the last, is no directory. */
  predicate BlockedAt(v: Vol, d: nat, comps: seq<Name>, j: nat, e: nat) {
    && j + 1 < |comps| && e < |v.files| && Reaches(v, d, comps[..j], e)
    && var k := Find(Ents(v, e), comps[j]);
    k < |Ents(v, e)| && Ents(v, e)[k].ftype != FT_DIR
  }

  ghost predicate Blocked(v: Vol, d: nat, comps: seq<Name>) {
    exists j: nat, e: nat :: BlockedAt(v, d, comps, j, e)
  }

  lemma {:induction false} BlockedResolves(v: Vol, d: nat, comps: seq<Name>, j: nat, e: nat)
    requires BlockedAt(v, d, comps, j, e)
    ensures Resolve(v, d, comps) == NotADirectory
    decreases |comps|
  {
    if j > 0 {
      assert comps[..j][1..] == comps[1..][..j - 1] && comps[..j][0] == comps[0];
      BlockedResolves(v, Ents(v, d)[Find(Ents(v, d), comps[0])].ino, comps[1..], j - 1, e);
    }
  }

  lemma {:induction false} ResolveBlocked(v: Vol, d: nat, comps: seq<Name>) returns (j: nat, e: nat)
    requires comps != [] && Resolve(v, d, comps) == NotADirectory
    ensures BlockedAt(v, d, comps, j, e)
    decreases |comps|
  {
    j, e := 0, d;
    var k := Find(Ents(v, d), comps[0]);
    if Ents(v, d)[k].ftype == FT_DIR {
      j, e := ResolveBlocked(v, Ents(v, d)[k].ino, comps[1..]);
      j := j + 1;
      assert comps[..j][1..] == comps[1..][..j - 1] && comps[..j][0] == comps[0];
    }
  }

  /** All components but the last lead to directory `d`. */
  predicate LeadsInto(v: Vol, path: seq<Byte>, d: nat)
    requires path != []
  {
    d < |v.files| && Reaches(v, 0, Init(Split(path[1..])), d)
  }

  /** The entry of `d` that a last component stands for: the one with this name, or the first for an empty one. */
  predicate StandsFor(v: Vol, d: nat, name: Name, e: Dirent)
    requires d < |v.files|
  {
    if name == [] then Ents(v, d) != [] && e == Ents(v, d)[0] else e in Ents(v, d) && e.name == name
  }

  predicate NoneNamed(v: Vol, d: nat, name: Name)
    requires d < |v.files|
  {
    forall e | e in Ents(v, d) :: e.name != name
  }

  lemma ReachesDir(v: Vol, t: Tree, d: nat, comps: seq<Name>, e: nat)
    requires NsOk(v, t) && IsDir(t, d) && Reaches(v, d, comps, e)
    ensures IsDir(t, e)
    decreases |comps|
  {
    if comps != [] {
      var x := Ents(v, d)[Find(Ents(v, d), comps[0])];
      EntryLeadsOn(v, t, d, x);
      ReachesDir(v, t, x.ino, comps[1..], e);
    }
  }

  lemma LastExactly(v: Vol, t: Tree, d: nat, name: Name, e: Dirent)
    requires NsOk(v, t) && IsDir(t, d) && d < |v.files|
    ensures Last(v, d, name) == Present(d, e) <==> StandsFor(v, d, name, e)
    ensures Last(v, d, name) == Absent(d, name) <==> name != [] && NoneNamed(v, d, name)
  {
    DirFacts(v, t, d);
    var es := Ents(v, d);
    if e in es && e.name == name {
      var k :| 0 <= k < |es| && es[k] == e;
      FindUnique(es, k);
    }
    if Find(es, name) < |es| { assert es[Find(es, name)] in es; }
    if Find(es, name) == |es| {
      forall x | x in es ensures x.name != name { var k :| 0 <= k < |es| && es[k] == x; }
    }
  }

  /** What a path leads to, by walking: an entry, a missing last name, or nothing for a component that is no directory
      (for one that is missing see `HangsExactly`). */
  lemma LookupExactly(v: Vol, t: Tree, path: seq<Byte>, d: nat, e: Dirent)
    requires NsOk(v, t) && path != []
    ensures Lookedup(v, path) == Present(d, e) <==> LeadsInto(v, path, d) && StandsFor(v, d, Final(Split(path[1..])), e)
    ensures forall name :: Lookedup(v, path) == Absent(d, name) <==>
              LeadsInto(v, path, d) && name == Final(Split(path[1..])) && name != [] && NoneNamed(v, d, name)
    ensures Lookedup(v, path) == NotADirectory <==> Blocked(v, 0, Split(path[1..]))
  {
    hide NsOk, Resolve, BlockedAt, StandsFor, NoneNamed, Last, Reaches;
    var comps := Split(path[1..]);
    ResolveEnds(v, 0, comps);
    if LeadsInto(v, path, d) {
      ReachedResolves(v, 0, comps, d);
      ReachesDir(v, t, 0, Init(comps), d);
      LastExactly(v, t, d, Final(comps), e);
      LastKind(v, d, Final(comps));
    }
    if Lookedup(v, path) == NotADirectory { var j, x := ResolveBlocked(v, 0, comps); }
    if Blocked(v, 0, comps) {
      var j: nat, x: nat :| BlockedAt(v, 0, comps, j, x);
      BlockedResolves(v, 0, comps, j, x);
    }
  }

  lemma LastKind(v: Vol, d: nat, name: Name)
    requires d < |v.files|
    ensures var l := Last(v, d, name);
      (l.Present? || l.Absent? ==> l.dir == d) && (l.Absent? ==> l.name == name)
  {
  }
}
