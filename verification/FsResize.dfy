/** What `inode_size_change` may do, and what every outcome keeps. */
module FsResize {
  import opened FsBytes
  import opened FsDisk
  import opened FsState
  import opened FsSteps
  import opened FsContent

  // -NO_BIT_IN_FS_BTMP and -FILE_SIZE_TOO_BIG
  const NO_BIT: int := -1
  const TOO_BIG: int := -2

  /** The outcomes of `inode_size_change`. */
  ghost predicate Resized(f: Fs, f': Fs, i: nat, size: nat, r: int) {
    i < |f.m.slots| && IsOpen(f.open, i) &&
    if size > FILE_MAX then r == TOO_BIG && f' == f
    else if Blocks(size) < Blocks(Eff(f, i).size) then
      r == 0 && Blocks(Eff(f, i).size) <= |Eff(f, i).direct| && f' == Shrunk(f, i, size)
    else if r == 0 then exists news :: Grows(f, f', i, size, news)
    else r == NO_BIT && exists news :: Stops(f, f', i, size, news)
  }

  ghost predicate Grows(f: Fs, f': Fs, i: nat, size: nat, news: seq<nat>) {
    CanTake(f, i, news) && Blocks(size) == Blocks(Eff(f, i).size) + |news| && f' == Grown(f, i, news, size)
  }

  ghost predicate Stops(f: Fs, f': Fs, i: nat, size: nat, news: seq<nat>) {
    && CanTake(f, i, news) && Blocks(size) > Blocks(Eff(f, i).size) + |news| && f' == Partial(f, i, news)
    && AllMarked(f')
  }

  ghost predicate AllMarked(f: Fs) {
    forall b {:trigger f.m.marks[b]} | 0 <= b < |f.m.marks| :: f.m.marks[b]
  }

  // ----- what stays

  predicate SameCounts(a: seq<OpenInode>, b: seq<OpenInode>) {
    |a| == |b| && forall k {:trigger a[k]} {:trigger b[k]} | 0 <= k < |a| :: a[k].ino == b[k].ino && a[k].cnt == b[k].cnt
  }

  /** No inode was created, deleted, opened or closed. */
  ghost predicate Kept(f: Fs, f': Fs) {
    f'.lay == f.lay && f'.known == f.known && f'.m.imarks == f.m.imarks && SameCounts(f.open, f'.open)
  }

  lemma KeptOpen(f: Fs, f': Fs, i: nat)
    requires Kept(f, f')
    ensures OpenIdx(f'.open, i) == OpenIdx(f.open, i) && IsOpen(f'.open, i) == IsOpen(f.open, i)
  {
    OpenIdxFrame(f.open, f'.open, i);
  }

  lemma KeptExact(f: Fs, f': Fs)
    requires Kept(f, f') && Exact(f)
    ensures Exact(f')
  {
    forall i | i in f'.known ensures i < |f'.m.imarks| && (f'.m.imarks[i] || IsOpen(f'.open, i)) {
      assert i in f.known;
      KeptOpen(f, f', i);
    }
  }

  lemma ResizedKept(f: Fs, f': Fs, i: nat, size: nat, r: int)
    requires Resized(f, f', i, size, r)
    ensures Kept(f, f') && f'.m.data == f.m.data
  {
    if size <= FILE_MAX {
      if Blocks(size) < Blocks(Eff(f, i).size) {
        EffShrunk(f, i, size, i);
      } else if r == 0 {
        var news :| Grows(f, f', i, size, news);
        GrownKept(f, i, news, size);
      } else {
        var news :| Stops(f, f', i, size, news);
        PartialKept(f, i, news);
      }
    }
  }

  lemma PartialKept(f: Fs, i: nat, news: seq<nat>)
    requires IsOpen(f.open, i) && i < |f.m.slots|
    ensures Kept(f, Partial(f, i, news)) && Partial(f, i, news).m.data == f.m.data
  {
  }

  lemma GrownKept(f: Fs, i: nat, news: seq<nat>, size: nat)
    requires IsOpen(f.open, i) && i < |f.m.slots|
    ensures Kept(f, Grown(f, i, news, size)) && Grown(f, i, news, size).m.data == f.m.data
  {
    EffPartial(f, i, news, i);
    PartialKept(f, i, news);
    var p := Partial(f, i, news);
    assert SameCounts(p.open, Stored(p, i, size).open);
  }

  /** Ownership survives every outcome, also a grow that fails half-way. */
  lemma ResizedInv(f: Fs, f': Fs, i: nat, size: nat, r: int)
    requires Inv(f) && i in f.known && Resized(f, f', i, size, r)
    ensures Inv(f')
  {
    if size <= FILE_MAX {
      if Blocks(size) < Blocks(Eff(f, i).size) {
        SmallerSize(size, Eff(f, i).size);
        ShrunkInv(f, i, size);
      } else if r == 0 {
        var news :| Grows(f, f', i, size, news);
        GrownInv(f, i, news, size);
      } else {
        var news :| Stops(f, f', i, size, news);
        PartialInv(f, i, news);
      }
    }
  }

  lemma SmallerSize(a: nat, b: nat)
    requires Blocks(a) < Blocks(b)
    ensures a < b
  {
  }

  /** The new contents of the resized file: cut or extended, and untouched if the call fails. */
  ghost predicate Cut(was: seq<Byte>, now: seq<Byte>, size: nat) {
    |now| == size && forall k {:trigger now[k]} | 0 <= k < size && k < |was| :: now[k] == was[k]
  }

  lemma ResizedContent(f: Fs, f': Fs, i: nat, size: nat, r: int, j: nat)
    requires Inv(f) && i in f.known && Resized(f, f', i, size, r) && j < INODE_CNT
    ensures |f'.m.slots| == |f.m.slots|
    ensures j != i || r < 0 ==> Content(f', j) == Content(f, j)
    ensures j == i && r == 0 ==> Cut(Content(f, i), Content(f', i), size)
  {
    if size <= FILE_MAX {
      if Blocks(size) < Blocks(Eff(f, i).size) {
        SmallerSize(size, Eff(f, i).size);
        ShrunkContent(f, i, size, j);
      } else if r == 0 {
        var news :| Grows(f, f', i, size, news);
        GrownContent(f, i, news, size, j);
        if j == i {
          var n := if size < Eff(f, i).size then size else Eff(f, i).size;
          assert Content(f', i)[..n] == Content(f, i)[..n];
          forall k | 0 <= k < size && k < |Content(f, i)| ensures Content(f', i)[k] == Content(f, i)[k] {
            assert Content(f', i)[..n][k] == Content(f, i)[..n][k];
          }
        }
      } else {
        var news :| Stops(f, f', i, size, news);
        PartialContent(f, i, news, j);
      }
    }
  }

  // ----- the open object and its slot

  ghost predicate Agrees(f: Fs, i: nat)
    requires i < |f.m.slots|
  {
    SameInode(Eff(f, i), f.m.slots[i])
  }

  lemma StoredAgrees(f: Fs, i: nat, size: nat, j: nat)
    requires IsOpen(f.open, i) && i < |f.m.slots| && j < |f.m.slots|
    requires j == i || Agrees(f, j)
    ensures Agrees(Stored(f, i, size), j)
  {
    EffStored(f, i, size, j);
  }

  lemma PartialAgrees(f: Fs, i: nat, news: seq<nat>, j: nat)
    requires IsOpen(f.open, i) && i < |f.m.slots| && j < |f.m.slots| && Agrees(f, j)
    ensures Agrees(Partial(f, i, news), j)
  {
    EffPartial(f, i, news, j);
  }

  lemma ResizedAgrees(f: Fs, f': Fs, i: nat, size: nat, r: int, j: nat)
    requires Resized(f, f', i, size, r) && j < |f.m.slots|
    requires Agrees(f, j) || (j == i && r == 0)
    ensures |f'.m.slots| == |f.m.slots| && Agrees(f', j)
  {
    if size <= FILE_MAX {
      if Blocks(size) < Blocks(Eff(f, i).size) {
        StoredAgrees(f, i, size, j);
        EffShrunk(f, i, size, j);
        EffStored(f, i, size, j);
      } else if r == 0 {
        var news :| Grows(f, f', i, size, news);
        EffPartial(f, i, news, i);
        EffPartial(f, i, news, j);
        EffGrown(f, i, news, size, j);
        GrownSlots(f, i, news, size, j);
      } else {
        var news :| Stops(f, f', i, size, news);
        PartialAgrees(f, i, news, j);
      }
    }
  }

  lemma GrownSlots(f: Fs, i: nat, news: seq<nat>, size: nat, j: nat)
    requires IsOpen(f.open, i) && i < |f.m.slots| && j < |f.m.slots|
    ensures var f' := Grown(f, i, news, size);
      |f'.m.slots| == |f.m.slots| && f'.m.slots[j] == if j == i then Eff(f', i) else f.m.slots[j]
  {
    EffPartial(f, i, news, i);
    EffStored(Partial(f, i, news), i, size, i);
    EffGrown(f, i, news, size, i);
  }

  /** An object that agrees with its slot keeps agreeing, whatever the outcome; a success restores agreement. */
  lemma ResizedAgree(f: Fs, f': Fs, i: nat, size: nat, r: int)
    requires Resized(f, f', i, size, r) && Agree(f)
    ensures Agree(f')
  {
    ResizedKept(f, f', i, size, r);
    ResizedAgrees(f, f', i, size, r, i);
    forall j | 0 <= j < |f'.m.slots| && IsOpen(f'.open, j) ensures SameInode(Eff(f', j), f'.m.slots[j]) {
      KeptOpen(f, f', j);
      assert SameInode(Eff(f, j), f.m.slots[j]);
      ResizedAgrees(f, f', i, size, r, j);
    }
  }

  // ----- free blocks

  function Free(f: Fs): set<nat> {
    set b: nat {:trigger f.m.marks[b]} | RESERVED <= b < |f.m.marks| && !f.m.marks[b]
  }

  function Members(bs: seq<nat>): set<nat> {
    set b | b in bs
  }

  lemma {:induction false} DistinctCount(bs: seq<nat>)
    requires NoRepeat(bs)
    ensures |Members(bs)| == |bs|
  {
    if bs == [] {
      assert Members(bs) == {};
    } else {
      var init, last := bs[..|bs| - 1], bs[|bs| - 1];
      assert NoRepeat(init);
      DistinctCount(init);
      assert bs == init + [last];
      forall k | 0 <= k < |init| ensures init[k] != last { assert init[k] == bs[k]; }
      assert last !in Members(init);
      assert Members(bs) == Members(init) + {last};
    }
  }

  lemma TakenAreFree(f: Fs, i: nat, news: seq<nat>)
    requires CanTake(f, i, news)
    ensures Members(news) <= Free(f)
  {
    forall b | b in Members(news) ensures b in Free(f) {
      var j :| 0 <= j < |news| && news[j] == b;
      assert RESERVED <= news[j] < f.lay.blocks && !f.m.marks[news[j]];
    }
  }

  lemma TakenFree(f: Fs, i: nat, news: seq<nat>, f': Fs)
    requires CanTake(f, i, news) && f'.m.marks == MarkAll(f.m.marks, news)
    ensures |news| <= |Free(f)| && |Free(f')| == |Free(f)| - |news|
  {
    DistinctCount(news);
    TakenAreFree(f, i, news);
    MarkedFree(f, news, f');
    SubsetCount(Members(news), Free(f));
  }

  lemma MarkedFree(f: Fs, news: seq<nat>, f': Fs)
    requires f'.m.marks == MarkAll(f.m.marks, news)
    ensures Free(f') == Free(f) - Members(news)
  {
  }

  lemma SubsetCount(s: set<nat>, t: set<nat>)
    requires s <= t
    ensures |s| <= |t| && |t - s| == |t| - |s|
  {
    assert t == s + (t - s);
  }

  lemma GrownFree(f: Fs, i: nat, news: seq<nat>, size: nat)
    requires CanTake(f, i, news)
    ensures |news| <= |Free(f)| && |Free(Grown(f, i, news, size))| == |Free(f)| - |news|
  {
    TakenFree(f, i, news, Grown(f, i, news, size));
  }

  lemma FreedBlocks(f: Fs, i: nat, size: nat, gone: seq<nat>)
    requires CanShrink(f, i, size) && Blocks(Eff(f, i).size) <= |Eff(f, i).direct| && Blocks(size) <= Blocks(Eff(f, i).size)
    requires |gone| == Blocks(Eff(f, i).size) - Blocks(size)
    requires forall k {:trigger gone[k]} | 0 <= k < |gone| ::
               Eff(f, i).direct[Blocks(size) + k] == f.lay.super + gone[k]
    ensures NoRepeat(gone)
    ensures forall b :: b in gone <==> b in f.own && f.own[b].ino == i && f.own[b].k >= Blocks(size)
  {
    var d, from := Eff(f, i), Blocks(size);
    assert FileOk(f, i);
    forall k | 0 <= k < |gone| ensures gone[k] in f.own && f.own[gone[k]] == Owner(i, from + k) {
      assert BlockOk(f, i, d, from + k);
    }
    forall b | b in f.own && f.own[b].ino == i && f.own[b].k >= from ensures b in gone {
      assert OwnOk(f, b);
      assert gone[f.own[b].k - from] == b;
    }
  }

  function BlockNo(f: Fs, d: DInode, k: nat): nat {
    if k < |d.direct| && d.direct[k] >= f.lay.super then d.direct[k] - f.lay.super else 0
  }

  function BlockNos(f: Fs, d: DInode, from: nat, n: nat): (r: seq<nat>)
    ensures |r| == n && forall k {:trigger r[k]} | 0 <= k < n :: r[k] == BlockNo(f, d, from + k)
  {
    if n == 0 then [] else BlockNos(f, d, from, n - 1) + [BlockNo(f, d, from + n - 1)]
  }

  lemma ShrunkFree(f: Fs, i: nat, size: nat)
    requires CanShrink(f, i, size)
    ensures Blocks(Eff(f, i).size) <= |Eff(f, i).direct|
    ensures |Free(Shrunk(f, i, size))| == |Free(f)| + Blocks(Eff(f, i).size) - Blocks(size)
  {
    var d, from := Eff(f, i), Blocks(size);
    assert FileOk(f, i);
    BlocksBound(d.size);
    BlocksMonotone(size, d.size);
    var gone := BlockNos(f, d, from, Blocks(d.size) - from);
    forall k | 0 <= k < |gone| ensures d.direct[from + k] == f.lay.super + gone[k] { assert BlockOk(f, i, d, from + k); }
    FreedBlocks(f, i, size, gone);
    DistinctCount(gone);
    ShrunkFreeSet(f, i, size, gone);
  }

  lemma ShrunkFreeSet(f: Fs, i: nat, size: nat, gone: seq<nat>)
    requires CanShrink(f, i, size) && Blocks(Eff(f, i).size) <= |Eff(f, i).direct|
    requires forall b :: b in gone <==> b in f.own && f.own[b].ino == i && f.own[b].k >= Blocks(size)
    ensures |Free(Shrunk(f, i, size))| == |Free(f)| + |Members(gone)|
  {
    var s, f' := Members(gone), Shrunk(f, i, size);
    OwnedAreMarked(f);
    forall b: nat | b < f.lay.blocks ensures f'.m.marks[b] <==> f.m.marks[b] && b !in s { ClearedMark(f, i, size, b); }
    assert Free(f') == Free(f) + s;
    assert Free(f) !! s;
  }

  /** Success exactly when the size is allowed and the blocks it needs are free; a failed grow uses up all that are left. */
  lemma ResizedFree(f: Fs, f': Fs, i: nat, size: nat, r: int)
    requires Inv(f) && i in f.known && Resized(f, f', i, size, r)
    ensures r == TOO_BIG <==> size > FILE_MAX
    ensures var need := Blocks(size) - Blocks(Eff(f, i).size);
      && (r == NO_BIT <==> size <= FILE_MAX && need > |Free(f)|)
      && |Free(f')| == (if r == 0 then |Free(f)| - need else if r == NO_BIT then 0 else |Free(f)|)
  {
    if size <= FILE_MAX {
      if Blocks(size) < Blocks(Eff(f, i).size) {
        SmallerSize(size, Eff(f, i).size);
        ShrunkFree(f, i, size);
      } else if r == 0 {
        var news :| Grows(f, f', i, size, news);
        GrownFree(f, i, news, size);
      } else {
        var news :| Stops(f, f', i, size, news);
        TakenFree(f, i, news, f');
        assert Free(f') == {};
      }
    }
  }

  /** No block is lost unless a grow by several blocks fails after taking some. */
  lemma ResizedLeaks(f: Fs, f': Fs, i: nat, size: nat, r: int)
    requires Inv(f) && i in f.known && Resized(f, f', i, size, r)
    ensures Leaked(f') == if r == NO_BIT then Leaked(f) + Free(f) else Leaked(f)
  {
    if size <= FILE_MAX {
      if Blocks(size) < Blocks(Eff(f, i).size) {
        SmallerSize(size, Eff(f, i).size);
        ShrunkInv(f, i, size);
      } else if r == 0 {
        var news :| Grows(f, f', i, size, news);
        GrownLeaks(f, i, news, size);
      } else {
        var news :| Stops(f, f', i, size, news);
        PartialInv(f, i, news);
        AllTaken(f, i, news, f');
      }
    }
  }

  lemma AllTaken(f: Fs, i: nat, news: seq<nat>, f': Fs)
    requires CanTake(f, i, news) && f'.m.marks == MarkAll(f.m.marks, news) && AllMarked(f')
    ensures (set b | b in news) == Free(f)
  {
    TakenAreFree(f, i, news);
    assert (set b | b in news) == Members(news);
    forall b | b in Free(f) ensures b in news { assert f'.m.marks[b]; }
  }
}
