/** What a write and a delete do to the files, whatever the state of the open objects. */
module FsWrite {
  import opened FsBytes
  import opened FsDisk
  import opened FsState
  import opened FsSteps
  import opened FsContent
  import opened FsOpen
  import opened FsResize

  // ----- inode_write

  /** The buffered write-back of `inode_write`, after any change of size. */
  ghost predicate Rewrote(g: Fs, f': Fs, i: nat, buf: seq<Byte>, offset: nat) {
    var from, n := FirstBlock(offset), BlockCount(offset, |buf|);
    && n > 0 && i < |g.m.slots| && Runs(g.lay, g.m.data, Eff(g, i).direct, from, n)
    && var io := Gathered(g.lay, g.m.data, Eff(g, i).direct, from, n);
    && |io| == n * BLOCK_SIZE && offset % BLOCK_SIZE + |buf| <= |io|
    && f' == Rewritten(g, i, from, Splice(io, offset % BLOCK_SIZE, buf), n)
  }

  /** The statements of `inode_write`: a change of size if the file is too short, and the write-back unless that failed. */
  ghost predicate WroteVia(f: Fs, f': Fs, i: nat, buf: seq<Byte>, offset: nat, r: int) {
    i < |f.m.slots| &&
    if offset + |buf| <= Eff(f, i).size then r == |buf| && Rewrote(f, f', i, buf, offset)
    else if r < 0 then Resized(f, f', i, offset + |buf|, r)
    else r == |buf| && exists g :: GrewAndWrote(f, g, f', i, buf, offset)
  }

  ghost predicate GrewAndWrote(f: Fs, g: Fs, f': Fs, i: nat, buf: seq<Byte>, offset: nat) {
    Resized(f, g, i, offset + |buf|, 0) && Rewrote(g, f', i, buf, offset)
  }

  /** What the caller of `inode_write` can rely on. */
  ghost predicate WriteOutcome(f: Fs, f': Fs, i: nat, buf: seq<Byte>, offset: nat, r: int) {
    && Inv(f') && Kept(f, f') && (Agree(f) ==> Agree(f')) && i < |f.m.slots| == |f'.m.slots|
    && r == WriteResult(Eff(f, i).size, buf, offset, |Free(f)|)
    && |Free(f')| == FreeAfter(Eff(f, i).size, buf, offset, |Free(f)|)
    && Leaked(f') == (if r == NO_BIT then Leaked(f) + Free(f) else Leaked(f))
    && (if r < 0 then Content(f', i) == Content(f, i) else Written(Content(f, i), Content(f', i), buf, offset))
    && forall j {:trigger Content(f', j)} | j in f.known && j != i && j < |f.m.slots| :: Content(f', j) == Content(f, j)
  }

  /** Blocks a write adds to a file. */
  function Needed(size: nat, buf: seq<Byte>, offset: nat): nat {
    if offset + |buf| > size && Blocks(offset + |buf|) > Blocks(size) then Blocks(offset + |buf|) - Blocks(size) else 0
  }

  function WriteResult(size: nat, buf: seq<Byte>, offset: nat, free: nat): int {
    if offset + |buf| > size && offset + |buf| > FILE_MAX then TOO_BIG
    else if Needed(size, buf, offset) > free then NO_BIT
    else |buf|
  }

  function FreeAfter(size: nat, buf: seq<Byte>, offset: nat, free: nat): nat {
    var r := WriteResult(size, buf, offset, free);
    if r == TOO_BIG then free else if r == NO_BIT then 0 else free - Needed(size, buf, offset)
  }

  /** Everything but contents is as before the write-back. */
  lemma RewroteKeeps(g: Fs, f': Fs, i: nat, buf: seq<Byte>, offset: nat)
    requires Inv(g) && i in g.known && Rewrote(g, f', i, buf, offset) && offset + |buf| <= Eff(g, i).size && |buf| > 0
    ensures Inv(f') && f'.m.slots == g.m.slots && f'.m.imarks == g.m.imarks && f'.open == g.open && f'.known == g.known
    ensures f'.lay == g.lay && f'.m.marks == g.m.marks && f'.own == g.own
  {
    RangeCovers(offset, |buf|, Eff(g, i).size);
    var from, n := FirstBlock(offset), BlockCount(offset, |buf|);
    RewrittenInv(g, i, from, Splice(Gathered(g.lay, g.m.data, Eff(g, i).direct, from, n), offset % BLOCK_SIZE, buf), n);
  }

  lemma RewroteContent(g: Fs, f': Fs, i: nat, buf: seq<Byte>, offset: nat, j: nat)
    requires Inv(g) && i in g.known && Rewrote(g, f', i, buf, offset) && offset + |buf| <= Eff(g, i).size && |buf| > 0
    requires j in g.known && j < |g.m.slots|
    ensures |f'.m.slots| == |g.m.slots|
    ensures if j == i then Written(Content(g, i), Content(f', i), buf, offset) else Content(f', j) == Content(g, j)
  {
    RangeCovers(offset, |buf|, Eff(g, i).size);
    WriteThrough(g, i, buf, offset, FirstBlock(offset), BlockCount(offset, |buf|), offset % BLOCK_SIZE, j);
  }

  /** A write inside the file. */
  lemma WriteInside(f: Fs, f': Fs, i: nat, buf: seq<Byte>, offset: nat)
    requires Inv(f) && i in f.known && |buf| > 0 && i < |f.m.slots| && offset + |buf| <= Eff(f, i).size
    requires Rewrote(f, f', i, buf, offset)
    ensures WriteOutcome(f, f', i, buf, offset, |buf|)
  {
    RewroteKeeps(f, f', i, buf, offset);
    forall j | j in f.known && j < |f.m.slots|
      ensures if j == i then Written(Content(f, i), Content(f', i), buf, offset) else Content(f', j) == Content(f, j)
    {
      RewroteContent(f, f', i, buf, offset, j);
    }
    assert Leaked(f') == Leaked(f) && Free(f') == Free(f);
    AgreeFrame(f, f');
  }

  lemma AgreeFrame(f: Fs, f': Fs)
    requires f'.open == f.open && f'.m.slots == f.m.slots
    ensures Agree(f) ==> Agree(f')
  {
    if Agree(f) {
      forall j | 0 <= j < |f'.m.slots| && IsOpen(f'.open, j) ensures SameInode(Eff(f', j), f'.m.slots[j]) {
        assert SameInode(Eff(f, j), f.m.slots[j]);
      }
    }
  }

  /** A write that needed a larger file and got it. */
  lemma WriteGrown(f: Fs, g: Fs, f': Fs, i: nat, buf: seq<Byte>, offset: nat)
    requires Inv(f) && i in f.known && |buf| > 0 && i < |f.m.slots| && offset + |buf| > Eff(f, i).size
    requires Resized(f, g, i, offset + |buf|, 0) && Inv(g) && Rewrote(g, f', i, buf, offset)
    ensures WriteOutcome(f, f', i, buf, offset, |buf|)
  {
    var size := offset + |buf|;
    ResizedFacts(f, g, i, size, 0);
    GrownSize(f, g, i, size);
    WriteInside(g, f', i, buf, offset);
    forall j | j in f.known && j != i && j < |f.m.slots| ensures Content(f', j) == Content(f, j) {
      ResizedContent(f, g, i, size, 0, j);
      assert Content(f', j) == Content(g, j);
    }
    ResizedContent(f, g, i, size, 0, i);
    BlocksMonotone(Eff(f, i).size, size);
    CutThenWritten(Content(f, i), Content(g, i), Content(f', i), buf, offset);
  }

  lemma GrownSize(f: Fs, g: Fs, i: nat, size: nat)
    requires Inv(f) && i in f.known && i < |f.m.slots| && Resized(f, g, i, size, 0)
    ensures i < |g.m.slots| && Eff(g, i).size == size
  {
    ResizedContent(f, g, i, size, 0, i);
    assert |Content(g, i)| == size;
  }

  lemma CutThenWritten(was: seq<Byte>, mid: seq<Byte>, now: seq<Byte>, buf: seq<Byte>, offset: nat)
    requires offset + |buf| > |was| && Cut(was, mid, offset + |buf|) && Written(mid, now, buf, offset)
    ensures Written(was, now, buf, offset)
  {
    forall k | 0 <= k < |was| && !(offset <= k < offset + |buf|) ensures now[k] == was[k] {
      assert mid[k] == was[k];
    }
  }

  /** A write that needed a larger file and did not get it. */
  lemma WriteRefused(f: Fs, f': Fs, i: nat, buf: seq<Byte>, offset: nat, r: int)
    requires Inv(f) && i in f.known && |buf| > 0 && i < |f.m.slots| && offset + |buf| > Eff(f, i).size
    requires r < 0 && Resized(f, f', i, offset + |buf|, r)
    ensures WriteOutcome(f, f', i, buf, offset, r)
  {
    var size := offset + |buf|;
    ResizedFacts(f, f', i, size, r);
    forall j | j in f.known && j < |f.m.slots| ensures Content(f', j) == Content(f, j) {
      ResizedContent(f, f', i, size, r, j);
    }
    BlocksMonotone(Eff(f, i).size, size);
  }

  /** The statements of `inode_write` amount to its outcome. */
  lemma WroteOutcome(f: Fs, f': Fs, i: nat, buf: seq<Byte>, offset: nat, r: int)
    requires Inv(f) && i in f.known && |buf| > 0 && WroteVia(f, f', i, buf, offset, r)
    ensures WriteOutcome(f, f', i, buf, offset, r) && Inv(f') && (Exact(f) ==> Exact(f'))
  {
    WroteCases(f, f', i, buf, offset, r);
    if Exact(f) { KeptExact(f, f'); }
  }

  lemma WroteCases(f: Fs, f': Fs, i: nat, buf: seq<Byte>, offset: nat, r: int)
    requires Inv(f) && i in f.known && |buf| > 0 && WroteVia(f, f', i, buf, offset, r)
    ensures WriteOutcome(f, f', i, buf, offset, r)
  {
    hide Inv, Rewrote, Resized, WriteOutcome;
    if offset + |buf| <= Eff(f, i).size {
      WriteInside(f, f', i, buf, offset);
    } else if r < 0 {
      WriteRefused(f, f', i, buf, offset, r);
    } else {
      var g :| GrewAndWrote(f, g, f', i, buf, offset);
      ResizedFacts(f, g, i, offset + |buf|, 0);
      WriteGrown(f, g, f', i, buf, offset);
    }
  }

  /** A write that fails for want of one block takes none: the block bitmap is as before. */
  lemma FailedAppendKeepsMarks(f: Fs, f': Fs, i: nat, buf: seq<Byte>, offset: nat, r: int)
    requires WroteVia(f, f', i, buf, offset, r) && r < 0 && Blocks(offset + |buf|) <= Blocks(Eff(f, i).size) + 1
    ensures f'.m.marks == f.m.marks
  {
    if r == NO_BIT {
      var news :| Stops(f, f', i, offset + |buf|, news);
      assert news == [];
    }
  }

  /** The lemmas about a change of size, together. */
  lemma ResizedFacts(f: Fs, f': Fs, i: nat, size: nat, r: int)
    requires Inv(f) && i in f.known && Resized(f, f', i, size, r)
    ensures Inv(f') && Kept(f, f') && (Agree(f) ==> Agree(f')) && i < |f.m.slots| && |f'.m.slots| == |f.m.slots|
    ensures Leaked(f') == if r == NO_BIT then Leaked(f) + Free(f) else Leaked(f)
    ensures r == TOO_BIG <==> size > FILE_MAX
    ensures var need := Blocks(size) - Blocks(Eff(f, i).size);
      && (r == NO_BIT <==> size <= FILE_MAX && need > |Free(f)|)
      && |Free(f')| == (if r == 0 then |Free(f)| - need else if r == NO_BIT then 0 else |Free(f)|)
  {
    ResizedKept(f, f', i, size, r);
    ResizedInv(f, f', i, size, r);
    ResizedLeaks(f, f', i, size, r);
    ResizedFree(f, f', i, size, r);
    ResizedContent(f, f', i, size, r, i);
    if Agree(f) { ResizedAgree(f, f', i, size, r); }
  }

  // ----- open counts

  function OpenCnt(open: seq<OpenInode>, i: nat): nat {
    if IsOpen(open, i) then open[OpenIdx(open, i)].cnt else 0
  }

  lemma OpenedCount(f: Fs, i: nat, j: nat)
    requires Shape(f) && i in f.known && j < |f.m.slots|
    ensures i < |f.m.slots| && OpenCnt(Opened(f, i).open, j) == OpenCnt(f.open, j) + (if j == i then 1 else 0)
  {
    var f' := Opened(f, i);
    if IsOpen(f.open, i) {
      OpenIdxFrame(f.open, f'.open, j);
    } else {
      assert f'.open[1..] == f.open;
    }
  }

  lemma ClosedCount(f: Fs, i: nat, j: nat)
    requires Shape(f) && IsOpen(f.open, i) && i in f.known && j < |f.m.slots|
    ensures f.open[OpenIdx(f.open, i)].cnt > 0
    ensures OpenCnt(Closed(f, i).open, j) == OpenCnt(f.open, j) - (if j == i then 1 else 0)
  {
    var k := OpenIdx(f.open, i);
    var f' := Closed(f, i);
    if f.open[k].cnt > 1 {
      OpenIdxFrame(f.open, f'.open, j);
    } else if j == i {
      NoneLeft(f, i);
    } else {
      OpenIdxDrop(f.open, k, j);
    }
  }

  lemma KeptCount(f: Fs, f': Fs, j: nat)
    requires Kept(f, f')
    ensures OpenCnt(f'.open, j) == OpenCnt(f.open, j)
  {
    KeptOpen(f, f', j);
  }

  // ----- between calls

  ghost predicate ExactBut(f: Fs, i: nat) {
    forall j {:trigger j in f.known} | j in f.known && j != i :: j < |f.m.imarks| && (f.m.imarks[j] || IsOpen(f.open, j))
  }

  lemma OpenedExact(f: Fs, i: nat)
    requires Inv(f) && i in f.known && ExactBut(f, i)
    ensures i < |f.m.slots| && Exact(Opened(f, i))
  {
    forall j | j in f.known ensures j < |f.m.slots| && (f.m.imarks[j] || IsOpen(Opened(f, i).open, j)) {
      EffOpened(f, i, j);
    }
  }

  lemma ClosedExact(f: Fs, i: nat)
    requires Inv(f) && Exact(f) && IsOpen(f.open, i) && i in f.known
    ensures f.open[OpenIdx(f.open, i)].cnt > 0 && Exact(Closed(f, i))
  {
    assert Shape(f);
    var f' := Closed(f, i);
    forall j | j in f'.known ensures j < |f.m.slots| && (f.m.imarks[j] || IsOpen(f'.open, j)) {
      assert j in f.known;
      EffClosed(f, i, j);
    }
  }

  /** The blocks a close loses: all those of an object that is dropped without its slot and a mark to keep them. */
  function LostBlocks(f: Fs, i: nat): set<nat>
    requires IsOpen(f.open, i) && i < |f.m.slots| && i < |f.m.imarks|
  {
    if !LastClose(f, i) || KeepsBlocks(f, i) then {} else set b | b in f.own && f.own[b].ino == i
  }

  lemma ClosedLeaked(f: Fs, i: nat)
    requires Inv(f) && IsOpen(f.open, i) && i in f.known
    ensures f.open[OpenIdx(f.open, i)].cnt > 0 && i < |f.m.slots|
    ensures Free(Closed(f, i)) == Free(f)
    ensures Leaked(Closed(f, i)) == Leaked(f) + LostBlocks(f, i) && Leaked(f) !! LostBlocks(f, i)
  {
    assert Shape(f);
    OwnedAreMarked(f);
  }

  /** A close loses blocks exactly if it drops a stale object, or an unlinked file, that is not empty. */
  lemma ClosedLeaks(f: Fs, i: nat)
    requires Inv(f) && IsOpen(f.open, i) && i in f.known
    ensures f.open[OpenIdx(f.open, i)].cnt > 0 && i < |f.m.slots|
    ensures Free(Closed(f, i)) == Free(f) && Leaked(f) <= Leaked(Closed(f, i))
    ensures Leaked(Closed(f, i)) == Leaked(f) <==> !LastClose(f, i) || KeepsBlocks(f, i) || Eff(f, i).size == 0
  {
    ClosedLeaked(f, i);
    if Eff(f, i).size == 0 {
      forall b | b in f.own ensures f.own[b].ino != i { assert OwnOk(f, b); }
    } else {
      var b := FirstBlockOwned(f, i);
      assert b in LostBlocks(f, i) <==> LastClose(f, i) && !KeepsBlocks(f, i);
    }
  }

  lemma FirstBlockOwned(f: Fs, i: nat) returns (b: nat)
    requires Inv(f) && i in f.known && i < |f.m.slots| && Eff(f, i).size > 0
    ensures b in f.own && f.own[b].ino == i
  {
    assert FileOk(f, i);
    BlocksBound(Eff(f, i).size);
    assert BlockOk(f, i, Eff(f, i), 0);
    b := Eff(f, i).direct[0] - f.lay.super;
  }

  // ----- disk_inode_delete

  /** The four statements of `disk_inode_delete`. */
  ghost predicate DeletedVia(f: Fs, g: Fs, f': Fs, i: nat) {
    && i < |f.m.imarks| && i < |f.m.slots| && Resized(Opened(Unmarked(f, i), i), g, i, 0, 0)
    && IsOpen(g.open, i) && i < |g.m.slots| && i < |g.m.imarks| && g.open[OpenIdx(g.open, i)].cnt > 0
    && f' == Closed(g, i)
  }

  ghost predicate Deleted(f: Fs, f': Fs, i: nat) {
    exists g :: DeletedVia(f, g, f', i)
  }

  /** What the caller of `disk_inode_delete` can rely on: the blocks come back, an open object stays, empty. */
  ghost predicate DeleteOutcome(f: Fs, f': Fs, i: nat) {
    && Inv(f') && Exact(f') && (Agree(f) ==> Agree(f')) && i < |f.m.slots| == |f'.m.slots| && i < |f.m.imarks|
    && f'.lay == f.lay && f'.m.imarks == f.m.imarks[i := false]
    && f'.known == (if IsOpen(f.open, i) then f.known else f.known - {i})
    && Leaked(f') == Leaked(f) && |Free(f')| == |Free(f)| + Blocks(Eff(f, i).size)
    && (forall j: nat {:trigger OpenCnt(f'.open, j)} | j < |f.m.slots| :: OpenCnt(f'.open, j) == OpenCnt(f.open, j))
    && (i in f'.known ==> Content(f', i) == [])
    && forall j {:trigger Content(f', j)} | j in f.known && j != i && j < |f.m.slots| :: Content(f', j) == Content(f, j)
  }

  /** Unmark and open. */
  lemma UnmarkedOpened(f: Fs, i: nat)
    requires Inv(f) && Exact(f) && i in f.known
    ensures i < |f.m.imarks| && i < |f.m.slots|
    ensures var o := Opened(Unmarked(f, i), i);
      Inv(o) && Exact(o) && (Agree(f) ==> Agree(o)) && Leaked(o) == Leaked(f) && Free(o) == Free(f)
      && IsOpen(o.open, i) && o.known == f.known && o.lay == f.lay && o.m == Unmarked(f, i).m && Eff(o, i) == Eff(f, i)
  {
    assert FileOk(f, i);
    var u := Unmarked(f, i);
    UnmarkedInv(f, i);
    OpenedInv(u, i);
    OpenedExact(u, i);
    EffOpened(u, i, i);
  }

  lemma UnmarkedOpenedAt(f: Fs, i: nat, j: nat)
    requires Inv(f) && i in f.known && j < |f.m.slots|
    ensures i < |f.m.imarks| && i < |f.m.slots|
    ensures var o := Opened(Unmarked(f, i), i);
      Eff(o, j) == Eff(f, j) && OpenCnt(o.open, j) == OpenCnt(f.open, j) + (if j == i then 1 else 0)
  {
    var u := Unmarked(f, i);
    UnmarkedInv(f, i);
    EffOpened(u, i, j);
    OpenedCount(u, i, j);
  }

  lemma DeletedAt(f: Fs, g: Fs, f': Fs, i: nat, j: nat)
    requires Inv(f) && Exact(f) && i in f.known && DeletedVia(f, g, f', i) && j < |f.m.slots| && Inv(g)
    ensures |f'.m.slots| == |f.m.slots| && OpenCnt(f'.open, j) == OpenCnt(f.open, j)
    ensures j in f.known && j != i ==> Content(f', j) == Content(f, j)
    ensures j == i && i in f'.known ==> Content(f', i) == []
  {
    var o := Opened(Unmarked(f, i), i);
    UnmarkedOpened(f, i);
    UnmarkedOpenedAt(f, i, j);
    assert Content(o, j) == Content(f, j);
    ResizedKept(o, g, i, 0, 0);
    ResizedContent(o, g, i, 0, 0, j);
    KeptCount(o, g, j);
    ClosedCount(g, i, j);
    if j in f.known { ClosedContent(g, i, j); }
  }

  lemma DeletedOutcome(f: Fs, g: Fs, f': Fs, i: nat)
    requires Inv(f) && Exact(f) && i in f.known && DeletedVia(f, g, f', i)
    ensures DeleteOutcome(f, f', i)
  {
    var o := Opened(Unmarked(f, i), i);
    UnmarkedOpened(f, i);
    ResizedFacts(o, g, i, 0, 0);
    KeptExact(o, g);
    GrownSize(o, g, i, 0);
    ClosedInv(g, i);
    ClosedExact(g, i);
    ClosedLeaks(g, i);
    forall j: nat | j < |f.m.slots|
      ensures |f'.m.slots| == |f.m.slots| && OpenCnt(f'.open, j) == OpenCnt(f.open, j)
      ensures j in f.known && j != i ==> Content(f', j) == Content(f, j)
      ensures j == i && i in f'.known ==> Content(f', i) == []
    {
      DeletedAt(f, g, f', i, j);
    }
    DeletedKnown(f, g, f', i);
  }

  lemma DeletedKnown(f: Fs, g: Fs, f': Fs, i: nat)
    requires Inv(f) && Exact(f) && i in f.known && DeletedVia(f, g, f', i) && Inv(g)
    ensures f'.known == if IsOpen(f.open, i) then f.known else f.known - {i}
  {
    var o := Opened(Unmarked(f, i), i);
    UnmarkedOpened(f, i);
    UnmarkedOpenedAt(f, i, i);
    ResizedKept(o, g, i, 0, 0);
    KeptCount(o, g, i);
    assert OpenCnt(g.open, i) == OpenCnt(f.open, i) + 1;
    assert IsOpen(f.open, i) ==> f.open[OpenIdx(f.open, i)].cnt > 0;
  }

  /** Deleting an empty file touches no block. */
  lemma EmptyDeleteKeepsMarks(f: Fs, f': Fs, i: nat)
    requires Inv(f) && Exact(f) && i in f.known && Deleted(f, f', i) && i < |f.m.slots| && Eff(f, i).size == 0
    ensures f'.m.marks == f.m.marks
  {
    var g :| DeletedVia(f, g, f', i);
    var o := Opened(Unmarked(f, i), i);
    UnmarkedOpened(f, i);
    var news :| Grows(o, g, i, 0, news);
    assert news == [];
    hide Inv, Exact, Leaked, Free;
  }
}
