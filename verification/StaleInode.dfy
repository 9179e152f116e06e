/** Runs on which blocks are lost, or cache and disk disagree: files written to while unlinked, and grows that fail. */
module StaleInode {
  import opened FsBytes
  import opened FsDisk
  import opened FsState
  import opened FsOpen
  import opened FsResize
  import opened FsWrite
  import opened FileStore
  import opened FsBitmaps

  ghost predicate Unmarked0(f: Fs) {
    |f.m.imarks| == |f.m.slots| == INODE_CNT && forall i | 0 <= i < INODE_CNT :: !f.m.imarks[i]
  }

  /** Inode 0 is open, unmarked, and holds `s`. */
  ghost predicate Unlinked(f: Fs, s: seq<Byte>) {
    Inv(f) && Exact(f) && Agree(f) && Unmarked0(f) && 0 in f.known && IsOpen(f.open, 0) && Content(f, 0) == s && |Free(f)| > 0
  }

  lemma BlankStore(f: Fs)
    requires Inv(f) && f.open == [] && f.m.marks == seq(f.lay.blocks, b => b < RESERVED)
    ensures Agree(f) && |Free(f)| > 0
  {
    assert RESERVED in Free(f);
  }

  lemma DeletedWhileOpen(f0: Fs, f1: Fs, f2: Fs, f3: Fs)
    requires Inv(f0) && Exact(f0) && f0.open == [] && Unmarked0(f0) && Agree(f0) && |Free(f0)| > 0
    requires f1 == Created(f0, 0) && Inv(f1) && f2 == Opened(f1, 0) && Inv(f2) && DeleteOutcome(f2, f3, 0)
    ensures Unlinked(f3, [])
  {
    CreateKeepsAgreementExactly(f0, 0);
    OpenedInv(f1, 0);
    OpenedCount(f1, 0, 0);
    assert OpenCnt(f3.open, 0) == OpenCnt(f2.open, 0);
    assert Free(f2) == Free(f0);
    assert |Content(f3, 0)| == 0;
  }

  lemma WrittenWhileUnlinked(f3: Fs, f4: Fs, r: int)
    requires Unlinked(f3, []) && WriteOutcome(f3, f4, 0, [1], 0, r) && Exact(f4)
    ensures Inv(f4) && Agree(f4) && Unmarked0(f4) && IsOpen(f4.open, 0) && Content(f4, 0) == [1]
  {
    KeptOpen(f3, f4, 0);
    assert |Content(f3, 0)| == 0;
    assert Content(f4, 0)[0..1] == [1];
  }

  lemma CreatedOverOpen(f4: Fs, f5: Fs)
    requires Inv(f4) && Agree(f4) && Unmarked0(f4) && IsOpen(f4.open, 0) && Content(f4, 0) == [1]
    requires f5 == Created(f4, 0)
    ensures f5.m.imarks[0] && |f5.m.slots| == INODE_CNT && f5.m.slots[0].size == 0 && !Agree(f5) && Content(f5, 0) == [1]
  {
    CreateKeepsAgreementExactly(f4, 0);
    EffCreated(f4, 0, 0);
    assert |Content(f4, 0)| == 1;
  }

  /** Create, open, delete, write through the open object, create again: the file just created has the old object's
      contents, and the object disagrees with its slot. */
  method ReuseWhileOpen(part: Layout, image: seq<Block>, superBlock: Block) returns (s: Store)
    requires DiskOk(image, part) && |superBlock| == BLOCK_SIZE
    ensures fresh(s) && s.Valid() && s.View().m.imarks[0] && Content(s.View(), 0) == [1]
    ensures s.View().m.slots[0].size == 0 && !Agree(s.View())
  {
    hide Inv, Exact, Agree, Content, WriteOutcome, DeleteOutcome, Opened, Free, ExactBut, Abs, DiskOk;
    s := new Store(part, image, superBlock);
    ghost var f0 := s.View();
    BlankStore(f0);
    assert Unmarked0(f0) && !f0.m.imarks[0];
    var a := s.DiskInodeCreate();
    assert a == 0;
    ghost var f1 := s.View();
    var ok := s.InodeOpen(0);
    ghost var f2 := s.View();
    ExactOfExactBut(f1, f2);
    s.DiskInodeDelete(0);
    ghost var f3 := s.View();
    DeletedWhileOpen(f0, f1, f2, f3);
    var r := s.InodeWrite(0, [1], 0);
    ghost var f4 := s.View();
    WrittenWhileUnlinked(f3, f4, r);
    assert !f4.m.imarks[0];
    var b := s.DiskInodeCreate();
    assert b == 0;
    CreatedOverOpen(f4, s.View());
  }

  lemma ExactOfExactBut(f1: Fs, f2: Fs)
    requires Inv(f1) && Exact(f1) && 0 in f1.known && 0 < |f1.m.slots| && f2 == Opened(f1, 0)
    ensures Exact(f2) && 0 in f2.known && IsOpen(f2.open, 0)
  {
    OpenedExact(f1, 0);
    EffOpened(f1, 0, 0);
  }

  lemma LastCloseLoses(f: Fs, f': Fs)
    requires Unlinked0(f) && LastClose(f, 0) && f' == Closed(f, 0)
    ensures Leaked(f') != {}
  {
    ClosedLeaks(f, 0);
    assert |Content(f, 0)| == 1;
  }

  ghost predicate Unlinked0(f: Fs) {
    && Inv(f) && 0 in f.known && IsOpen(f.open, 0) && |f.m.imarks| == |f.m.slots| == INODE_CNT && !f.m.imarks[0]
    && f.open[OpenIdx(f.open, 0)].cnt > 0 && Content(f, 0) == [1]
  }

  /** The open count is one throughout. */
  lemma OpenOnce(f0: Fs, f1: Fs, f2: Fs, f3: Fs, f4: Fs, r: int)
    requires Inv(f0) && f0.open == [] && f1 == Created(f0, 0) && |f0.m.imarks| == |f0.m.slots| == INODE_CNT && Inv(f1)
    requires f2 == Opened(f1, 0) && DeleteOutcome(f2, f3, 0) && WriteOutcome(f3, f4, 0, [1], 0, r) && IsOpen(f4.open, 0)
    ensures LastClose(f4, 0)
  {
    OpenedCount(f1, 0, 0);
    assert OpenCnt(f3.open, 0) == OpenCnt(f2.open, 0);
    KeptCount(f3, f4, 0);
  }

  /** Create, open, delete, write through the open object, close: no grow fails, and a block stays marked with no owner. */
  method CloseLosesABlock(part: Layout, image: seq<Block>, superBlock: Block) returns (s: Store, r: int)
    requires DiskOk(image, part) && |superBlock| == BLOCK_SIZE
    ensures fresh(s) && s.Valid() && r == 1 && Leaked(s.View()) != {}
  {
    hide Inv, Exact, Agree, Content, WriteOutcome, DeleteOutcome, Opened, Free, ExactBut, Abs, DiskOk, LastClose, Leaked;
    s := new Store(part, image, superBlock);
    ghost var f0 := s.View();
    BlankStore(f0);
    assert Unmarked0(f0) && !f0.m.imarks[0];
    var a := s.DiskInodeCreate();
    assert a == 0;
    ghost var f1 := s.View();
    var ok := s.InodeOpen(0);
    ghost var f2 := s.View();
    ExactOfExactBut(f1, f2);
    s.DiskInodeDelete(0);
    ghost var f3 := s.View();
    DeletedWhileOpen(f0, f1, f2, f3);
    r := s.InodeWrite(0, [1], 0);
    ghost var f4 := s.View();
    WrittenWhileUnlinked(f3, f4, r);
    OneByteWritten(f3, f4, r);
    OpenOnce(f0, f1, f2, f3, f4, r);
    s.InodeClose(0);
    LastCloseLoses(f4, s.View());
  }

  lemma OneByteWritten(f3: Fs, f4: Fs, r: int)
    requires Unlinked(f3, []) && WriteOutcome(f3, f4, 0, [1], 0, r)
    ensures r == 1 && 0 in f4.known
  {
    assert |Content(f3, 0)| == 0;
  }

  // ----- a grow by two blocks with one free

  lemma {:induction false} OneFree(f: Fs)
    requires f.lay.blocks == RESERVED + 1 && f.m.marks == seq(f.lay.blocks, b => b < RESERVED)
    ensures Free(f) == {RESERVED}
  {
  }

  lemma GrowRefused(f1: Fs, f2: Fs, f3: Fs, buf: seq<Byte>, r: int)
    requires |f1.m.slots| == INODE_CNT && !IsOpen(f1.open, 0) && f1.m.slots[0] == ZERO_INODE && f2 == Opened(f1, 0)
    requires Free(f1) == {RESERVED} && |buf| == BLOCK_SIZE + 1 && WriteOutcome(f2, f3, 0, buf, 0, r)
    ensures r == NO_BIT && RESERVED in Leaked(f3) && Free(f3) == {}
  {
    EffOpened(f1, 0, 0);
    assert Free(f2) == {RESERVED};
    assert Blocks(BLOCK_SIZE + 1) == 2 && Blocks(0) == 0;
  }

  /** A write of 4097 bytes to an empty file with one block free fails, and uses that block up for nothing. */
  method GrowByTwo(part: Layout, image: seq<Block>, superBlock: Block) returns (s: Store, r: int)
    requires DiskOk(image, part) && |superBlock| == BLOCK_SIZE && part.blocks == RESERVED + 1
    ensures fresh(s) && s.Valid() && r == NO_BIT && RESERVED in Leaked(s.View()) && Free(s.View()) == {}
  {
    hide Inv, Exact, Agree, Content, WriteOutcome, Opened, Free, ExactBut, Abs, DiskOk, Leaked;
    s := new Store(part, image, superBlock);
    ghost var f0 := s.View();
    assert Unmarked0(f0) && !f0.m.imarks[0];
    OneFree(f0);
    var a := s.DiskInodeCreate();
    assert a == 0;
    ghost var f1 := s.View();
    SameFree(f0, f1);
    var ok := s.InodeOpen(0);
    ghost var f2 := s.View();
    ExactOfExactBut(f1, f2);
    var buf := FreshBitmap(0, 0) + [1];
    r := s.InodeWrite(0, buf, 0);
    GrowRefused(f1, f2, s.View(), buf, r);
  }

  lemma SameFree(f: Fs, f': Fs)
    requires f'.m.marks == f.m.marks
    ensures Free(f') == Free(f)
  {
  }
}
