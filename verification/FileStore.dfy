/** `fs/inode.c` and `fs/bio.c`: inodes over a disk of blocks, with the open_inodes list. */
module FileStore {
  import opened FsBytes
  import opened FsDisk
  import opened FsState
  import opened FsSteps
  import opened FsContent
  import opened FsOpen
  import opened FsResize
  import opened FsWrite
  import opened FsBitmaps

  class Store {
    const lay: Layout
    var disk: seq<Block>
    var openInodes: seq<OpenInode>
    ghost var own: map<nat, Owner>
    ghost var known: set<nat>

    ghost function View(): Fs
      requires DiskOk(disk, lay)
      reads this
    {
      Fs(lay, Abs(disk, lay), openInodes, own, known)
    }

    ghost predicate Sound()
      reads this
    {
      DiskOk(disk, lay) && Inv(View())
    }

    ghost predicate Valid()
      reads this
    {
      Sound() && Exact(View())
    }

    // ----- fs/bio.c

    method BlockRead(bid: nat, count: nat, off: nat) returns (buf: seq<Byte>)
      requires bid < |disk| && |disk[bid]| == BLOCK_SIZE
      ensures buf == ReadAt(disk[bid], count, off)
    {
      if off > BLOCK_SIZE {
        return [];
      }
      var n := if off + count > BLOCK_SIZE then BLOCK_SIZE - off else count;
      var iobuf := disk[bid];
      buf := iobuf[off..off + n];
    }

    method BlockModify(bid: nat, buf: seq<Byte>, off: nat)
      requires bid < |disk| && |disk[bid]| == BLOCK_SIZE
      modifies this`disk
      ensures disk == Modified(old(disk), bid, buf, off)
    {
      if off > BLOCK_SIZE {
        assert disk == old(disk)[bid := old(disk)[bid]];
        return;
      }
      var n := if off + |buf| > BLOCK_SIZE then BLOCK_SIZE - off else |buf|;
      var iobuf := disk[bid];
      iobuf := iobuf[..off] + buf[..n] + iobuf[off + n..];
      disk := disk[bid := iobuf];
    }

    // ----- bitmaps

    /** `fs_bitmap_alloc`: the first zero byte becomes one. */
    method FsBitmapAlloc(start: nat, size: nat) returns (r: int)
      requires MapFits(disk, start, size)
      modifies this`disk
      ensures r == NO_BIT || 0 <= r < size
      ensures r == NO_BIT ==> disk == old(disk) && forall i | 0 <= i < size :: MapByte(disk, start, i) != 0
      ensures r >= 0 ==> MapByte(old(disk), start, r) == 0 && disk == MapPut(old(disk), start, r, 1)
      ensures r >= 0 ==> forall i | 0 <= i < r :: MapByte(old(disk), start, i) != 0
    {
      var i := 0;
      while i != size
        invariant i <= size && disk == old(disk) && forall j | 0 <= j < i :: MapByte(disk, start, j) != 0
        decreases size - i
      {
        assert MapBlock(start, i) < |disk|;
        var buf := BlockRead(i / BLOCK_SIZE + start, 1, i % BLOCK_SIZE);
        if buf[0] == 0 {
          break;
        }
        i := i + 1;
      }
      if i == size {
        return NO_BIT;
      }
      BlockModify(i / BLOCK_SIZE + start, [1], i % BLOCK_SIZE);
      r := i;
    }

    /** `fs_bitmap_free`; its ASSERT is the first precondition. */
    method FsBitmapFree(start: nat, size: nat, idx: nat)
      requires idx < size
      requires MapFits(disk, start, size)
      modifies this`disk
      ensures MapBlock(start, idx) < |old(disk)| && |old(disk)[MapBlock(start, idx)]| == BLOCK_SIZE
      ensures disk == MapPut(old(disk), start, idx, 0)
    {
      assert MapBlock(start, idx) < |disk|;
      BlockModify(idx / BLOCK_SIZE + start, [0], idx % BLOCK_SIZE);
    }

    // Both maps of the file system are one block.
    method AllocInBlock(start: nat, size: nat) returns (r: int)
      requires start < |disk| && size <= BLOCK_SIZE && |disk[start]| == BLOCK_SIZE
      modifies this`disk
      ensures r == NO_BIT || 0 <= r < size
      ensures r == NO_BIT ==> disk == old(disk) && forall i | 0 <= i < size :: disk[start][i] != 0
      ensures r >= 0 ==> old(disk)[start][r] == 0 && disk == Modified(old(disk), start, [1], r)
      ensures r >= 0 ==> forall i | 0 <= i < r :: old(disk)[start][i] != 0
    {
      ghost var was := disk;
      forall i: nat | i < size ensures SmallMap(was, start, size, i) { OneBlockMap(was, start, size, i); }
      assert MapFits(was, start, size);
      hide MapFits, MapByte, MapPut;
      r := FsBitmapAlloc(start, size);
      forall i: nat | i < size ensures MapByte(was, start, i) == was[start][i] { assert SmallMap(was, start, size, i); }
      if r >= 0 { assert SmallMap(was, start, size, r); }
    }

    method FreeInBlock(start: nat, size: nat, idx: nat)
      requires idx < size && start < |disk| && size <= BLOCK_SIZE && |disk[start]| == BLOCK_SIZE
      modifies this`disk
      ensures disk == Modified(old(disk), start, [0], idx)
    {
      OneBlockMap(disk, start, size, idx);
      FsBitmapFree(start, size, idx);
    }

    /** The block bitmap as the methods above see it. */
    method AllocBlock() returns (r: int)
      requires DiskOk(disk, lay)
      modifies this`disk
      ensures DiskOk(disk, lay) && (r == NO_BIT || 0 <= r < lay.blocks)
      ensures r == NO_BIT ==> disk == old(disk) && forall b | 0 <= b < lay.blocks :: Abs(disk, lay).marks[b]
      ensures r >= 0 ==> !Abs(old(disk), lay).marks[r]
      ensures r >= 0 ==> Abs(disk, lay) == Abs(old(disk), lay).(marks := Abs(old(disk), lay).marks[r := true])
    {
      LayoutAreas(lay);
      r := AllocInBlock(lay.BlockBitmap(), lay.blocks);
      if r >= 0 { MarkWrite(old(disk), lay, r, 1); }
    }

    method FreeBlock(b: nat)
      requires DiskOk(disk, lay) && b < lay.blocks
      modifies this`disk
      ensures DiskOk(disk, lay) && Abs(disk, lay) == Abs(old(disk), lay).(marks := Abs(old(disk), lay).marks[b := false])
    {
      LayoutAreas(lay);
      MarkWrite(disk, lay, b, 0);
      FreeInBlock(lay.BlockBitmap(), lay.blocks, b);
    }

    /** Write the open object of `i` to its slot. */
    method WriteSlot(i: nat, d: DInode)
      requires DiskOk(disk, lay) && i < INODE_CNT && Storable(d)
      modifies this`disk
      ensures DiskOk(disk, lay) && Abs(disk, lay) == Abs(old(disk), lay).(slots := Abs(old(disk), lay).slots[i := d])
    {
      SlotPlace(lay, i);
      SlotWrite(disk, lay, i, d);
      BlockModify(SlotBlock(lay, i), InodeBytes(d), SlotOff(i));
    }

    // ----- inode_size_change

    /** The grow loop: a block at a time, marked and entered in the object. */
    method TakeBlocks(i: nat, old_: nat, new_: nat) returns (r: int, ghost news: seq<nat>)
      requires Sound() && i in known && IsOpen(openInodes, i)
      requires old_ == Blocks(Eff(View(), i).size) && old_ <= new_ <= NDIRECT
      modifies this`disk, this`openInodes
      ensures DiskOk(disk, lay) && CanTake(old(View()), i, news) && View() == Partial(old(View()), i, news)
      ensures r == 0 || r == NO_BIT
      ensures r == 0 ==> old_ + |news| == new_
      ensures r == NO_BIT ==> old_ + |news| < new_ && forall b | 0 <= b < lay.blocks :: View().m.marks[b]
    {
      ghost var f := View();
      assert FileOk(f, i);
      news := [];
      PartialNone(f, i);
      var idx := old_;
      while idx != new_
        invariant old_ <= idx <= new_ && |news| == idx - old_
        invariant DiskOk(disk, lay) && CanTake(f, i, news) && View() == Partial(f, i, news)
        decreases new_ - idx
      {
        EffPartial(f, i, news, i);
        var bidx := AllocBlock();
        if bidx < 0 {
          return bidx, news;
        }
        PartialMore(f, i, news, bidx);
        var k := OpenIdx(openInodes, i);
        var d := openInodes[k].node;
        openInodes := openInodes[k := openInodes[k].(node := d.(direct := d.direct[idx := bidx + lay.BlockBitmap() - 1]))];
        news := news + [bidx];
        idx := idx + 1;
      }
      r := 0;
    }

    /** The shrink loop. That the index ASSERT of `fs_bitmap_free` holds is a matter of ownership. */
    method DropBlocks(i: nat, new_: nat, old_: nat)
      requires Sound() && i in known && IsOpen(openInodes, i) && i < INODE_CNT
      requires new_ <= old_ == Blocks(Eff(View(), i).size) && old_ <= |Eff(View(), i).direct|
      modifies this`disk
      ensures DiskOk(disk, lay)
      ensures var f := old(View());
        View() == f.(m := f.m.(marks := Cleared(f.lay, f.m.marks, Eff(f, i).direct, new_, old_)))
    {
      ghost var f := View();
      ghost var direct := Eff(f, i).direct;
      var k := OpenIdx(openInodes, i);
      var idx := new_;
      ClearedNone(f.lay, f.m.marks, direct, new_);
      while idx != old_
        invariant new_ <= idx <= old_ && DiskOk(disk, lay)
        invariant View() == f.(m := f.m.(marks := Cleared(f.lay, f.m.marks, direct, new_, idx)))
        decreases old_ - idx
      {
        OwnedIndex(f, i, idx);
        FreeBlock(openInodes[k].node.direct[idx] - (lay.BlockBitmap() - 1));
        ClearedMore(f.lay, f.m.marks, direct, new_, idx);
        idx := idx + 1;
      }
    }

    /** The last two statements: the size, and the whole inode to its slot. */
    method StoreSize(i: nat, size: nat)
      requires DiskOk(disk, lay) && i < INODE_CNT && IsOpen(openInodes, i)
      requires Storable(Eff(View(), i).(size := size))
      modifies this`disk, this`openInodes
      ensures DiskOk(disk, lay) && View() == Stored(old(View()), i, size)
    {
      var k := OpenIdx(openInodes, i);
      openInodes := openInodes[k := openInodes[k].(node := openInodes[k].node.(size := size))];
      WriteSlot(i, openInodes[k].node);
    }

    method InodeSizeChange(i: nat, size: nat) returns (r: int)
      requires Sound() && i in known && IsOpen(openInodes, i)
      modifies this`disk, this`openInodes, this`own
      ensures Sound() && Resized(old(View()), View(), i, size, r)
    {
      ghost var f := View();
      assert FileOk(f, i);
      if size > NDIRECT * BLOCK_SIZE {
        return TOO_BIG;
      }
      var k := OpenIdx(openInodes, i);
      var oldBlocks := DivRoundUp(openInodes[k].node.size, BLOCK_SIZE);
      var newBlocks := DivRoundUp(size, BLOCK_SIZE);
      BlocksBound(size);
      if newBlocks < oldBlocks {
        SmallerSize(size, Eff(f, i).size);
        BlocksBound(Eff(f, i).size);
        DropBlocks(i, newBlocks, oldBlocks);
        StoreSize(i, size);
        own := OwnLess(own, i, newBlocks);
        assert View() == Shrunk(f, i, size);
        r := 0;
      } else {
        ghost var news := [];
        PartialNone(f, i);
        if newBlocks > oldBlocks {
          r, news := TakeBlocks(i, oldBlocks, newBlocks);
          if r < 0 {
            assert Stops(f, View(), i, size, news);
            ResizedInv(f, View(), i, size, r);
            return;
          }
        }
        PartialFile(f, i, news, i);
        EffPartial(f, i, news, i);
        StoreSize(i, size);
        own := OwnAll(own, i, oldBlocks, news);
        assert Grows(f, View(), i, size, news);
        r := 0;
      }
      ResizedInv(f, View(), i, size, r);
    }

    // ----- inode_open, inode_close

    method ReadSlot(i: nat) returns (d: DInode)
      requires DiskOk(disk, lay) && i < INODE_CNT
      ensures d == Abs(disk, lay).slots[i]
    {
      SlotRead(disk, lay, i);
      var buf := BlockRead(SlotBlock(lay, i), RECORD_SIZE, SlotOff(i));
      d := ReadInode(buf);
    }

    /** `inode_open`; callers pass the number of a file. */
    method InodeOpen(i: nat) returns (ok: bool)
      requires Sound() && (i < INODE_CNT ==> i in known)
      modifies this`openInodes
      ensures ok <==> i < INODE_CNT
      ensures !ok ==> View() == old(View())
      ensures ok ==> View() == Opened(old(View()), i)
      ensures Sound() && (ok && ExactBut(old(View()), i) ==> Exact(View()))
    {
      if i >= INODE_CNT {
        return false;
      }
      hide Inv, Exact, ExactBut, Agree, Content, ReadInode, Abs, DiskOk, OpenIdx, SlotBlock, SlotOff, ReadAt;
      ghost var f := View();
      OpenedSound(f, i);
      var k := OpenIdx(openInodes, i);
      if k == |openInodes| {
        var d := ReadSlot(i);
        openInodes := [OpenInode(i, d, 0)] + openInodes;
        k := 0;
      }
      openInodes := openInodes[k := openInodes[k].(cnt := openInodes[k].cnt + 1)];
      ok := true;
      OpenedList(f, i);
    }

    method InodeClose(i: nat)
      requires Sound() && i in known && IsOpen(openInodes, i)
      modifies this`openInodes, this`known, this`own
      ensures old(View().open[OpenIdx(openInodes, i)].cnt > 0 && i < |View().m.imarks|)
      ensures View() == Closed(old(View()), i)
      ensures Sound() && (old(Exact(View())) ==> Exact(View()))
    {
      ghost var f := View();
      assert FileOk(f, i);
      hide Inv, Exact, Agree, FileOk, OwnLess, SameInode, Abs;
      ClosedInv(f, i);
      if Exact(f) { ClosedExact(f, i); }
      var k := OpenIdx(openInodes, i);
      openInodes := openInodes[k := openInodes[k].(cnt := openInodes[k].cnt - 1)];
      if openInodes[k].cnt == 0 {
        openInodes := openInodes[..k] + openInodes[k + 1..];
        own := if f.m.imarks[i] && SameInode(Eff(f, i), f.m.slots[i]) then own else OwnLess(own, i, 0);
        known := if f.m.imarks[i] then known else known - {i};
      }
      assert View().open == Closed(f, i).open;
    }

    // ----- inode_read, inode_write

    /** The read loop shared by `inode_read` and `inode_write`. */
    method GatherBlocks(i: nat, from: nat, cnt: nat) returns (io: seq<Byte>)
      requires Sound() && i in known && i < INODE_CNT && IsOpen(openInodes, i) && from + cnt <= Blocks(Eff(View(), i).size)
      ensures Runs(lay, View().m.data, Eff(View(), i).direct, from, cnt)
      ensures io == Gathered(lay, View().m.data, Eff(View(), i).direct, from, cnt) && |io| == cnt * BLOCK_SIZE
    {
      hide Inv, Runs, Abs, DiskOk, ReadAt;
      FileRuns(View(), i, from, cnt);
      GatheredSize(lay, View().m.data, Eff(View(), i).direct, from, cnt);
      var k := OpenIdx(openInodes, i);
      io := [];
      var b := 0;
      while b != cnt
        invariant b <= cnt && io == Gathered(lay, View().m.data, Eff(View(), i).direct, from, b)
        decreases cnt - b
      {
        DataBlock(View(), i, from + b);
        DataRead(disk, lay, Eff(View(), i).direct[from + b]);
        var block := BlockRead(openInodes[k].node.direct[from + b], BLOCK_SIZE, 0);
        io := io + block;
        b := b + 1;
      }
    }

    method InodeRead(i: nat, nbyte: nat, offset: nat) returns (buf: seq<Byte>)
      requires Sound() && i in known && i < INODE_CNT && IsOpen(openInodes, i) && nbyte > 0
      ensures var c := Content(View(), i);
        buf == if offset >= |c| then [] else c[offset..if offset + nbyte <= |c| then offset + nbyte else |c|]
    {
      hide Inv, Runs, Gathered, Covers, Abs, BlockCount;
      var k := OpenIdx(openInodes, i);
      var size := openInodes[k].node.size;
      if offset >= size {
        return [];
      }
      var n := if nbyte + offset > size then size - offset else nbyte;
      RangeCovers(offset, n, size);
      var blockStart := offset / BLOCK_SIZE;
      var blockCnt := DivRoundUp(offset + n, BLOCK_SIZE) - blockStart;
      ReadThrough(View(), i, offset, n, blockStart, blockCnt, offset % BLOCK_SIZE);
      var io := GatherBlocks(i, blockStart, blockCnt);
      buf := io[offset % BLOCK_SIZE..offset % BLOCK_SIZE + n];
    }

    /** The write-back loop. */
    method ScatterBlocks(i: nat, from: nat, cnt: nat, io: seq<Byte>)
      requires Sound() && i in known && i < INODE_CNT && IsOpen(openInodes, i)
      requires from + cnt <= Blocks(Eff(View(), i).size) && |io| == cnt * BLOCK_SIZE
      modifies this`disk
      ensures DiskOk(disk, lay) && Runs(lay, old(View()).m.data, Eff(old(View()), i).direct, from, cnt)
      ensures View() == Rewritten(old(View()), i, from, io, cnt)
    {
      hide Inv, Runs, Abs, DiskOk, Modified;
      ghost var f := View();
      FileRuns(f, i, from, cnt);
      var k := OpenIdx(openInodes, i);
      var b := 0;
      while b != cnt
        invariant b <= cnt && DiskOk(disk, lay) && View() == Rewritten(f, i, from, io, b)
        decreases cnt - b
      {
        DataBlock(f, i, from + b);
        DataRead(disk, lay, Eff(f, i).direct[from + b]);
        DataWrite(disk, lay, Eff(f, i).direct[from + b] - lay.super, io[b * BLOCK_SIZE..(b + 1) * BLOCK_SIZE]);
        BlockModify(openInodes[k].node.direct[from + b], io[b * BLOCK_SIZE..(b + 1) * BLOCK_SIZE], 0);
        b := b + 1;
      }
    }

    method InodeWrite(i: nat, buf: seq<Byte>, offset: nat) returns (r: int)
      requires Sound() && i in known && i < INODE_CNT && IsOpen(openInodes, i) && |buf| > 0
      modifies this`disk, this`openInodes, this`own
      ensures Sound() && WroteVia(old(View()), View(), i, buf, offset, r)
      ensures WriteOutcome(old(View()), View(), i, buf, offset, r)
      ensures old(Exact(View())) ==> Exact(View())
    {
      hide Inv, Runs, Gathered, Rewritten, Abs, Exact, WriteOutcome, Resized, Kept, Agree, Content, Splice;
      ghost var f := View();
      var k := OpenIdx(openInodes, i);
      ghost var grew := offset + |buf| > openInodes[k].node.size;
      if offset + |buf| > openInodes[k].node.size {
        var success := InodeSizeChange(i, offset + |buf|);
        if success < 0 {
          WroteOutcome(f, View(), i, buf, offset, success);
          return success;
        }
        GrownSize(f, View(), i, offset + |buf|);
        ResizedKept(f, View(), i, offset + |buf|, 0);
        KeptOpen(f, View(), i);
      }
      ghost var g := View();
      RangeCovers(offset, |buf|, Eff(g, i).size);
      var blockStart := offset / BLOCK_SIZE;
      var blockCnt := DivRoundUp(offset + |buf|, BLOCK_SIZE) - blockStart;
      var io := GatherBlocks(i, blockStart, blockCnt);
      io := Splice(io, offset % BLOCK_SIZE, buf);
      ScatterBlocks(i, blockStart, blockCnt, io);
      r := |buf|;
      assert Rewrote(g, View(), i, buf, offset);
      assert grew ==> GrewAndWrote(f, g, View(), i, buf, offset);
      WroteOutcome(f, View(), i, buf, offset, r);
    }

    // ----- disk_inode_create, disk_inode_delete

    /** The least free inode number, if any. */
    method DiskInodeCreate() returns (r: int)
      requires Valid()
      modifies this`disk, this`known
      ensures Valid()
      ensures r == NO_BIT <==> forall i | 0 <= i < INODE_CNT :: old(View()).m.imarks[i]
      ensures r == NO_BIT ==> View() == old(View())
      ensures r != NO_BIT ==> 0 <= r < INODE_CNT && !old(View()).m.imarks[r] && View() == Created(old(View()), r)
      ensures r != NO_BIT ==> forall i | 0 <= i < r :: old(View()).m.imarks[i]
    {
      ghost var f := View();
      LayoutAreas(lay);
      r := AllocInBlock(lay.InodeBitmap(), INODE_CNT);
      if r < 0 {
        assert forall i | 0 <= i < INODE_CNT :: f.m.imarks[i];
        return;
      }
      InodeMarkWrite(old(disk), lay, r, 1);
      WriteSlot(r, ZERO_INODE);
      known := known + {r};
      CreatedInv(f, r);
    }

    /** Unmark the inode, open it, cut it to nothing, close it. */
    method DiskInodeDelete(i: nat)
      requires Valid() && i in known
      modifies this`disk, this`openInodes, this`own, this`known
      ensures Valid() && Deleted(old(View()), View(), i) && DeleteOutcome(old(View()), View(), i)
    {
      ghost var f := View();
      assert FileOk(f, i);
      LayoutAreas(lay);
      InodeMarkWrite(disk, lay, i, 0);
      FreeInBlock(lay.InodeBitmap(), INODE_CNT, i);
      UnmarkedInv(f, i);
      UnmarkedOpened(f, i);
      var ok := InodeOpen(i);
      ghost var o := View();
      var r := InodeSizeChange(i, 0);
      ghost var g := View();
      ResizedFacts(o, g, i, 0, r);
      KeptExact(o, g);
      KeptOpen(o, g, i);
      InodeClose(i);
      assert DeletedVia(f, g, View(), i);
      DeletedOutcome(f, g, View(), i);
    }

    // ----- partition_format

    /** `bitmap_format`: every block of the map gets the first page of the buffer. */
    method BitmapFormat(bid: nat, bcnt: nat, size: nat, occur: nat)
      requires occur <= size <= bcnt * BLOCK_SIZE && bid + bcnt <= |disk|
      requires forall k | bid <= k < bid + bcnt :: |disk[k]| == BLOCK_SIZE
      modifies this`disk
      ensures disk == Paged(old(disk), bid, bcnt, FreshBitmap(size, occur))
    {
      var buf := FreshBitmap(size, occur);
      var i := 0;
      assert Paged(disk, bid, 0, buf) == disk;
      while i != bcnt
        invariant i <= bcnt && disk == Paged(old(disk), bid, i, buf)
        decreases bcnt - i
      {
        PagedMore(old(disk), bid, i, buf);
        BlockModify(bid + i, buf, 0);
        i := i + 1;
      }
    }

    /** `partition_format` on a disk with any old contents; the inode table keeps them. */
    constructor (part: Layout, image: seq<Block>, superBlock: Block)
      requires DiskOk(image, part) && |superBlock| == BLOCK_SIZE
      ensures Valid() && lay == part && openInodes == [] && known == {} && own == map[]
      ensures View().m.imarks == seq(INODE_CNT, i => false)
      ensures View().m.marks == seq(part.blocks, b => b < RESERVED)
    {
      lay := part;
      disk := image;
      openInodes := [];
      known, own := {}, map[];
      new;
      LayoutAreas(lay);
      BlockModify(lay.super, superBlock, 0);
      BitmapFormat(lay.BlockBitmap(), DivRoundUp(lay.blocks, BLOCK_SIZE), lay.blocks,
        1 + DivRoundUp(lay.blocks, BLOCK_SIZE) + DivRoundUp(INODE_CNT, BLOCK_SIZE)
        + DivRoundUp(INODE_CNT * DISK_INODE_SIZE, BLOCK_SIZE));
      BitmapFormat(lay.InodeBitmap(), DivRoundUp(INODE_CNT, BLOCK_SIZE), INODE_CNT, 0);
      assert DiskOk(disk, lay);
      assert View().m.imarks == seq(INODE_CNT, i => false);
      assert View().m.marks == seq(lay.blocks, b => b < RESERVED);
      forall i | 0 <= i < INODE_CNT ensures Storable(View().m.slots[i]) { SlotStorable(disk, lay, i); }
    }
  }

  lemma OpenedSound(f: Fs, i: nat)
    requires Inv(f) && i in f.known
    ensures i < |f.m.slots| && Inv(Opened(f, i)) && (ExactBut(f, i) ==> Exact(Opened(f, i)))
  {
    OpenedInv(f, i);
    if ExactBut(f, i) { OpenedExact(f, i); }
  }

  /** The open list after a search that failed, a push, and the count. */
  lemma OpenedList(f: Fs, i: nat)
    requires i < |f.m.slots|
    ensures var k := OpenIdx(f.open, i);
      if k == |f.open|
      then
        var pushed := [OpenInode(i, f.m.slots[i], 0)] + f.open;
        pushed[0 := pushed[0].(cnt := pushed[0].cnt + 1)] == Opened(f, i).open
      else f.open[k := f.open[k].(cnt := f.open[k].cnt + 1)] == Opened(f, i).open
  {
  }

  lemma SlotRead(disk: seq<Block>, lay: Layout, i: nat)
    requires DiskOk(disk, lay) && i < INODE_CNT
    ensures SlotBlock(lay, i) < |disk| && |disk[SlotBlock(lay, i)]| == BLOCK_SIZE
    ensures var s := ReadAt(disk[SlotBlock(lay, i)], RECORD_SIZE, SlotOff(i));
      |s| == RECORD_SIZE && Abs(disk, lay).slots[i] == ReadInode(s)
  {
    SlotPlace(lay, i);
  }

  lemma DataRead(disk: seq<Block>, lay: Layout, bid: nat)
    requires DiskOk(disk, lay) && lay.super + RESERVED <= bid < lay.super + lay.blocks
    ensures bid < |disk| && |disk[bid]| == BLOCK_SIZE
    ensures ReadAt(disk[bid], BLOCK_SIZE, 0) == Abs(disk, lay).data[bid - lay.super]
  {
  }

  lemma DataBlock(f: Fs, i: nat, k: nat)
    requires Inv(f) && i in f.known && i < |f.m.slots| && k < Blocks(Eff(f, i).size)
    ensures k < |Eff(f, i).direct| && f.lay.super + RESERVED <= Eff(f, i).direct[k] < f.lay.super + f.lay.blocks
  {
    assert FileOk(f, i);
    assert BlockOk(f, i, Eff(f, i), k);
    assert OwnOk(f, Eff(f, i).direct[k] - f.lay.super);
  }

  lemma ClearedNone(lay: Layout, marks: seq<bool>, direct: seq<nat>, from: nat)
    requires from <= |direct|
    ensures Cleared(lay, marks, direct, from, from) == marks
  {
  }

  lemma ClearedMore(lay: Layout, marks: seq<bool>, direct: seq<nat>, from: nat, k: nat)
    requires from <= k < |direct| && lay.super <= direct[k] < lay.super + |marks|
    ensures Cleared(lay, marks, direct, from, k + 1) == Cleared(lay, marks, direct, from, k)[direct[k] - lay.super := false]
  {
  }

  /** The block freed by the shrink loop is inside the bitmap. */
  lemma OwnedIndex(f: Fs, i: nat, k: nat)
    requires Inv(f) && i in f.known && i < |f.m.slots| && k < Blocks(Eff(f, i).size)
    ensures k < |Eff(f, i).direct| && f.lay.super <= Eff(f, i).direct[k] < f.lay.super + f.lay.blocks
  {
    assert FileOk(f, i);
    assert BlockOk(f, i, Eff(f, i), k);
    assert OwnOk(f, Eff(f, i).direct[k] - f.lay.super);
  }

  lemma PartialNone(f: Fs, i: nat)
    requires Inv(f) && i in f.known && IsOpen(f.open, i)
    ensures i < |f.m.slots| && CanTake(f, i, []) && Partial(f, i, []) == f
  {
    assert FileOk(f, i);
    BlocksBound(Eff(f, i).size);
    var d := Eff(f, i);
    assert Extended(f.lay, d.direct, Blocks(d.size), []) == d.direct;
    assert MarkAll(f.m.marks, []) == f.m.marks;
    assert WithNode(f, i, d).open == f.open;
  }

  /** One more block taken by the grow loop. */
  lemma PartialMore(f: Fs, i: nat, news: seq<nat>, b: nat)
    requires CanTake(f, i, news) && b < f.lay.blocks && i < |f.m.slots| && !Partial(f, i, news).m.marks[b]
    requires Blocks(Eff(f, i).size) + |news| < NDIRECT
    ensures CanTake(f, i, news + [b])
    ensures var p := Partial(f, i, news);
      var k := OpenIdx(p.open, i);
      var idx := Blocks(Eff(f, i).size) + |news|;
      && k < |p.open| && idx < |p.open[k].node.direct|
      && Partial(f, i, news + [b]) ==
           p.(m := p.m.(marks := p.m.marks[b := true]),
              open := p.open[k := p.open[k].(node := p.open[k].node.(direct := p.open[k].node.direct[idx := f.lay.super + b]))])
  {
    var p := Partial(f, i, news);
    var d := Eff(f, i);
    assert FileOk(f, i);
    EffPartial(f, i, news, i);
    OpenIdxFrame(f.open, p.open, i);
    assert b !in news;
    assert forall c | 0 <= c < RESERVED :: f.m.marks[c];
    assert forall c | 0 <= c < RESERVED :: p.m.marks[c];
    var more := news + [b];
    assert MarkAll(f.m.marks, more) == p.m.marks[b := true];
    assert Extended(f.lay, d.direct, Blocks(d.size), more)
        == Extended(f.lay, d.direct, Blocks(d.size), news)[Blocks(d.size) + |news| := f.lay.super + b];
  }
}
