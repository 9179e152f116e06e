/** Disk layout of `fs/fs.c`, block transfer of `fs/bio.c`, and the metadata a disk image stands for. */
module FsDisk {
  import opened FsBytes

  const BLOCK_SIZE: nat := 4096
  const INODE_CNT: nat := 128
  const DISK_INODE_SIZE: nat := 128
  const NDIRECT: nat := 12
  const RECORD_SIZE: nat := 104
  // super block, block bitmap, inode bitmap, four blocks of inode table
  const RESERVED: nat := 7

  type Block = seq<Byte>

  function DivRoundUp(x: nat, step: nat): nat
    requires step > 0
  {
    (x + step - 1) / step
  }

  /** The partition: block number of its super block and its size in blocks. */
  datatype Layout = Layout(super: nat, blocks: nat) {
    // `partition_format`; the block bitmap of at most 4096 entries takes one block.
    predicate Valid() {
      RESERVED < blocks <= BLOCK_SIZE && super + blocks < WORD_MAX
    }
    function BlockBitmap(): nat { super + 1 }
    function InodeBitmap(): nat { BlockBitmap() + DivRoundUp(blocks, BLOCK_SIZE) }
    function InodeTable(): nat { InodeBitmap() + DivRoundUp(INODE_CNT, BLOCK_SIZE) }
    function DataStart(): nat { InodeTable() + DivRoundUp(INODE_CNT * DISK_INODE_SIZE, BLOCK_SIZE) }
  }

  /** The areas follow each other without overlap, and the data area starts where the marks of `bitmap_format` end. */
  lemma LayoutAreas(lay: Layout)
    requires lay.Valid()
    ensures lay.InodeBitmap() == lay.super + 2 && lay.InodeTable() == lay.super + 3
    ensures lay.DataStart() == lay.super + RESERVED
  {
    assert (lay.blocks + 4095) / 4096 == 1;
  }

  datatype DInode = DInode(size: nat, direct: seq<nat>)

  predicate Storable(d: DInode) {
    |d.direct| == NDIRECT && d.size < WORD_MAX && forall k | 0 <= k < NDIRECT :: d.direct[k] < WORD_MAX
  }

  function InodeBytes(d: DInode): (r: seq<Byte>)
    requires |d.direct| == NDIRECT
    ensures |r| == RECORD_SIZE
  {
    EncodeWords([d.size] + d.direct)
  }

  function ReadInode(s: seq<Byte>): (d: DInode)
    requires |s| == RECORD_SIZE
    ensures |d.direct| == NDIRECT
  {
    DInode(WordAt(s, 0), seq(NDIRECT, k requires 0 <= k < NDIRECT => WordAt(s, k + 1)))
  }

  lemma InodeRoundTrip(d: DInode)
    requires Storable(d)
    ensures ReadInode(InodeBytes(d)) == d
  {
    var ws := [d.size] + d.direct;
    WordsRoundTrip(ws, 0);
    forall k | 0 <= k < NDIRECT ensures WordAt(InodeBytes(d), k + 1) == d.direct[k] {
      WordsRoundTrip(ws, k + 1);
    }
    assert ReadInode(InodeBytes(d)).direct == d.direct;
  }

  /** The record: the size in its first eight bytes, then the twelve block numbers, low byte first. */
  lemma InodeLayout(d: DInode, k: nat, b: nat)
    requires |d.direct| == NDIRECT && k <= NDIRECT && b < 8
    ensures InodeBytes(d)[8 * k + b] == ((if k == 0 then d.size else d.direct[k - 1]) / Pow256(b)) % 256
  {
    WordBytes([d.size] + d.direct, k, b);
  }

  // ----- fs/bio.c

  ghost predicate DiskOk(disk: seq<Block>, lay: Layout) {
    lay.Valid() && lay.super + lay.blocks <= |disk| && forall i {:trigger disk[i]} | 0 <= i < |disk| :: |disk[i]| == BLOCK_SIZE
  }

  /** Bytes moved by a transfer of `count` at `off`: none past the block, clipped at its end. */
  function Clipped(count: nat, off: nat): nat {
    if off > BLOCK_SIZE then 0 else if off + count > BLOCK_SIZE then BLOCK_SIZE - off else count
  }

  function ReadAt(block: Block, count: nat, off: nat): (r: seq<Byte>)
    requires |block| == BLOCK_SIZE
    ensures |r| == Clipped(count, off)
  {
    if off > BLOCK_SIZE then [] else block[off..off + Clipped(count, off)]
  }

  function ModifyAt(block: Block, buf: seq<Byte>, off: nat): (r: Block)
    requires |block| == BLOCK_SIZE
    ensures |r| == BLOCK_SIZE
  {
    if off > BLOCK_SIZE then block else Splice(block, off, buf[..Clipped(|buf|, off)])
  }

  function Modified(disk: seq<Block>, bid: nat, buf: seq<Byte>, off: nat): seq<Block>
    requires bid < |disk| && |disk[bid]| == BLOCK_SIZE
  {
    disk[bid := ModifyAt(disk[bid], buf, off)]
  }

  /** What was written is what is read back, clipped; what lies outside is untouched. */
  lemma ModifyThenRead(block: Block, buf: seq<Byte>, off: nat)
    requires |block| == BLOCK_SIZE
    ensures ReadAt(ModifyAt(block, buf, off), |buf|, off) == buf[..Clipped(|buf|, off)]
    ensures forall n: nat, o: nat | o + n <= off || off + |buf| <= o :: ReadAt(ModifyAt(block, buf, off), n, o) == ReadAt(block, n, o)
  {
    var m := ModifyAt(block, buf, off);
    if off <= BLOCK_SIZE {
      var c := buf[..Clipped(|buf|, off)];
      SpliceSlice(block, off, c, off, |c|);
      forall n: nat, o: nat | o + n <= off || off + |buf| <= o ensures ReadAt(m, n, o) == ReadAt(block, n, o) {
        if o <= BLOCK_SIZE { SpliceSlice(block, off, c, o, Clipped(n, o)); }
      }
    }
  }

  // ----- what the image stands for

  function Marked(disk: seq<Block>, lay: Layout, i: nat): bool
    requires DiskOk(disk, lay) && i < lay.blocks
  {
    disk[lay.BlockBitmap()][i] != 0
  }

  function InodeMarked(disk: seq<Block>, lay: Layout, i: nat): bool
    requires DiskOk(disk, lay) && i < INODE_CNT
  {
    LayoutAreas(lay);
    disk[lay.InodeBitmap()][i] != 0
  }

  // the macros block_id and block_off
  function SlotBlock(lay: Layout, i: nat): nat {
    (i * DISK_INODE_SIZE) / BLOCK_SIZE + lay.InodeTable()
  }

  function SlotOff(i: nat): nat {
    (i * DISK_INODE_SIZE) % BLOCK_SIZE
  }

  lemma SlotPlace(lay: Layout, i: nat)
    requires lay.Valid() && i < INODE_CNT
    ensures lay.super + 3 <= SlotBlock(lay, i) == lay.super + 3 + i / 32 < lay.super + RESERVED
    ensures SlotOff(i) == i % 32 * 128 && SlotOff(i) + RECORD_SIZE <= BLOCK_SIZE
  {
    LayoutAreas(lay);
  }

  function Slot(disk: seq<Block>, lay: Layout, i: nat): (d: DInode)
    requires DiskOk(disk, lay) && i < INODE_CNT
    ensures |d.direct| == NDIRECT
  {
    SlotPlace(lay, i);
    ReadInode(disk[SlotBlock(lay, i)][SlotOff(i)..SlotOff(i) + RECORD_SIZE])
  }

  /** Block marks, inode marks, inode slots, and the contents of the data blocks. */
  datatype Meta = Meta(marks: seq<bool>, imarks: seq<bool>, slots: seq<DInode>, data: seq<Block>)

  function Abs(disk: seq<Block>, lay: Layout): (m: Meta)
    requires DiskOk(disk, lay)
    ensures |m.marks| == lay.blocks && |m.imarks| == INODE_CNT && |m.slots| == INODE_CNT && |m.data| == lay.blocks
  {
    Meta(seq(lay.blocks, i requires 0 <= i < lay.blocks => Marked(disk, lay, i)),
         seq(INODE_CNT, i requires 0 <= i < INODE_CNT => InodeMarked(disk, lay, i)),
         seq(INODE_CNT, i requires 0 <= i < INODE_CNT => Slot(disk, lay, i)),
         seq(lay.blocks, b requires 0 <= b < lay.blocks => if b < RESERVED then [] else disk[lay.super + b]))
  }

  lemma MarkWrite(disk: seq<Block>, lay: Layout, i: nat, v: Byte)
    requires DiskOk(disk, lay) && i < lay.blocks
    ensures var disk' := Modified(disk, lay.BlockBitmap(), [v], i);
      DiskOk(disk', lay) && Abs(disk', lay) == Abs(disk, lay).(marks := Abs(disk, lay).marks[i := v != 0])
  {
    var disk' := Modified(disk, lay.BlockBitmap(), [v], i);
    LayoutAreas(lay);
    OneByte(disk[lay.BlockBitmap()], v, i);
    forall j | 0 <= j < INODE_CNT ensures Slot(disk', lay, j) == Slot(disk, lay, j) { SlotPlace(lay, j); }
    assert Abs(disk', lay).marks == Abs(disk, lay).marks[i := v != 0];
    assert Abs(disk', lay).slots == Abs(disk, lay).slots;
  }

  lemma OneByte(block: Block, v: Byte, i: nat)
    requires |block| == BLOCK_SIZE && i < BLOCK_SIZE
    ensures ModifyAt(block, [v], i) == block[i := v]
  {
    assert [v][..1] == [v];
  }

  lemma InodeMarkWrite(disk: seq<Block>, lay: Layout, i: nat, v: Byte)
    requires DiskOk(disk, lay) && i < INODE_CNT && lay.InodeBitmap() < |disk|
    ensures var disk' := Modified(disk, lay.InodeBitmap(), [v], i);
      DiskOk(disk', lay) && Abs(disk', lay) == Abs(disk, lay).(imarks := Abs(disk, lay).imarks[i := v != 0])
  {
    var disk' := Modified(disk, lay.InodeBitmap(), [v], i);
    LayoutAreas(lay);
    OneByte(disk[lay.InodeBitmap()], v, i);
    forall j | 0 <= j < INODE_CNT ensures Slot(disk', lay, j) == Slot(disk, lay, j) { SlotPlace(lay, j); }
    assert Abs(disk', lay).imarks == Abs(disk, lay).imarks[i := v != 0];
    assert Abs(disk', lay).slots == Abs(disk, lay).slots;
  }

  /** Inode slots do not overlap: writing one changes no other. */
  lemma SlotWrite(disk: seq<Block>, lay: Layout, i: nat, d: DInode)
    requires DiskOk(disk, lay) && i < INODE_CNT && Storable(d) && SlotBlock(lay, i) < |disk|
    ensures var disk' := Modified(disk, SlotBlock(lay, i), InodeBytes(d), SlotOff(i));
      DiskOk(disk', lay) && Abs(disk', lay) == Abs(disk, lay).(slots := Abs(disk, lay).slots[i := d])
  {
    var disk' := Modified(disk, SlotBlock(lay, i), InodeBytes(d), SlotOff(i));
    LayoutAreas(lay);
    SlotPlace(lay, i);
    InodeRoundTrip(d);
    forall j | 0 <= j < INODE_CNT ensures Slot(disk', lay, j) == if j == i then d else Slot(disk, lay, j) {
      SlotWriteAt(disk, lay, i, d, j);
    }
    assert Abs(disk', lay).slots == Abs(disk, lay).slots[i := d];
  }

  lemma SlotWriteAt(disk: seq<Block>, lay: Layout, i: nat, d: DInode, j: nat)
    requires DiskOk(disk, lay) && i < INODE_CNT && j < INODE_CNT && Storable(d) && SlotBlock(lay, i) < |disk|
    ensures var disk' := Modified(disk, SlotBlock(lay, i), InodeBytes(d), SlotOff(i));
      DiskOk(disk', lay) && Slot(disk', lay, j) == if j == i then d else Slot(disk, lay, j)
  {
    SlotPlace(lay, i);
    SlotPlace(lay, j);
    InodeRoundTrip(d);
    var blk, rec := disk[SlotBlock(lay, i)], InodeBytes(d);
    assert rec[..Clipped(RECORD_SIZE, SlotOff(i))] == rec;
    if SlotBlock(lay, j) == SlotBlock(lay, i) {
      if i != j { SlotsApart(i, j); }
      SpliceSlice(blk, SlotOff(i), rec, SlotOff(j), RECORD_SIZE);
    }
  }

  lemma SlotsApart(i: nat, j: nat)
    requires i / 32 == j / 32 && i != j
    ensures i % 32 * 128 + 128 <= j % 32 * 128 || j % 32 * 128 + 128 <= i % 32 * 128
  {
  }

  lemma DataWrite(disk: seq<Block>, lay: Layout, b: nat, blk: Block)
    requires DiskOk(disk, lay) && RESERVED <= b < lay.blocks && |blk| == BLOCK_SIZE
    ensures var disk' := Modified(disk, lay.super + b, blk, 0);
      DiskOk(disk', lay) && Abs(disk', lay) == Abs(disk, lay).(data := Abs(disk, lay).data[b := blk])
  {
    var disk' := Modified(disk, lay.super + b, blk, 0);
    LayoutAreas(lay);
    assert blk[..BLOCK_SIZE] == blk;
    assert ModifyAt(disk[lay.super + b], blk, 0) == blk;
    assert disk' == disk[lay.super + b := blk];
    forall j | 0 <= j < INODE_CNT ensures Slot(disk', lay, j) == Slot(disk, lay, j) { SlotPlace(lay, j); }
    assert Abs(disk', lay).marks == Abs(disk, lay).marks;
    assert Abs(disk', lay).imarks == Abs(disk, lay).imarks;
    assert Abs(disk', lay).slots == Abs(disk, lay).slots;
    assert Abs(disk', lay).data == Abs(disk, lay).data[b := blk];
  }

  /** Whatever the bytes, a slot holds 64-bit numbers. */
  lemma SlotStorable(disk: seq<Block>, lay: Layout, i: nat)
    requires DiskOk(disk, lay) && i < INODE_CNT
    ensures Storable(Slot(disk, lay, i))
  {
    SlotPlace(lay, i);
    var s := disk[SlotBlock(lay, i)][SlotOff(i)..SlotOff(i) + RECORD_SIZE];
    forall k | 0 <= k < 13 ensures WordAt(s, k) < WORD_MAX {
      DecodeBound(s[8 * k..8 * k + 8]);
      Pow256Of8();
    }
    forall k | 0 <= k < NDIRECT ensures ReadInode(s).direct[k] < WORD_MAX {
      assert WordAt(s, k + 1) < WORD_MAX;
    }
  }
}
