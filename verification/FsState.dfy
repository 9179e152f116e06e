/** Ownership of blocks by open and stored inodes: the invariant of `fs/inode.c`. */
module FsState {
  import opened FsBytes
  import opened FsDisk

  const FILE_MAX: nat := NDIRECT * BLOCK_SIZE

  /** `struct inode`: one element of the open_inodes list. */
  datatype OpenInode = OpenInode(ino: nat, node: DInode, cnt: nat)

  function Blocks(size: nat): nat {
    DivRoundUp(size, BLOCK_SIZE)
  }

  /** Position of inode `i` on the open list, or its length. */
  function OpenIdx(open: seq<OpenInode>, i: nat): (k: nat)
    ensures k <= |open|
    ensures k < |open| ==> open[k].ino == i
    ensures forall j | 0 <= j < k :: open[j].ino != i
  {
    if open == [] || open[0].ino == i then 0 else 1 + OpenIdx(open[1..], i)
  }

  predicate IsOpen(open: seq<OpenInode>, i: nat) {
    OpenIdx(open, i) < |open|
  }

  // Which file and which of its blocks a data block is.
  datatype Owner = Owner(ino: nat, k: nat)

  /** Metadata, open list, and two records of the model: which block belongs to whom, and which inode
      numbers name a file (marked, open, or in the course of being deleted). */
  datatype Fs = Fs(lay: Layout, m: Meta, open: seq<OpenInode>, own: map<nat, Owner>, known: set<nat>)

  /** The inode as the kernel sees it: the open object if there is one, else the slot on disk. */
  function Eff(f: Fs, i: nat): DInode
    requires i < |f.m.slots|
  {
    var k := OpenIdx(f.open, i);
    if k < |f.open| then f.open[k].node else f.m.slots[i]
  }

  /** At most one object a number, each in use. */
  ghost predicate ListOk(open: seq<OpenInode>, known: set<nat>) {
    && (forall i, j {:trigger open[i], open[j]} | 0 <= i < j < |open| :: open[i].ino != open[j].ino)
    && (forall k {:trigger open[k]} | 0 <= k < |open| :: open[k].ino in known && open[k].cnt > 0)
  }

  ghost predicate Shape(f: Fs) {
    && f.lay.Valid()
    && |f.m.marks| == |f.m.data| == f.lay.blocks && |f.m.imarks| == |f.m.slots| == INODE_CNT
    && (forall b {:trigger f.m.data[b]} | RESERVED <= b < f.lay.blocks :: |f.m.data[b]| == BLOCK_SIZE)
    && ListOk(f.open, f.known)
    && (forall i {:trigger i in f.known} | i in f.known :: i < INODE_CNT)
    && (forall i {:trigger f.m.imarks[i]} | 0 <= i < INODE_CNT && f.m.imarks[i] :: i in f.known)
    && (forall b {:trigger f.m.marks[b]} | 0 <= b < RESERVED :: f.m.marks[b])
    && (forall i {:trigger Storable(f.m.slots[i])} | 0 <= i < INODE_CNT :: Storable(f.m.slots[i]))
  }

  /** Block `k` of inode `d` is the one recorded for file `i`. */
  ghost predicate BlockOk(f: Fs, i: nat, d: DInode, k: nat) {
    k < |d.direct| && d.direct[k] >= f.lay.super && d.direct[k] - f.lay.super in f.own
    && f.own[d.direct[k] - f.lay.super] == Owner(i, k)
  }

  ghost predicate FileOk(f: Fs, i: nat)
    requires i < |f.m.slots|
  {
    var d := Eff(f, i);
    Storable(d) && d.size <= FILE_MAX && forall k: nat {:trigger BlockOk(f, i, d, k)} | k < Blocks(d.size) :: BlockOk(f, i, d, k)
  }

  ghost predicate OwnOk(f: Fs, b: nat)
    requires b in f.own
  {
    && RESERVED <= b < |f.m.marks| && f.m.marks[b]
    && var o := f.own[b];
    o.ino in f.known && o.ino < |f.m.slots| && o.k < Blocks(Eff(f, o.ino).size)
    && o.k < |Eff(f, o.ino).direct| && Eff(f, o.ino).direct[o.k] == f.lay.super + b
  }

  /** Same size and same owned prefix of `direct`. */
  predicate SameInode(a: DInode, b: DInode) {
    a.size == b.size && forall k | 0 <= k < Blocks(a.size) && k < |a.direct| && k < |b.direct| :: a.direct[k] == b.direct[k]
  }

  /** The slot of an open inode is what the object says, or empty. */
  ghost predicate SlotOk(f: Fs, i: nat)
    requires i < |f.m.slots|
  {
    IsOpen(f.open, i) ==> SameInode(Eff(f, i), f.m.slots[i]) || f.m.slots[i].size == 0
  }

  /** In every reachable state: blocks of files are pairwise distinct, marked, and in the data area. */
  ghost predicate Inv(f: Fs) {
    && Shape(f)
    && (forall i {:trigger FileOk(f, i)} | i in f.known :: FileOk(f, i))
    && (forall b {:trigger OwnOk(f, b)} | b in f.own :: OwnOk(f, b))
    && (forall i {:trigger SlotOk(f, i)} | i in f.known :: SlotOk(f, i))
  }

  /** Between calls the files are exactly the marked and the open inodes. */
  ghost predicate Exact(f: Fs) {
    forall i {:trigger i in f.known} | i in f.known :: i < |f.m.imarks| && (f.m.imarks[i] || IsOpen(f.open, i))
  }

  /** Every open object agrees with its slot. */
  ghost predicate Agree(f: Fs) {
    forall i {:trigger SameInode(Eff(f, i), f.m.slots[i])} | 0 <= i < |f.m.slots| && IsOpen(f.open, i) ::
      SameInode(Eff(f, i), f.m.slots[i])
  }

  /** Marked data blocks that belong to no file. */
  function Leaked(f: Fs): set<nat> {
    set b: nat {:trigger f.m.marks[b]} | RESERVED <= b < |f.m.marks| && f.m.marks[b] && b !in f.own
  }

  // ----- contents

  function ByteAt(lay: Layout, data: seq<Block>, d: DInode, k: nat): Byte {
    var q, r := k / BLOCK_SIZE, k % BLOCK_SIZE;
    if q < |d.direct| && lay.super <= d.direct[q] < lay.super + |data| && r < |data[d.direct[q] - lay.super]|
    then data[d.direct[q] - lay.super][r] else 0
  }

  function ContentOf(lay: Layout, data: seq<Block>, d: DInode): (s: seq<Byte>)
    ensures |s| == d.size
  {
    seq(d.size, k requires 0 <= k < d.size => ByteAt(lay, data, d, k))
  }

  /** The byte string file `i` stands for. */
  function Content(f: Fs, i: nat): (s: seq<Byte>)
    requires i < |f.m.slots|
    ensures |s| == Eff(f, i).size
  {
    ContentOf(f.lay, f.m.data, Eff(f, i))
  }

  // ----- what the invariant means

  /** Two files, or two places in one file, never share a block; every block is marked and a data block. */
  lemma BlocksDistinct(f: Fs, i: nat, k: nat, j: nat, l: nat)
    requires Inv(f) && i in f.known && j in f.known
    requires k < Blocks(Eff(f, i).size) && l < Blocks(Eff(f, j).size)
    ensures k < NDIRECT && |Eff(f, i).direct| == NDIRECT && |Eff(f, j).direct| == NDIRECT && l < NDIRECT
    ensures Eff(f, i).direct[k] == Eff(f, j).direct[l] ==> i == j && k == l
    ensures f.lay.DataStart() <= Eff(f, i).direct[k] < f.lay.super + f.lay.blocks
    ensures f.m.marks[Eff(f, i).direct[k] - f.lay.super]
  {
    LayoutAreas(f.lay);
    assert FileOk(f, i) && FileOk(f, j);
    var d, e := Eff(f, i), Eff(f, j);
    assert BlockOk(f, i, d, k) && BlockOk(f, j, e, l);
    assert OwnOk(f, d.direct[k] - f.lay.super);
  }

  /** The marks are exactly the reserved blocks, the owned ones and the leaked ones, and these are disjoint. */
  lemma MarksPartition(f: Fs, b: nat)
    requires Inv(f) && b < f.lay.blocks
    ensures f.m.marks[b] <==> b < RESERVED || b in f.own || b in Leaked(f)
    ensures !(b < RESERVED && b in f.own) && !(b in f.own && b in Leaked(f))
    ensures b in f.own <==> exists i, k: nat ::
              i in f.known && k < Blocks(Eff(f, i).size) && k < |Eff(f, i).direct| && Eff(f, i).direct[k] == f.lay.super + b
  {
    if b in f.own {
      assert OwnOk(f, b);
      var o := f.own[b];
      assert o.ino in f.known && o.k < Blocks(Eff(f, o.ino).size) && Eff(f, o.ino).direct[o.k] == f.lay.super + b;
    }
    forall i, k: nat | i in f.known && k < Blocks(Eff(f, i).size) && k < |Eff(f, i).direct| && Eff(f, i).direct[k] == f.lay.super + b
      ensures b in f.own
    {
      assert FileOk(f, i);
      assert BlockOk(f, i, Eff(f, i), k);
    }
  }

  lemma BlocksBound(size: nat)
    ensures size <= FILE_MAX ==> Blocks(size) <= NDIRECT
    ensures forall k: nat | k < size :: k / BLOCK_SIZE < Blocks(size)
    ensures Blocks(size) * BLOCK_SIZE >= size && (size > 0 ==> (Blocks(size) - 1) * BLOCK_SIZE < size)
  {
  }
}
