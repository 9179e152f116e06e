/** Bitmaps with a byte for each bit, over as many blocks as they need: `fs_bitmap_alloc`, `fs_bitmap_free` and `bitmap_format`. */
module FsBitmaps {
  import opened FsBytes
  import opened FsDisk

  /** The block that holds entry `i` of the map from block `start` on. */
  function MapBlock(start: nat, i: nat): nat {
    start + i / BLOCK_SIZE
  }

  predicate MapFits(disk: seq<Block>, start: nat, size: nat) {
    forall i: nat {:trigger MapBlock(start, i)} | i < size :: MapBlock(start, i) < |disk| && |disk[MapBlock(start, i)]| == BLOCK_SIZE
  }

  function MapByte(disk: seq<Block>, start: nat, i: nat): Byte
    requires MapBlock(start, i) < |disk| && |disk[MapBlock(start, i)]| == BLOCK_SIZE
  {
    disk[MapBlock(start, i)][i % BLOCK_SIZE]
  }

  /** Entry `i` becomes `b`. */
  function MapPut(disk: seq<Block>, start: nat, i: nat, b: Byte): seq<Block>
    requires MapBlock(start, i) < |disk| && |disk[MapBlock(start, i)]| == BLOCK_SIZE
  {
    Modified(disk, MapBlock(start, i), [b], i % BLOCK_SIZE)
  }

  /** One byte written is one entry changed, in a map of any number of blocks. */
  lemma MapPutFrame(disk: seq<Block>, start: nat, size: nat, i: nat, b: Byte, j: nat)
    requires MapFits(disk, start, size) && i < size && j < size
    ensures MapFits(MapPut(disk, start, i, b), start, size)
    ensures MapByte(MapPut(disk, start, i, b), start, j) == if j == i then b else MapByte(disk, start, j)
  {
    var bid := MapBlock(start, i);
    OneByte(disk[bid], b, i % BLOCK_SIZE);
    assert i == BLOCK_SIZE * (i / BLOCK_SIZE) + i % BLOCK_SIZE && j == BLOCK_SIZE * (j / BLOCK_SIZE) + j % BLOCK_SIZE;
  }

  /** Entry `i` of a map in one block. */
  predicate SmallMap(disk: seq<Block>, start: nat, size: nat, i: nat) {
    && MapFits(disk, start, size) && i < size && start < |disk|
    && MapBlock(start, i) == start && i < |disk[start]| && MapByte(disk, start, i) == disk[start][i]
    && forall b: Byte {:trigger MapPut(disk, start, i, b)} :: MapPut(disk, start, i, b) == Modified(disk, start, [b], i)
  }

  /** A map of at most 4096 entries is one block. */
  lemma OneBlockMap(disk: seq<Block>, start: nat, size: nat, i: nat)
    requires i < size <= BLOCK_SIZE && start < |disk| && |disk[start]| == BLOCK_SIZE
    ensures SmallMap(disk, start, size, i)
  {
  }

  // ----- bitmap_format

  function FreshByte(size: nat, occur: nat, k: nat): Byte {
    if occur <= k < size then 0 else 1
  }

  /** The first page of the buffer: marked up to `occur`, free up to `size`, marked beyond. */
  function FreshBitmap(size: nat, occur: nat): (r: Block)
    ensures |r| == BLOCK_SIZE
    ensures forall k | 0 <= k < BLOCK_SIZE :: r[k] == if occur <= k < size then 0 else 1
  {
    seq(BLOCK_SIZE, k requires 0 <= k < BLOCK_SIZE => FreshByte(size, occur, k))
  }

  /** The blocks from `bid` to `bid + bcnt` replaced by `page`. */
  function Paged(disk: seq<Block>, bid: nat, bcnt: nat, page: Block): (r: seq<Block>)
    requires bid + bcnt <= |disk|
    ensures |r| == |disk|
    ensures forall k | 0 <= k < |r| :: r[k] == if bid <= k < bid + bcnt then page else disk[k]
  {
    seq(|disk|, k requires 0 <= k < |disk| => if bid <= k < bid + bcnt then page else disk[k])
  }

  lemma PagedMore(disk: seq<Block>, bid: nat, bcnt: nat, page: Block)
    requires bid + bcnt < |disk| && |page| == BLOCK_SIZE && |disk[bid + bcnt]| == BLOCK_SIZE
    ensures Modified(Paged(disk, bid, bcnt, page), bid + bcnt, page, 0) == Paged(disk, bid, bcnt + 1, page)
  {
    assert page[..BLOCK_SIZE] == page;
    assert ModifyAt(disk[bid + bcnt], page, 0) == page;
    assert Paged(disk, bid, bcnt, page)[bid + bcnt := page] == Paged(disk, bid, bcnt + 1, page);
  }

  /** The map that was asked for. */
  ghost predicate RightMap(disk: seq<Block>, bid: nat, bcnt: nat, size: nat, occur: nat) {
    && MapFits(disk, bid, bcnt * BLOCK_SIZE)
    && forall j: nat {:trigger MapByte(disk, bid, j)} | j < bcnt * BLOCK_SIZE :: MapByte(disk, bid, j) == FreshByte(size, occur, j)
  }

  lemma PagedByte(disk: seq<Block>, bid: nat, bcnt: nat, size: nat, occur: nat, j: nat)
    requires bid + bcnt <= |disk| && j < bcnt * BLOCK_SIZE
    ensures var w := Paged(disk, bid, bcnt, FreshBitmap(size, occur));
      && MapBlock(bid, j) < |w| && |w[MapBlock(bid, j)]| == BLOCK_SIZE
      && MapByte(w, bid, j) == FreshByte(size, occur, j % BLOCK_SIZE)
  {
    assert j / BLOCK_SIZE < bcnt;
  }

  /** `bitmap_format` writes the first page of its buffer to every block, so that a map of several blocks comes out
      right only if nothing or everything in it is free. */
  lemma FormatsRightExactly(disk: seq<Block>, bid: nat, bcnt: nat, size: nat, occur: nat)
    requires bcnt > 0 && bid + bcnt <= |disk| && occur <= size <= bcnt * BLOCK_SIZE
    ensures var right := RightMap(Paged(disk, bid, bcnt, FreshBitmap(size, occur)), bid, bcnt, size, occur);
      right <==> bcnt == 1 || occur == size || (occur == 0 && size == bcnt * BLOCK_SIZE)
  {
    var w := Paged(disk, bid, bcnt, FreshBitmap(size, occur));
    forall j: nat | j < bcnt * BLOCK_SIZE
      ensures MapBlock(bid, j) < |w| && |w[MapBlock(bid, j)]| == BLOCK_SIZE
      ensures MapByte(w, bid, j) == FreshByte(size, occur, j % BLOCK_SIZE)
    {
      PagedByte(disk, bid, bcnt, size, occur, j);
    }
    if !(bcnt == 1 || occur == size || (occur == 0 && size == bcnt * BLOCK_SIZE)) {
      var j := WrongAt(bcnt, size, occur);
      assert MapByte(w, bid, j) != FreshByte(size, occur, j);
    }
  }

  /** An entry that differs from the one in its place on the first page. */
  lemma WrongAt(bcnt: nat, size: nat, occur: nat) returns (j: nat)
    requires bcnt > 1 && occur < size <= bcnt * BLOCK_SIZE && !(occur == 0 && size == bcnt * BLOCK_SIZE)
    ensures j < bcnt * BLOCK_SIZE && FreshByte(size, occur, j % BLOCK_SIZE) != FreshByte(size, occur, j)
  {
    if occur >= BLOCK_SIZE {
      j := occur;
    } else if size <= BLOCK_SIZE {
      j := BLOCK_SIZE + occur;
    } else if occur > 0 {
      j := BLOCK_SIZE;
    } else {
      j := size;
    }
  }

  /** The block bitmap of a partition of 4097 blocks, as `partition_format` asks for it: two blocks, and so one more
      reserved block than in a smaller partition. */
  lemma BigPartition(disk: seq<Block>, bid: nat)
    requires bid + 2 <= |disk|
    ensures DivRoundUp(BLOCK_SIZE + 1, BLOCK_SIZE) == 2
    ensures !RightMap(Paged(disk, bid, 2, FreshBitmap(BLOCK_SIZE + 1, RESERVED + 1)), bid, 2, BLOCK_SIZE + 1, RESERVED + 1)
  {
    FormatsRightExactly(disk, bid, 2, BLOCK_SIZE + 1, RESERVED + 1);
  }
}
