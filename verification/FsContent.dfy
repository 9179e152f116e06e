/** Contents of files under growing, shrinking and block-wise writing. */
module FsContent {
  import opened FsBytes
  import opened FsDisk
  import opened FsState
  import opened FsSteps

  lemma ContentPrefix(lay: Layout, data: seq<Block>, d: DInode, e: DInode, n: nat)
    requires n <= d.size && n <= e.size
    requires forall q | 0 <= q < Blocks(n) :: q < |d.direct| && q < |e.direct| && d.direct[q] == e.direct[q]
    ensures ContentOf(lay, data, d)[..n] == ContentOf(lay, data, e)[..n]
  {
    BlocksBound(n);
    forall k: nat | k < n ensures ByteAt(lay, data, d, k) == ByteAt(lay, data, e, k) {
      assert k / BLOCK_SIZE < Blocks(n);
    }
  }

  // ----- growing

  /** Growing keeps every other file, and the old bytes of this one that the new size covers. */
  lemma GrownContent(f: Fs, i: nat, news: seq<nat>, size: nat, j: nat)
    requires CanTake(f, i, news) && j < INODE_CNT
    ensures j != i ==> Content(Grown(f, i, news, size), j) == Content(f, j)
    ensures j == i ==> |Content(Grown(f, i, news, size), i)| == size
    ensures var n := if size < Eff(f, i).size then size else Eff(f, i).size;
      j == i ==> Content(Grown(f, i, news, size), i)[..n] == Content(f, i)[..n]
  {
    EffGrown(f, i, news, size, j);
    if j == i {
      assert FileOk(f, i);
      var n := if size < Eff(f, i).size then size else Eff(f, i).size;
      BlocksBound(Eff(f, i).size);
      BlocksMonotone(n, Eff(f, i).size);
      ContentPrefix(f.lay, f.m.data, Eff(Grown(f, i, news, size), i), Eff(f, i), n);
    }
  }

  lemma PartialContent(f: Fs, i: nat, news: seq<nat>, j: nat)
    requires CanTake(f, i, news) && j < INODE_CNT
    ensures Content(Partial(f, i, news), j) == Content(f, j)
  {
    EffPartial(f, i, news, j);
    if j == i {
      assert FileOk(f, i);
      var n := Eff(f, i).size;
      BlocksBound(n);
      ContentPrefix(f.lay, f.m.data, Eff(Partial(f, i, news), i), Eff(f, i), n);
      assert Content(f, i)[..n] == Content(f, i);
      assert Content(Partial(f, i, news), i)[..n] == Content(Partial(f, i, news), i);
    }
  }

  // ----- shrinking

  /** The loop of a shrink: the marks of blocks `from` up to `upto` of the inode are cleared. */
  function Cleared(lay: Layout, marks: seq<bool>, direct: seq<nat>, from: nat, upto: nat): (r: seq<bool>)
    requires upto <= |direct|
    ensures |r| == |marks|
  {
    seq(|marks|, b requires 0 <= b < |marks| => marks[b] && !exists k | from <= k < upto :: direct[k] == lay.super + b)
  }

  function OwnLess(own: map<nat, Owner>, i: nat, from: nat): map<nat, Owner> {
    map b | b in own && !(own[b].ino == i && own[b].k >= from) :: own[b]
  }

  function Shrunk(f: Fs, i: nat, size: nat): Fs
    requires IsOpen(f.open, i) && i < |f.m.slots| && Blocks(Eff(f, i).size) <= |Eff(f, i).direct|
  {
    var d, from := Eff(f, i), Blocks(size);
    Stored(f, i, size).(own := OwnLess(f.own, i, from),
      m := Stored(f, i, size).m.(marks := Cleared(f.lay, f.m.marks, d.direct, from, Blocks(d.size))))
  }

  lemma EffShrunk(f: Fs, i: nat, size: nat, j: nat)
    requires IsOpen(f.open, i) && i < |f.m.slots| && j < |f.m.slots| && Blocks(Eff(f, i).size) <= |Eff(f, i).direct|
    ensures Eff(Shrunk(f, i, size), j) == if j == i then Eff(f, i).(size := size) else Eff(f, j)
    ensures IsOpen(Shrunk(f, i, size).open, j) == IsOpen(f.open, j)
  {
    EffStored(f, i, size, j);
  }

  ghost predicate CanShrink(f: Fs, i: nat, size: nat) {
    Inv(f) && i in f.known && IsOpen(f.open, i) && i < |f.m.slots| && size <= Eff(f, i).size
  }

  /** A block is freed exactly if it is one of the blocks the file gives up. */
  lemma ClearedMark(f: Fs, i: nat, size: nat, b: nat)
    requires CanShrink(f, i, size) && b < f.lay.blocks
    ensures FileOk(f, i) && Blocks(Eff(f, i).size) <= NDIRECT
    ensures Cleared(f.lay, f.m.marks, Eff(f, i).direct, Blocks(size), Blocks(Eff(f, i).size))[b]
      == (f.m.marks[b] && !(b in f.own && f.own[b].ino == i && f.own[b].k >= Blocks(size)))
  {
    assert FileOk(f, i);
    BlocksBound(Eff(f, i).size);
    var d := Eff(f, i);
    if b in f.own && f.own[b].ino == i && f.own[b].k >= Blocks(size) {
      assert OwnOk(f, b);
      assert d.direct[f.own[b].k] == f.lay.super + b;
    }
    forall k: nat | Blocks(size) <= k < Blocks(d.size) && d.direct[k] == f.lay.super + b
      ensures b in f.own && f.own[b] == Owner(i, k)
    {
      assert BlockOk(f, i, d, k);
    }
  }

  lemma ShrunkFile(f: Fs, i: nat, size: nat, j: nat)
    requires CanShrink(f, i, size) && j in f.known
    ensures j < INODE_CNT && Blocks(Eff(f, i).size) <= |Eff(f, i).direct| && FileOk(Shrunk(f, i, size), j)
  {
    assert FileOk(f, i) && FileOk(f, j);
    BlocksBound(Eff(f, i).size);
    EffShrunk(f, i, size, j);
    var f' := Shrunk(f, i, size);
    var d, d' := Eff(f, j), Eff(f', j);
    BlocksMonotone(size, Eff(f, i).size);
    forall k: nat | k < Blocks(d'.size) ensures BlockOk(f', j, d', k) {
      assert BlockOk(f, j, d, k);
    }
  }

  lemma BlocksMonotone(a: nat, b: nat)
    requires a <= b
    ensures Blocks(a) <= Blocks(b)
  {
  }

  lemma ShrunkOwn(f: Fs, i: nat, size: nat, b: nat)
    requires CanShrink(f, i, size) && Blocks(Eff(f, i).size) <= |Eff(f, i).direct| && b in Shrunk(f, i, size).own
    ensures OwnOk(Shrunk(f, i, size), b)
  {
    assert OwnOk(f, b);
    EffShrunk(f, i, size, f.own[b].ino);
    ClearedMark(f, i, size, b);
  }

  /** Shrinking frees exactly the blocks given up and keeps everything else. */
  lemma ShrunkInv(f: Fs, i: nat, size: nat)
    requires CanShrink(f, i, size)
    ensures Blocks(Eff(f, i).size) <= |Eff(f, i).direct|
    ensures Inv(Shrunk(f, i, size)) && Leaked(Shrunk(f, i, size)) == Leaked(f)
  {
    assert FileOk(f, i);
    BlocksBound(Eff(f, i).size);
    var f' := Shrunk(f, i, size);
    ShrunkShape(f, i, size);
    forall j | j in f'.known ensures FileOk(f', j) { ShrunkFile(f, i, size, j); }
    forall b | b in f'.own ensures OwnOk(f', b) { ShrunkOwn(f, i, size, b); }
    forall j | j in f'.known ensures SlotOk(f', j) {
      assert SlotOk(f, j);
      EffShrunk(f, i, size, j);
      EffShrunk(f, i, size, i);
    }
    forall b: nat | b < f.lay.blocks ensures b in Leaked(f') <==> b in Leaked(f) {
      ClearedMark(f, i, size, b);
      if b in f.own { assert OwnOk(f, b); }
    }
    assert Leaked(f') == Leaked(f);
  }

  lemma ShrunkShape(f: Fs, i: nat, size: nat)
    requires CanShrink(f, i, size) && Blocks(Eff(f, i).size) <= |Eff(f, i).direct|
    ensures Shape(Shrunk(f, i, size))
  {
    var f' := Shrunk(f, i, size);
    assert FileOk(f, i);
    StoredShape(f, i, size);
    forall b | 0 <= b < RESERVED ensures f'.m.marks[b] {
      ClearedMark(f, i, size, b);
      assert f.m.marks[b] && (b in f.own ==> OwnOk(f, b));
    }
  }

  lemma ShrunkContent(f: Fs, i: nat, size: nat, j: nat)
    requires CanShrink(f, i, size) && j < INODE_CNT
    ensures Blocks(Eff(f, i).size) <= |Eff(f, i).direct|
    ensures Content(Shrunk(f, i, size), j) == if j == i then Content(f, i)[..size] else Content(f, j)
  {
    assert FileOk(f, i);
    BlocksBound(Eff(f, i).size);
    EffShrunk(f, i, size, j);
    if j == i {
      BlocksMonotone(size, Eff(f, i).size);
      ContentPrefix(f.lay, f.m.data, Eff(Shrunk(f, i, size), i), Eff(f, i), size);
      assert Content(Shrunk(f, i, size), i)[..size] == Content(Shrunk(f, i, size), i);
    }
  }

  // ----- reading and writing whole blocks through a buffer

  /** Blocks `from` up to `from + n` of an inode, one after another. */
  function Gathered(lay: Layout, data: seq<Block>, direct: seq<nat>, from: nat, n: nat): seq<Byte>
    requires from + n <= |direct| && forall q | from <= q < from + n :: lay.super <= direct[q] < lay.super + |data|
  {
    if n == 0 then [] else Gathered(lay, data, direct, from, n - 1) + data[direct[from + n - 1] - lay.super]
  }

  /** The blocks after the first `n` blocks of `io` were written back to them. */
  function Scattered(lay: Layout, data: seq<Block>, direct: seq<nat>, from: nat, io: seq<Byte>, n: nat): (r: seq<Block>)
    requires from + n <= |direct| && n * BLOCK_SIZE <= |io|
    requires forall q | from <= q < from + n :: lay.super <= direct[q] < lay.super + |data|
    ensures |r| == |data|
  {
    if n == 0 then data
    else Scattered(lay, data, direct, from, io, n - 1)
           [direct[from + n - 1] - lay.super := io[(n - 1) * BLOCK_SIZE..n * BLOCK_SIZE]]
  }

  ghost predicate Runs(lay: Layout, data: seq<Block>, direct: seq<nat>, from: nat, n: nat) {
    && from + n <= |direct|
    && (forall q {:trigger direct[q]} | from <= q < from + n ::
          lay.super <= direct[q] < lay.super + |data| && |data[direct[q] - lay.super]| == BLOCK_SIZE)
    && (forall q, p {:trigger direct[q], direct[p]} | from <= q < p < from + n :: direct[q] != direct[p])
  }

  lemma {:induction false} GatheredAt(lay: Layout, data: seq<Block>, direct: seq<nat>, from: nat, n: nat, j: nat, r: nat)
    requires Runs(lay, data, direct, from, n) && j < n && r < BLOCK_SIZE
    ensures |Gathered(lay, data, direct, from, n)| == n * BLOCK_SIZE && j * BLOCK_SIZE + r < n * BLOCK_SIZE
    ensures Gathered(lay, data, direct, from, n)[j * BLOCK_SIZE + r] == data[direct[from + j] - lay.super][r]
  {
    if n == 1 {
      assert Gathered(lay, data, direct, from, 0) == [];
    } else {
      GatheredAt(lay, data, direct, from, n - 1, if j < n - 1 then j else 0, r);
    }
  }

  lemma {:induction false} ScatteredHit(lay: Layout, data: seq<Block>, direct: seq<nat>, from: nat, io: seq<Byte>, n: nat, j: nat)
    requires Runs(lay, data, direct, from, n) && n * BLOCK_SIZE <= |io| && j < n
    ensures Scattered(lay, data, direct, from, io, n)[direct[from + j] - lay.super] == io[j * BLOCK_SIZE..(j + 1) * BLOCK_SIZE]
  {
    if j < n - 1 {
      ScatteredHit(lay, data, direct, from, io, n - 1, j);
      assert direct[from + j] != direct[from + n - 1];
    }
  }

  lemma {:induction false} ScatteredMiss(lay: Layout, data: seq<Block>, direct: seq<nat>, from: nat, io: seq<Byte>, n: nat, b: nat)
    requires Runs(lay, data, direct, from, n) && n * BLOCK_SIZE <= |io| && b < |data|
    requires forall q {:trigger direct[q]} | from <= q < from + n :: direct[q] != lay.super + b
    ensures Scattered(lay, data, direct, from, io, n)[b] == data[b]
  {
    if n > 0 {
      ScatteredMiss(lay, data, direct, from, io, n - 1, b);
      assert direct[from + n - 1] != lay.super + b;
    }
  }

  /** The blocks of a known file from `from` on can be gathered and scattered. */
  lemma FileRuns(f: Fs, i: nat, from: nat, n: nat)
    requires Inv(f) && i in f.known && i < |f.m.slots| && from + n <= Blocks(Eff(f, i).size)
    ensures Runs(f.lay, f.m.data, Eff(f, i).direct, from, n)
  {
    assert FileOk(f, i);
    var d := Eff(f, i);
    BlocksBound(d.size);
    forall q | from <= q < from + n
      ensures d.direct[q] >= f.lay.super && d.direct[q] - f.lay.super in f.own && f.own[d.direct[q] - f.lay.super] == Owner(i, q)
      ensures RESERVED <= d.direct[q] - f.lay.super < |f.m.data|
    {
      assert BlockOk(f, i, d, q);
      assert OwnOk(f, d.direct[q] - f.lay.super);
    }
  }

  /** The state after the write-back loop of `inode_write`. */
  function Rewritten(f: Fs, i: nat, from: nat, io: seq<Byte>, n: nat): Fs
    requires i < |f.m.slots| && n * BLOCK_SIZE <= |io| && from + n <= |Eff(f, i).direct|
    requires forall q | from <= q < from + n :: f.lay.super <= Eff(f, i).direct[q] < f.lay.super + |f.m.data|
  {
    f.(m := f.m.(data := Scattered(f.lay, f.m.data, Eff(f, i).direct, from, io, n)))
  }

  /** A byte of a file after the write-back: from the buffer if its block was written, else as before. */
  lemma RewrittenByte(f: Fs, i: nat, from: nat, io: seq<Byte>, n: nat, j: nat, k: nat)
    requires Inv(f) && i in f.known && j in f.known && from + n <= Blocks(Eff(f, i).size) && n * BLOCK_SIZE <= |io|
    requires i < |f.m.slots| && j < |f.m.slots| && k < Eff(f, j).size && Runs(f.lay, f.m.data, Eff(f, i).direct, from, n)
    ensures ByteAt(f.lay, Rewritten(f, i, from, io, n).m.data, Eff(f, j), k) ==
      if j == i && from * BLOCK_SIZE <= k < (from + n) * BLOCK_SIZE
      then io[k - from * BLOCK_SIZE]
      else ByteAt(f.lay, f.m.data, Eff(f, j), k)
  {
    assert FileOk(f, j) && FileOk(f, i);
    var d, e, q := Eff(f, i), Eff(f, j), k / BLOCK_SIZE;
    BlocksBound(e.size);
    BlocksBound(d.size);
    assert BlockOk(f, j, e, q);
    var b := e.direct[q] - f.lay.super;
    assert OwnOk(f, b);
    if j == i && from <= q < from + n {
      ScatteredHit(f.lay, f.m.data, d.direct, from, io, n, q - from);
      assert f.m.data[b] == f.m.data[b] && |f.m.data[b]| == BLOCK_SIZE;
    } else {
      forall p | from <= p < from + n ensures d.direct[p] != f.lay.super + b {
        assert BlockOk(f, i, d, p);
      }
      ScatteredMiss(f.lay, f.m.data, d.direct, from, io, n, b);
    }
  }

  lemma {:induction false} ScatteredShape(lay: Layout, data: seq<Block>, direct: seq<nat>, from: nat, io: seq<Byte>, n: nat, b: nat)
    requires Runs(lay, data, direct, from, n) && n * BLOCK_SIZE <= |io| && b < |data| && |data[b]| == BLOCK_SIZE
    ensures |Scattered(lay, data, direct, from, io, n)[b]| == BLOCK_SIZE
  {
    if n > 0 { ScatteredShape(lay, data, direct, from, io, n - 1, b); }
  }

  /** Writing data blocks touches no metadata. */
  lemma RewrittenInv(f: Fs, i: nat, from: nat, io: seq<Byte>, n: nat)
    requires Inv(f) && i in f.known && i < |f.m.slots| && from + n <= Blocks(Eff(f, i).size) && n * BLOCK_SIZE <= |io|
    requires Runs(f.lay, f.m.data, Eff(f, i).direct, from, n)
    ensures Inv(Rewritten(f, i, from, io, n))
  {
    var f' := Rewritten(f, i, from, io, n);
    forall b | RESERVED <= b < f.lay.blocks ensures |f'.m.data[b]| == BLOCK_SIZE {
      ScatteredShape(f.lay, f.m.data, Eff(f, i).direct, from, io, n, b);
    }
    forall j | j in f'.known ensures FileOk(f', j) {
      assert FileOk(f, j);
      forall k: nat | k < Blocks(Eff(f', j).size) ensures BlockOk(f', j, Eff(f', j), k) { assert BlockOk(f, j, Eff(f, j), k); }
    }
    forall b | b in f'.own ensures OwnOk(f', b) { assert OwnOk(f, b); }
    forall j | j in f'.known ensures SlotOk(f', j) { assert SlotOk(f, j); }
  }

  /** What a write of `buf` at `offset` makes of a byte string: a gap keeps whatever the file had there. */
  ghost predicate Written(was: seq<Byte>, now: seq<Byte>, buf: seq<Byte>, offset: nat) {
    && |now| == (if offset + |buf| > |was| then offset + |buf| else |was|)
    && now[offset..offset + |buf|] == buf
    && forall k | 0 <= k < |was| && !(offset <= k < offset + |buf|) :: now[k] == was[k]
  }

  /** Inside or at the end of the file, that is the splice the caller expects. */
  lemma WrittenIsSplice(was: seq<Byte>, now: seq<Byte>, buf: seq<Byte>, offset: nat)
    requires Written(was, now, buf, offset) && offset <= |was|
    ensures now == was[..offset] + buf + (if offset + |buf| <= |was| then was[offset + |buf|..] else [])
  {
    forall k | offset <= k < offset + |buf| ensures now[k] == buf[k - offset] {
      assert now[offset..offset + |buf|][k - offset] == now[k];
    }
  }

  /** `n` blocks from block `from` on cover the bytes `offset` up to `offset + len`, `rel` bytes into the first. */
  predicate Covers(offset: nat, len: nat, from: nat, n: nat, rel: nat) {
    from * BLOCK_SIZE + rel == offset && rel < BLOCK_SIZE && n > 0 && rel + len <= n * BLOCK_SIZE
  }

  function FirstBlock(offset: nat): nat {
    offset / BLOCK_SIZE
  }

  function BlockCount(offset: nat, len: nat): int {
    DivRoundUp(offset + len, BLOCK_SIZE) - FirstBlock(offset)
  }

  lemma RangeCovers(offset: nat, len: nat, size: nat)
    requires len > 0 && offset + len <= size
    ensures BlockCount(offset, len) > 0
    ensures Covers(offset, len, FirstBlock(offset), BlockCount(offset, len), offset % BLOCK_SIZE)
    ensures FirstBlock(offset) + BlockCount(offset, len) <= Blocks(size)
  {
  }

  lemma GatheredSize(lay: Layout, data: seq<Block>, direct: seq<nat>, from: nat, n: nat)
    requires Runs(lay, data, direct, from, n)
    ensures |Gathered(lay, data, direct, from, n)| == n * BLOCK_SIZE
  {
    if n > 0 { GatheredAt(lay, data, direct, from, n, 0, 0); }
  }

  /** Byte `k` of a file in the gathered blocks. */
  lemma GatheredByte(f: Fs, i: nat, from: nat, n: nat, k: nat)
    requires Inv(f) && i in f.known && i < |f.m.slots| && Runs(f.lay, f.m.data, Eff(f, i).direct, from, n)
    requires from * BLOCK_SIZE <= k < (from + n) * BLOCK_SIZE && k < Eff(f, i).size
    ensures |Gathered(f.lay, f.m.data, Eff(f, i).direct, from, n)| == n * BLOCK_SIZE
    ensures Gathered(f.lay, f.m.data, Eff(f, i).direct, from, n)[k - from * BLOCK_SIZE] == ByteAt(f.lay, f.m.data, Eff(f, i), k)
  {
    var q, r := k / BLOCK_SIZE, k % BLOCK_SIZE;
    assert from <= q < from + n && (q - from) * BLOCK_SIZE + r == k - from * BLOCK_SIZE;
    var direct := Eff(f, i).direct;
    GatheredAt(f.lay, f.m.data, direct, from, n, q - from, r);
    assert direct[q] >= f.lay.super;
  }

  /** A read through the buffer. */
  lemma ReadThrough(f: Fs, i: nat, offset: nat, len: nat, from: nat, n: nat, rel: nat)
    requires Inv(f) && i in f.known && i < |f.m.slots| && offset + len <= Eff(f, i).size
    requires Covers(offset, len, from, n, rel) && from + n <= Blocks(Eff(f, i).size)
    ensures Runs(f.lay, f.m.data, Eff(f, i).direct, from, n)
    ensures var io := Gathered(f.lay, f.m.data, Eff(f, i).direct, from, n);
      |io| == n * BLOCK_SIZE && io[rel..rel + len] == Content(f, i)[offset..offset + len]
  {
    FileRuns(f, i, from, n);
    var io := Gathered(f.lay, f.m.data, Eff(f, i).direct, from, n);
    GatheredSize(f.lay, f.m.data, Eff(f, i).direct, from, n);
    var a, b := io[rel..rel + len], Content(f, i)[offset..offset + len];
    forall t | 0 <= t < len ensures a[t] == b[t] {
      GatheredByte(f, i, from, n, offset + t);
    }
  }

  /** A byte after `buf` was copied into the buffer and the blocks were written back. */
  lemma WriteByte(f: Fs, i: nat, buf: seq<Byte>, offset: nat, from: nat, n: nat, rel: nat, io: seq<Byte>, j: nat, k: nat)
    requires Inv(f) && i in f.known && j in f.known && i < |f.m.slots| && j < |f.m.slots| && k < Eff(f, j).size
    requires Covers(offset, |buf|, from, n, rel) && from + n <= Blocks(Eff(f, i).size)
    requires Runs(f.lay, f.m.data, Eff(f, i).direct, from, n)
    requires io == Gathered(f.lay, f.m.data, Eff(f, i).direct, from, n) && |io| == n * BLOCK_SIZE
    ensures ByteAt(f.lay, Rewritten(f, i, from, Splice(io, rel, buf), n).m.data, Eff(f, j), k) ==
      if j == i && offset <= k < offset + |buf| then buf[k - offset] else ByteAt(f.lay, f.m.data, Eff(f, j), k)
  {
    RewrittenByte(f, i, from, Splice(io, rel, buf), n, j, k);
    if j == i && from * BLOCK_SIZE <= k < (from + n) * BLOCK_SIZE {
      GatheredByte(f, i, from, n, k);
      SpliceAt(io, rel, buf, k - from * BLOCK_SIZE);
    }
  }

  /** A write through the buffer. */
  lemma WriteThrough(f: Fs, i: nat, buf: seq<Byte>, offset: nat, from: nat, n: nat, rel: nat, j: nat)
    requires Inv(f) && i in f.known && j in f.known && i < |f.m.slots| && j < |f.m.slots|
    requires offset + |buf| <= Eff(f, i).size && Covers(offset, |buf|, from, n, rel) && from + n <= Blocks(Eff(f, i).size)
    ensures Runs(f.lay, f.m.data, Eff(f, i).direct, from, n)
    ensures var io := Gathered(f.lay, f.m.data, Eff(f, i).direct, from, n);
      && |io| == n * BLOCK_SIZE
      && var f' := Rewritten(f, i, from, Splice(io, rel, buf), n);
      if j == i then Written(Content(f, i), Content(f', i), buf, offset) else Content(f', j) == Content(f, j)
  {
    FileRuns(f, i, from, n);
    var io := Gathered(f.lay, f.m.data, Eff(f, i).direct, from, n);
    GatheredSize(f.lay, f.m.data, Eff(f, i).direct, from, n);
    var was, now := Content(f, j), Content(Rewritten(f, i, from, Splice(io, rel, buf), n), j);
    forall k: nat | k < Eff(f, j).size
      ensures now[k] == if j == i && offset <= k < offset + |buf| then buf[k - offset] else was[k]
    {
      WriteByte(f, i, buf, offset, from, n, rel, io, j, k);
    }
  }
}
