/** The simple form `fs/inode.c` refines: byte strings by inode number, marks, free blocks, open counts. */
module FsVolume {
  import opened FsBytes
  import opened FsDisk
  import opened FsState
  import opened FsContent
  import opened FsOpen
  import opened FsResize
  import opened FsWrite

  datatype Vol = Vol(marks: seq<bool>, files: seq<seq<Byte>>, free: nat, opens: seq<nat>)

  predicate VolShape(v: Vol) {
    |v.marks| == |v.files| == |v.opens| == INODE_CNT
  }

  function FileBytes(f: Fs, i: nat): seq<Byte>
    requires i < |f.m.slots|
  {
    if i in f.known then Content(f, i) else []
  }

  function AllFiles(f: Fs): (r: seq<seq<Byte>>)
    ensures |r| == |f.m.slots| && forall i | 0 <= i < |r| :: r[i] == FileBytes(f, i)
  {
    seq(|f.m.slots|, i requires 0 <= i < |f.m.slots| => FileBytes(f, i))
  }

  function AllCounts(open: seq<OpenInode>, n: nat): (r: seq<nat>)
    ensures |r| == n && forall i | 0 <= i < n :: r[i] == OpenCnt(open, i)
  {
    if n == 0 then [] else AllCounts(open, n - 1) + [OpenCnt(open, n - 1)]
  }

  function Volume(f: Fs): Vol {
    Vol(f.m.imarks, AllFiles(f), |Free(f)|, AllCounts(f.open, |f.m.slots|))
  }

  /** Open objects agree with the disk, and files without a name are empty. */
  ghost predicate Clean(f: Fs) {
    && Inv(f) && Exact(f) && Agree(f)
    && forall i {:trigger UnnamedEmpty(f, i)} | i in f.known :: UnnamedEmpty(f, i)
  }

  ghost predicate UnnamedEmpty(f: Fs, i: nat) {
    i < |f.m.imarks| && i < |f.m.slots| && (f.m.imarks[i] || Eff(f, i).size == 0)
  }

  /** A file of a clean volume is marked or open. */
  lemma KnownExactly(f: Fs, i: nat)
    requires Inv(f) && Exact(f) && i < INODE_CNT
    ensures VolShape(Volume(f))
    ensures i in f.known <==> Volume(f).marks[i] || Volume(f).opens[i] > 0
    ensures IsOpen(f.open, i) <==> Volume(f).opens[i] > 0
    ensures i in f.known ==> Volume(f).files[i] == Content(f, i) && |Volume(f).files[i]| == Eff(f, i).size <= FILE_MAX
  {
    assert Shape(f);
    if IsOpen(f.open, i) {
      assert f.open[OpenIdx(f.open, i)].cnt > 0 && f.open[OpenIdx(f.open, i)].ino in f.known;
    }
    if i in f.known { assert FileOk(f, i); }
  }

  // ----- inode_open, inode_close

  function OpenVol(v: Vol, i: nat): Vol
    requires i < |v.opens|
  {
    v.(opens := v.opens[i := v.opens[i] + 1])
  }

  function CloseVol(v: Vol, i: nat): Vol
    requires i < |v.opens| && v.opens[i] > 0
  {
    v.(opens := v.opens[i := v.opens[i] - 1])
  }

  lemma OpenClose(v: Vol, i: nat)
    requires i < |v.opens|
    ensures OpenVol(v, i).opens[i] > 0 && CloseVol(OpenVol(v, i), i) == v && VolShape(OpenVol(v, i)) == VolShape(v)
  {
    assert v.opens[i := v.opens[i] + 1][i := v.opens[i]] == v.opens;
  }

  lemma CleanOpen(f: Fs, i: nat)
    requires Clean(f) && i in f.known
    ensures i < |f.m.slots| && Clean(Opened(f, i)) && Volume(Opened(f, i)) == OpenVol(Volume(f), i)
  {
    assert UnnamedEmpty(f, i);
    var f' := Opened(f, i);
    OpenedInv(f, i);
    OpenedExact(f, i);
    forall j | j in f'.known ensures UnnamedEmpty(f', j) { assert UnnamedEmpty(f, j); }
    forall j: nat | j < |f.m.slots| ensures OpenCnt(f'.open, j) == OpenCnt(f.open, j) + (if j == i then 1 else 0) {
      OpenedCount(f, i, j);
    }
    assert AllFiles(f') == AllFiles(f);
    assert Free(f') == Free(f);
  }

  lemma CleanClose(f: Fs, i: nat)
    requires Clean(f) && i in f.known && IsOpen(f.open, i)
    ensures f.open[OpenIdx(f.open, i)].cnt > 0 && i < |f.m.slots| && i < |f.m.imarks|
    ensures OpenCnt(f.open, i) > 0
    ensures Clean(Closed(f, i)) && Volume(Closed(f, i)) == CloseVol(Volume(f), i)
  {
    CloseFacts(f, i);
    var f' := Closed(f, i);
    hide Inv, Exact, Agree, FileBytes, OpenCnt, UnnamedEmpty, Free;
    forall j: nat | j < |f.m.slots|
      ensures OpenCnt(f'.open, j) == OpenCnt(f.open, j) - (if j == i then 1 else 0)
      ensures FileBytes(f', j) == FileBytes(f, j) && (j in f'.known ==> UnnamedEmpty(f', j))
    {
      ClosedCount(f, i, j);
      CleanCloseFile(f, i, j);
    }
    assert AllFiles(f') == AllFiles(f);
    assert AllCounts(f'.open, |f'.m.slots|) == CloseVol(Volume(f), i).opens;
  }

  lemma CloseFacts(f: Fs, i: nat)
    requires Clean(f) && i in f.known && IsOpen(f.open, i)
    ensures f.open[OpenIdx(f.open, i)].cnt > 0 && i < |f.m.slots| && i < |f.m.imarks| && OpenCnt(f.open, i) > 0 && Shape(f)
    ensures Inv(Closed(f, i)) && Exact(Closed(f, i)) && Agree(Closed(f, i)) && Free(Closed(f, i)) == Free(f)
    ensures forall j | j in Closed(f, i).known :: j < |f.m.slots|
  {
    assert UnnamedEmpty(f, i);
    ClosedInv(f, i);
    ClosedExact(f, i);
    ClosedLeaks(f, i);
  }

  lemma CleanCloseFile(f: Fs, i: nat, j: nat)
    requires Clean(f) && i in f.known && IsOpen(f.open, i) && j < |f.m.slots|
    ensures f.open[OpenIdx(f.open, i)].cnt > 0 && i < |f.m.slots| && i < |f.m.imarks|
    ensures var f' := Closed(f, i);
      |f'.m.slots| == |f.m.slots| && FileBytes(f', j) == FileBytes(f, j) && (j in f'.known ==> UnnamedEmpty(f', j))
  {
    assert UnnamedEmpty(f, i);
    assert Shape(f) && Agrees(f, i);
    if j in f.known {
      assert UnnamedEmpty(f, j);
      ClosedContent(f, i, j);
      EffClosed(f, i, j);
    }
  }

  // ----- inode_read

  /** What a read of `count` bytes at `pos` delivers. */
  function Slice(c: seq<Byte>, pos: nat, count: nat): (s: seq<Byte>)
    ensures |s| <= count && (pos < |c| && count > 0 <==> s != [])
  {
    if pos >= |c| then [] else c[pos..if pos + count <= |c| then pos + count else |c|]
  }

  // ----- inode_write

  /** `buf` over the bytes from `offset` on, which may lie up to the end of the file. */
  function Overwrite(was: seq<Byte>, buf: seq<Byte>, offset: nat): (r: seq<Byte>)
    requires offset <= |was|
  {
    was[..offset] + buf + (if offset + |buf| <= |was| then was[offset + |buf|..] else [])
  }

  /** A write; one that fails for lack of blocks uses up those that are left. */
  function WriteVol(v: Vol, i: nat, buf: seq<Byte>, offset: nat): (p: (Vol, int))
    requires i < |v.files| && offset <= |v.files[i]|
    ensures p.0.marks == v.marks && p.0.opens == v.opens && |p.0.files| == |v.files|
  {
    var r := WriteResult(|v.files[i]|, buf, offset, v.free);
    var free := FreeAfter(|v.files[i]|, buf, offset, v.free);
    (if r < 0 then v.(free := free) else v.(files := v.files[i := Overwrite(v.files[i], buf, offset)], free := free), r)
  }

  lemma CleanWrite(f: Fs, f': Fs, i: nat, buf: seq<Byte>, offset: nat, r: int)
    requires Clean(f) && Exact(f') && i in f.known && i < |f.m.imarks| && f.m.imarks[i] && |buf| > 0
    requires WriteOutcome(f, f', i, buf, offset, r) && offset <= Eff(f, i).size
    ensures Clean(f') && offset <= |Volume(f).files[i]| && (Volume(f'), r) == WriteVol(Volume(f), i, buf, offset)
  {
    assert Inv(f') && Agree(f') && Kept(f, f');
    forall j: nat | j < |f.m.slots|
      ensures FileBytes(f', j) == if j == i && r >= 0 then Overwrite(FileBytes(f, i), buf, offset) else FileBytes(f, j)
      ensures OpenCnt(f'.open, j) == OpenCnt(f.open, j)
    {
      KeptCount(f, f', j);
      CleanWriteFile(f, f', i, buf, offset, r, j);
    }
    hide WriteOutcome, FileBytes;
    CleanKept(f, f', i);
    assert AllFiles(f') == WriteVol(Volume(f), i, buf, offset).0.files;
    assert AllCounts(f'.open, |f'.m.slots|) == AllCounts(f.open, |f.m.slots|);
  }

  lemma CleanWriteFile(f: Fs, f': Fs, i: nat, buf: seq<Byte>, offset: nat, r: int, j: nat)
    requires i in f.known && WriteOutcome(f, f', i, buf, offset, r) && offset <= Eff(f, i).size && j < |f.m.slots|
    ensures FileBytes(f', j) == if j == i && r >= 0 then Overwrite(FileBytes(f, i), buf, offset) else FileBytes(f, j)
  {
    if j in f.known && j != i { assert Content(f', j) == Content(f, j); }
    if j == i && r >= 0 { WrittenIsSplice(Content(f, i), Content(f', i), buf, offset); }
  }

  lemma CleanKept(f: Fs, f': Fs, i: nat)
    requires Clean(f) && Inv(f') && Exact(f') && Agree(f') && Kept(f, f') && i < |f.m.imarks| && f.m.imarks[i]
    requires forall j: nat | j < |f.m.slots| && j != i :: |f'.m.slots| == |f.m.slots| && FileBytes(f', j) == FileBytes(f, j)
    ensures Clean(f')
  {
    forall j | j in f'.known ensures UnnamedEmpty(f', j) {
      assert UnnamedEmpty(f, j);
      if j != i { assert FileBytes(f', j) == FileBytes(f, j); }
    }
  }

  // ----- inode_size_change towards a smaller size

  function CutVol(v: Vol, i: nat, size: nat): Vol
    requires i < |v.files| && size <= |v.files[i]|
  {
    v.(files := v.files[i := v.files[i][..size]], free := CutFree(v.free, |v.files[i]|, size))
  }

  function CutFree(free: nat, was: nat, size: nat): nat
    requires size <= was
  {
    BlocksMonotone(size, was);
    free + (Blocks(was) - Blocks(size))
  }

  lemma CleanCut(f: Fs, f': Fs, i: nat, size: nat, r: int)
    requires Clean(f) && i in f.known && i < |f.m.imarks| && f.m.imarks[i] && i < |f.m.slots|
    requires Resized(f, f', i, size, r) && size <= Eff(f, i).size
    ensures r == 0 && Clean(f') && size <= |Volume(f).files[i]| && Volume(f') == CutVol(Volume(f), i, size)
  {
    assert FileOk(f, i);
    BlocksMonotone(size, Eff(f, i).size);
    ResizedFacts(f, f', i, size, r);
    KeptExact(f, f');
    forall j: nat | j < |f.m.slots|
      ensures FileBytes(f', j) == if j == i then FileBytes(f, i)[..size] else FileBytes(f, j)
      ensures OpenCnt(f'.open, j) == OpenCnt(f.open, j)
    {
      KeptCount(f, f', j);
      ResizedContent(f, f', i, size, r, j);
    }
    CleanKept(f, f', i);
    assert AllFiles(f') == CutVol(Volume(f), i, size).files;
    assert AllCounts(f'.open, |f'.m.slots|) == AllCounts(f.open, |f.m.slots|);
  }

  // ----- disk_inode_create, disk_inode_delete

  function CreateVol(v: Vol, i: nat): Vol
    requires i < |v.marks|
  {
    v.(marks := v.marks[i := true])
  }

  function DeleteVol(v: Vol, i: nat): Vol
    requires i < |v.marks| && i < |v.files|
  {
    v.(marks := v.marks[i := false], files := v.files[i := []], free := v.free + Blocks(|v.files[i]|))
  }

  /** In a clean volume a new inode is empty, even if its number is that of an unlinked file still open. */
  lemma CleanCreate(f: Fs, i: nat)
    requires Clean(f) && i < INODE_CNT && !f.m.imarks[i]
    ensures Clean(Created(f, i)) && Volume(Created(f, i)) == CreateVol(Volume(f), i) && Volume(f).files[i] == []
  {
    var f' := Created(f, i);
    CreatedInv(f, i);
    if i in f.known { assert UnnamedEmpty(f, i); }
    if IsOpen(f.open, i) {
      assert f.open[OpenIdx(f.open, i)].ino in f.known;
    }
    CreateKeepsAgreementExactly(f, i);
    forall j: nat | j < |f.m.slots| ensures FileBytes(f', j) == FileBytes(f, j) && (j in f'.known ==> UnnamedEmpty(f', j)) {
      EffCreated(f, i, j);
      if j in f.known { assert UnnamedEmpty(f, j); }
    }
    assert AllFiles(f') == AllFiles(f);
    assert Free(f') == Free(f);
  }

  lemma CleanDelete(f: Fs, f': Fs, i: nat)
    requires Clean(f) && i in f.known && DeleteOutcome(f, f', i)
    ensures Clean(f') && i < |f.m.slots| && Volume(f') == DeleteVol(Volume(f), i)
  {
    forall j: nat | j < |f.m.slots| ensures FileBytes(f', j) == if j == i then [] else FileBytes(f, j) {
      if j in f.known && j != i { assert Content(f', j) == Content(f, j); }
    }
    forall j | j in f'.known ensures UnnamedEmpty(f', j) {
      assert UnnamedEmpty(f, j);
      if j != i { assert Content(f', j) == Content(f, j); } else { assert |Content(f', i)| == 0; }
    }
    assert AllFiles(f') == DeleteVol(Volume(f), i).files;
    forall j: nat | j < |f.m.slots| ensures OpenCnt(f'.open, j) == OpenCnt(f.open, j) {}
    assert AllCounts(f'.open, |f'.m.slots|) == AllCounts(f.open, |f.m.slots|);
  }
}
