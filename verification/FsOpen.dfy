/** Opening, closing, creating and deleting inodes. */
module FsOpen {
  import opened Sequences
  import opened FsDisk
  import opened FsState
  import opened FsSteps
  import opened FsContent

  const ZERO_INODE: DInode := DInode(0, [0, 0, 0, 0, 0, 0, 0, 0, 0, 0, 0, 0])

  // ----- inode_open

  function Opened(f: Fs, i: nat): Fs
    requires i < |f.m.slots|
  {
    var k := OpenIdx(f.open, i);
    if k < |f.open| then f.(open := f.open[k := f.open[k].(cnt := f.open[k].cnt + 1)])
    else f.(open := [OpenInode(i, f.m.slots[i], 1)] + f.open)
  }

  lemma EffOpened(f: Fs, i: nat, j: nat)
    requires i < |f.m.slots| && j < |f.m.slots|
    ensures Eff(Opened(f, i), j) == Eff(f, j)
    ensures IsOpen(Opened(f, i).open, j) <==> j == i || IsOpen(f.open, j)
  {
    var f' := Opened(f, i);
    if IsOpen(f.open, i) {
      OpenIdxFrame(f.open, f'.open, j);
    } else {
      assert f'.open[1..] == f.open;
    }
  }

  /** Opening gives back an inode that says what the file is, and changes nothing. */
  lemma OpenedInv(f: Fs, i: nat)
    requires Inv(f) && i in f.known
    ensures i < |f.m.slots| && Inv(Opened(f, i))
    ensures Agree(f) ==> Agree(Opened(f, i))
    ensures forall j | 0 <= j < |f.m.slots| :: Eff(Opened(f, i), j) == Eff(f, j) && Content(Opened(f, i), j) == Content(f, j)
    ensures forall j | 0 <= j < |f.m.slots| :: IsOpen(Opened(f, i).open, j) <==> j == i || IsOpen(f.open, j)
  {
    var f' := Opened(f, i);
    forall j | 0 <= j < |f.m.slots|
      ensures Eff(f', j) == Eff(f, j) && (IsOpen(f'.open, j) <==> j == i || IsOpen(f.open, j))
    {
      EffOpened(f, i, j);
    }
    OpenedShape(f, i);
    forall j | j in f'.known ensures FileOk(f', j) {
      assert FileOk(f, j);
      forall k: nat | k < Blocks(Eff(f', j).size) ensures BlockOk(f', j, Eff(f', j), k) { assert BlockOk(f, j, Eff(f, j), k); }
    }
    forall b | b in f'.own ensures OwnOk(f', b) { assert OwnOk(f, b); }
    forall j | j in f'.known ensures SlotOk(f', j) { assert SlotOk(f, j); }
    if Agree(f) {
      forall j | 0 <= j < |f.m.slots| && IsOpen(f'.open, j) ensures SameInode(Eff(f', j), f'.m.slots[j]) {
        if IsOpen(f.open, j) { assert SameInode(Eff(f, j), f.m.slots[j]); }
      }
    }
  }

  lemma OpenedShape(f: Fs, i: nat)
    requires Shape(f) && i in f.known
    ensures i < |f.m.slots| && Shape(Opened(f, i))
  {
    var f' := Opened(f, i);
    if !IsOpen(f.open, i) {
      assert forall k | 0 <= k < |f'.open| :: f'.open[k] == if k == 0 then OpenInode(i, f.m.slots[i], 1) else f.open[k - 1];
    }
  }

  // ----- inode_close

  /** The object is dropped: its blocks stay with the file if the slot knows them and the file is marked. */
  function Closed(f: Fs, i: nat): Fs
    requires IsOpen(f.open, i) && i < |f.m.slots| && i < |f.m.imarks| && f.open[OpenIdx(f.open, i)].cnt > 0
  {
    var k := OpenIdx(f.open, i);
    if f.open[k].cnt > 1 then f.(open := f.open[k := f.open[k].(cnt := f.open[k].cnt - 1)])
    else
      f.(open := DropAt(f.open, k),
         known := if f.m.imarks[i] then f.known else f.known - {i},
         own := if f.m.imarks[i] && SameInode(Eff(f, i), f.m.slots[i]) then f.own else OwnLess(f.own, i, 0))
  }

  /** This close drops the object. */
  predicate LastClose(f: Fs, i: nat)
    requires IsOpen(f.open, i)
  {
    f.open[OpenIdx(f.open, i)].cnt == 1
  }

  lemma {:induction false} OpenIdxDrop(open: seq<OpenInode>, k: nat, j: nat)
    requires k < |open| && open[k].ino != j
    ensures var r := OpenIdx(DropAt(open, k), j);
      if OpenIdx(open, j) == |open| then r == |open| - 1
      else r == (if OpenIdx(open, j) < k then OpenIdx(open, j) else OpenIdx(open, j) - 1)
           && DropAt(open, k)[r] == open[OpenIdx(open, j)]
  {
    var d := DropAt(open, k);
    if k == 0 {
      assert d == open[1..];
    } else {
      var rest := DropAt(open[1..], k - 1);
      assert d == [open[0]] + rest && d[1..] == rest;
      if open[0].ino != j { OpenIdxDrop(open[1..], k - 1, j); }
    }
  }

  lemma EffClosed(f: Fs, i: nat, j: nat)
    requires Shape(f) && IsOpen(f.open, i) && i in f.known && j < |f.m.slots|
    ensures f.open[OpenIdx(f.open, i)].cnt > 0
    ensures Eff(Closed(f, i), j) == if j == i && LastClose(f, i) then f.m.slots[i] else Eff(f, j)
    ensures IsOpen(Closed(f, i).open, j) <==> IsOpen(f.open, j) && !(j == i && LastClose(f, i))
  {
    var k := OpenIdx(f.open, i);
    var f' := Closed(f, i);
    if f.open[k].cnt > 1 {
      OpenIdxFrame(f.open, f'.open, j);
    } else if j == i {
      NoneLeft(f, i);
    } else {
      OpenIdxDrop(f.open, k, j);
    }
  }

  lemma AbsentIdx(open: seq<OpenInode>, i: nat)
    requires forall k | 0 <= k < |open| :: open[k].ino != i
    ensures !IsOpen(open, i)
  {
  }

  /** At most one object a number: dropping it leaves none. */
  lemma NoneLeft(f: Fs, i: nat)
    requires Shape(f) && IsOpen(f.open, i)
    ensures !IsOpen(DropAt(f.open, OpenIdx(f.open, i)), i)
  {
    var k := OpenIdx(f.open, i);
    var d := DropAt(f.open, k);
    forall x | 0 <= x < |d| ensures d[x].ino != i {
      assert d[x] == f.open[if x < k then x else x + 1];
    }
    AbsentIdx(d, i);
  }

  lemma DropListOk(open: seq<OpenInode>, known: set<nat>, k: nat, known': set<nat>)
    requires ListOk(open, known) && k < |open| && (known' == known || known' == known - {open[k].ino})
    ensures ListOk(DropAt(open, k), known')
  {
    var d := DropAt(open, k);
    assert forall x | 0 <= x < |d| :: d[x] == open[if x < k then x else x + 1];
  }

  lemma ClosedShape(f: Fs, i: nat)
    requires Shape(f) && IsOpen(f.open, i) && i in f.known
    ensures f.open[OpenIdx(f.open, i)].cnt > 0 && Shape(Closed(f, i))
  {
    var k, f' := OpenIdx(f.open, i), Closed(f, i);
    if f.open[k].cnt == 1 {
      DropListOk(f.open, f.known, k, f'.known);
    }
  }

  /** The blocks of `i` remain its own after the close. */
  predicate KeepsBlocks(f: Fs, i: nat)
    requires i < |f.m.slots| && i < |f.m.imarks|
  {
    f.m.imarks[i] && SameInode(Eff(f, i), f.m.slots[i])
  }

  lemma ClosedFile(f: Fs, i: nat, j: nat)
    requires Inv(f) && IsOpen(f.open, i) && i in f.known
    requires f.open[OpenIdx(f.open, i)].cnt > 0 && j in Closed(f, i).known
    ensures j < |f.m.slots| && FileOk(Closed(f, i), j) && SlotOk(Closed(f, i), j)
  {
    assert FileOk(f, j) && SlotOk(f, j) && FileOk(f, i);
    EffClosed(f, i, j);
    var f' := Closed(f, i);
    var d, d' := Eff(f, j), Eff(f', j);
    assert Storable(f.m.slots[j]);
    BlocksBound(d.size);
    forall k: nat | k < Blocks(d'.size) ensures BlockOk(f', j, d', k) {
      assert BlockOk(f, j, d, k);
    }
  }

  lemma ClosedOwn(f: Fs, i: nat, b: nat)
    requires Inv(f) && IsOpen(f.open, i) && i in f.known
    requires f.open[OpenIdx(f.open, i)].cnt > 0 && b in Closed(f, i).own
    ensures OwnOk(Closed(f, i), b)
  {
    assert OwnOk(f, b);
    EffClosed(f, i, f.own[b].ino);
    assert Storable(f.m.slots[i]) && FileOk(f, i);
    if f.own[b].ino == i && LastClose(f, i) {
      assert Eff(f, i).direct[f.own[b].k] == f.m.slots[i].direct[f.own[b].k];
    }
  }

  lemma ClosedInv(f: Fs, i: nat)
    requires Inv(f) && IsOpen(f.open, i) && i in f.known
    ensures f.open[OpenIdx(f.open, i)].cnt > 0 && Inv(Closed(f, i))
    ensures Agree(f) ==> Agree(Closed(f, i))
  {
    ClosedShape(f, i);
    var f' := Closed(f, i);
    forall j | j in f'.known ensures FileOk(f', j) && SlotOk(f', j) { ClosedFile(f, i, j); }
    forall b | b in f'.own ensures OwnOk(f', b) { ClosedOwn(f, i, b); }
    if Agree(f) {
      forall j | 0 <= j < |f.m.slots| && IsOpen(f'.open, j) ensures SameInode(Eff(f', j), f'.m.slots[j]) {
        EffClosed(f, i, j);
        assert SameInode(Eff(f, j), f.m.slots[j]);
      }
    }
  }

  /** Dropping the object loses nothing when it agrees with its slot; otherwise the file falls back to empty. */
  lemma ClosedContent(f: Fs, i: nat, j: nat)
    requires Inv(f) && IsOpen(f.open, i) && i in f.known && j < |f.m.slots| && j in f.known
    ensures f.open[OpenIdx(f.open, i)].cnt > 0
    ensures j != i || !LastClose(f, i) || SameInode(Eff(f, i), f.m.slots[i]) ==> Content(Closed(f, i), j) == Content(f, j)
    ensures j == i && LastClose(f, i) && !SameInode(Eff(f, i), f.m.slots[i]) ==> Content(Closed(f, i), j) == []
  {
    EffClosed(f, i, j);
    if j == i && LastClose(f, i) {
      assert FileOk(f, i) && SlotOk(f, i);
      if SameInode(Eff(f, i), f.m.slots[i]) {
        var d, e := Eff(f, i), f.m.slots[i];
        BlocksBound(d.size);
        assert Storable(f.m.slots[i]);
        ContentPrefix(f.lay, f.m.data, d, e, d.size);
        assert ContentOf(f.lay, f.m.data, d)[..d.size] == ContentOf(f.lay, f.m.data, d);
        assert ContentOf(f.lay, f.m.data, e)[..d.size] == ContentOf(f.lay, f.m.data, e);
      }
    }
  }

  // ----- disk_inode_create and the first half of disk_inode_delete

  function Created(f: Fs, i: nat): Fs
    requires i < |f.m.imarks| && i < |f.m.slots|
  {
    f.(m := f.m.(imarks := f.m.imarks[i := true], slots := f.m.slots[i := ZERO_INODE]), known := f.known + {i})
  }

  lemma EffCreated(f: Fs, i: nat, j: nat)
    requires i < |f.m.imarks| && i < |f.m.slots| && j < |f.m.slots|
    ensures Eff(Created(f, i), j) == if j == i && !IsOpen(f.open, i) then ZERO_INODE else Eff(f, j)
  {
  }

  lemma CreatedInv(f: Fs, i: nat)
    requires Inv(f) && Exact(f) && i < INODE_CNT && !f.m.imarks[i]
    ensures Inv(Created(f, i)) && Exact(Created(f, i)) && Leaked(Created(f, i)) == Leaked(f)
  {
    var f' := Created(f, i);
    CreatedShape(f, i);
    forall j | j in f'.known ensures FileOk(f', j) && SlotOk(f', j) {
      EffCreated(f, i, j);
      if j in f.known {
        assert FileOk(f, j) && SlotOk(f, j);
        forall k: nat | k < Blocks(Eff(f', j).size) ensures BlockOk(f', j, Eff(f', j), k) { assert BlockOk(f, j, Eff(f, j), k); }
      }
    }
    forall b | b in f'.own ensures OwnOk(f', b) {
      assert OwnOk(f, b);
      EffCreated(f, i, f.own[b].ino);
    }
  }

  lemma CreatedShape(f: Fs, i: nat)
    requires Shape(f) && i < INODE_CNT
    ensures Shape(Created(f, i))
  {
    var f' := Created(f, i);
    forall j | 0 <= j < INODE_CNT ensures Storable(f'.m.slots[j]) {
      if j != i { assert Storable(f.m.slots[j]); }
    }
  }

  /** Reusing an inode number keeps open objects and disk in agreement exactly when no object with contents is
      still open under that number. */
  lemma CreateKeepsAgreementExactly(f: Fs, i: nat)
    requires Inv(f) && Agree(f) && i < INODE_CNT && !f.m.imarks[i]
    ensures Agree(Created(f, i)) <==> !(IsOpen(f.open, i) && Eff(f, i).size > 0)
  {
    var f' := Created(f, i);
    forall j | 0 <= j < |f'.m.slots| ensures Eff(f', j) == if j == i && !IsOpen(f.open, i) then ZERO_INODE else Eff(f, j) {
      EffCreated(f, i, j);
    }
    if IsOpen(f.open, i) {
      assert SameInode(Eff(f', i), f'.m.slots[i]) <==> Eff(f, i).size == 0;
    }
    forall j | 0 <= j < |f'.m.slots| && j != i && IsOpen(f'.open, j) ensures SameInode(Eff(f', j), f'.m.slots[j]) {
      assert SameInode(Eff(f, j), f.m.slots[j]);
    }
  }

  function Unmarked(f: Fs, i: nat): Fs
    requires i < |f.m.imarks|
  {
    f.(m := f.m.(imarks := f.m.imarks[i := false]))
  }

  lemma UnmarkedInv(f: Fs, i: nat)
    requires Inv(f) && i < INODE_CNT
    ensures Inv(Unmarked(f, i)) && Leaked(Unmarked(f, i)) == Leaked(f)
    ensures forall j | 0 <= j < |f.m.slots| :: Eff(Unmarked(f, i), j) == Eff(f, j)
    ensures Agree(f) ==> Agree(Unmarked(f, i))
  {
    var f' := Unmarked(f, i);
    forall j | 0 <= j < |f.m.slots| ensures Eff(f', j) == Eff(f, j) {}
    forall j | j in f'.known ensures FileOk(f', j) && SlotOk(f', j) {
      assert FileOk(f, j) && SlotOk(f, j);
      forall k: nat | k < Blocks(Eff(f', j).size) ensures BlockOk(f', j, Eff(f', j), k) { assert BlockOk(f, j, Eff(f, j), k); }
    }
    forall b | b in f'.own ensures OwnOk(f', b) { assert OwnOk(f, b); }
    if Agree(f) {
      forall j | 0 <= j < |f.m.slots| && IsOpen(f'.open, j) ensures SameInode(Eff(f', j), f'.m.slots[j]) {
        assert SameInode(Eff(f, j), f.m.slots[j]);
      }
    }
  }
}
