/** What a change of file size does to ownership and contents. */
module FsSteps {
  import opened FsBytes
  import opened FsDisk
  import opened FsState

  // ----- the open list

  predicate SameInos(a: seq<OpenInode>, b: seq<OpenInode>) {
    |a| == |b| && forall k | 0 <= k < |a| :: a[k].ino == b[k].ino
  }

  lemma {:induction false} OpenIdxFrame(a: seq<OpenInode>, b: seq<OpenInode>, i: nat)
    requires SameInos(a, b)
    ensures OpenIdx(a, i) == OpenIdx(b, i)
  {
    if a != [] {
      OpenIdxFrame(a[1..], b[1..], i);
    }
  }

  /** The open object of `i` gets new fields. */
  function WithNode(f: Fs, i: nat, d: DInode): Fs
    requires IsOpen(f.open, i)
  {
    var k := OpenIdx(f.open, i);
    f.(open := f.open[k := f.open[k].(node := d)])
  }

  lemma EffWithNode(f: Fs, i: nat, d: DInode, j: nat)
    requires IsOpen(f.open, i) && j < |f.m.slots|
    ensures Eff(WithNode(f, i, d), j) == if j == i then d else Eff(f, j)
    ensures IsOpen(WithNode(f, i, d).open, j) == IsOpen(f.open, j)
  {
    OpenIdxFrame(f.open, WithNode(f, i, d).open, j);
  }

  lemma ShapeWithNode(f: Fs, i: nat, d: DInode)
    requires Shape(f) && IsOpen(f.open, i)
    ensures Shape(WithNode(f, i, d))
  {
  }

  // ----- growing

  /** `direct` with new blocks from position `from`. */
  function Extended(lay: Layout, direct: seq<nat>, from: nat, news: seq<nat>): (r: seq<nat>)
    ensures |r| == |direct|
    ensures forall k | 0 <= k < |direct| :: r[k] == if from <= k < from + |news| then lay.super + news[k - from] else direct[k]
  {
    seq(|direct|, k requires 0 <= k < |direct| => ExtendedAt(lay, direct, from, news, k))
  }

  function ExtendedAt(lay: Layout, direct: seq<nat>, from: nat, news: seq<nat>, k: nat): nat
    requires k < |direct|
  {
    if from <= k < from + |news| then lay.super + news[k - from] else direct[k]
  }

  function MarkAll(marks: seq<bool>, bs: seq<nat>): (r: seq<bool>)
    ensures |r| == |marks|
    ensures forall b | 0 <= b < |marks| :: r[b] == (marks[b] || b in bs)
  {
    seq(|marks|, b requires 0 <= b < |marks| => marks[b] || b in bs)
  }

  ghost predicate NoRepeat(bs: seq<nat>) {
    forall i, j | 0 <= i < j < |bs| :: bs[i] != bs[j]
  }

  /** Unmarked data blocks, pairwise different, to come after the blocks file `i` has. */
  ghost predicate CanTake(f: Fs, i: nat, news: seq<nat>) {
    && Inv(f) && i in f.known && IsOpen(f.open, i) && NoRepeat(news)
    && Blocks(Eff(f, i).size) + |news| <= NDIRECT
    && forall j {:trigger news[j]} | 0 <= j < |news| :: RESERVED <= news[j] < f.lay.blocks && !f.m.marks[news[j]]
  }

  /** The state in the middle of growing: blocks marked and entered in the open object only. */
  function Partial(f: Fs, i: nat, news: seq<nat>): Fs
    requires IsOpen(f.open, i) && i < |f.m.slots|
  {
    var d := Eff(f, i);
    WithNode(f, i, d.(direct := Extended(f.lay, d.direct, Blocks(d.size), news)))
      .(m := f.m.(marks := MarkAll(f.m.marks, news)))
  }

  lemma EffPartial(f: Fs, i: nat, news: seq<nat>, j: nat)
    requires IsOpen(f.open, i) && i < |f.m.slots| && j < |f.m.slots|
    ensures var d := Eff(f, i);
      Eff(Partial(f, i, news), j) == if j == i then d.(direct := Extended(f.lay, d.direct, Blocks(d.size), news)) else Eff(f, j)
    ensures IsOpen(Partial(f, i, news).open, j) == IsOpen(f.open, j)
  {
    var d := Eff(f, i);
    EffWithNode(f, i, d.(direct := Extended(f.lay, d.direct, Blocks(d.size), news)), j);
    OpenIdxFrame(f.open, Partial(f, i, news).open, j);
  }

  /** A grow that stops half-way loses the blocks it took, and nothing else. */
  lemma PartialInv(f: Fs, i: nat, news: seq<nat>)
    requires CanTake(f, i, news)
    ensures Inv(Partial(f, i, news))
    ensures Leaked(Partial(f, i, news)) == Leaked(f) + (set b | b in news)
  {
    var f' := Partial(f, i, news);
    ShapeWithNode(f, i, Eff(f', i));
    forall j | j in f'.known ensures FileOk(f', j) { PartialFile(f, i, news, j); }
    forall b | b in f'.own ensures OwnOk(f', b) {
      assert OwnOk(f, b);
      EffPartial(f, i, news, f.own[b].ino);
    }
    forall j | j in f'.known ensures SlotOk(f', j) {
      assert SlotOk(f, j);
      EffPartial(f, i, news, j);
    }
    PartialLeaks(f, i, news);
  }

  lemma OwnedAreMarked(f: Fs)
    requires Inv(f)
    ensures forall b {:trigger f.m.marks[b]} {:trigger b in f.own} | b in f.own :: RESERVED <= b < |f.m.marks| && f.m.marks[b]
  {
    forall b | b in f.own ensures RESERVED <= b < |f.m.marks| && f.m.marks[b] { assert OwnOk(f, b); }
  }

  lemma PartialLeaks(f: Fs, i: nat, news: seq<nat>)
    requires CanTake(f, i, news)
    ensures Leaked(Partial(f, i, news)) == Leaked(f) + (set b | b in news)
  {
    OwnedAreMarked(f);
    forall b | b in news ensures RESERVED <= b < f.lay.blocks && !f.m.marks[b] {
      var j :| 0 <= j < |news| && news[j] == b;
    }
    var f' := Partial(f, i, news);
    assert forall b :: b in Leaked(f') <==> b in Leaked(f) || b in news;
  }

  lemma PartialFile(f: Fs, i: nat, news: seq<nat>, j: nat)
    requires CanTake(f, i, news) && j in f.known
    ensures j < INODE_CNT && FileOk(Partial(f, i, news), j)
  {
    assert FileOk(f, j);
    EffPartial(f, i, news, j);
    var d, d' := Eff(f, j), Eff(Partial(f, i, news), j);
    forall k: nat | k < Blocks(d'.size) ensures BlockOk(Partial(f, i, news), j, d', k) {
      assert BlockOk(f, j, d, k);
    }
    if j == i {
      forall k | 0 <= k < NDIRECT ensures d'.direct[k] < WORD_MAX {
        if Blocks(d.size) <= k < Blocks(d.size) + |news| { assert news[k - Blocks(d.size)] < f.lay.blocks; }
      }
    }
  }

  /** Owners once the new blocks belong to file `i`. */
  function OwnAll(own: map<nat, Owner>, i: nat, from: nat, news: seq<nat>): map<nat, Owner>
  {
    if news == [] then own else OwnAll(own, i, from, news[..|news| - 1])[news[|news| - 1] := Owner(i, from + |news| - 1)]
  }

  lemma {:induction false} OwnAllAt(own: map<nat, Owner>, i: nat, from: nat, news: seq<nat>)
    requires NoRepeat(news)
    ensures forall b :: b in OwnAll(own, i, from, news) <==> b in own || b in news
    ensures forall j {:trigger news[j]} | 0 <= j < |news| :: OwnAll(own, i, from, news)[news[j]] == Owner(i, from + j)
    ensures forall b | b in own && b !in news :: OwnAll(own, i, from, news)[b] == own[b]
  {
    if news != [] {
      var init, last := news[..|news| - 1], news[|news| - 1];
      OwnAllAt(own, i, from, init);
      assert news == init + [last];
      forall j | 0 <= j < |news| ensures OwnAll(own, i, from, news)[news[j]] == Owner(i, from + j) {
        if j < |init| { assert init[j] == news[j] && news[j] != last; }
      }
    }
  }

  /** The end of `inode_size_change`: the size is set and the inode written to its slot. */
  function Stored(f: Fs, i: nat, size: nat): Fs
    requires IsOpen(f.open, i) && i < |f.m.slots|
  {
    var d := Eff(f, i).(size := size);
    WithNode(f, i, d).(m := f.m.(slots := f.m.slots[i := d]))
  }

  lemma EffStored(f: Fs, i: nat, size: nat, j: nat)
    requires IsOpen(f.open, i) && i < |f.m.slots| && j < |f.m.slots|
    ensures Eff(Stored(f, i, size), j) == if j == i then Eff(f, i).(size := size) else Eff(f, j)
    ensures IsOpen(Stored(f, i, size).open, j) == IsOpen(f.open, j)
  {
    EffWithNode(f, i, Eff(f, i).(size := size), j);
    OpenIdxFrame(f.open, Stored(f, i, size).open, j);
  }

  function Grown(f: Fs, i: nat, news: seq<nat>, size: nat): Fs
    requires IsOpen(f.open, i) && i < |f.m.slots|
  {
    EffPartial(f, i, news, i);
    Stored(Partial(f, i, news), i, size).(own := OwnAll(f.own, i, Blocks(Eff(f, i).size), news))
  }

  lemma EffGrown(f: Fs, i: nat, news: seq<nat>, size: nat, j: nat)
    requires IsOpen(f.open, i) && i < |f.m.slots| && j < |f.m.slots|
    ensures var d := Eff(f, i);
      Eff(Grown(f, i, news, size), j) ==
        if j == i then DInode(size, Extended(f.lay, d.direct, Blocks(d.size), news)) else Eff(f, j)
    ensures IsOpen(Grown(f, i, news, size).open, j) == IsOpen(f.open, j)
  {
    EffPartial(f, i, news, i);
    EffPartial(f, i, news, j);
    EffStored(Partial(f, i, news), i, size, j);
  }

  lemma GrownFile(f: Fs, i: nat, news: seq<nat>, size: nat, j: nat)
    requires CanTake(f, i, news) && j in f.known && size <= FILE_MAX && Blocks(size) == Blocks(Eff(f, i).size) + |news|
    ensures j < INODE_CNT && FileOk(Grown(f, i, news, size), j)
  {
    PartialFile(f, i, news, j);
    EffPartial(f, i, news, j);
    EffGrown(f, i, news, size, j);
    var f' := Grown(f, i, news, size);
    assert FileOk(f, j);
    forall k: nat | k < Blocks(Eff(f', j).size) ensures BlockOk(f', j, Eff(f', j), k) {
      GrownBlock(f, i, news, size, j, k);
    }
  }

  lemma GrownBlock(f: Fs, i: nat, news: seq<nat>, size: nat, j: nat, k: nat)
    requires CanTake(f, i, news) && j in f.known && size <= FILE_MAX && Blocks(size) == Blocks(Eff(f, i).size) + |news|
    requires j < |f.m.slots| && k < (if j == i then Blocks(size) else Blocks(Eff(f, j).size))
    ensures BlockOk(Grown(f, i, news, size), j, Eff(Grown(f, i, news, size), j), k)
  {
    EffGrown(f, i, news, size, j);
    var f', from := Grown(f, i, news, size), Blocks(Eff(f, i).size);
    OwnAllAt(f.own, i, from, news);
    assert FileOk(f, j);
    if j == i && k >= from {
      assert news[k - from] in f'.own;
    } else {
      assert BlockOk(f, j, Eff(f, j), k);
      OwnedNotNew(f, i, news, Eff(f, j).direct[k] - f.lay.super);
    }
  }

  lemma OwnedNotNew(f: Fs, i: nat, news: seq<nat>, b: nat)
    requires CanTake(f, i, news) && b in f.own
    ensures b !in news
  {
    OwnedAreMarked(f);
    assert f.m.marks[b];
  }

  lemma GrownOwn(f: Fs, i: nat, news: seq<nat>, size: nat, b: nat)
    requires CanTake(f, i, news) && size <= FILE_MAX && Blocks(size) == Blocks(Eff(f, i).size) + |news|
    requires b in Grown(f, i, news, size).own
    ensures OwnOk(Grown(f, i, news, size), b)
  {
    var from := Blocks(Eff(f, i).size);
    OwnAllAt(f.own, i, from, news);
    assert FileOk(f, i);
    if b in news {
      var j :| 0 <= j < |news| && news[j] == b;
      EffGrown(f, i, news, size, i);
    } else {
      assert OwnOk(f, b);
      EffGrown(f, i, news, size, f.own[b].ino);
    }
  }

  /** A successful grow gives every new block to the file. */
  lemma GrownInv(f: Fs, i: nat, news: seq<nat>, size: nat)
    requires CanTake(f, i, news) && size <= FILE_MAX && Blocks(size) == Blocks(Eff(f, i).size) + |news|
    ensures Inv(Grown(f, i, news, size))
  {
    var f' := Grown(f, i, news, size);
    GrownShape(f, i, news, size);
    forall j | j in f'.known ensures FileOk(f', j) { GrownFile(f, i, news, size, j); }
    forall b | b in f'.own ensures OwnOk(f', b) { GrownOwn(f, i, news, size, b); }
    forall j | j in f'.known ensures SlotOk(f', j) { GrownSlot(f, i, news, size, j); }
  }

  lemma GrownSlot(f: Fs, i: nat, news: seq<nat>, size: nat, j: nat)
    requires Inv(f) && i in f.known && IsOpen(f.open, i) && j in f.known
    ensures j < INODE_CNT && SlotOk(Grown(f, i, news, size), j)
    ensures Grown(f, i, news, size).m.slots[i] == Eff(Grown(f, i, news, size), i)
  {
    assert SlotOk(f, j);
    EffPartial(f, i, news, i);
    EffGrown(f, i, news, size, i);
    EffGrown(f, i, news, size, j);
  }

  lemma GrownShape(f: Fs, i: nat, news: seq<nat>, size: nat)
    requires CanTake(f, i, news) && size <= FILE_MAX
    ensures Shape(Grown(f, i, news, size))
  {
    EffPartial(f, i, news, i);
    PartialFile(f, i, news, i);
    var p := Partial(f, i, news);
    ShapeWithNode(f, i, Eff(p, i));
    StoredShape(p, i, size);
  }

  lemma StoredShape(f: Fs, i: nat, size: nat)
    requires Shape(f) && IsOpen(f.open, i) && i < INODE_CNT && Storable(Eff(f, i).(size := size))
    ensures Shape(Stored(f, i, size))
  {
    var f' := Stored(f, i, size);
    ShapeWithNode(f, i, Eff(f, i).(size := size));
    forall j | 0 <= j < INODE_CNT ensures Storable(f'.m.slots[j]) {
      if j != i { assert Storable(f.m.slots[j]); }
    }
  }

  lemma GrownLeaks(f: Fs, i: nat, news: seq<nat>, size: nat)
    requires CanTake(f, i, news)
    ensures Leaked(Grown(f, i, news, size)) == Leaked(f)
  {
    OwnAllAt(f.own, i, Blocks(Eff(f, i).size), news);
    var f' := Grown(f, i, news, size);
    forall b ensures b in Leaked(f') <==> b in Leaked(f) {
      if b in news { assert b in f'.own; }
    }
  }
}
