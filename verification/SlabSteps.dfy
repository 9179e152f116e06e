/** The pieces of `kalloc` and `kfree` as functions, and what each keeps. */
module SlabSteps {
  import opened PagePool
  import opened Sequences
  import opened SlabState

  /** The loop of `arena_init`: blocks 0 to `n - 1` pushed in turn. */
  function Pushed(a: nat, d: nat, n: nat): seq<nat>
    requires d < DESC_CNT
  {
    if n == 0 then [] else [Block(a, d, n - 1)] + Pushed(a, d, n - 1)
  }

  function WithArena(h: Heap, a: nat, d: nat): Heap
    requires |h.free| == DESC_CNT && d < DESC_CNT
  {
    h.(arenas := h.arenas[a := Arena(d, PerArena(d))], free := h.free[d := Pushed(a, d, PerArena(d)) + h.free[d]])
  }

  /** The head block of a size class goes to a caller. */
  function Hand(h: Heap, d: nat, size: nat): Heap
    requires d < |h.free| && h.free[d] != [] && ArenaOf(h.free[d][0]) in h.arenas
  {
    var b := h.free[d][0];
    var a := ArenaOf(b);
    Heap(h.free[d := h.free[d][1..]],
         h.arenas[a := h.arenas[a].(freeCnt := if h.arenas[a].freeCnt == 0 then 0 else h.arenas[a].freeCnt - 1)],
         h.live[b := size])
  }

  /** A block comes back to the end of its list. */
  function GiveBack(h: Heap, b: nat): Heap
    requires ArenaOf(b) in h.arenas && h.arenas[ArenaOf(b)].desc < |h.free|
  {
    var a := ArenaOf(b);
    var d := h.arenas[a].desc;
    Heap(h.free[d := h.free[d] + [b]], h.arenas[a := h.arenas[a].(freeCnt := h.arenas[a].freeCnt + 1)], h.live - {b})
  }

  /** The loop of `kfree` over the blocks of a wholly free arena. */
  function Swept(free: seq<nat>, a: nat, d: nat, n: nat): seq<nat>
    requires d < DESC_CNT
  {
    if n == 0 then free else Without(Swept(free, a, d, n - 1), Block(a, d, n - 1))
  }

  function Retire(h: Heap, a: nat): Heap
    requires a in h.arenas && h.arenas[a].desc < |h.free| == DESC_CNT
  {
    var d := h.arenas[a].desc;
    h.(free := h.free[d := Swept(h.free[d], a, d, PerArena(d))], arenas := h.arenas - {a})
  }

  lemma PushedMembers(a: nat, d: nat, n: nat)
    requires a % PG_SIZE == 0 && d < DESC_CNT && n <= PerArena(d)
    ensures NoDup(Pushed(a, d, n))
    ensures forall b | b in Pushed(a, d, n) :: ArenaOf(b) == a && IndexOf(b, d) < n && b == Block(a, d, IndexOf(b, d))
    ensures forall i: nat | i < n :: Block(a, d, i) in Pushed(a, d, n)
  {
    if n > 0 {
      PushedMembers(a, d, n - 1);
      BlockAddress(a, d, n - 1);
    }
  }

  /** Other size classes and other arenas are not affected by a change to one free list. */
  lemma FreeIdxSame(free: seq<nat>, free': seq<nat>, a: nat, d: nat)
    requires d < DESC_CNT
    requires forall i: nat | i < PerArena(d) :: Block(a, d, i) in free <==> Block(a, d, i) in free'
    ensures FreeIdx(free, a, d) == FreeIdx(free', a, d)
  {
  }

  // ----- a new arena

  lemma WithArenaConsistent(h: Heap, a: nat, d: nat)
    requires Consistent(h) && d < DESC_CNT && a % PG_SIZE == 0 && a !in h.arenas
    ensures Consistent(WithArena(h, a, d))
  {
    var h' := WithArena(h, a, d);
    PushedMembers(a, d, PerArena(d));
    forall e | 0 <= e < DESC_CNT ensures FreeOk(h', e) { NewArenaFree(h, a, d, e); }
    forall x | x in h'.arenas ensures ArenaOk(h', x) { NewArenaCount(h, a, d, x); }
    forall b | b in h'.live ensures LiveOk(h', b) { assert LiveOk(h, b); }
    forall x, i: nat | x in h'.arenas ensures BlockOk(h', x, i) {
      if x != a { assert BlockOk(h, x, i); }
    }
  }

  lemma NewArenaFree(h: Heap, a: nat, d: nat, e: nat)
    requires Consistent(h) && d < DESC_CNT && a % PG_SIZE == 0 && a !in h.arenas && e < DESC_CNT
    ensures FreeOk(WithArena(h, a, d), e)
  {
    var h' := WithArena(h, a, d);
    PushedMembers(a, d, PerArena(d));
    assert FreeOk(h, e);
    forall b | b in h'.free[e] ensures IsBlock(h', b, e) {
      if b in h.free[e] { assert IsBlock(h, b, e); }
    }
    if e == d {
      assert forall b | b in h.free[d] :: IsBlock(h, b, d);
      ConcatNoDup(Pushed(a, d, PerArena(d)), h.free[d]);
    }
  }

  lemma NewArenaCount(h: Heap, a: nat, d: nat, x: nat)
    requires Consistent(h) && d < DESC_CNT && a % PG_SIZE == 0 && a !in h.arenas
    requires x in WithArena(h, a, d).arenas
    ensures ArenaOk(WithArena(h, a, d), x)
  {
    var h' := WithArena(h, a, d);
    PushedMembers(a, d, PerArena(d));
    if x == a {
      FreeIdxBound(h'.free[d], a, d);
    } else {
      assert ArenaOk(h, x);
      var e := h.arenas[x].desc;
      forall i: nat | i < PerArena(e) ensures Block(x, e, i) in h.free[e] <==> Block(x, e, i) in h'.free[e] {
        BlockAddress(x, e, i);
      }
      FreeIdxSame(h.free[e], h'.free[e], x, e);
    }
  }

  // ----- handing out and taking back

  lemma HandBlock(h: Heap, d: nat)
    requires Consistent(h) && d < DESC_CNT && h.free[d] != []
    ensures var b := h.free[d][0];
      && ArenaOf(b) in h.arenas && h.arenas[ArenaOf(b)].desc == d && b !in h.live
      && ArenaOf(b) % PG_SIZE == 0
      && IndexOf(b, d) < PerArena(d) && b == Block(ArenaOf(b), d, IndexOf(b, d)) && h.arenas[ArenaOf(b)].freeCnt > 0
      && b !in h.free[d][1..] && (forall c | c in h.free[d] && c != b :: c in h.free[d][1..])
  {
    var b := h.free[d][0];
    assert FreeOk(h, d);
    assert b in h.free[d];
    assert IsBlock(h, b, d) && ArenaOk(h, ArenaOf(b));
    assert b in h.live ==> LiveOk(h, b);
    assert IndexOf(b, d) in FreeIdx(h.free[d], ArenaOf(b), d);
    NoDupTail(h.free[d]);
    assert h.free[d] == [b] + h.free[d][1..];
  }

  lemma HandCount(h: Heap, d: nat, size: nat, x: nat)
    requires Consistent(h) && d < DESC_CNT && h.free[d] != []
    requires ArenaOf(h.free[d][0]) in h.arenas && x in h.arenas
    ensures ArenaOk(Hand(h, d, size), x)
  {
    var h', b := Hand(h, d, size), h.free[d][0];
    HandBlock(h, d);
    var a, e := ArenaOf(b), h.arenas[x].desc;
    assert ArenaOk(h, x) && ArenaOk(h, a);
    if x == a {
      forall i: nat | i < PerArena(d)
        ensures Block(a, d, i) in h'.free[d] <==> Block(a, d, i) in h.free[d] && i != IndexOf(b, d)
      {
        BlockAddress(a, d, i);
      }
      assert FreeIdx(h'.free[d], a, d) == FreeIdx(h.free[d], a, d) - {IndexOf(b, d)};
    } else {
      forall i: nat | i < PerArena(e) ensures Block(x, e, i) in h.free[e] <==> Block(x, e, i) in h'.free[e] {
        BlockAddress(x, e, i);
      }
      FreeIdxSame(h.free[e], h'.free[e], x, e);
    }
  }

  lemma HandConsistent(h: Heap, d: nat, size: nat)
    requires Consistent(h) && d < DESC_CNT && h.free[d] != [] && size <= BlockSize(d)
    ensures ArenaOf(h.free[d][0]) in h.arenas && Consistent(Hand(h, d, size))
  {
    HandBlock(h, d);
    var h', b := Hand(h, d, size), h.free[d][0];
    forall x | x in h'.arenas ensures ArenaOk(h', x) { HandCount(h, d, size, x); }
    forall e | 0 <= e < DESC_CNT ensures FreeOk(h', e) {
      assert FreeOk(h, e);
      if e == d { NoDupTail(h.free[d]); }
      forall c | c in h'.free[e] ensures IsBlock(h', c, e) {
        assert c in h.free[e] && IsBlock(h, c, e);
      }
    }
    HandLive(h, d, size);
    forall x, i: nat | x in h'.arenas ensures BlockOk(h', x, i) { assert BlockOk(h, x, i); }
  }

  lemma HandLive(h: Heap, d: nat, size: nat)
    requires Consistent(h) && d < DESC_CNT && h.free[d] != [] && size <= BlockSize(d)
    requires ArenaOf(h.free[d][0]) in h.arenas
    ensures forall c {:trigger LiveOk(Hand(h, d, size), c)} | c in Hand(h, d, size).live :: LiveOk(Hand(h, d, size), c)
  {
    HandBlock(h, d);
    var h', b := Hand(h, d, size), h.free[d][0];
    forall c | c in h'.live ensures LiveOk(h', c) {
      if c != b { assert LiveOk(h, c); }
    }
  }

  lemma GiveBackCount(h: Heap, b: nat, x: nat)
    requires Consistent(h) && b in h.live && x in h.arenas
    ensures ArenaOf(b) in h.arenas && h.arenas[ArenaOf(b)].desc < DESC_CNT && ArenaOk(GiveBack(h, b), x)
  {
    assert LiveOk(h, b);
    var a := ArenaOf(b);
    assert ArenaOk(h, x) && ArenaOk(h, a);
    var h', d, e := GiveBack(h, b), h.arenas[a].desc, h.arenas[x].desc;
    if x == a {
      forall i: nat | i < PerArena(d)
        ensures Block(a, d, i) in h'.free[d] <==> Block(a, d, i) in h.free[d] || i == IndexOf(b, d)
      {
        BlockAddress(a, d, i);
      }
      assert FreeIdx(h'.free[d], a, d) == FreeIdx(h.free[d], a, d) + {IndexOf(b, d)};
      assert IndexOf(b, d) !in FreeIdx(h.free[d], a, d);
    } else {
      forall i: nat | i < PerArena(e) ensures Block(x, e, i) in h.free[e] <==> Block(x, e, i) in h'.free[e] {
        BlockAddress(x, e, i);
      }
      FreeIdxSame(h.free[e], h'.free[e], x, e);
    }
  }

  lemma GiveBackConsistent(h: Heap, b: nat)
    requires Consistent(h) && b in h.live
    ensures ArenaOf(b) in h.arenas && h.arenas[ArenaOf(b)].desc < DESC_CNT && Consistent(GiveBack(h, b))
  {
    assert LiveOk(h, b);
    assert ArenaOk(h, ArenaOf(b));
    var h' := GiveBack(h, b);
    forall x | x in h'.arenas ensures ArenaOk(h', x) { GiveBackCount(h, b, x); }
    forall e | 0 <= e < DESC_CNT ensures FreeOk(h', e) { GiveBackFree(h, b, e); }
    forall c | c in h'.live ensures LiveOk(h', c) { GiveBackLive(h, b, c); }
    forall x, i: nat | x in h'.arenas ensures BlockOk(h', x, i) { GiveBackBlock(h, b, x, i); }
  }

  lemma GiveBackLive(h: Heap, b: nat, c: nat)
    requires Consistent(h) && b in h.live && c in h.live && c != b
    requires ArenaOf(b) in h.arenas && h.arenas[ArenaOf(b)].desc < DESC_CNT
    ensures LiveOk(GiveBack(h, b), c)
  {
    assert LiveOk(h, c);
  }

  lemma GiveBackBlock(h: Heap, b: nat, x: nat, i: nat)
    requires Consistent(h) && b in h.live && x in h.arenas
    requires ArenaOf(b) in h.arenas && h.arenas[ArenaOf(b)].desc < DESC_CNT
    ensures BlockOk(GiveBack(h, b), x, i)
  {
    assert BlockOk(h, x, i) && LiveOk(h, b);
    var d := h.arenas[ArenaOf(b)].desc;
    assert GiveBack(h, b).free[d][|h.free[d]|] == b;
    if h.arenas[x].desc < DESC_CNT && i < PerArena(h.arenas[x].desc) {
      assert ArenaOk(h, x);
      BlockAddress(x, h.arenas[x].desc, i);
    }
  }

  lemma GiveBackFree(h: Heap, b: nat, e: nat)
    requires Consistent(h) && b in h.live && e < DESC_CNT
    requires ArenaOf(b) in h.arenas && h.arenas[ArenaOf(b)].desc < DESC_CNT
    ensures FreeOk(GiveBack(h, b), e)
  {
    assert LiveOk(h, b) && FreeOk(h, e);
    var h', d := GiveBack(h, b), h.arenas[ArenaOf(b)].desc;
    if e == d { ConcatNoDup(h.free[d], [b]); }
    forall c | c in h'.free[e] ensures IsBlock(h', c, e) {
      if c in h.free[e] { assert IsBlock(h, c, e); }
    }
  }

  // ----- retiring a wholly free arena

  lemma {:induction false} SweptMembers(free: seq<nat>, a: nat, d: nat, n: nat)
    requires NoDup(free) && d < DESC_CNT
    ensures NoDup(Swept(free, a, d, n))
    ensures forall b :: b in Swept(free, a, d, n) <==> b in free && forall i: nat | i < n :: b != Block(a, d, i)
  {
    if n > 0 {
      SweptMembers(free, a, d, n - 1);
      WithoutMembers(Swept(free, a, d, n - 1), Block(a, d, n - 1));
    }
  }

  /** A full count means all its blocks are on the list, so the sweep finds each of them. */
  lemma FullArenaAllFree(h: Heap, a: nat)
    requires Consistent(h) && a in h.arenas && h.arenas[a].desc < DESC_CNT
    requires h.arenas[a].freeCnt == PerArena(h.arenas[a].desc)
    ensures forall i: nat | i < PerArena(h.arenas[a].desc) :: Block(a, h.arenas[a].desc, i) in h.free[h.arenas[a].desc]
    ensures forall b | b in h.live :: ArenaOf(b) != a
  {
    var d := h.arenas[a].desc;
    assert ArenaOk(h, a);
    FreeIdxBound(h.free[d], a, d);
    forall i: nat | i < PerArena(d) ensures Block(a, d, i) in h.free[d] {
      assert i in FreeIdx(h.free[d], a, d);
    }
    forall b | b in h.live ensures ArenaOf(b) != a { assert LiveOk(h, b); }
  }

  lemma RetireFree(h: Heap, a: nat, e: nat)
    requires Consistent(h) && a in h.arenas && h.arenas[a].desc < DESC_CNT && e < DESC_CNT
    ensures FreeOk(Retire(h, a), e)
    ensures forall b :: b in Retire(h, a).free[e] <==> b in h.free[e] && ArenaOf(b) != a
  {
    var d := h.arenas[a].desc;
    var h' := Retire(h, a);
    assert FreeOk(h, e) && ArenaOk(h, a);
    if e == d {
      SweptMembers(h.free[d], a, d, PerArena(d));
      forall i: nat | i < PerArena(d) ensures ArenaOf(Block(a, d, i)) == a { BlockAddress(a, d, i); }
    }
    forall b ensures b in h'.free[e] <==> b in h.free[e] && ArenaOf(b) != a {
      if b in h.free[e] {
        assert IsBlock(h, b, e);
      }
    }
  }

  lemma RetireConsistent(h: Heap, a: nat)
    requires Consistent(h) && a in h.arenas && h.arenas[a].desc < DESC_CNT
    requires h.arenas[a].freeCnt == PerArena(h.arenas[a].desc)
    ensures Consistent(Retire(h, a))
  {
    FullArenaAllFree(h, a);
    var h' := Retire(h, a);
    forall e | 0 <= e < DESC_CNT ensures FreeOk(h', e) { RetireFree(h, a, e); }
    forall x | x in h'.arenas ensures ArenaOk(h', x) { RetireCount(h, a, x); }
    forall b | b in h'.live ensures LiveOk(h', b) {
      assert LiveOk(h, b) && ArenaOk(h, ArenaOf(b));
      RetireFree(h, a, h.arenas[ArenaOf(b)].desc);
    }
    forall x, i: nat | x in h'.arenas ensures BlockOk(h', x, i) { RetireBlock(h, a, x, i); }
  }

  lemma RetireBlock(h: Heap, a: nat, x: nat, i: nat)
    requires Consistent(h) && a in h.arenas && h.arenas[a].desc < DESC_CNT && x in Retire(h, a).arenas
    ensures BlockOk(Retire(h, a), x, i)
  {
    assert BlockOk(h, x, i) && ArenaOk(h, x);
    var e := h.arenas[x].desc;
    if i < PerArena(e) {
      BlockAddress(x, e, i);
      RetireFree(h, a, e);
    }
  }

  lemma RetireCount(h: Heap, a: nat, x: nat)
    requires Consistent(h) && a in h.arenas && h.arenas[a].desc < DESC_CNT && x in Retire(h, a).arenas
    ensures ArenaOk(Retire(h, a), x)
  {
    assert ArenaOk(h, x);
    var e := h.arenas[x].desc;
    RetireFree(h, a, e);
    forall i: nat | i < PerArena(e) ensures Block(x, e, i) in h.free[e] <==> Block(x, e, i) in Retire(h, a).free[e] {
      BlockAddress(x, e, i);
    }
    FreeIdxSame(h.free[e], Retire(h, a).free[e], x, e);
  }
}
