/** `kalloc` and `kfree` over the kernel page pool. */
module Slab {
  import opened Sequences
  import opened PagePool
  import opened SlabState
  import opened SlabSteps

  /** Between calls a page belongs to the allocator exactly while a block in it is live. */
  lemma PageHeldIff(h: Heap, a: nat)
    requires SlabState.Inv(h)
    ensures a in h.arenas <==> exists b :: b in h.live && ArenaOf(b) == a
  {
    if a in h.arenas {
      var b := ArenaHasLiveBlock(h, a);
    }
    forall b | b in h.live && ArenaOf(b) == a ensures a in h.arenas {
      assert LiveOk(h, b);
    }
  }

  ghost predicate OnPage(start: nat, taken: set<nat>, a: nat) {
    a >= start && (a - start) % PG_SIZE == 0 && (a - start) / PG_SIZE in taken
  }

  ghost predicate OnPages(start: nat, taken: set<nat>, pages: set<nat>) {
    forall a {:trigger OnPage(start, taken, a)} | a in pages :: OnPage(start, taken, a)
  }

  /** Taken pages that are not among `pages`. */
  ghost function Others(start: nat, taken: set<nat>, pages: set<nat>): set<nat> {
    set i | i in taken && start + PG_SIZE * i !in pages
  }

  lemma PageAdded(start: nat, taken: set<nat>, pages: set<nat>, a: nat)
    requires OnPages(start, taken, pages) && start % PG_SIZE == 0
    requires a >= start && (a - start) % PG_SIZE == 0 && (a - start) / PG_SIZE !in taken
    ensures a !in pages && a % PG_SIZE == 0
    ensures var taken' := taken + {(a - start) / PG_SIZE};
      OnPages(start, taken', pages + {a}) && Others(start, taken', pages + {a}) == Others(start, taken, pages)
  {
    assert a in pages ==> OnPage(start, taken, a);
    var j := (a - start) / PG_SIZE;
    var taken' := taken + {j};
    assert start + PG_SIZE * j == a;
    forall x | x in pages + {a} ensures OnPage(start, taken', x) {
      if x != a { assert OnPage(start, taken, x); }
    }
    assert Others(start, taken', pages + {a}) == Others(start, taken, pages);
  }

  lemma PageDropped(start: nat, taken: set<nat>, pages: set<nat>, a: nat)
    requires OnPages(start, taken, pages) && a in pages
    ensures OnPage(start, taken, a)
    ensures var taken' := taken - {(a - start) / PG_SIZE};
      OnPages(start, taken', pages - {a}) && Others(start, taken', pages - {a}) == Others(start, taken, pages)
  {
    assert OnPage(start, taken, a);
    var j := (a - start) / PG_SIZE;
    var taken' := taken - {j};
    assert start + PG_SIZE * j == a;
    forall x | x in pages - {a} ensures OnPage(start, taken', x) {
      assert OnPage(start, taken, x);
      if (x - start) / PG_SIZE == j {
        SameQuotient(x - start, a - start);
      }
    }
    assert Others(start, taken', pages - {a}) == Others(start, taken, pages);
  }

  lemma SameQuotient(x: nat, y: nat)
    requires x % PG_SIZE == 0 && y % PG_SIZE == 0 && x / PG_SIZE == y / PG_SIZE
    ensures x == y
  {
  }

  /** Class `d` is the least whose blocks hold `size` bytes. */
  predicate LeastClass(d: nat, size: nat) {
    d < DESC_CNT && size <= BlockSize(d) && forall e | 0 <= e < d :: BlockSize(e) < size
  }

  /** Arena `a` is of that class and has a free block. */
  predicate HasRoom(arenas: map<nat, Arena>, a: nat, size: nat) {
    a in arenas && LeastClass(arenas[a].desc, size) && arenas[a].freeCnt > 0
  }

  ghost predicate SomeRoom(arenas: map<nat, Arena>, size: nat) {
    exists a :: HasRoom(arenas, a, size)
  }

  /** A free list has a block exactly if an arena of its class counts one. */
  lemma ListedIsCounted(h: Heap, d: nat, size: nat)
    requires Consistent(h) && LeastClass(d, size)
    ensures |h.free| == DESC_CNT && (h.free[d] != [] <==> SomeRoom(h.arenas, size))
  {
    if h.free[d] != [] {
      HandBlock(h, d);
      assert HasRoom(h.arenas, ArenaOf(h.free[d][0]), size);
    }
    if SomeRoom(h.arenas, size) {
      var a :| HasRoom(h.arenas, a, size);
      SameLeastClass(d, h.arenas[a].desc, size);
      assert ArenaOk(h, a);
      var i :| i in FreeIdx(h.free[d], a, d);
    }
  }

  lemma SameLeastClass(d: nat, e: nat, size: nat)
    requires LeastClass(d, size) && LeastClass(e, size)
    ensures d == e
  {
  }

  class SlabAllocator {
    const pool: Pool
    // Free list and arena headers, one list a size class.
    var free: seq<seq<nat>>
    var arenas: map<nat, Arena>
    ghost var live: map<nat, nat>

    /** `block_desc_init`: empty lists, no arena. */
    constructor (pool: Pool)
      requires pool.Valid()
      ensures this.pool == pool && Valid() && live == map[] && arenas == map[]
    {
      this.pool := pool;
      free, arenas, live := [[], [], [], [], [], [], []], map[], map[];
      new;
      forall d | 0 <= d < DESC_CNT ensures FreeOk(View(), d) {}
    }

    ghost function View(): Heap
      reads this
    {
      Heap(free, arenas, live)
    }

    /** The arenas sit on pages taken from the pool. */
    ghost predicate PagesOk()
      reads this, pool.bitmap.bits
    {
      pool.Valid() && OnPages(pool.start, pool.Taken(), arenas.Keys)
    }

    ghost predicate Valid()
      reads this, pool.bitmap.bits
    {
      PagesOk() && SlabState.Inv(View())
    }

    /** Pool pages taken by somebody other than this allocator. */
    ghost function Foreign(): set<nat>
      requires pool.Valid()
      reads this, pool.bitmap.bits
    {
      Others(pool.start, pool.Taken(), arenas.Keys)
    }

    /** The least size class that holds `size` bytes. */
    method ClassOf(size: nat) returns (d: nat)
      requires size <= MAX_SIZE
      ensures LeastClass(d, size)
    {
      d := 0;
      while size > BlockSize(d)
        invariant d < DESC_CNT && forall e | 0 <= e < d :: BlockSize(e) < size
        decreases DESC_CNT - d
      {
        d := d + 1;
      }
    }

    /** A fresh page becomes an arena and all its blocks go on the list of its class. */
    method ArenaInit(d: nat) returns (ok: bool)
      requires PagesOk() && Consistent(View()) && d < DESC_CNT
      modifies this`free, this`arenas, pool.bitmap.bits
      ensures PagesOk() && Consistent(View()) && Foreign() == old(Foreign())
      ensures !ok ==> View() == old(View()) && pool.Taken() == old(pool.Taken())
      ensures ok == exists i: nat :: i < pool.Limit() && i !in old(pool.Taken())
      ensures ok ==> exists a | a in arenas && a !in old(arenas) ::
        && View() == WithArena(old(View()), a, d)
        && OnPage(pool.start, pool.Taken(), a) && |pool.Taken()| == |old(pool.Taken())| + 1
    {
      var page := pool.AllocPage();
      if page.None? {
        return false;
      }
      var a := page.value;
      var n := PerArena(d);
      ghost var h := View();
      PageAdded(pool.start, old(pool.Taken()), arenas.Keys, a);
      arenas := arenas[a := Arena(d, n)];
      var idx := 0;
      assert [] + h.free[d] == h.free[d];
      while idx != n
        invariant 0 <= idx <= n && arenas == h.arenas[a := Arena(d, n)] && |free| == DESC_CNT
        invariant free == h.free[d := Pushed(a, d, idx) + h.free[d]]
        decreases n - idx
        modifies this`free
      {
        assert Pushed(a, d, idx + 1) + h.free[d] == [Block(a, d, idx)] + (Pushed(a, d, idx) + h.free[d]);
        free := free[d := [Block(a, d, idx)] + free[d]];
        idx := idx + 1;
      }
      assert View() == WithArena(h, a, d);
      WithArenaConsistent(h, a, d);
      assert arenas.Keys == h.arenas.Keys + {a};
      ok := true;
    }

    /** A block of the least class that fits: of an arena that has one free, or else of a fresh page.  `None` is the
        panic of an exhausted pool. */
    method Kalloc(size: nat) returns (r: Option<nat>)
      requires Valid() && size <= MAX_SIZE
      modifies this, pool.bitmap.bits
      ensures Valid() && Foreign() == old(Foreign())
      ensures r.None? <==> !old(SomeRoom(arenas, size)) && forall i: nat | i < pool.Limit() :: i in old(pool.Taken())
      ensures r.None? ==> View() == old(View())
      ensures r.Some? ==> r.value !in old(live) && live == old(live)[r.value := size]
      ensures r.Some? ==> ArenaOf(r.value) in arenas && LeastClass(arenas[ArenaOf(r.value)].desc, size)
      ensures old(SomeRoom(arenas, size)) ==>
                && r.Some? && HasRoom(old(arenas), ArenaOf(r.value), size)
                && arenas.Keys == old(arenas.Keys) && pool.Taken() == old(pool.Taken())
      ensures r.Some? && !old(SomeRoom(arenas, size)) ==>
                && ArenaOf(r.value) !in old(arenas) && arenas.Keys == old(arenas.Keys) + {ArenaOf(r.value)}
                && |pool.Taken()| == |old(pool.Taken())| + 1
    {
      hide Consistent, NoneIdle, OnPages, WithArena, Block, ArenaOf, BlockSize, PerArena;
      ghost var was := View();
      var d := ClassOf(size);
      ListedIsCounted(was, d, size);
      if free[d] == [] {
        var ok := ArenaInit(d);
        if !ok {
          return None;
        }
      }
      OneFresh(was, View(), d);
      var b := TakeHead(d, size);
      r := Some(b);
    }

    /** The second half of `kalloc`: the first block of the list goes to the caller. */
    method TakeHead(d: nat, size: nat) returns (b: nat)
      requires PagesOk() && Consistent(View()) && d < DESC_CNT && free[d] != [] && size <= BlockSize(d)
      requires NoneIdle(View(), {ArenaOf(free[d][0])})
      modifies this`free, this`arenas, this`live
      ensures Valid() && b == old(free[d][0])
      ensures b !in old(live) && live == old(live)[b := size]
      ensures arenas.Keys == old(arenas.Keys) && ArenaOf(b) in arenas && arenas[ArenaOf(b)].desc == d
      ensures old(arenas)[ArenaOf(b)].desc == d && old(arenas)[ArenaOf(b)].freeCnt > 0
    {
      ghost var h := View();
      HandBlock(h, d);
      HandConsistent(h, d, size);
      b := free[d][0];
      assert ArenaOk(h, ArenaOf(b));
      FreeIdxBound(free[d], ArenaOf(b), d);
      free := free[d := free[d][1..]];
      arenas := arenas[ArenaOf(b) := arenas[ArenaOf(b)].(freeCnt := arenas[ArenaOf(b)].freeCnt - 1)];
      live := live[b := size];
      assert View() == Hand(h, d, size) && arenas.Keys == h.arenas.Keys;
    }

    /** `addr` came from `Kalloc` and was not given back yet. */
    method Kfree(addr: nat)
      requires Valid() && addr in live
      modifies this, pool.bitmap.bits
      ensures Valid() && live == old(live) - {addr} && Foreign() == old(Foreign())
    {
      ghost var h := View();
      assert LiveOk(h, addr) && ArenaOk(h, ArenaOf(addr));
      GiveBackConsistent(h, addr);
      var a := ArenaOf(addr);
      var d := arenas[a].desc;
      free := free[d := free[d] + [addr]];
      arenas := arenas[a := arenas[a].(freeCnt := arenas[a].freeCnt + 1)];
      live := live - {addr};
      ghost var g := View();
      assert g == GiveBack(h, addr) && NoneIdle(g, {a}) && g.arenas.Keys == h.arenas.Keys;
      assert ArenaOk(g, a);
      FreeIdxBound(free[d], a, d);
      if arenas[a].freeCnt == PerArena(d) {
        RetireArena(a);
      }
    }

    /** The end of `kfree` when the arena is wholly free: unlink its blocks and return its page. */
    method RetireArena(a: nat)
      requires PagesOk() && Consistent(View()) && a in arenas && arenas[a].desc < DESC_CNT
      requires arenas[a].freeCnt == PerArena(arenas[a].desc) && NoneIdle(View(), {a})
      modifies this`free, this`arenas, pool.bitmap.bits
      ensures Valid() && Foreign() == old(Foreign())
    {
      ghost var g := View();
      RetireConsistent(g, a);
      PageDropped(pool.start, pool.Taken(), arenas.Keys, a);
      Sweep(a);
      hide Consistent;
      pool.FreePages(a, 1);
      arenas := arenas - {a};
      assert View() == Retire(g, a);
      assert pool.Taken() == old(pool.Taken()) - {(a - pool.start) / PG_SIZE};
      assert arenas.Keys == g.arenas.Keys - {a};
    }

    /** The removal loop of `kfree`; the ASSERT in it holds for every block. */
    method Sweep(a: nat)
      requires Consistent(View()) && a in arenas && arenas[a].desc < DESC_CNT
      requires arenas[a].freeCnt == PerArena(arenas[a].desc)
      modifies this`free
      ensures free == old(free)[arenas[a].desc := Swept(old(free)[arenas[a].desc], a, arenas[a].desc, PerArena(arenas[a].desc))]
    {
      ghost var h := View();
      var d := arenas[a].desc;
      var n := PerArena(d);
      var idx := 0;
      hide Consistent;
      while idx != n
        invariant 0 <= idx <= n && free == h.free[d := Swept(h.free[d], a, d, idx)]
        decreases n - idx
      {
        SweepFinds(h, a, idx);
        assert Block(a, d, idx) in free[d];
        var rest := RemoveFirst(free[d], Block(a, d, idx));
        free := free[d := rest];
        idx := idx + 1;
      }
    }
  }

  /** When the sweep of a wholly free arena comes to a block, the block is still on the list. */
  lemma SweepFinds(h: Heap, a: nat, idx: nat)
    requires Consistent(h) && a in h.arenas && h.arenas[a].desc < DESC_CNT
    requires h.arenas[a].freeCnt == PerArena(h.arenas[a].desc) && idx < PerArena(h.arenas[a].desc)
    ensures var d := h.arenas[a].desc; Block(a, d, idx) in Swept(h.free[d], a, d, idx)
  {
    var d := h.arenas[a].desc;
    FullArenaAllFree(h, a);
    assert FreeOk(h, d) && ArenaOk(h, a);
    SweptMembers(h.free[d], a, d, idx);
    forall i: nat | i <= idx ensures IndexOf(Block(a, d, i), d) == i { BlockAddress(a, d, i); }
  }

  /** If the list was empty, its head is now a block of the new arena. */
  lemma OneFresh(was: Heap, h: Heap, d: nat)
    requires SlabState.Inv(was) && Consistent(h) && d < DESC_CNT
    requires (was.free[d] != [] && h == was)
          || (was.free[d] == [] && exists a | a in h.arenas && a !in was.arenas :: h == WithArena(was, a, d))
    ensures |h.free| == DESC_CNT && h.free[d] != [] && NoneIdle(h, {ArenaOf(h.free[d][0])})
    ensures was.free[d] == [] ==> ArenaOf(h.free[d][0]) in h.arenas && ArenaOf(h.free[d][0]) !in was.arenas
    ensures was.free[d] == [] ==> h.arenas.Keys == was.arenas.Keys + {ArenaOf(h.free[d][0])}
  {
    if was.free[d] == [] {
      var a :| a in h.arenas && a !in was.arenas && h == WithArena(was, a, d);
      assert ArenaOk(h, a);
      PushedMembers(a, d, PerArena(d));
      assert h.free[d][0] in Pushed(a, d, PerArena(d));
    }
  }
}
