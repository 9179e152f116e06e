/** The page pools of `kernel/memory.c` on top of the bitmap. */
module PagePool {
  import opened Bitmaps

  const PG_SIZE: nat := 4096

  datatype Option<T> = None | Some(value: T)

  /** Indices of the marked bits among the first `limit`. */
  function Marked(bits: seq<bool>, limit: nat): set<nat>
    requires limit <= |bits|
  {
    set i: nat {:trigger bits[i]} | 0 <= i < limit && bits[i]
  }

  class Pool {
    const start: nat
    const bitmap: Bitmap

    /** `mem_pool_init`: an empty map, then `res` pages marked as reserved. */
    constructor (start: nat, bitmap: Bitmap, res: nat)
      requires start % PG_SIZE == 0 && bitmap.Valid() && res <= 8 * bitmap.bytesLen
      modifies bitmap.bits
      ensures this.start == start && this.bitmap == bitmap && Valid()
      ensures forall i: nat :: i in Taken() <==> i < res
    {
      this.start, this.bitmap := start, bitmap;
      new;
      for i := 0 to 8 * bitmap.bytesLen
        invariant forall j | 0 <= j < i :: !bitmap.Bits()[j]
      {
        bitmap.Set(i, false);
      }
      for i := 0 to res
        invariant forall j | 0 <= j < 8 * bitmap.bytesLen :: bitmap.Bits()[j] <==> j < i
      {
        bitmap.Set(i, true);
      }
    }

    ghost predicate Valid() {
      start % PG_SIZE == 0 && bitmap.Valid()
    }

    ghost function Limit(): nat {
      8 * bitmap.bytesLen
    }

    /** Pages handed out or reserved, by index. */
    ghost function Taken(): set<nat>
      requires Valid()
      reads bitmap.bits
    {
      Marked(bitmap.Bits(), Limit())
    }

    /** `pool_alloc`: the least run of free pages, if one lies in the pool.  If none does, the answer is
        `None`, the panic of an exhausted pool, or a run that leaves the pool. */
    method AllocPages(cnt: nat) returns (r: Option<nat>)
      requires Valid() && cnt > 0 && Limit() + cnt <= 8 * bitmap.bits.Length + 1
      modifies bitmap.bits
      ensures r.None? ==> Taken() == old(Taken()) && !HasFreeRun(old(Taken()), Limit(), cnt)
      ensures r.Some? ==> r.value >= start && (r.value - start) % PG_SIZE == 0 && PageOf(r.value) < Limit()
      ensures r.Some? ==> (PageOf(r.value) + cnt <= Limit() <==> HasFreeRun(old(Taken()), Limit(), cnt))
      ensures r.Some? ==> forall s: nat | s < PageOf(r.value) :: !FreeRun(old(Taken()), Limit(), s, cnt)
      ensures r.Some? ==> forall k: nat | k < Limit() ::
        && (PageOf(r.value) <= k < PageOf(r.value) + cnt ==> k !in old(Taken()))
        && (k in Taken() <==> k in old(Taken()) || PageOf(r.value) <= k < PageOf(r.value) + cnt)
    {
      ghost var b := bitmap.Bits();
      var idx, _ := bitmap.Alloc(cnt);
      RunOfPages(b, Limit(), cnt, idx);
      if idx == -1 {
        return None;
      }
      assert (PG_SIZE * idx) / PG_SIZE == idx;
      return Some(start + idx * PG_SIZE);
    }

    function PageOf(addr: nat): nat
      requires addr >= start
    {
      (addr - start) / PG_SIZE
    }

    /** One page: the least free one; `None` exactly if there is none. */
    method AllocPage() returns (r: Option<nat>)
      requires Valid()
      modifies bitmap.bits
      ensures r.None? ==> Taken() == old(Taken()) && forall i: nat | i < Limit() :: i in old(Taken())
      ensures r.Some? ==> r.value >= start && (r.value - start) % PG_SIZE == 0
      ensures r.Some? ==> var i := (r.value - start) / PG_SIZE;
        && i < Limit() && i !in old(Taken()) && Taken() == old(Taken()) + {i}
        && forall j: nat | j < i :: j in old(Taken())
    {
      ghost var taken := Taken();
      r := AllocPages(1);
      SinglePage(taken, Limit());
    }

    /** `pool_free`: every page was marked, and these marks are cleared. */
    method FreePages(addr: nat, cnt: nat)
      requires Valid() && addr >= start && (addr - start) % PG_SIZE == 0
      requires var i := (addr - start) / PG_SIZE;
        i + cnt <= Limit() && forall j | i <= j < i + cnt :: j in Taken()
      modifies bitmap.bits
      ensures var i := (addr - start) / PG_SIZE;
        forall j: nat :: j in Taken() <==> j in old(Taken()) && !(i <= j < i + cnt)
    {
      var first := (addr - start) / PG_SIZE;
      ghost var b := bitmap.Bits();
      for i := 0 to cnt
        invariant forall j | 0 <= j < Limit() :: bitmap.Bits()[j] == (b[j] && !(first <= j < first + i))
      {
        bitmap.Set(first + i, false);
      }
    }
  }

  /** `cnt` free pages of the pool, from `start` on. */
  ghost predicate FreeRun(taken: set<nat>, limit: nat, start: nat, cnt: nat) {
    start + cnt <= limit && forall k | start <= k < start + cnt :: k !in taken
  }

  ghost predicate HasFreeRun(taken: set<nat>, limit: nat, cnt: nat) {
    exists s: nat :: FreeRun(taken, limit, s, cnt)
  }

  /** The answers of the bit search, in terms of pages. */
  lemma RunOfPages(bits: seq<bool>, limit: nat, cnt: nat, ret: int)
    requires limit <= |bits| && cnt > 0 && FirstFit(bits, limit, cnt, ret)
    ensures ret == -1 ==> !HasFreeRun(Marked(bits, limit), limit, cnt)
    ensures ret != -1 ==> (ret + cnt <= limit <==> HasFreeRun(Marked(bits, limit), limit, cnt))
    ensures ret != -1 ==> forall s: nat | s < ret :: !FreeRun(Marked(bits, limit), limit, s, cnt)
  {
    FitStaysInMap(bits, limit, cnt, ret);
    forall s: nat | s + cnt <= limit
      ensures FreeRun(Marked(bits, limit), limit, s, cnt) <==> ClearRun(bits, s, cnt)
    {
      FreeIsClear(bits, limit, s, cnt);
    }
    if ret != -1 && ret + cnt <= limit { assert FreeRun(Marked(bits, limit), limit, ret, cnt); }
  }

  lemma FreeIsClear(bits: seq<bool>, limit: nat, s: nat, cnt: nat)
    requires s + cnt <= limit <= |bits|
    ensures FreeRun(Marked(bits, limit), limit, s, cnt) <==> ClearRun(bits, s, cnt)
  {
    if FreeRun(Marked(bits, limit), limit, s, cnt) {
      forall k | s <= k < s + cnt ensures !bits[k] { assert k !in Marked(bits, limit); }
    }
  }

  lemma SinglePage(taken: set<nat>, limit: nat)
    ensures forall i: nat | i < limit :: FreeRun(taken, limit, i, 1) <==> i !in taken
    ensures HasFreeRun(taken, limit, 1) <==> exists i: nat :: i < limit && i !in taken
  {
    if i: nat :| i < limit && i !in taken { assert FreeRun(taken, limit, i, 1); }
    if HasFreeRun(taken, limit, 1) {
      var s: nat :| FreeRun(taken, limit, s, 1);
      assert s !in taken;
    }
  }
}
