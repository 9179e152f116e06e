/** Address arithmetic and the invariant of the slab allocator in `kernel/memory.c`. */
module SlabState {
  import opened PagePool
  import opened Sequences

  const DESC_CNT: nat := 7
  const ARENA_SIZE: nat := 16
  const MAX_SIZE: nat := 1024

  /** `block_desc_init`: 16 doubled `d` times. */
  function BlockSize(d: nat): (size: nat)
    requires d < DESC_CNT
    ensures size >= 16
  {
    match d
    case 0 => 16
    case 1 => 32
    case 2 => 64
    case 3 => 128
    case 4 => 256
    case 5 => 512
    case _ => 1024
  }

  function PerArena(d: nat): nat
    requires d < DESC_CNT
  {
    (PG_SIZE - ARENA_SIZE) / BlockSize(d)
  }

  /** `arena2block`. */
  function Block(a: nat, d: nat, i: nat): nat
    requires d < DESC_CNT
  {
    a + ARENA_SIZE + BlockSize(d) * i
  }

  /** `block2arena`: the address with its low twelve bits cleared. */
  function ArenaOf(b: nat): nat {
    b - b % PG_SIZE
  }

  function IndexOf(b: nat, d: nat): nat
    requires d < DESC_CNT
  {
    if b % PG_SIZE < ARENA_SIZE then 0 else (b % PG_SIZE - ARENA_SIZE) / BlockSize(d)
  }

  /** A block lies wholly inside its page, after the header, and both address functions are inverses. */
  lemma BlockAddress(a: nat, d: nat, i: nat)
    requires a % PG_SIZE == 0 && d < DESC_CNT && i < PerArena(d)
    ensures a + ARENA_SIZE <= Block(a, d, i) && Block(a, d, i) + BlockSize(d) <= a + PG_SIZE
    ensures ArenaOf(Block(a, d, i)) == a && IndexOf(Block(a, d, i), d) == i
  {
    hide BlockSize, PerArena;
    OffsetBound(d, i);
    OffsetInPage(a, ARENA_SIZE + BlockSize(d) * i);
  }

  lemma OffsetInPage(a: nat, off: nat)
    requires a % PG_SIZE == 0 && off < PG_SIZE
    ensures (a + off) % PG_SIZE == off
  {
  }

  lemma OffsetBound(d: nat, i: nat)
    requires d < DESC_CNT && i < PerArena(d)
    ensures BlockSize(d) * i + BlockSize(d) <= PG_SIZE - ARENA_SIZE
    ensures (BlockSize(d) * i) / BlockSize(d) == i
  {
    match d {
      case 0 =>
      case 1 =>
      case 2 =>
      case 3 =>
      case 4 =>
      case 5 =>
      case _ =>
    }
  }

  datatype Arena = Arena(desc: nat, freeCnt: nat)

  // `live` records what callers hold, with the size they asked for; the kernel does not store it.
  datatype Heap = Heap(free: seq<seq<nat>>, arenas: map<nat, Arena>, live: map<nat, nat>)

  ghost predicate IsBlock(h: Heap, b: nat, d: nat) {
    var a := ArenaOf(b);
    d < DESC_CNT && a in h.arenas && h.arenas[a].desc == d
    && IndexOf(b, d) < PerArena(d) && b == Block(a, d, IndexOf(b, d))
  }

  /** Indices of the arena's blocks that are on the free list of its size class. */
  function FreeIdx(free: seq<nat>, a: nat, d: nat): set<nat>
    requires d < DESC_CNT
  {
    set i: nat {:trigger Block(a, d, i)} | 0 <= i < PerArena(d) && Block(a, d, i) in free
  }

  ghost predicate ArenaOk(h: Heap, a: nat)
    requires a in h.arenas && |h.free| == DESC_CNT
  {
    var d := h.arenas[a].desc;
    && a % PG_SIZE == 0 && d < DESC_CNT
    && h.arenas[a].freeCnt == |FreeIdx(h.free[d], a, d)|
  }

  ghost predicate FreeOk(h: Heap, d: nat)
    requires d < |h.free|
  {
    NoDup(h.free[d]) && forall b {:trigger b in h.free[d]} | b in h.free[d] :: IsBlock(h, b, d)
  }

  ghost predicate LiveOk(h: Heap, b: nat)
    requires b in h.live && |h.free| == DESC_CNT
  {
    var a := ArenaOf(b);
    && a in h.arenas && IsBlock(h, b, h.arenas[a].desc)
    && h.live[b] <= BlockSize(h.arenas[a].desc) && b !in h.free[h.arenas[a].desc]
  }

  /** Every block of an arena is free or held. */
  ghost predicate BlockOk(h: Heap, a: nat, i: nat)
    requires a in h.arenas && |h.free| == DESC_CNT
  {
    var d := h.arenas[a].desc;
    d < DESC_CNT && i < PerArena(d) ==> Block(a, d, i) in h.free[d] || Block(a, d, i) in h.live
  }

  /** The invariant in the middle of a call, when an arena may be wholly free. */
  ghost predicate Consistent(h: Heap) {
    && |h.free| == DESC_CNT
    && (forall a {:trigger ArenaOk(h, a)} | a in h.arenas :: ArenaOk(h, a))
    && (forall d {:trigger FreeOk(h, d)} | 0 <= d < DESC_CNT :: FreeOk(h, d))
    && (forall b {:trigger LiveOk(h, b)} | b in h.live :: LiveOk(h, b))
    && (forall a, i: nat {:trigger BlockOk(h, a, i)} | a in h.arenas :: BlockOk(h, a, i))
  }

  /** No arena but `but` is wholly free. */
  ghost predicate NoneIdle(h: Heap, but: set<nat>) {
    forall a {:trigger h.arenas[a]} | a in h.arenas && a !in but && h.arenas[a].desc < DESC_CNT ::
      h.arenas[a].freeCnt < PerArena(h.arenas[a].desc)
  }

  /** The invariant between calls. */
  ghost predicate Inv(h: Heap) {
    Consistent(h) && NoneIdle(h, {})
  }

  // ----- what the invariant means

  /** Two blocks, of the same size class or not, occupy disjoint bytes inside their pages and after the headers. */
  lemma BlocksDisjoint(h: Heap, b: nat, d: nat, c: nat, e: nat)
    requires Consistent(h) && IsBlock(h, b, d) && IsBlock(h, c, e) && b != c
    ensures b + BlockSize(d) <= c || c + BlockSize(e) <= b
    ensures ArenaOf(b) + ARENA_SIZE <= b && b + BlockSize(d) <= ArenaOf(b) + PG_SIZE
  {
    assert ArenaOk(h, ArenaOf(b)) && ArenaOk(h, ArenaOf(c));
    BlockAddress(ArenaOf(b), d, IndexOf(b, d));
    BlockAddress(ArenaOf(c), e, IndexOf(c, e));
    if ArenaOf(b) == ArenaOf(c) {
      SameArenaDisjoint(d, IndexOf(b, d), IndexOf(c, e));
    } else {
      PagesApart(ArenaOf(b), ArenaOf(c));
    }
  }

  /** Two live blocks occupy disjoint bytes, at least as many as were asked for, inside one page and after its header. */
  lemma LiveBlocksDisjoint(h: Heap, b: nat, c: nat)
    requires Consistent(h) && b in h.live && c in h.live && b != c
    ensures b + h.live[b] <= c || c + h.live[c] <= b
    ensures ArenaOf(b) + ARENA_SIZE <= b && b + h.live[b] <= ArenaOf(b) + PG_SIZE
  {
    assert LiveOk(h, b) && LiveOk(h, c);
    BlocksDisjoint(h, b, h.arenas[ArenaOf(b)].desc, c, h.arenas[ArenaOf(c)].desc);
  }

  // `struct list_elem`: two pointers at the start of a free block.
  const LINKS_SIZE: nat := 16

  /** The links of a free block lie inside it, and overlap no live block and no other free block. */
  lemma LinksDisjoint(h: Heap, b: nat, d: nat, c: nat)
    requires Consistent(h) && d < DESC_CNT && b in h.free[d] && c != b
    requires c in h.live || exists e :: 0 <= e < DESC_CNT && c in h.free[e]
    ensures LINKS_SIZE <= BlockSize(d) && ArenaOf(b) + ARENA_SIZE <= b && b + LINKS_SIZE <= ArenaOf(b) + PG_SIZE
    ensures b + LINKS_SIZE <= c || c + (if c in h.live then h.live[c] else LINKS_SIZE) <= b
  {
    assert FreeOk(h, d);
    if c in h.live {
      assert LiveOk(h, c);
      BlocksDisjoint(h, b, d, c, h.arenas[ArenaOf(c)].desc);
    } else {
      var e :| 0 <= e < DESC_CNT && c in h.free[e];
      assert FreeOk(h, e);
      BlocksDisjoint(h, b, d, c, e);
    }
  }

  /** So what the lists write into free blocks changes no byte that a caller holds. */
  lemma LinksKeepLive(h: Heap, mem: seq<bv8>, b: nat, d: nat, links: seq<bv8>, c: nat)
    requires Consistent(h) && d < DESC_CNT && b in h.free[d] && |links| == LINKS_SIZE && b + LINKS_SIZE <= |mem|
    requires c in h.live && c + h.live[c] <= |mem|
    ensures (mem[..b] + links + mem[b + LINKS_SIZE..])[c..c + h.live[c]] == mem[c..c + h.live[c]]
  {
    assert LiveOk(h, c) && FreeOk(h, d);
    LinksDisjoint(h, b, d, c);
  }

  lemma SameArenaDisjoint(d: nat, i: nat, j: nat)
    requires d < DESC_CNT && i != j
    ensures BlockSize(d) * i + BlockSize(d) <= BlockSize(d) * j || BlockSize(d) * j + BlockSize(d) <= BlockSize(d) * i
  {
    match d {
      case 0 =>
      case 1 =>
      case 2 =>
      case 3 =>
      case 4 =>
      case 5 =>
      case _ =>
    }
  }

  lemma PagesApart(a: nat, e: nat)
    requires a % PG_SIZE == 0 && e % PG_SIZE == 0 && a != e
    ensures a + PG_SIZE <= e || e + PG_SIZE <= a
  {
  }

  lemma FreeIdxBound(free: seq<nat>, a: nat, d: nat)
    requires d < DESC_CNT
    ensures |FreeIdx(free, a, d)| <= PerArena(d)
    ensures |FreeIdx(free, a, d)| == PerArena(d) <==> forall i: nat | i < PerArena(d) :: i in FreeIdx(free, a, d)
  {
    BelowSize(FreeIdx(free, a, d), PerArena(d));
  }

  /** Between calls every arena page has a live block: pages are held exactly where something is allocated. */
  lemma {:induction false} ArenaHasLiveBlock(h: Heap, a: nat) returns (b: nat)
    requires Inv(h) && a in h.arenas
    ensures b in h.live && ArenaOf(b) == a
  {
    var d := h.arenas[a].desc;
    assert ArenaOk(h, a);
    FreeIdxBound(h.free[d], a, d);
    var i: nat :| i < PerArena(d) && i !in FreeIdx(h.free[d], a, d);
    assert BlockOk(h, a, i);
    b := Block(a, d, i);
    BlockAddress(a, d, i);
  }

  /** Freeing everything gives every page back. */
  lemma NothingLiveNoPages(h: Heap)
    requires Inv(h) && h.live == map[]
    ensures h.arenas == map[]
  {
    if h.arenas != map[] {
      var a :| a in h.arenas;
      var b := ArenaHasLiveBlock(h, a);
    }
  }
}
