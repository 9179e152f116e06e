/** `page_map`: inserting one page into the four-level tables. */
module Paging {
  import opened PagePool
  import opened PageTree
  import opened Bitmaps
  import opened Sequences

  /** Linked frames are taken from the pool, and frames still in the pool are zeroed. */
  ghost predicate Frames(mem: seq<nat>, own: map<nat, Role>, taken: set<nat>, limit: nat) {
    && ENTRIES * limit <= |mem| && own.Keys <= taken
    && (forall f {:trigger Zeroed(mem, f)} | 0 <= f < limit && f !in taken :: Zeroed(mem, f))
  }

  class PageMapper {
    const pool: Pool
    // Physical memory as eight-byte words, and the frame in CR3.
    const mem: array<nat>
    const root: nat
    ghost var own: map<nat, Role>

    /** An empty address space: one zeroed root frame that is not in the pool any more. */
    constructor (pool: Pool, mem: array<nat>, root: nat)
      requires pool.Valid() && pool.start == 0 && ENTRIES * pool.Limit() <= mem.Length
      requires mem as object != pool.bitmap.bits
      requires root in pool.Taken() && root < pool.Limit() && Zeroed(mem[..], root)
      requires forall f | 0 <= f < pool.Limit() && f !in pool.Taken() :: Zeroed(mem[..], f)
      ensures this.pool == pool && this.mem == mem && this.root == root && Valid()
      ensures forall v :: Translate(mem[..], root, v) == None
    {
      this.pool, this.mem, this.root := pool, mem, root;
      own := map[root := Role(0, 0)];
      new;
      forall f, i: nat | f in own ensures EntryOk(mem[..], own, f, i) {
        if i < ENTRIES { assert Word(mem[..], f, i) == 0; }
      }
      forall v ensures Translate(mem[..], root, v) == None {
        assert Node(mem[..], root, v, 0) == Some(root);
        assert Word(mem[..], root, Index(v, 0)) == 0;
        NoneStays(mem[..], root, v, 1, 4);
      }
    }

    ghost predicate Valid()
      reads this, mem, pool.bitmap.bits
    {
      && pool.Valid() && pool.start == 0 && mem as object != pool.bitmap.bits
      && Tree(mem[..], root, own) && Frames(mem[..], own, pool.Taken(), pool.Limit())
    }

    /** The word of the entry for `vaddr` at depth `k`, found by walking down from the root. */
    method PageEntryPtr(vaddr: nat, k: nat) returns (pos: nat)
      requires Valid() && k < 4 && Node(mem[..], root, Vpn(vaddr), k).Some?
      ensures pos == ENTRIES * Node(mem[..], root, Vpn(vaddr), k).value + Index(Vpn(vaddr), k) < mem.Length
      ensures mem[pos] == Word(mem[..], Node(mem[..], root, Vpn(vaddr), k).value, Index(Vpn(vaddr), k))
    {
      hide Vpn, EntryIndex, Index, Prefix, Frames;
      IndexOfVpn(vaddr, k);
      NodeRole(mem[..], root, own, Vpn(vaddr), k);
      var page := root;
      if k != 0 {
        var up := PageEntryPtr(vaddr, k - 1);
        page := mem[up] / PG_SIZE;
      }
      pos := ENTRIES * page + EntryIndex(vaddr, k);
    }

    /** One round of the loop in `page_map` that finds the entry missing. */
    method LinkFrame(vaddr: nat, k: nat, n: nat)
      requires Valid() && CanLink(mem[..], root, own, Vpn(vaddr), k, n) && n in pool.Taken()
      modifies mem, this`own
      ensures Valid() && Node(mem[..], root, Vpn(vaddr), k + 1) == Some(n)
      ensures own == old(own)[n := Role(k + 1, Prefix(Vpn(vaddr), k + 1))]
      ensures k < 3 ==> Translate(mem[..], root, Vpn(vaddr)).None?
      ensures forall u: nat | u < PAGES && u != Vpn(vaddr) :: Translate(mem[..], root, u) == old(Translate(mem[..], root, u))
    {
      hide Tree, Frames, Translate, Node, CanLink, Index, Prefix, Vpn;
      var v := Vpn(vaddr);
      CanLinkHere(mem[..], root, own, v, k, n);
      LinkSummary(mem[..], root, own, v, k, n, pool.Taken(), pool.Limit());
      var pos := PageEntryPtr(vaddr, k);
      StoreEntry(pos, n);
      own := own[n := Role(k + 1, Prefix(v, k + 1))];
    }

    /** The entry: address, user, writable, present. */
    method StoreEntry(pos: nat, n: nat)
      requires pos < mem.Length
      modifies mem
      ensures mem[..] == old(mem[..])[pos := EntryFor(n)]
    {
      mem[pos] := n * PG_SIZE + 7;
    }

    /** One frame from the physical pool; `None` is the panic. */
    method TakeOne() returns (r: Option<nat>)
      requires Valid()
      modifies pool.bitmap.bits
      ensures Valid() && mem[..] == old(mem[..])
      ensures r.None? ==> pool.Taken() == old(pool.Taken()) && forall i: nat | i < pool.Limit() :: i in pool.Taken()
      ensures r.Some? ==> r.value !in old(pool.Taken()) && pool.Taken() == old(pool.Taken()) + {r.value}
      ensures r.Some? ==> r.value !in own && ENTRIES * r.value + ENTRIES <= mem.Length && Zeroed(mem[..], r.value)
    {
      ghost var m := mem[..];
      var page := pool.AllocPage();
      assert mem[..] == m;
      if page.None? {
        return None;
      }
      TakeFrame(mem[..], own, old(pool.Taken()), pool.Limit(), page.value / PG_SIZE);
      return Some(page.value / PG_SIZE);
    }

    /** One round of the loop in `page_map`: an entry that is there stays, a missing one is linked
        to a new table, or in the last table to `frame`. */
    method MapLevel(vaddr: nat, k: nat, frame: nat) returns (ok: bool)
      requires Valid() && k < 4 && Node(mem[..], root, Vpn(vaddr), k).Some?
      requires frame in pool.Taken() && frame !in own && ENTRIES * frame + ENTRIES <= mem.Length
      modifies mem, pool.bitmap.bits, this`own
      ensures Valid()
      ensures !ok ==> forall i: nat | i < pool.Limit() :: i in pool.Taken()
      ensures Level(old(mem[..]), old(own), old(pool.Taken()), mem[..], own, pool.Taken(), root, Vpn(vaddr), k, frame, ok)
    {
      var pos := PageEntryPtr(vaddr, k);
      ghost var m, own0, taken0, v := mem[..], own, pool.Taken(), Vpn(vaddr);
      LevelStays(m, own0, taken0, root, v, k, frame);
      hide Tree, Frames, Translate, Level;
      if mem[pos] % 2 == 0 {
        if k == 3 {
          LinkFrame(vaddr, k, frame);
          LevelLinks(m, own0, taken0, mem[..], own, root, v, frame);
        } else {
          var n := TakeOne();
          if n.None? {
            return false;
          }
          LinkFrame(vaddr, k, n.value);
          LevelGrows(m, own0, taken0, mem[..], own, root, v, k, frame, n.value);
        }
      }
      ok := true;
    }

    /** `page_map`.  `false` is the panic of an exhausted pool. */
    method PageMap(vaddr: nat) returns (ok: bool)
      requires Valid()
      modifies mem, pool.bitmap.bits, this`own
      ensures Valid()
      ensures !ok ==> forall i: nat | i < pool.Limit() :: i in pool.Taken()
      // At most the page and three tables are taken.
      ensures |pool.Taken()| <= old(|pool.Taken()|) + 4
      ensures OthersStay(old(mem[..]), mem[..], root, Vpn(vaddr))
      ensures ok ==> Mapped(old(mem[..]), old(own), old(pool.Taken()), mem[..], own, pool.Taken(), root, Vpn(vaddr))
      ensures ok ==> ForUsers(mem[..], root, Vpn(vaddr))
    {
      hide Tree, Frames, Zeroed, Node, Vpn, Marked, FreeRun, Mapping, Level;
      ghost var v, m, own0, taken0 := Vpn(vaddr), mem[..], own, pool.Taken();
      var frame := TakeOne();
      if frame.None? {
        return false;
      }
      var f := frame.value;
      MapStarts(m, own0, taken0, mem[..], root, v, f);
      var i := 0;
      ok := true;
      while i != 4
        invariant 0 <= i <= 4 && Valid() && ok
        invariant Mapping(m, own0, taken0, mem[..], own, pool.Taken(), root, v, f, i)
        decreases 4 - i
      {
        MapGoesOn(m, own0, taken0, mem[..], own, pool.Taken(), root, v, f, i);
        ghost var m1, own1, taken1 := mem[..], own, pool.Taken();
        ok := MapLevel(vaddr, i, f);
        MapStep(m, own0, taken0, m1, own1, taken1, mem[..], own, pool.Taken(), root, v, f, i, ok);
        if !ok {
          return;
        }
        i := i + 1;
      }
      MapEnds(m, own0, taken0, mem[..], own, pool.Taken(), root, v, f);
      AllForUsers(mem[..], root, own, v);
    }
  }

  /** What one round at depth `k` does to memory, tables and pool: an entry that is there stays; a missing
      one is linked, to a table fresh from the pool or at the last depth to `frame`. */
  ghost predicate Level(m: seq<nat>, own: map<nat, Role>, taken: set<nat>,
      m': seq<nat>, own': map<nat, Role>, taken': set<nat>, root: nat, v: nat, k: nat, frame: nat, ok: bool)
    requires k < 4
  {
    && frame in taken' && taken <= taken' && |taken'| <= |taken| + (if k < 3 then 1 else 0)
    && OthersStay(m, m', root, v)
    && (Node(m, root, v, k + 1).Some? ==> ok && m' == m && own' == own && taken' == taken)
    && (ok ==> Node(m', root, v, k + 1).Some?)
    && (ok && k < 3 ==> frame !in own' && own'.Keys == own.Keys + (taken' - taken))
    && (k < 3 && Translate(m, root, v).None? ==> Translate(m', root, v).None?)
    && (ok && k == 3 && Node(m, root, v, 4).None? ==>
      Node(m', root, v, 4) == Some(frame) && own'.Keys == own.Keys + {frame} && taken' == taken)
  }

  /** An entry that is there, or a pool without a frame for it. */
  lemma LevelStays(m: seq<nat>, own: map<nat, Role>, taken: set<nat>, root: nat, v: nat, k: nat, frame: nat)
    requires k < 4 && frame in taken && frame !in own
    ensures Node(m, root, v, k + 1).Some? ==> Level(m, own, taken, m, own, taken, root, v, k, frame, true)
    ensures Node(m, root, v, k + 1).None? && k < 3 ==> Level(m, own, taken, m, own, taken, root, v, k, frame, false)
  {
    assert own.Keys + (taken - taken) == own.Keys;
  }

  lemma LevelLinks(m: seq<nat>, own: map<nat, Role>, taken: set<nat>,
      m': seq<nat>, own': map<nat, Role>, root: nat, v: nat, frame: nat)
    requires frame in taken && Node(m, root, v, 4).None? && OthersStay(m, m', root, v)
    requires Node(m', root, v, 4) == Some(frame) && own'.Keys == own.Keys + {frame}
    ensures Level(m, own, taken, m', own', taken, root, v, 3, frame, true)
  {
  }

  lemma LevelGrows(m: seq<nat>, own: map<nat, Role>, taken: set<nat>,
      m': seq<nat>, own': map<nat, Role>, root: nat, v: nat, k: nat, frame: nat, n: nat)
    requires k < 3 && frame in taken && frame !in own && n !in taken
    requires Node(m, root, v, k + 1).None? && OthersStay(m, m', root, v)
    requires Node(m', root, v, k + 1) == Some(n) && Translate(m', root, v).None? && own'.Keys == own.Keys + {n}
    ensures Level(m, own, taken, m', own', taken + {n}, root, v, k, frame, true)
  {
    assert (taken + {n}) - taken == {n};
  }

  ghost predicate OthersStay(m: seq<nat>, m': seq<nat>, root: nat, v: nat) {
    forall u: nat {:trigger Translate(m', root, u)} | u < PAGES && u != v :: Translate(m', root, u) == Translate(m, root, u)
  }

  /** The loop of `page_map` before the round at depth `i`. */
  ghost predicate Mapping(m: seq<nat>, own0: map<nat, Role>, taken0: set<nat>,
      mem: seq<nat>, own: map<nat, Role>, taken: set<nat>, root: nat, v: nat, f: nat, i: nat)
    requires i <= 4
  {
    && v < PAGES && taken0 <= taken && f in taken && f !in taken0 && |taken| <= |taken0| + 1 + (if i < 3 then i else 3)
    && Node(mem, root, v, i).Some? && OthersStay(m, mem, root, v)
    && if Translate(m, root, v).Some? then
        mem == m && own == own0 && taken == taken0 + {f} && f !in own
      else if i < 4 then
        f !in own && own.Keys + {f} == own0.Keys + (taken - taken0) && Translate(mem, root, v).None?
      else
        own.Keys == own0.Keys + (taken - taken0) && Translate(mem, root, v) == Some(f)
  }

  lemma MapStarts(m: seq<nat>, own0: map<nat, Role>, taken0: set<nat>, mem: seq<nat>, root: nat, v: nat, f: nat)
    requires mem == m && v < PAGES && f !in taken0 && f !in own0
    ensures Mapping(m, own0, taken0, mem, own0, taken0 + {f}, root, v, f, 0)
  {
  }

  lemma MapGoesOn(m: seq<nat>, own0: map<nat, Role>, taken0: set<nat>,
      mem: seq<nat>, own: map<nat, Role>, taken: set<nat>, root: nat, v: nat, f: nat, i: nat)
    requires i < 4 && Mapping(m, own0, taken0, mem, own, taken, root, v, f, i)
    ensures Node(mem, root, v, i).Some? && f in taken && f !in own
  {
  }

  lemma MapStep(m: seq<nat>, own0: map<nat, Role>, taken0: set<nat>,
      mem: seq<nat>, own: map<nat, Role>, taken: set<nat>,
      mem': seq<nat>, own': map<nat, Role>, taken': set<nat>, root: nat, v: nat, f: nat, i: nat, ok: bool)
    requires i < 4 && Mapping(m, own0, taken0, mem, own, taken, root, v, f, i)
    requires Level(mem, own, taken, mem', own', taken', root, v, i, f, ok)
    ensures ok ==> Mapping(m, own0, taken0, mem', own', taken', root, v, f, i + 1)
    ensures !ok ==> |taken'| <= |taken0| + 4 && OthersStay(m, mem', root, v)
  {
    if Translate(m, root, v).Some? { NodesAbove(m, root, v, i + 1); }
    forall u: nat | u < PAGES && u != v ensures Translate(mem', root, u) == Translate(m, root, u) {
      assert Translate(mem, root, u) == Translate(m, root, u);
    }
  }

  lemma MapEnds(m: seq<nat>, own0: map<nat, Role>, taken0: set<nat>,
      mem: seq<nat>, own: map<nat, Role>, taken: set<nat>, root: nat, v: nat, f: nat)
    requires Mapping(m, own0, taken0, mem, own, taken, root, v, f, 4)
    ensures |taken| <= |taken0| + 4 && OthersStay(m, mem, root, v) && Mapped(m, own0, taken0, mem, own, taken, root, v)
  {
  }

  /** An unmapped page now reaches a frame fresh from the pool, and every frame taken is linked.
      A mapped page stays as it was, and the frame taken for it is linked nowhere. */
  ghost predicate Mapped(m: seq<nat>, own: map<nat, Role>, taken: set<nat>,
      m': seq<nat>, own': map<nat, Role>, taken': set<nat>, root: nat, v: nat)
  {
    match Translate(m, root, v)
    case None =>
      && Translate(m', root, v).Some? && Translate(m', root, v).value !in taken
      && own'.Keys == own.Keys + (taken' - taken)
    case Some(_) =>
      && m' == m && own' == own
      && exists n | n !in taken :: taken' == taken + {n} && n !in own'
  }

  /** The page is mapped, and every entry on the way to it is present, writable and for users. */
  ghost predicate ForUsers(mem: seq<nat>, root: nat, v: nat) {
    && Translate(mem, root, v).Some?
    && forall k: nat | k < 4 :: Node(mem, root, v, k).Some? && Flags(EntryOn(mem, root, v, k)) == 1 + 2 + 4
  }

  lemma AllForUsers(mem: seq<nat>, root: nat, own: map<nat, Role>, v: nat)
    requires Tree(mem, root, own) && v < PAGES && Translate(mem, root, v).Some?
    ensures ForUsers(mem, root, v)
  {
    forall k: nat | k < 4 ensures Node(mem, root, v, k).Some? && Flags(EntryOn(mem, root, v, k)) == 1 + 2 + 4 {
      NodesAbove(mem, root, v, k + 1);
      MappedForUsers(mem, root, own, v, k);
    }
  }

  /** One address mapped twice, in a pool of sixteen pages: the second frame is linked nowhere. */
  method MapTwice(vaddr: nat) returns (mapper: PageMapper, first: bool, second: bool)
    ensures first && second && mapper.Valid()
    ensures exists n :: n in mapper.pool.Taken() && n !in mapper.own
  {
    var bits := new bv8[2];
    var bitmap := new Bitmap(2, bits);
    var pool := new Pool(0, bitmap, 1);
    var mem := new nat[ENTRIES * 16](_ => 0);
    assert pool.Taken() == {0};
    mapper := new PageMapper(pool, mem, 0);
    first := mapper.PageMap(vaddr);
    RoomLeft(pool.Taken(), 16);
    second := mapper.PageMap(vaddr);
    RoomLeft(pool.Taken(), 16);
  }

  /** Fewer pages taken than there are. */
  lemma RoomLeft(taken: set<nat>, limit: nat)
    requires |taken| < limit
    ensures exists i: nat :: i < limit && i !in taken
  {
    if forall i: nat | i < limit :: i in taken {
      var all := Below(limit);
      SubsetSize(all, taken);
    }
  }

  /** A page that is reached is reached through every depth. */
  lemma NodesAbove(mem: seq<nat>, root: nat, v: nat, k: nat)
    requires k <= 4 && Translate(mem, root, v).Some?
    ensures Node(mem, root, v, k).Some?
  {
    if Node(mem, root, v, k).None? { NoneStays(mem, root, v, k, 4); }
  }

  lemma CanLinkHere(mem: seq<nat>, root: nat, own: map<nat, Role>, v: nat, k: nat, n: nat)
    requires CanLink(mem, root, own, v, k, n)
    ensures k < 4 && v < PAGES && Node(mem, root, v, k).Some?
  {
  }

  /** Everything one new entry does and does not change. */
  lemma LinkSummary(mem: seq<nat>, root: nat, own: map<nat, Role>, v: nat, k: nat, n: nat, taken: set<nat>, limit: nat)
    requires CanLink(mem, root, own, v, k, n) && Frames(mem, own, taken, limit) && n in taken
    ensures var pos := ENTRIES * Node(mem, root, v, k).value + Index(v, k);
      && pos < |mem|
      && var mem' := mem[pos := EntryFor(n)];
      var own' := own[n := Role(k + 1, Prefix(v, k + 1))];
      && Tree(mem', root, own') && Frames(mem', own', taken, limit) && Node(mem', root, v, k + 1) == Some(n)
      && (k < 3 ==> Translate(mem', root, v).None?)
      && forall u: nat | u < PAGES && u != v :: Translate(mem', root, u) == Translate(mem, root, u)
  {
    var t, r := Node(mem, root, v, k).value, Role(k + 1, Prefix(v, k + 1));
    LinkTree(mem, root, own, v, k, n);
    LinkThrough(mem, root, own, v, k, n, v);
    if k < 3 { NoneStays(Linked(mem, t, Index(v, k), n), root, v, k + 2, 4); }
    LinkFrames(mem, own, taken, limit, t, Index(v, k), n, r);
    forall u: nat | u < PAGES && u != v
      ensures Translate(Linked(mem, t, Index(v, k), n), root, u) == Translate(mem, root, u)
    {
      LinkKeepsTranslations(mem, root, own, v, k, n, u);
    }
  }

  lemma LinkFrames(mem: seq<nat>, own: map<nat, Role>, taken: set<nat>, limit: nat, t: nat, i: nat, n: nat, r: Role)
    requires Frames(mem, own, taken, limit) && t in own && n in taken
    requires i < ENTRIES && ENTRIES * t + ENTRIES <= |mem|
    ensures Frames(Linked(mem, t, i, n), own[n := r], taken, limit)
  {
    var mem' := Linked(mem, t, i, n);
    forall f | 0 <= f < limit && f !in taken ensures Zeroed(mem', f) {
      assert Zeroed(mem, f);
      forall j: nat | j < ENTRIES ensures Word(mem', f, j) == 0 { LinkedWord(mem, t, i, n, f, j); }
    }
  }

  /** Taking a frame out of the pool leaves the tables alone. */
  lemma TakeFrame(mem: seq<nat>, own: map<nat, Role>, taken: set<nat>, limit: nat, n: nat)
    requires Frames(mem, own, taken, limit) && n !in taken && n < limit
    ensures Frames(mem, own, taken + {n}, limit)
    ensures n !in own && ENTRIES * n + ENTRIES <= |mem| && Zeroed(mem, n)
  {
    assert ENTRIES * n + ENTRIES <= ENTRIES * limit;
  }
}
