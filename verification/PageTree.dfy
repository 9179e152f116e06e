/** Four-level page tables as a tree over physical frames (section 5.3 of the AMD64 Architecture Programmer's Manual, Volume 2). */
module PageTree {
  import opened Division
  import opened PagePool

  const ENTRIES: nat := 512

  function Pow(k: nat): nat
    requires k <= 4
  {
    match k
    case 0 => 1
    case 1 => 512
    case 2 => 262144
    case 3 => 134217728
    case _ => 68719476736
  }

  /** Virtual page numbers: bits 12 to 47 of an address. */
  const PAGES: nat := 68719476736

  function Vpn(vaddr: nat): (v: nat)
    ensures v < PAGES
  {
    (vaddr / PG_SIZE) % PAGES
  }

  /** `page_entry_idx`: nine bits of the address, for the level `3 - k` of the source. */
  function EntryIndex(vaddr: nat, k: nat): nat
    requires k < 4
  {
    (vaddr / (PG_SIZE * Pow(3 - k))) % ENTRIES
  }

  /** Index taken in the table at depth `k` (0 is the root) on the way to page `v`. */
  function Index(v: nat, k: nat): nat
    requires k < 4
  {
    (v / Pow(3 - k)) % ENTRIES
  }

  /** The part of the page number that leads to depth `k`. */
  function Prefix(v: nat, k: nat): nat
    requires k <= 4
  {
    v / Pow(4 - k)
  }

  lemma IndexOfVpn(vaddr: nat, k: nat)
    requires k < 4
    ensures EntryIndex(vaddr, k) == Index(Vpn(vaddr), k) && Index(Vpn(vaddr), k) < ENTRIES
  {
    var p := vaddr / PG_SIZE;
    DivDiv(vaddr, PG_SIZE, Pow(3 - k));
    HighBitsDrop(p, k);
  }

  /** Bits above the page number do not reach any index. */
  lemma HighBitsDrop(p: nat, k: nat)
    requires k < 4
    ensures (p / Pow(3 - k)) % ENTRIES == ((p % PAGES) / Pow(3 - k)) % ENTRIES
  {
    var q, r := p / PAGES, p % PAGES;
    assert p == q * PAGES + r;
    match k {
      case 0 => Shifted(q, r, 134217728, 512);
      case 1 => Shifted(q, r, 262144, 262144);
      case 2 => Shifted(q, r, 512, 134217728);
      case _ => Shifted(q, r, 1, 68719476736);
    }
  }

  lemma Shifted(q: nat, r: nat, m: nat, c: nat)
    requires m > 0 && c % 512 == 0 && m * c == PAGES
    ensures ((q * PAGES + r) / m) % 512 == (r / m) % 512
  {
    var e := c / 512;
    assert q * PAGES == m * (q * c) by { assert q * (m * c) == m * (q * c); }
    QuotientOf(q * PAGES + r, m, q * c + r / m, r % m) by {
      assert r == m * (r / m) + r % m;
      assert m * (q * c + r / m) == m * (q * c) + m * (r / m);
    }
    assert q * c == 512 * (q * e) by { assert c == 512 * e; assert q * (512 * e) == 512 * (q * e); }
    ModShift(r / m, q * e);
  }

  lemma ModShift(x: nat, n: nat)
    ensures (512 * n + x) % 512 == x % 512
  {
  }

  lemma PrefixStep(v: nat, k: nat)
    requires k < 4
    ensures Prefix(v, k + 1) == Prefix(v, k) * ENTRIES + Index(v, k)
  {
    DivDiv(v, Pow(3 - k), ENTRIES);
  }

  // ----- the tables in memory: word `512 * f + i` is entry `i` of frame `f`

  function Word(mem: seq<nat>, f: nat, i: nat): nat {
    if ENTRIES * f + i < |mem| then mem[ENTRIES * f + i] else 0
  }

  predicate Present(w: nat) {
    w % 2 == 1
  }

  /** The address of frame `n` with the present, write and user bits. */
  function EntryFor(n: nat): nat {
    n * PG_SIZE + 7
  }

  /** The bits below the address; 1 is present, 2 writable, 4 for users. */
  function Flags(w: nat): nat {
    w % PG_SIZE
  }

  function Target(w: nat): nat {
    w / PG_SIZE
  }

  /** The frame reached at depth `k` on the way to page `v`; depth 4 is the page itself. */
  function Node(mem: seq<nat>, root: nat, v: nat, k: nat): Option<nat>
    requires k <= 4
  {
    if k == 0 then Some(root)
    else
      var t := Node(mem, root, v, k - 1);
      if t.None? then None
      else if Present(Word(mem, t.value, Index(v, k - 1))) then Some(Target(Word(mem, t.value, Index(v, k - 1))))
      else None
  }

  /** The address translation. */
  function Translate(mem: seq<nat>, root: nat, v: nat): Option<nat> {
    Node(mem, root, v, 4)
  }

  // ----- tree shape

  // Which step of which walk a frame is: a table at depth 0 to 3, or a page at depth 4.
  datatype Role = Role(depth: nat, prefix: nat)

  ghost predicate EntryOk(mem: seq<nat>, own: map<nat, Role>, f: nat, i: nat)
    requires f in own
  {
    var w := Word(mem, f, i);
    i < ENTRIES && own[f].depth < 4 && Present(w) ==>
      Flags(w) == 7 && Target(w) in own && own[Target(w)] == Role(own[f].depth + 1, own[f].prefix * ENTRIES + i)
  }

  /** Every linked frame has one role, so no two entries lead to the same frame. */
  ghost predicate Tree(mem: seq<nat>, root: nat, own: map<nat, Role>) {
    && root in own && own[root] == Role(0, 0)
    && (forall f {:trigger own[f]} | f in own :: ENTRIES * f + ENTRIES <= |mem|)
    && (forall f, i: nat {:trigger EntryOk(mem, own, f, i)} | f in own :: EntryOk(mem, own, f, i))
  }

  /** A walk meets each frame in its role. */
  lemma {:induction false} NodeRole(mem: seq<nat>, root: nat, own: map<nat, Role>, v: nat, k: nat)
    requires Tree(mem, root, own) && k <= 4 && Node(mem, root, v, k).Some? && v < PAGES
    ensures Node(mem, root, v, k).value in own && own[Node(mem, root, v, k).value] == Role(k, Prefix(v, k))
  {
    if k > 0 {
      NodeRole(mem, root, own, v, k - 1);
      PrefixStep(v, k - 1);
      var t := Node(mem, root, v, k - 1).value;
      assert EntryOk(mem, own, t, Index(v, k - 1));
    }
  }

  /** The entry at depth `k` on the way to page `v`. */
  function EntryOn(mem: seq<nat>, root: nat, v: nat, k: nat): nat
    requires k < 4 && Node(mem, root, v, k).Some?
  {
    Word(mem, Node(mem, root, v, k).value, Index(v, k))
  }

  /** Users may read and write a page that is mapped: every entry on the way to it has these bits and no other flag. */
  lemma MappedForUsers(mem: seq<nat>, root: nat, own: map<nat, Role>, v: nat, k: nat)
    requires Tree(mem, root, own) && v < PAGES && k < 4 && Node(mem, root, v, k + 1).Some?
    ensures Node(mem, root, v, k).Some? && Present(EntryOn(mem, root, v, k)) && Flags(EntryOn(mem, root, v, k)) == 1 + 2 + 4
  {
    NodeRole(mem, root, own, v, k);
    IndexBound(v, k);
    assert EntryOk(mem, own, Node(mem, root, v, k).value, Index(v, k));
  }

  lemma IndexBound(v: nat, k: nat)
    requires k < 4
    ensures Index(v, k) < ENTRIES
  {
  }

  /** Different pages never share a frame. */
  lemma NoAliasing(mem: seq<nat>, root: nat, own: map<nat, Role>, u: nat, v: nat)
    requires Tree(mem, root, own) && u < PAGES && v < PAGES && u != v
    requires Translate(mem, root, u).Some? && Translate(mem, root, v).Some?
    ensures Translate(mem, root, u) != Translate(mem, root, v)
  {
    NodeRole(mem, root, own, u, 4);
    NodeRole(mem, root, own, v, 4);
  }

  ghost predicate Zeroed(mem: seq<nat>, f: nat) {
    forall i: nat {:trigger Word(mem, f, i)} | i < ENTRIES :: Word(mem, f, i) == 0
  }

  // ----- linking one frame

  /** Entry `i` of frame `f` now points at frame `n`, present, writable and for users. */
  function Linked(mem: seq<nat>, f: nat, i: nat, n: nat): seq<nat>
    requires i < ENTRIES && ENTRIES * f + ENTRIES <= |mem|
  {
    mem[ENTRIES * f + i := EntryFor(n)]
  }

  lemma LinkedWord(mem: seq<nat>, f: nat, i: nat, n: nat, g: nat, j: nat)
    requires i < ENTRIES && ENTRIES * f + ENTRIES <= |mem| && j < ENTRIES
    ensures Word(Linked(mem, f, i, n), g, j) == if g == f && j == i then EntryFor(n) else Word(mem, g, j)
    ensures Present(EntryFor(n)) && Target(EntryFor(n)) == n && Flags(EntryFor(n)) == 7
  {
    if g < f { assert ENTRIES * g + ENTRIES <= ENTRIES * f; }
    if f < g { assert ENTRIES * f + ENTRIES <= ENTRIES * g; }
  }

  /** A missing entry on the way to `v` at depth `k`, and a frame `n` in no role. */
  ghost predicate CanLink(mem: seq<nat>, root: nat, own: map<nat, Role>, v: nat, k: nat, n: nat) {
    && Tree(mem, root, own) && k < 4 && v < PAGES
    && Node(mem, root, v, k).Some? && !Present(Word(mem, Node(mem, root, v, k).value, Index(v, k)))
    && n !in own && ENTRIES * n + ENTRIES <= |mem| && (k < 3 ==> Zeroed(mem, n))
  }

  lemma LinkTree(mem: seq<nat>, root: nat, own: map<nat, Role>, v: nat, k: nat, n: nat)
    requires CanLink(mem, root, own, v, k, n)
    ensures var t := Node(mem, root, v, k).value;
      && t in own && Index(v, k) < ENTRIES && ENTRIES * t + ENTRIES <= |mem|
      && Tree(Linked(mem, t, Index(v, k), n), root, own[n := Role(k + 1, Prefix(v, k + 1))])
  {
    NodeRole(mem, root, own, v, k);
    PrefixStep(v, k);
    var t, i := Node(mem, root, v, k).value, Index(v, k);
    assert own[t] == Role(k, Prefix(v, k));
    var mem', own' := Linked(mem, t, i, n), own[n := Role(k + 1, Prefix(v, k + 1))];
    forall f, j: nat | f in own' ensures EntryOk(mem', own', f, j) {
      if j < ENTRIES {
        LinkedWord(mem, t, i, n, f, j);
        if f != n { assert EntryOk(mem, own, f, j); }
      }
    }
  }

  /** Walks that do not take the new entry are as before. */
  lemma {:induction false} LinkOthers(mem: seq<nat>, root: nat, own: map<nat, Role>, v: nat, k: nat, n: nat, u: nat, j: nat)
    requires CanLink(mem, root, own, v, k, n) && u < PAGES && j <= 4
    requires j <= k || Prefix(u, k + 1) != Prefix(v, k + 1)
    ensures var t := Node(mem, root, v, k).value;
      && Index(v, k) < ENTRIES && ENTRIES * t + ENTRIES <= |mem|
      && Node(Linked(mem, t, Index(v, k), n), root, u, j) == Node(mem, root, u, j)
  {
    LinkTree(mem, root, own, v, k, n);
    var t, i := Node(mem, root, v, k).value, Index(v, k);
    if j > 0 {
      LinkOthers(mem, root, own, v, k, n, u, j - 1);
      var s := Node(mem, root, u, j - 1);
      if s.Some? {
        NodeRole(mem, root, own, u, j - 1);
        NodeRole(mem, root, own, v, k);
        PrefixStep(u, j - 1);
        PrefixStep(v, k);
        LinkedWord(mem, t, i, n, s.value, Index(u, j - 1));
      }
    }
  }

  /** Walks that do take it now end at the new frame: with nothing below it, unless it is the page. */
  lemma LinkThrough(mem: seq<nat>, root: nat, own: map<nat, Role>, v: nat, k: nat, n: nat, u: nat)
    requires CanLink(mem, root, own, v, k, n) && u < PAGES && Prefix(u, k + 1) == Prefix(v, k + 1)
    ensures var t := Node(mem, root, v, k).value;
      && Index(v, k) < ENTRIES && ENTRIES * t + ENTRIES <= |mem|
      && var mem' := Linked(mem, t, Index(v, k), n);
      && Node(mem', root, u, k + 1) == Some(n) && Node(mem, root, u, k + 1) == None
      && (k < 3 ==> Node(mem', root, u, k + 2) == None)
  {
    LinkTree(mem, root, own, v, k, n);
    LinkOthers(mem, root, own, v, k, n, u, k);
    var t, i := Node(mem, root, v, k).value, Index(v, k);
    SamePath(mem, root, u, v, k);
    LinkedWord(mem, t, i, n, t, i);
    if k < 3 {
      LinkedWord(mem, t, i, n, n, Index(u, k + 1));
    }
  }

  /** Pages with a common prefix share the walk that far. */
  lemma {:induction false} SamePath(mem: seq<nat>, root: nat, u: nat, v: nat, k: nat)
    requires k < 4 && Prefix(u, k + 1) == Prefix(v, k + 1)
    ensures Node(mem, root, u, k) == Node(mem, root, v, k) && Index(u, k) == Index(v, k)
  {
    PrefixStep(u, k);
    PrefixStep(v, k);
    if k > 0 {
      SamePath(mem, root, u, v, k - 1);
    }
  }

  lemma {:induction false} NoneStays(mem: seq<nat>, root: nat, v: nat, k: nat, j: nat)
    requires k <= j <= 4 && Node(mem, root, v, k).None?
    ensures Node(mem, root, v, j).None?
  {
    if k < j { NoneStays(mem, root, v, k, j - 1); }
  }

  /** Linking a frame on the way to `v` changes the translation of no other page. */
  lemma LinkKeepsTranslations(mem: seq<nat>, root: nat, own: map<nat, Role>, v: nat, k: nat, n: nat, u: nat)
    requires CanLink(mem, root, own, v, k, n) && u < PAGES && u != v
    ensures var t := Node(mem, root, v, k).value;
      && Index(v, k) < ENTRIES && ENTRIES * t + ENTRIES <= |mem|
      && Translate(Linked(mem, t, Index(v, k), n), root, u) == Translate(mem, root, u)
  {
    LinkTree(mem, root, own, v, k, n);
    var mem' := Linked(mem, Node(mem, root, v, k).value, Index(v, k), n);
    if Prefix(u, k + 1) == Prefix(v, k + 1) && k < 3 {
      LinkThrough(mem, root, own, v, k, n, u);
      NoneStays(mem, root, u, k + 1, 4);
      NoneStays(mem', root, u, k + 2, 4);
    } else {
      LinkOthers(mem, root, own, v, k, n, u, 4);
    }
  }
}
