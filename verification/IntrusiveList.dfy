/** The sentinel doubly linked list of `lib/list.c`, whose nodes live inside other objects on one heap. */
module IntrusiveLists {
  import opened Sequences

  class ListElem {
    var prev: ListElem?
    var next: ListElem?

    constructor ()
      ensures prev == null && next == null
    {
      prev, next := null, null;
    }
  }

  /** `full` is a chain: neighbours point at each other, the ends point nowhere, nothing repeats. */
  ghost predicate Linked(full: seq<ListElem>)
    reads full
  {
    && |full| >= 2 && NoDup(full)
    && full[0].prev == null && full[|full| - 1].next == null
    && (forall i {:trigger full[i].next} | 0 <= i < |full| - 1 :: full[i].next == full[i + 1])
    && (forall i {:trigger full[i].prev} | 0 < i < |full| :: full[i].prev == full[i - 1])
  }

  /** Splice `x` in before `at`; neither needs to know its list. */
  method InsertBefore(at: ListElem, x: ListElem, ghost full: seq<ListElem>, ghost k: nat)
    requires Linked(full) && 0 < k < |full| && full[k] == at && x !in full
    modifies x, at, full[k - 1]
    ensures Linked(InsertAt(full, k, x))
  {
    assert at.prev == full[k - 1];
    x.next := at;
    x.prev := at.prev;
    at.prev.next := x;
    at.prev := x;
    ghost var f := InsertAt(full, k, x);
    assert forall i | 0 <= i < |f| :: f[i] == if i < k then full[i] else if i == k then x else full[i - 1];
  }

  /** Unlink `x`; its own pointers keep their old values. */
  method Remove(x: ListElem, ghost full: seq<ListElem>, ghost k: nat)
    requires Linked(full) && 0 < k < |full| - 1 && full[k] == x
    modifies full[k - 1], full[k + 1]
    ensures Linked(DropAt(full, k))
    ensures x.prev == old(x.prev) && x.next == old(x.next)
  {
    assert x.prev == full[k - 1] && x.next == full[k + 1];
    x.prev.next := x.next;
    x.next.prev := x.prev;
    ghost var f := DropAt(full, k);
    assert forall i | 0 <= i < |f| :: f[i] == if i < k then full[i] else full[i + 1];
  }

  class List {
    const head: ListElem
    const tail: ListElem
    // The whole chain, sentinels included, and the set of its nodes.
    ghost var full: seq<ListElem>
    ghost var nodes: set<ListElem>

    constructor ()
      ensures Valid() && Contents() == [] && nodes == {head, tail} && fresh(nodes)
    {
      head := new ListElem();
      tail := new ListElem();
      full, nodes := [head, tail], {head, tail};
      new;
      head.next := tail;
      tail.prev := head;
    }

    ghost predicate Valid()
      reads this, nodes
    {
      && (forall i | 0 <= i < |full| :: full[i] in nodes)
      && Linked(full) && full[0] == head && full[|full| - 1] == tail
    }

    /** The sequence the list represents. */
    ghost function Contents(): seq<ListElem>
      reads this
    {
      if |full| < 2 then [] else full[1..|full| - 1]
    }

    method Empty() returns (r: bool)
      requires Valid()
      ensures r <==> Contents() == []
    {
      r := head.next == tail;
    }

    method Push(x: ListElem)
      requires Valid() && x !in nodes
      modifies this, x, nodes
      ensures Valid() && nodes == old(nodes) + {x}
      ensures Contents() == [x] + old(Contents())
    {
      InsertBefore(head.next, x, full, 1);
      full, nodes := InsertAt(full, 1, x), nodes + {x};
    }

    method Append(x: ListElem)
      requires Valid() && x !in nodes
      modifies this, x, nodes
      ensures Valid() && nodes == old(nodes) + {x}
      ensures Contents() == old(Contents()) + [x]
    {
      InsertBefore(tail, x, full, |full| - 1);
      full, nodes := InsertAt(full, |full| - 1, x), nodes + {x};
    }

    method Pop() returns (x: ListElem)
      requires Valid() && Contents() != []
      modifies this, nodes
      ensures x == old(Contents())[0] && Valid() && nodes == old(nodes) - {x}
      ensures Contents() == old(Contents())[1..]
    {
      x := head.next;
      Remove(head.next, full, 1);
      full, nodes := DropAt(full, 1), nodes - {x};
    }

    /** The bookkeeping for a node that `Remove` took off this list. */
    ghost method Forget(x: ListElem, k: nat)
      requires 0 < k < |full| - 1 && full[k] == x && full[0] == head && full[|full| - 1] == tail
      requires NoDup(full) && Linked(DropAt(full, k)) && forall i | 0 <= i < |full| :: full[i] in nodes
      modifies this
      ensures Valid() && full == DropAt(old(full), k) && nodes == old(nodes) - {x}
      ensures Contents() == DropAt(old(Contents()), k - 1)
    {
      full, nodes := DropAt(full, k), nodes - {x};
    }

    method Find(x: ListElem) returns (found: bool)
      requires Valid()
      ensures found <==> x in Contents()
    {
      var e := head.next;
      ghost var i := 1;
      while e != tail
        invariant 1 <= i < |full| && e == full[i]
        invariant x !in full[1..i]
        decreases |full| - i
      {
        assert e.next == full[i].next;
        if e == x {
          assert Contents()[i - 1] == x;
          return true;
        }
        e := e.next;
        i := i + 1;
      }
      return false;
    }

    /** First node accepted by `func`, or null; `func` only inspects the node. */
    method Traverse(func: ListElem -> bool) returns (r: ListElem?)
      requires Valid()
      ensures r == null <==> forall i | 0 <= i < |Contents()| :: !func(Contents()[i])
      ensures r != null ==> exists i | 0 <= i < |Contents()| ::
                Contents()[i] == r && func(r) && forall j | 0 <= j < i :: !func(Contents()[j])
    {
      var e := head.next;
      ghost var i := 1;
      while e != tail
        invariant 1 <= i < |full| && e == full[i]
        invariant forall j | 0 <= j < i - 1 :: !func(Contents()[j])
        decreases |full| - i
      {
        assert e.next == full[i].next;
        assert Contents()[i - 1] == e;
        if func(e) {
          return e;
        }
        e := e.next;
        i := i + 1;
      }
      return null;
    }
  }

  /** `Remove` seen from the list that happens to hold the node. */
  method RemoveFrom(x: ListElem, ghost l: List, ghost k: nat)
    requires l.Valid() && 0 < k < |l.full| - 1 && l.full[k] == x
    modifies l, l.nodes
    ensures l.Valid() && l.nodes == old(l.nodes) - {x}
    ensures l.Contents() == DropAt(old(l.Contents()), k - 1)
  {
    Remove(x, l.full, k);
    assert Linked(DropAt(l.full, k)) && NoDup(l.full);
    l.Forget(x, k);
  }

  /** Several lists over disjoint nodes, used in any interleaving. */
  class ListWorld {
    ghost var lists: set<List>
    // Which list a node is (or was last) on; sentinels count as being on their own list.
    ghost var owner: map<ListElem, List>

    ghost constructor ()
      ensures Valid() && lists == {}
    {
      lists, owner := {}, map[];
    }

    ghost predicate Valid()
      reads this, lists, set l, x | l in lists && x in l.nodes :: x
    {
      && (forall l, x | l in lists && x in l.nodes :: x in owner && owner[x] == l)
      && (forall l | l in lists :: l.Valid())
    }

    ghost predicate Unlisted(x: ListElem)
      reads this, lists
    {
      forall l | l in lists :: x !in l.nodes
    }

    /** All lists but `l` hold what they held. */
    twostate predicate OthersKeep(new l: List)
      reads this, lists
    {
      lists == old(lists) && forall m | m in lists && m != l :: m.full == old(m.full)
    }

    method NewList() returns (l: List)
      requires Valid()
      modifies this
      ensures Valid() && fresh(l) && lists == old(lists) + {l} && l.Contents() == []
      ensures forall m | m in old(lists) :: m.full == old(m.full)
    {
      l := new List();
      lists := lists + {l};
      owner := owner[l.head := l][l.tail := l];
    }

    method Push(l: List, x: ListElem)
      requires Valid() && l in lists && Unlisted(x)
      modifies this, x, l, l.nodes
      ensures Valid() && l.Contents() == [x] + old(l.Contents()) && OthersKeep(l)
    {
      owner := owner[x := l];
      l.Push(x);
      forall m | m in lists && m != l
        ensures m.Valid()
      {
        assert m.nodes == old(m.nodes);
        assert forall y | y in m.nodes :: old(owner[y] == m);
      }
    }

    method Append(l: List, x: ListElem)
      requires Valid() && l in lists && Unlisted(x)
      modifies this, x, l, l.nodes
      ensures Valid() && l.Contents() == old(l.Contents()) + [x] && OthersKeep(l)
    {
      owner := owner[x := l];
      l.Append(x);
      forall m | m in lists && m != l
        ensures m.Valid()
      {
        assert m.nodes == old(m.nodes);
        assert forall y | y in m.nodes :: old(owner[y] == m);
      }
    }

    method Pop(l: List) returns (x: ListElem)
      requires Valid() && l in lists && l.Contents() != []
      modifies l, l.nodes
      ensures Valid() && x == old(l.Contents())[0] && l.Contents() == old(l.Contents())[1..]
      ensures Unlisted(x) && OthersKeep(l)
    {
      assert l.full[1] in l.nodes && owner[l.full[1]] == l;
      x := l.Pop();
      forall m | m in lists && m != l
        ensures m.Valid()
      {
        assert m.nodes == old(m.nodes);
        assert forall y | y in m.nodes :: old(owner[y] == m);
      }
    }

    /** The node alone decides which list loses it: no list is named, and only its holder changes. */
    method RemoveNode(x: ListElem, ghost l: List, ghost k: nat)
      requires Valid() && l in lists && 0 < k < |l.full| - 1 && l.full[k] == x
      modifies l, l.nodes
      ensures Valid() && l.Contents() == DropAt(old(l.Contents()), k - 1)
      ensures Unlisted(x) && OthersKeep(l)
    {
      assert x in l.nodes && owner[x] == l;
      RemoveFrom(x, l, k);
      forall m | m in lists && m != l
        ensures m.Valid()
      {
        assert m.nodes == old(m.nodes);
        assert forall y | y in m.nodes :: old(owner[y] == m);
      }
    }
  }
}
