/** Duplicate-free sequences: the abstract form of the kernel's linked lists. */
module Sequences {

  ghost predicate NoDup<T>(s: seq<T>) {
    forall i, j | 0 <= i < j < |s| :: s[i] != s[j]
  }

  /** `s` without its element at `k`. */
  function DropAt<T>(s: seq<T>, k: nat): seq<T>
    requires k < |s|
  {
    s[..k] + s[k + 1..]
  }

  function InsertAt<T>(s: seq<T>, k: nat, x: T): seq<T>
    requires k <= |s|
  {
    s[..k] + [x] + s[k..]
  }

  /** `s` without its first `x`, if any. */
  function Without<T(==)>(s: seq<T>, x: T): seq<T> {
    if s == [] then [] else if s[0] == x then s[1..] else [s[0]] + Without(s[1..], x)
  }

  lemma {:induction false} WithoutAt<T>(s: seq<T>, z: nat)
    requires NoDup(s) && z < |s|
    ensures Without(s, s[z]) == DropAt(s, z)
  {
    if z > 0 {
      var r := s[1..];
      assert r[z - 1] == s[z];
      WithoutAt(r, z - 1);
      assert s[0] != s[z];
      assert [s[0]] + (r[..z - 1] + r[z..]) == s[..z] + s[z + 1..];
    }
  }

  lemma DropNoDup<T>(s: seq<T>, z: nat)
    requires NoDup(s) && z < |s|
    ensures NoDup(DropAt(s, z))
    ensures s[z] !in DropAt(s, z)
    ensures forall x | x in s && x != s[z] :: x in DropAt(s, z)
    ensures forall x | x in DropAt(s, z) :: x in s
  {
    var c := DropAt(s, z);
    assert forall i | 0 <= i < |c| :: c[i] == s[if i < z then i else i + 1];
    forall x | x in s && x != s[z] ensures x in c {
      var i :| 0 <= i < |s| && s[i] == x;
      assert c[if i < z then i else i - 1] == x;
    }
  }

  lemma {:induction false} WithoutAbsent<T>(s: seq<T>, x: T)
    requires x !in s
    ensures Without(s, x) == s
  {
    if s != [] {
      assert s[0] != x;
      WithoutAbsent(s[1..], x);
    }
  }

  /** Removing a value from a duplicate-free sequence removes exactly that value. */
  lemma WithoutMembers<T>(s: seq<T>, x: T)
    requires NoDup(s)
    ensures NoDup(Without(s, x))
    ensures forall y :: y in Without(s, x) <==> y in s && y != x
  {
    if x in s {
      var z :| 0 <= z < |s| && s[z] == x;
      WithoutAt(s, z);
      DropNoDup(s, z);
    } else {
      WithoutAbsent(s, x);
    }
  }

  lemma NoDupTail<T>(s: seq<T>)
    requires NoDup(s) && s != []
    ensures NoDup(s[1..]) && s[0] !in s[1..]
  {
  }

  lemma ConcatNoDup<T>(s: seq<T>, t: seq<T>)
    requires NoDup(s) && NoDup(t) && forall x | x in s :: x !in t
    ensures NoDup(s + t)
  {
    forall i, j | 0 <= i < j < |s + t| ensures (s + t)[i] != (s + t)[j] {
      if i < |s| <= j { assert s[i] in s && t[j - |s|] in t; }
    }
  }

  /** The search and unlinking behind `list_remove`, on the abstract list. */
  method RemoveFirst<T(==)>(list: seq<T>, x: T) returns (r: seq<T>)
    ensures r == Without(list, x)
  {
    var i := 0;
    while i < |list| && list[i] != x
      invariant i <= |list| && Without(list, x) == list[..i] + Without(list[i..], x)
      decreases |list| - i
    {
      WithoutSkip(list, i, x);
      i := i + 1;
    }
    if i < |list| {
      assert list[i..][1..] == list[i + 1..];
      r := list[..i] + list[i + 1..];
    } else {
      assert list[..i] == list && list[i..] == [];
      r := list;
    }
  }

  lemma WithoutSkip<T>(list: seq<T>, i: nat, x: T)
    requires i < |list| && list[i] != x
    ensures list[..i] + Without(list[i..], x) == list[..i + 1] + Without(list[i + 1..], x)
  {
    var tail := Without(list[i + 1..], x);
    assert list[i..][0] == list[i] && list[i..][1..] == list[i + 1..];
    assert list[..i] + ([list[i]] + tail) == list[..i + 1] + tail;
  }

  /** A set is at least as large as its subsets. */
  lemma SubsetSize<T>(a: set<T>, b: set<T>)
    requires a <= b
    ensures |a| <= |b|
  {
    assert b == a + (b - a);
  }

  /** The first `n` numbers. */
  function Below(n: nat): (r: set<nat>)
    ensures |r| == n
    ensures forall p: nat :: p in r <==> p < n
  {
    if n == 0 then {} else Below(n - 1) + {n - 1}
  }

  lemma BelowSize(s: set<nat>, n: nat)
    requires forall i | i in s :: i < n
    ensures |s| <= n && (|s| == n <==> forall i: nat | i < n :: i in s)
  {
    assert s <= Below(n);
    SubsetSize(s, Below(n));
    if forall i: nat | i < n :: i in s {
      assert s == Below(n);
    } else {
      var i: nat :| i < n && i !in s;
      SubsetSize(s + {i}, Below(n));
    }
  }
}
