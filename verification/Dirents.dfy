/** Directory entries (`fs/dir.h`) as records of 32 bytes, and a directory as a finite map from names. */
module Dirents {
  import opened FsBytes

  const DIRENT_SIZE: nat := 32
  const NAME_MAX: nat := 15

  const FT_DIR: nat := 0
  const FT_CHR: nat := 1
  const FT_REG: nat := 2

  type Name = seq<Byte>

  datatype Dirent = Dirent(ino: nat, name: Name, ftype: nat)

  predicate Fits(e: Dirent) {
    e.ino < WORD_MAX && |e.name| <= NAME_MAX && 0 !in e.name && e.ftype < 0x1_0000_0000
  }

  function Zeros(n: nat): (r: seq<Byte>)
    ensures |r| == n && forall k | 0 <= k < n :: r[k] == 0
  {
    if n == 0 then [] else [0] + Zeros(n - 1)
  }

  /** `struct dirent` with its padding zero. */
  function EncodeDirent(e: Dirent): (r: seq<Byte>)
    requires |e.name| <= NAME_MAX
    ensures |r| == DIRENT_SIZE
  {
    Encode(e.ino, 8) + (e.name + Zeros(16 - |e.name|)) + Encode(e.ftype, 4) + Zeros(4)
  }

  /** The C string at the start of `s`. */
  function CStr(s: seq<Byte>): (r: Name)
    ensures |r| <= |s| && 0 !in r
  {
    if s == [] || s[0] == 0 then [] else [s[0]] + CStr(s[1..])
  }

  lemma {:induction false} CStrTerminated(name: Name, n: nat)
    requires 0 !in name && n > 0
    ensures CStr(name + Zeros(n)) == name
  {
    var s := name + Zeros(n);
    if name != [] {
      assert s[0] == name[0] && name[0] in name;
      assert s[1..] == name[1..] + Zeros(n);
      CStrTerminated(name[1..], n);
    }
  }

  function DecodeDirent(r: seq<Byte>): (e: Dirent)
    requires |r| == DIRENT_SIZE
    ensures |e.name| <= 16
  {
    Dirent(Decode(r[0..8]), CStr(r[8..24]), Decode(r[24..28]))
  }

  lemma DirentRoundTrip(e: Dirent)
    requires Fits(e)
    ensures DecodeDirent(EncodeDirent(e)) == e
  {
    var r := EncodeDirent(e);
    assert r[0..8] == Encode(e.ino, 8);
    assert r[8..24] == e.name + Zeros(16 - |e.name|);
    assert r[24..28] == Encode(e.ftype, 4);
    Pow256Of8();
    assert Pow256(4) == 0x1_0000_0000 by { assert Pow256(2) == 0x1_0000; assert Pow256(3) == 0x100_0000; }
    DecodeEncode(e.ino, 8);
    DecodeEncode(e.ftype, 4);
    CStrTerminated(e.name, 16 - |e.name|);
  }

  /** The record: inode number, name, terminated by a zero byte within its sixteen, and type. */
  lemma DirentLayout(e: Dirent, k: nat)
    requires |e.name| <= NAME_MAX && k < DIRENT_SIZE
    ensures EncodeDirent(e)[k]
      == if k < 8 then (e.ino / Pow256(k)) % 256
         else if k < 8 + |e.name| then e.name[k - 8]
         else if 24 <= k < 28 then (e.ftype / Pow256(k - 24)) % 256
         else 0
  {
    if k < 8 { ByteOf(e.ino, 8, k); }
    if 24 <= k < 28 { ByteOf(e.ftype, 4, k - 24); }
  }

  // ----- a directory's bytes

  function Record(bytes: seq<Byte>, k: nat): (r: seq<Byte>)
    requires DIRENT_SIZE * k + DIRENT_SIZE <= |bytes|
    ensures |r| == DIRENT_SIZE
  {
    bytes[DIRENT_SIZE * k..DIRENT_SIZE * k + DIRENT_SIZE]
  }

  function Entries(bytes: seq<Byte>): (es: seq<Dirent>)
    ensures |es| == |bytes| / DIRENT_SIZE
    ensures forall k {:trigger es[k]} | 0 <= k < |es| ::
              DIRENT_SIZE * k + DIRENT_SIZE <= |bytes| && es[k] == DecodeDirent(Record(bytes, k))
  {
    seq(|bytes| / DIRENT_SIZE, k requires 0 <= k < |bytes| / DIRENT_SIZE =>
      assert DIRENT_SIZE * k + DIRENT_SIZE <= |bytes|; DecodeDirent(Record(bytes, k)))
  }

  /** Appending a record appends an entry. */
  lemma EntriesAppend(bytes: seq<Byte>, e: Dirent)
    requires |bytes| % DIRENT_SIZE == 0 && Fits(e)
    ensures Entries(bytes + EncodeDirent(e)) == Entries(bytes) + [e]
  {
    var more := bytes + EncodeDirent(e);
    var n := |bytes| / DIRENT_SIZE;
    DirentRoundTrip(e);
    forall k | 0 <= k < n + 1 ensures Entries(more)[k] == (Entries(bytes) + [e])[k] {
      if k < n {
        assert Record(more, k) == Record(bytes, k);
      } else {
        assert Record(more, k) == EncodeDirent(e);
      }
    }
  }

  /** The last entry into the place of entry `k`, then one entry less. */
  function SwapOut<T>(es: seq<T>, k: nat): (r: seq<T>)
    requires k < |es|
    ensures |r| == |es| - 1
  {
    es[k := es[|es| - 1]][..|es| - 1]
  }

  /** Copying the last record over record `k` and cutting the last one off. */
  lemma EntriesSwapOut(bytes: seq<Byte>, k: nat, was: seq<Byte>)
    requires |was| % DIRENT_SIZE == 0 && DIRENT_SIZE * k + DIRENT_SIZE <= |was|
    requires bytes == Splice(was, DIRENT_SIZE * k, Record(was, |was| / DIRENT_SIZE - 1))[..|was| - DIRENT_SIZE]
    ensures k < |Entries(was)| && Entries(bytes) == SwapOut(Entries(was), k)
  {
    var n := |was| / DIRENT_SIZE;
    var last := Record(was, n - 1);
    var mid := Splice(was, DIRENT_SIZE * k, last);
    forall j | 0 <= j < n - 1 ensures Entries(bytes)[j] == SwapOut(Entries(was), k)[j] {
      SpliceSlice(was, DIRENT_SIZE * k, last, DIRENT_SIZE * j, DIRENT_SIZE);
      SubSlice(mid, |was| - DIRENT_SIZE, DIRENT_SIZE * j, DIRENT_SIZE);
    }
  }

  lemma SubSlice(s: seq<Byte>, m: nat, lo: nat, n: nat)
    requires lo + n <= m <= |s|
    ensures s[..m][lo..lo + n] == s[lo..lo + n]
  {
  }

  // ----- a directory as a finite map

  /** Position of the first entry called `name`, or the number of entries. */
  function Find(es: seq<Dirent>, name: Name): (k: nat)
    ensures k <= |es|
    ensures k < |es| ==> es[k].name == name
    ensures forall j | 0 <= j < k :: es[j].name != name
  {
    if es == [] || es[0].name == name then 0 else 1 + Find(es[1..], name)
  }

  ghost predicate UniqueNames(es: seq<Dirent>) {
    forall i, j | 0 <= i < j < |es| :: es[i].name != es[j].name
  }

  function Table(es: seq<Dirent>): map<Name, Dirent> {
    if es == [] then map[] else Table(es[..|es| - 1])[es[|es| - 1].name := es[|es| - 1]]
  }

  lemma {:induction false} TableAt(es: seq<Dirent>)
    requires UniqueNames(es)
    ensures forall k | 0 <= k < |es| :: es[k].name in Table(es) && Table(es)[es[k].name] == es[k]
    ensures forall name | name in Table(es) :: exists k :: 0 <= k < |es| && es[k].name == name
  {
    if es != [] {
      var init, last := es[..|es| - 1], es[|es| - 1];
      TableAt(init);
      forall k | 0 <= k < |es| ensures es[k].name in Table(es) && Table(es)[es[k].name] == es[k] {
        if k < |init| { assert init[k] == es[k]; }
      }
      forall name | name in Table(es) ensures exists k :: 0 <= k < |es| && es[k].name == name {
        if name in Table(init) {
          var k :| 0 <= k < |init| && init[k].name == name;
          assert es[k].name == name;
        } else {
          assert es[|es| - 1].name == name;
        }
      }
    }
  }

  lemma FindUnique(es: seq<Dirent>, k: nat)
    requires UniqueNames(es) && k < |es|
    ensures Find(es, es[k].name) == k
  {
  }

  /** Search is lookup. */
  lemma SearchIsLookup(es: seq<Dirent>, name: Name)
    requires UniqueNames(es)
    ensures Find(es, name) < |es| <==> name in Table(es)
    ensures name in Table(es) ==> es[Find(es, name)] == Table(es)[name]
  {
    TableAt(es);
    if name in Table(es) {
      var k :| 0 <= k < |es| && es[k].name == name;
      FindUnique(es, k);
    }
  }

  /** Adding an absent name inserts it. */
  lemma AddIsInsert(es: seq<Dirent>, e: Dirent)
    requires UniqueNames(es) && Find(es, e.name) == |es|
    ensures UniqueNames(es + [e]) && Table(es + [e]) == Table(es)[e.name := e]
  {
    var more := es + [e];
    assert more[..|more| - 1] == es && more[|more| - 1] == e;
  }

  lemma SwapOutAt<T>(es: seq<T>, k: nat)
    requires k < |es|
    ensures forall j | 0 <= j < |es| - 1 :: SwapOut(es, k)[j] == es[if j == k then |es| - 1 else j]
  {
  }

  lemma SwapOutUnique(es: seq<Dirent>, k: nat)
    requires UniqueNames(es) && k < |es|
    ensures UniqueNames(SwapOut(es, k))
  {
    SwapOutAt(es, k);
  }

  /** Moving the last entry into the hole removes exactly the name deleted. */
  lemma DeleteIsRemove(es: seq<Dirent>, k: nat)
    requires UniqueNames(es) && k < |es|
    ensures UniqueNames(SwapOut(es, k)) && Table(SwapOut(es, k)) == Table(es) - {es[k].name}
  {
    SwapOutUnique(es, k);
    var r := SwapOut(es, k);
    forall name: Name
      ensures name in Table(r) <==> name in Table(es) && name != es[k].name
      ensures name in Table(r) ==> Table(r)[name] == Table(es)[name]
    {
      DeleteTableAt(es, k, name);
    }
    MapWithout(Table(r), Table(es), es[k].name);
  }

  lemma MapWithout<K, V>(n: map<K, V>, m: map<K, V>, x: K)
    requires forall k :: k in n <==> k in m && k != x
    requires forall k | k in n :: n[k] == m[k]
    ensures n == m - {x}
  {
  }

  lemma DeleteTableAt(es: seq<Dirent>, k: nat, name: Name)
    requires UniqueNames(es) && k < |es|
    ensures name in Table(SwapOut(es, k)) <==> name in Table(es) && name != es[k].name
    ensures name in Table(SwapOut(es, k)) ==> name in Table(es) && Table(SwapOut(es, k))[name] == Table(es)[name]
  {
    SwapOutUnique(es, k);
    var r := SwapOut(es, k);
    SearchIsLookup(es, name);
    SearchIsLookup(r, name);
    FindSwapOut(es, k, name);
    FindUnique(es, k);
    hide *;
  }

  lemma FindSwapOut(es: seq<Dirent>, k: nat, name: Name)
    requires UniqueNames(es) && k < |es|
    ensures var r, j := SwapOut(es, k), Find(es, name);
      if j == |es| || j == k then Find(r, name) == |r| else Find(r, name) < |r| && r[Find(r, name)] == es[j]
  {
    var r, j := SwapOut(es, k), Find(es, name);
    SwapOutAt(es, k);
    SwapOutUnique(es, k);
    if j < |es| && j != k {
      FindUnique(r, if j == |es| - 1 then k else j);
    }
  }

  /** An entry of a directory after a deletion was there before, and every other one still is. */
  lemma SwapOutMembers(es: seq<Dirent>, k: nat)
    requires UniqueNames(es) && k < |es|
    ensures forall e :: e in SwapOut(es, k) <==> e in es && e != es[k]
  {
    var r := SwapOut(es, k);
    SwapOutAt(es, k);
    forall e | e in es && e != es[k] ensures e in r {
      var j :| 0 <= j < |es| && es[j] == e;
      assert r[if j == |es| - 1 then k else j] == e;
    }
  }
}
