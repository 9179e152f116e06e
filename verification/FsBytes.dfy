/** Little-endian records in byte strings. */
module FsBytes {
  import opened Division

  type Byte = x: nat | x < 256

  /** The C library's copies: `n` bytes of `src` over `dst` from `off`. */
  function Splice(dst: seq<Byte>, off: nat, src: seq<Byte>): (r: seq<Byte>)
    requires off + |src| <= |dst|
    ensures |r| == |dst|
  {
    dst[..off] + src + dst[off + |src|..]
  }

  lemma SpliceAt(dst: seq<Byte>, off: nat, src: seq<Byte>, k: nat)
    requires off + |src| <= |dst| && k < |dst|
    ensures Splice(dst, off, src)[k] == if off <= k < off + |src| then src[k - off] else dst[k]
  {
  }

  lemma SpliceSlice(dst: seq<Byte>, off: nat, src: seq<Byte>, lo: nat, n: nat)
    requires off + |src| <= |dst| && lo + n <= |dst|
    ensures lo + n <= off || off + |src| <= lo ==> Splice(dst, off, src)[lo..lo + n] == dst[lo..lo + n]
    ensures lo == off && n == |src| ==> Splice(dst, off, src)[lo..lo + n] == src
  {
    var r := Splice(dst, off, src);
    assert forall k | lo <= k < lo + n :: r[k] == if off <= k < off + |src| then src[k - off] else dst[k];
  }

  function Pow256(n: nat): (r: nat)
    ensures r > 0
  {
    if n == 0 then 1 else 256 * Pow256(n - 1)
  }

  const WORD_MAX: nat := 0x1_0000_0000_0000_0000

  /** `n` bytes of `v`, least significant first. */
  function Encode(v: nat, n: nat): (r: seq<Byte>)
    ensures |r| == n
  {
    if n == 0 then [] else [v % 256] + Encode(v / 256, n - 1)
  }

  function Decode(s: seq<Byte>): nat {
    if s == [] then 0 else s[0] + 256 * Decode(s[1..])
  }

  /** Byte `k` of a number has weight 256 to the power of `k`. */
  lemma {:induction false} ByteOf(v: nat, n: nat, k: nat)
    requires k < n
    ensures Encode(v, n)[k] == (v / Pow256(k)) % 256
  {
    if k > 0 {
      ByteOf(v / 256, n - 1, k - 1);
      DivDiv(v, 256, Pow256(k - 1));
    }
  }

  lemma {:induction false} DecodeEncode(v: nat, n: nat)
    requires v < Pow256(n)
    ensures Decode(Encode(v, n)) == v
  {
    if n > 0 {
      DecodeEncode(v / 256, n - 1);
      assert Encode(v, n)[1..] == Encode(v / 256, n - 1);
    }
  }

  lemma {:induction false} DecodeBound(s: seq<Byte>)
    ensures Decode(s) < Pow256(|s|)
  {
    if s != [] { DecodeBound(s[1..]); }
  }

  /** Eight-byte words of a record, in order. */
  function EncodeWords(ws: seq<nat>): (r: seq<Byte>)
    ensures |r| == 8 * |ws|
  {
    if ws == [] then [] else Encode(ws[0], 8) + EncodeWords(ws[1..])
  }

  function WordAt(s: seq<Byte>, k: nat): nat
    requires 8 * k + 8 <= |s|
  {
    Decode(s[8 * k..8 * k + 8])
  }

  lemma Pow256Of8()
    ensures Pow256(8) == WORD_MAX
  {
    assert Pow256(1) == 256;
    assert Pow256(2) == 0x1_0000;
    assert Pow256(4) == 0x1_0000_0000 by { assert Pow256(3) == 0x100_0000; }
    assert Pow256(6) == 0x1_0000_0000_0000 by { assert Pow256(5) == 0x100_0000_0000; }
    assert Pow256(7) == 0x100_0000_0000_0000;
  }

  /** Byte `b` of word `k` of a record stands at `8 * k + b`. */
  lemma {:induction false} WordBytes(ws: seq<nat>, k: nat, b: nat)
    requires k < |ws| && b < 8
    ensures EncodeWords(ws)[8 * k + b] == (ws[k] / Pow256(b)) % 256
  {
    if k == 0 { ByteOf(ws[0], 8, b); } else { WordBytes(ws[1..], k - 1, b); }
  }

  /** A record written is the record read. */
  lemma {:induction false} WordsRoundTrip(ws: seq<nat>, k: nat)
    requires k < |ws| && forall i | 0 <= i < |ws| :: ws[i] < WORD_MAX
    ensures WordAt(EncodeWords(ws), k) == ws[k]
  {
    var s, rest := EncodeWords(ws), EncodeWords(ws[1..]);
    if k == 0 {
      assert s[0..8] == Encode(ws[0], 8);
      Pow256Of8();
      DecodeEncode(ws[0], 8);
    } else {
      WordsRoundTrip(ws[1..], k - 1);
      assert s[8 * k..8 * k + 8] == rest[8 * (k - 1)..8 * (k - 1) + 8];
    }
  }
}
