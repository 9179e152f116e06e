/** The bit-packed map of `lib/bitmap.c` and its first-fit search. */
module Bitmaps {

  /** `1 << k` for a bit number of one byte. */
  function Mask(k: nat): bv8
    requires k < 8
  {
    match k
    case 0 => 1
    case 1 => 2
    case 2 => 4
    case 3 => 8
    case 4 => 16
    case 5 => 32
    case 6 => 64
    case _ => 128
  }

  /** The masks are the shifts of the source, and testing by one is shifting the bit down and looking at the lowest. */
  lemma MaskIsShift(b: bv8, k: nat)
    requires k < 8
    ensures Mask(k) == (1 as bv8) << k
    ensures b & Mask(k) != 0 <==> (b >> k) & 1 == 1
  {
    match k {
      case 0 =>
      case 1 =>
      case 2 =>
      case 3 =>
      case 4 =>
      case 5 =>
      case 6 =>
      case _ =>
    }
  }

  /** Bit `i` of a byte string: bit `i % 8` of byte `i / 8`. */
  function BitAt(mem: seq<bv8>, i: nat): bool
    requires i < 8 * |mem|
  {
    mem[i / 8] & Mask(i % 8) != 0
  }

  /** The byte string read as a sequence of bits. */
  function BitsOf(mem: seq<bv8>): (r: seq<bool>)
    ensures |r| == 8 * |mem|
  {
    seq(8 * |mem|, i requires 0 <= i < 8 * |mem| => BitAt(mem, i))
  }

  function WithBit(b: bv8, k: nat, value: bool): bv8
    requires k < 8
  {
    if value then b | Mask(k) else b & !Mask(k)
  }

  /** Masks are single bits: a bit written is the bit read back, the other seven stay. */
  lemma WithBitFrame(b: bv8, k: nat, value: bool, j: nat)
    requires k < 8 && j < 8
    ensures (WithBit(b, k, value) & Mask(j) != 0) == (if j == k then value else b & Mask(j) != 0)
  {
    if j != k {
      MasksDisjoint(j, k);
      OrAndFrame(b, Mask(k), Mask(j));
    } else {
      MaskNonZero(k);
      OrAndSelf(b, Mask(k));
    }
  }

  lemma MaskNonZero(k: nat)
    requires k < 8
    ensures Mask(k) != 0
  {
  }

  lemma MasksDisjoint(j: nat, k: nat)
    requires j < 8 && k < 8 && j != k
    ensures Mask(j) & Mask(k) == 0
  {
  }

  lemma OrAndFrame(b: bv8, m: bv8, n: bv8)
    requires n & m == 0
    ensures (b | m) & n == b & n && (b & !m) & n == b & n
  {
  }

  lemma OrAndSelf(b: bv8, m: bv8)
    ensures (b | m) & m == m && (b & !m) & m == 0
  {
  }

  /** Setting one bit of one byte changes that bit of the map and no other. */
  lemma SetBitFrame(mem: seq<bv8>, idx: nat, value: bool)
    requires idx < 8 * |mem|
    ensures BitsOf(mem[idx / 8 := WithBit(mem[idx / 8], idx % 8, value)]) == BitsOf(mem)[idx := value]
  {
    var m' := mem[idx / 8 := WithBit(mem[idx / 8], idx % 8, value)];
    var want := BitsOf(mem)[idx := value];
    forall i | 0 <= i < 8 * |mem|
      ensures BitsOf(m')[i] == want[i]
    {
      SetBitAt(mem, idx, value, i);
    }
    assert BitsOf(m') == want;
  }

  lemma SetBitAt(mem: seq<bv8>, idx: nat, value: bool, i: nat)
    requires idx < 8 * |mem| && i < 8 * |mem|
    ensures BitAt(mem[idx / 8 := WithBit(mem[idx / 8], idx % 8, value)], i) == if i == idx then value else BitAt(mem, i)
  {
    var y, k, z, j := idx / 8, idx % 8, i / 8, i % 8;
    assert idx == 8 * y + k && i == 8 * z + j;
    if z == y {
      WithBitFrame(mem[y], k, value, j);
    }
  }

  /** `cnt` consecutive clear bits starting at `start`. */
  predicate ClearRun(bits: seq<bool>, start: nat, cnt: nat) {
    start + cnt <= |bits| && forall k | start <= k < start + cnt :: !bits[k]
  }

  /** A clear run lying wholly inside the first `limit` bits. */
  ghost predicate RunFits(bits: seq<bool>, limit: nat, cnt: nat) {
    exists start: nat :: start + cnt <= limit && ClearRun(bits, start, cnt)
  }

  function Fill(bits: seq<bool>, start: nat, cnt: nat): (r: seq<bool>)
    requires start + cnt <= |bits|
    ensures |r| == |bits|
    ensures forall k | 0 <= k < |bits| :: r[k] == (bits[k] || start <= k < start + cnt)
  {
    seq(|bits|, k requires 0 <= k < |bits| => bits[k] || start <= k < start + cnt)
  }

  /** `ret` is the answer of an exact first-fit search over starts below `limit`. */
  ghost predicate FirstFit(bits: seq<bool>, limit: nat, cnt: nat, ret: int) {
    if ret == -1 then
      forall s: nat | s < limit :: !ClearRun(bits, s, cnt)
    else
      && 0 <= ret < limit && ClearRun(bits, ret, cnt)
      && forall s: nat | s < ret :: !ClearRun(bits, s, cnt)
  }

  /** The search looks past the map exactly when no run fits and the map's last bit is clear. */
  ghost predicate LooksPast(bits: seq<bool>, limit: nat, cnt: nat)
    requires limit <= |bits|
  {
    limit > 0 && !bits[limit - 1] && !RunFits(bits, limit, cnt)
  }

  class Bitmap {
    const bytesLen: nat
    // The memory that starts at the map; bytes from `bytesLen` on belong to somebody else.
    const bits: array<bv8>

    constructor (bytesLen: nat, bits: array<bv8>)
      requires bytesLen <= bits.Length
      modifies bits
      ensures this.bytesLen == bytesLen && this.bits == bits
      ensures Valid()
      ensures forall i | 0 <= i < 8 * bytesLen :: !Bits()[i]
      ensures forall i | bytesLen <= i < bits.Length :: bits[i] == old(bits[i])
    {
      this.bytesLen := bytesLen;
      this.bits := bits;
      new;
      for i := 0 to bytesLen
        invariant forall j | 0 <= j < i :: bits[j] == 0
        invariant forall j | bytesLen <= j < bits.Length :: bits[j] == old(bits[j])
      {
        bits[i] := 0;
      }
    }

    ghost predicate Valid() {
      bytesLen <= bits.Length
    }

    ghost function Bits(): (r: seq<bool>)
      reads bits
      ensures |r| == 8 * bits.Length
    {
      BitsOf(bits[..])
    }

    method Read(idx: nat) returns (b: bool)
      requires idx < 8 * bits.Length
      ensures b == Bits()[idx]
    {
      var bitIdx, byteIdx := idx % 8, idx / 8;
      b := (bits[byteIdx] >> bitIdx) & 1 == 1;
      MaskIsShift(bits[byteIdx], bitIdx);
    }

    method Set(idx: nat, value: bool)
      requires idx < 8 * bits.Length
      modifies bits
      ensures Bits() == old(Bits())[idx := value]
    {
      var bitIdx, byteIdx := idx % 8, idx / 8;
      ghost var was := bits[..];
      if value {
        bits[byteIdx] := bits[byteIdx] | Mask(bitIdx);
      } else {
        bits[byteIdx] := bits[byteIdx] & !Mask(bitIdx);
      }
      assert bits[..] == was[byteIdx := WithBit(was[byteIdx], bitIdx, value)];
      SetBitFrame(was, idx, value);
    }

    /** The inner scan from a clear bit `i`: stops at a set bit or after `cnt` clear ones. */
    method Probe(i: nat, cnt: nat) returns (j: nat, ghost reach: nat)
      requires cnt > 0 && i + cnt <= 8 * bits.Length && !Bits()[i]
      ensures 1 <= j <= cnt
      ensures forall k | i <= k < i + j :: !Bits()[k]
      ensures j < cnt ==> Bits()[i + j]
      ensures reach == if j < cnt then i + j + 1 else i + j
    {
      j, reach := 1, i + 1;
      while j != cnt
        invariant 1 <= j <= cnt
        invariant forall k | i <= k < i + j :: !Bits()[k]
        invariant reach == i + j
        decreases cnt - j
      {
        var bit := Read(i + j);
        reach := i + j + 1;
        if bit {
          return;
        }
        j := j + 1;
      }
    }

    method MarkRun(start: nat, cnt: nat)
      requires start + cnt <= 8 * bits.Length
      modifies bits
      ensures Bits() == Fill(old(Bits()), start, cnt)
    {
      for k := 0 to cnt
        invariant Bits() == Fill(old(Bits()), start, k)
      {
        Set(start + k, true);
      }
    }

    /** First fit with the skip over a failed run.  `reach` is one past the highest bit read. */
    method Alloc(cnt: nat) returns (ret: int, ghost reach: nat)
      requires Valid() && cnt > 0
      requires 8 * bytesLen + cnt <= 8 * bits.Length + 1
      modifies bits
      ensures FirstFit(old(Bits()), 8 * bytesLen, cnt, ret)
      ensures Bits() == if ret == -1 then old(Bits()) else Fill(old(Bits()), ret, cnt)
      ensures reach > 8 * bytesLen <==> LooksPast(old(Bits()), 8 * bytesLen, cnt)
    {
      ret, reach := -1, 0;
      ghost var b := Bits();
      var limit := 8 * bytesLen;
      var i := 0;
      while i < limit
        invariant Bits() == b
        invariant NoRunBelow(b, if i < limit then i else limit, cnt)
        invariant 0 < i <= limit ==> b[i - 1]
        invariant i <= limit ==> reach <= i
        invariant i > limit ==> reach > limit && LooksPast(b, limit, cnt)
        decreases limit - i
      {
        var bit := Read(i);
        if !bit {
          var j, r := Probe(i, cnt);
          reach := r;
          if j == cnt {
            MarkRun(i, cnt);
            RunFound(b, limit, cnt, i);
            return i, reach;
          } else {
            RunBroken(b, limit, cnt, i, j);
            i := i + j;
          }
        } else {
          reach := i + 1;
        }
        i := i + 1;
      }
    }
  }

  ghost predicate NoRunBelow(bits: seq<bool>, below: nat, cnt: nat) {
    forall s: nat | s < below :: !ClearRun(bits, s, cnt)
  }

  /** Every start in the skipped stretch contains the set bit that ended the run. */
  lemma RunBroken(bits: seq<bool>, limit: nat, cnt: nat, i: nat, j: nat)
    requires limit <= |bits| && i < limit && 0 < j < cnt && i + j < |bits|
    requires bits[i + j] && forall k | i <= k < i + j :: !bits[k]
    requires NoRunBelow(bits, i, cnt)
    ensures NoRunBelow(bits, i + j + 1, cnt)
    ensures i + j >= limit ==> LooksPast(bits, limit, cnt)
  {
    forall s: nat | i <= s <= i + j
      ensures !ClearRun(bits, s, cnt)
    {
      assert bits[i + j];
    }
  }

  lemma RunFound(bits: seq<bool>, limit: nat, cnt: nat, i: nat)
    requires limit <= |bits| && i < limit && cnt > 0
    requires ClearRun(bits, i, cnt) && NoRunBelow(bits, i, cnt)
    ensures LooksPast(bits, limit, cnt) <==> i + cnt > limit
  {
  }

  /** When a run fits in the map, the answer is the least such run and memory past the map plays no part. */
  lemma FitStaysInMap(bits: seq<bool>, limit: nat, cnt: nat, ret: int)
    requires limit <= |bits| && cnt > 0 && FirstFit(bits, limit, cnt, ret)
    ensures RunFits(bits, limit, cnt) ==> ret != -1 && ret + cnt <= limit && FirstFit(bits[..limit], limit, cnt, ret)
    ensures !RunFits(bits, limit, cnt) ==> ret == -1 || ret + cnt > limit
  {
    if RunFits(bits, limit, cnt) {
      var s: nat :| s + cnt <= limit && ClearRun(bits, s, cnt);
      assert ret != -1 && ret <= s;
      forall t: nat | t < ret ensures !ClearRun(bits[..limit], t, cnt) {
        assert !ClearRun(bits, t, cnt);
      }
    }
  }

  /** A single bit: -1 exactly when the map is full, and nothing past the map is read. */
  lemma SingleBitExact(bits: seq<bool>, limit: nat, ret: int)
    requires limit <= |bits| && FirstFit(bits, limit, 1, ret)
    ensures ret == -1 <==> forall k | 0 <= k < limit :: bits[k]
    ensures !LooksPast(bits, limit, 1)
  {
    forall k: nat | k < limit ensures ClearRun(bits, k, 1) <==> !bits[k] {}
    if limit > 0 && !bits[limit - 1] {
      assert ClearRun(bits, limit - 1, 1);
    }
  }

  /** Two pages asked of a one-byte map whose only free bit is the last, next to a clear foreign byte. */
  lemma AllocCanLeaveTheMap()
    ensures var bits := BitsOf([0x7f as bv8, 0 as bv8]);
      && LooksPast(bits, 8, 2) && FirstFit(bits, 8, 2, 7) && 7 + 2 > 8
  {
    var mem := [0x7f as bv8, 0 as bv8];
    var bits := BitsOf(mem);
    assert bits[0] && bits[1] && bits[2] && bits[3] && bits[4] && bits[5] && bits[6] && !bits[7] && !bits[8];
    forall s: nat | s < 7 ensures !ClearRun(bits, s, 2) { assert bits[s]; }
    assert ClearRun(bits, 7, 2);
  }
}
