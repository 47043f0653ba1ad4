/** Byte strings, fixed-width machine integers and the little-endian codec that every on-disk
    format of the daemon is written with. */
module Bytes {

  type byte = x: int | 0 <= x < 0x100
  type u16 = x: int | 0 <= x < 0x1_0000
  type u32 = x: int | 0 <= x < 0x1_0000_0000
  type u64 = x: int | 0 <= x < 0x1_0000_0000_0000_0000

  datatype Option<+T> = None | Some(value: T)

  const MAX_ALLOCATION: nat := 0x7FFF_FFFF_FFFF_FFFF

  /** Whether a buffer of `size` bytes can be had when the system grants `granted`; asking for more ends
      the program. */
  predicate Allocatable(granted: nat, size: nat) {
    size <= MAX_ALLOCATION && size <= granted
  }

  /** The first `width` bytes of `v`, least significant first. Higher bytes are dropped, which is
      what a narrowing cast followed by `to_le_bytes` does. */
  function LeBytes(v: nat, width: nat): (s: seq<byte>)
    ensures |s| == width
  {
    if width == 0 then [] else [v % 256] + LeBytes(v / 256, width - 1)
  }

  function LeValue(s: seq<byte>): (v: nat)
    ensures v < Pow256(|s|)
  {
    if s == [] then 0 else s[0] + 256 * LeValue(s[1..])
  }

  function Pow256(n: nat): (p: nat)
    ensures p > 0
  {
    if n == 0 then 1 else 256 * Pow256(n - 1)
  }

  /** Decoding undoes encoding for every value that fits the field. */
  lemma {:induction false} LeRoundTrip(v: nat, width: nat)
    requires v < Pow256(width)
    ensures LeValue(LeBytes(v, width)) == v
  {
    if width > 0 {
      LeRoundTrip(v / 256, width - 1);
      assert LeBytes(v, width)[1..] == LeBytes(v / 256, width - 1);
    }
  }

  lemma PowValues()
    ensures Pow256(2) == 0x1_0000
    ensures Pow256(4) == 0x1_0000_0000
    ensures Pow256(8) == 0x1_0000_0000_0000_0000
  {
    assert Pow256(1) == 256 * Pow256(0);
    assert Pow256(2) == 256 * Pow256(1);
    assert Pow256(3) == 256 * Pow256(2);
    assert Pow256(4) == 256 * Pow256(3);
    assert Pow256(5) == 256 * Pow256(4);
    assert Pow256(6) == 256 * Pow256(5);
    assert Pow256(7) == 256 * Pow256(6);
    assert Pow256(8) == 256 * Pow256(7);
  }

  function U16(z: seq<byte>, off: nat): u16
    requires off + 2 <= |z|
  {
    PowValues();
    Le(z, off, 2)
  }

  function U32(z: seq<byte>, off: nat): u32
    requires off + 4 <= |z|
  {
    PowValues();
    Le(z, off, 4)
  }

  function U64(z: seq<byte>, off: nat): u64
    requires off + 8 <= |z|
  {
    PowValues();
    Le(z, off, 8)
  }

  /** A value written into a field of 2, 4 or 8 bytes is read from there. */
  lemma {:induction false} LeAt(z: seq<byte>, off: nat, part: seq<byte>, i: nat, width: nat, v: nat)
    requires At(z, off, part) && i + width <= |part| && part[i..i + width] == LeBytes(v, width)
    requires v < Pow256(width)
    ensures Le(z, off + i, width) == v
  {
    AtSlice(z, off, part, i, i + width);
    LeRoundTrip(v, width);
  }

  function Repeat(b: byte, n: nat): (s: seq<byte>)
    ensures |s| == n
    ensures forall i :: 0 <= i < n ==> s[i] == b
  {
    seq(n, _ => b)
  }

  /** `part` stands in `z` at offset `off`. */
  ghost predicate At(z: seq<byte>, off: int, part: seq<byte>) {
    0 <= off && off + |part| <= |z| && z[off..off + |part|] == part
  }

  lemma AtSplit(z: seq<byte>, off: int, a: seq<byte>, b: seq<byte>)
    requires At(z, off, a + b)
    ensures At(z, off, a) && At(z, off + |a|, b)
  {
    var ab := a + b;
    assert a == ab[..|a|] && b == ab[|a|..];
    assert z[off..off + |ab|][..|a|] == z[off..off + |a|];
    assert z[off..off + |ab|][|a|..] == z[off + |a|..off + |ab|];
  }

  lemma AtSlice(z: seq<byte>, off: int, part: seq<byte>, i: nat, j: nat)
    requires At(z, off, part) && i <= j <= |part|
    ensures z[off + i..off + j] == part[i..j]
  {
    forall k | 0 <= k < j - i
      ensures z[off + i..off + j][k] == part[i..j][k]
    {
      assert z[off..off + |part|][i + k] == z[off + i + k];
    }
  }

  /** The unsigned little-endian number in `width` bytes at `off`. */
  function Le(z: seq<byte>, off: nat, width: nat): nat
    requires off + width <= |z|
  {
    LeValue(z[off..off + width])
  }

  // ---- parts laid end to end ----

  function Concat(parts: seq<seq<byte>>): seq<byte> {
    if parts == [] then [] else parts[0] + Concat(parts[1..])
  }

  /** Where part `k` starts; for `k == |parts|`, where the last one ends. */
  function Start(parts: seq<seq<byte>>, k: nat): nat
    requires k <= |parts|
  {
    if k == 0 then 0 else Start(parts, k - 1) + |parts[k - 1]|
  }

  lemma ConcatFrom(parts: seq<seq<byte>>, k: nat)
    requires k < |parts|
    ensures Concat(parts[k..]) == parts[k] + Concat(parts[k + 1..])
  {
    assert parts[k..][1..] == parts[k + 1..];
  }

  lemma {:induction false} StartConcat(parts: seq<seq<byte>>, k: nat)
    requires k <= |parts|
    ensures Start(parts, k) + |Concat(parts[k..])| == |Concat(parts)|
  {
    if k == 0 {
      assert parts[0..] == parts;
    } else {
      StartConcat(parts, k - 1);
      ConcatFrom(parts, k - 1);
    }
  }

  lemma {:induction false} StartTotal(parts: seq<seq<byte>>)
    ensures Start(parts, |parts|) == |Concat(parts)|
  {
    StartConcat(parts, |parts|);
    assert parts[|parts|..] == [];
  }

  /** Every part stands at its start offset. */
  lemma {:induction false} PartAt(parts: seq<seq<byte>>, k: nat)
    requires k < |parts|
    ensures At(Concat(parts), Start(parts, k), parts[k])
  {
    ConcatAt(parts, k);
    ConcatFrom(parts, k);
    AtSplit(Concat(parts), Start(parts, k), parts[k], Concat(parts[k + 1..]));
  }

  lemma {:induction false} ConcatAt(parts: seq<seq<byte>>, k: nat)
    requires k <= |parts|
    ensures At(Concat(parts), Start(parts, k), Concat(parts[k..]))
  {
    if k == 0 {
      assert parts[0..] == parts;
    } else {
      ConcatAt(parts, k - 1);
      ConcatFrom(parts, k - 1);
      AtSplit(Concat(parts), Start(parts, k - 1), parts[k - 1], Concat(parts[k..]));
    }
  }

  lemma {:induction false} ConcatSnoc(parts: seq<seq<byte>>, last: seq<byte>)
    ensures Concat(parts + [last]) == Concat(parts) + last
  {
    if parts == [] {
      assert [] + [last] == [last] && [last][1..] == [];
    } else {
      assert (parts + [last])[1..] == parts[1..] + [last];
      ConcatSnoc(parts[1..], last);
    }
  }

  /** What stands at `off` in a string stands at the shifted offset in a string that contains it. */
  lemma AtTrans(z: seq<byte>, off: int, part: seq<byte>, off': int, part': seq<byte>)
    requires At(z, off, part) && At(part, off', part')
    ensures At(z, off + off', part')
  {
    AtSlice(z, off, part, off', off' + |part'|);
  }

  /** How many parts lie wholly before `cut`. */
  function WholeBefore(parts: seq<seq<byte>>, cut: nat, from: nat): (k: nat)
    requires from <= |parts| && Start(parts, from) <= cut
    ensures from <= k <= |parts| && Start(parts, k) <= cut
    ensures k < |parts| ==> cut < Start(parts, k + 1)
    decreases |parts| - from
  {
    if from < |parts| && Start(parts, from + 1) <= cut then WholeBefore(parts, cut, from + 1) else from
  }

  lemma CutKeeps(whole: seq<byte>, cut: nat, offset: nat, part: seq<byte>)
    requires At(whole, offset, part) && offset + |part| <= cut <= |whole|
    ensures At(whole[..cut], offset, part)
  {
    assert whole[..cut][offset..offset + |part|] == whole[offset..offset + |part|];
  }

  lemma {:induction false} StartGrows(parts: seq<seq<byte>>, j: nat, k: nat)
    requires j <= k <= |parts|
    ensures Start(parts, j) <= Start(parts, k)
    decreases k
  {
    if j < k {
      StartGrows(parts, j, k - 1);
    }
  }
}
