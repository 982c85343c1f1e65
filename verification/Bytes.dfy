/** Byte strings, integers stored in them, and clipped reads. */
module Bytes {

  type Byte = b: int | 0 <= b < 256

  type Bytes = seq<Byte>

  function Zeros(n: nat): (r: Bytes)
    ensures |r| == n && forall i :: 0 <= i < n ==> r[i] == 0
  {
    seq(n, i => 0)
  }

  predicate AllZero(s: Bytes) {
    forall i :: 0 <= i < |s| ==> s[i] == 0
  }

  lemma AllZeroIsZeros(s: Bytes)
    ensures AllZero(s) <==> s == Zeros(|s|)
  {
  }

  function Overwrite(s: Bytes, at: nat, data: Bytes): (r: Bytes)
    requires at + |data| <= |s|
    ensures |r| == |s|
    ensures forall i :: 0 <= i < |s| ==> r[i] == if at <= i < at + |data| then data[i - at] else s[i]
  {
    s[..at] + data + s[at + |data|..]
  }

  /** Little-endian integers (`struct` formats "<H", "<I" and "<Q"). */
  function U16(s: Bytes, at: nat): (n: nat)
    requires at + 2 <= |s|
    ensures n < 0x1_0000
  {
    s[at] as int + 0x100 * (s[at + 1] as int)
  }

  function U32(s: Bytes, at: nat): (n: nat)
    requires at + 4 <= |s|
    ensures n < 0x1_0000_0000
  {
    U16(s, at) + 0x1_0000 * U16(s, at + 2)
  }

  function U64(s: Bytes, at: nat): (n: nat)
    requires at + 8 <= |s|
    ensures n < 0x1_0000_0000_0000_0000
  {
    U32(s, at) + 0x1_0000_0000 * U32(s, at + 4)
  }

  function PutU16(n: nat): (r: Bytes)
    requires n < 0x1_0000
    ensures |r| == 2 && U16(r, 0) == n
  {
    [n % 0x100, n / 0x100]
  }

  function PutU32(n: nat): (r: Bytes)
    requires n < 0x1_0000_0000
    ensures |r| == 4 && U32(r, 0) == n
  {
    var low, high := PutU16(n % 0x1_0000), PutU16(n / 0x1_0000);
    assert (low + high)[0..2] == low && (low + high)[2..4] == high;
    low + high
  }

  /** The bytes of an unsigned integer determine it. */
  lemma U32Injective(a: Bytes, i: nat, b: Bytes, j: nat)
    requires i + 4 <= |a| && j + 4 <= |b| && U32(a, i) == U32(b, j)
    ensures a[i..i + 4] == b[j..j + 4]
  {
    assert U16(a, i) == U16(b, j) && U16(a, i + 2) == U16(b, j + 2) by {
      hide U16;
    }
    U16Injective(a, i, b, j);
    U16Injective(a, i + 2, b, j + 2);
    hide U16, U32;
    assert a[i..i + 4] == [a[i], a[i + 1], a[i + 2], a[i + 3]];
    assert b[j..j + 4] == [b[j], b[j + 1], b[j + 2], b[j + 3]];
  }

  lemma U16Injective(a: Bytes, i: nat, b: Bytes, j: nat)
    requires i + 2 <= |a| && j + 2 <= |b| && U16(a, i) == U16(b, j)
    ensures a[i] == b[j] && a[i + 1] == b[j + 1]
  {
  }

  /** A read that stops at the end of the file (`file.read` after `file.seek`). */
  function ReadAt(s: Bytes, at: nat, size: nat): (r: Bytes)
    ensures |r| <= size
    ensures |r| == size <==> at + size <= |s| || size == 0
    ensures at + size <= |s| ==> r == s[at..at + size]
  {
    if at >= |s| then []
    else if at + size <= |s| then s[at..at + size]
    else s[at..]
  }
}
