// Byte strings, Go's fixed-width integers, and the result types shared by every module.
module Bytes {

  type byte = b: int | 0 <= b < 256
  type bytes = seq<byte>

  const TWO_32 := 0x1_0000_0000
  const TWO_63 := 0x8000_0000_0000_0000
  const TWO_64 := 0x1_0000_0000_0000_0000

  type uint64 = n: int | 0 <= n < TWO_64

  /** A Go slice or string: its length fits Go's signed 64-bit `int`. */
  type slice = s: bytes | |s| < TWO_63

  datatype Option<+T> = None | Some(value: T)

  datatype Result<+T, +E> = Ok(value: T) | Err(error: E)

  /** Two's complement wrap-around of Go's 64-bit `int`, also the conversion `int(x)` of a uint64. */
  function Int64(x: int): (w: int) {
    (x + TWO_63) % TWO_64 - TWO_63
  }

  lemma Int64Of(x: uint64)
    ensures Int64(x) == if x < TWO_63 then x else x - TWO_64
  {
  }

  /** The truncating conversion `int32(x)`. */
  function Int32(x: int): (w: int) {
    (x + TWO_32 / 2) % TWO_32 - TWO_32 / 2
  }

  // ---------- Writing into a buffer ----------

  /** The contents `was` with w written over them from start on, and nothing else changed. */
  function Splice(was: bytes, start: nat, w: bytes): (now: bytes)
    requires start + |w| <= |was|
    ensures |now| == |was|
  {
    was[..start] + w + was[start + |w|..]
  }

  lemma SpliceNothing(was: bytes, start: nat)
    requires start <= |was|
    ensures Splice(was, start, []) == was
  {
  }

  lemma SpliceAll(was: bytes, w: bytes)
    requires |w| == |was|
    ensures Splice(was, 0, w) == w
  {
  }

  /** Two pieces, the second written first and the first just before it, are one. */
  lemma SpliceBefore(was: bytes, start: nat, first: bytes, second: bytes)
    requires start + |first| + |second| <= |was|
    ensures Splice(Splice(was, start + |first|, second), start, first) == Splice(was, start, first + second)
  {
    var mid := was[..start + |first|] + second + was[start + |first| + |second|..];
    assert mid[..start] == was[..start];
    assert mid[start + |first|..] == second + was[start + |first| + |second|..];
  }

  /** One byte written behind a piece. */
  lemma SpliceOneMore(was: bytes, start: nat, w: bytes, b: byte)
    requires start + |w| < |was|
    ensures Splice(was, start, w)[start + |w| := b] == Splice(was, start, w + [b])
  {
  }

  lemma SpliceByte(was: bytes, i: nat, b: byte)
    requires i < |was|
    ensures was[i := b] == Splice(was, i, [b])
  {
  }

  lemma ConcatAssociative(a: bytes, b: bytes, c: bytes)
    ensures a + (b + c) == a + b + c
  {
  }

  lemma CutInThree(s: bytes, i: nat, m: nat, end: nat)
    requires i + m <= end <= |s|
    ensures s[..i] + (s[i..][..m] + s[i + m..end]) == s[..end]
  {
  }

  lemma Pieces(a: bytes, b: bytes, c: bytes)
    ensures (a + b + c)[..|a|] == a && (a + b + c)[|a|..] == b + c
    ensures (a + b + c)[|a|..|a| + |b|] == b
  {
  }
}
