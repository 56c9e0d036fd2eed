/** Base-128 varints: the reference digits, the length predictor, the in-place writer and the reader. */
module Varint {
  import opened Bytes

  /** What the generated parser reports. Texts are not modelled, except for the numbers they print. */
  datatype Error =
    | IntOverflow
    | UnexpectedEOF
    | InvalidLength
    | UnexpectedEndOfGroup
    | EndGroupForNonGroup
    | IllegalTag(fieldNum: int, wire: uint64)
    | IllegalWireType(wireType: nat)
    | WrongWireType(wireType: nat, field: nat)

  // ---------- Powers ----------

  function Pow2(n: nat): (p: nat)
    ensures p >= 1
  {
    if n == 0 then 1 else 2 * Pow2(n - 1)
  }

  function Pow128(n: nat): (p: nat)
    ensures p >= 1
  {
    if n == 0 then 1 else 128 * Pow128(n - 1)
  }

  lemma {:induction false} Pow2Of7(k: nat)
    ensures Pow2(7 * k) == Pow128(k)
  {
    if k > 0 {
      Pow2Of7(k - 1);
      var p := Pow2(7 * (k - 1));
      var n := 7 * k;
      assert Pow2(n) == 2 * Pow2(n - 1) && Pow2(n - 1) == 2 * Pow2(n - 2) && Pow2(n - 2) == 2 * Pow2(n - 3);
      assert Pow2(n - 3) == 2 * Pow2(n - 4) && Pow2(n - 4) == 2 * Pow2(n - 5);
      assert Pow2(n - 5) == 2 * Pow2(n - 6) && Pow2(n - 6) == 2 * Pow2(n - 7);
      assert n - 7 == 7 * (k - 1);
    }
  }

  /** 128^9 is 2^63: nine digits fill an int, the tenth spills out of 64 bits. */
  lemma Pow128At9()
    ensures Pow128(9) == TWO_63
  {
    assert Pow128(3) == 0x20_0000;
    assert Pow128(6) == 0x20_0000 * 0x20_0000;
  }

  lemma {:induction false} Pow128Monotone(j: nat, k: nat)
    requires j <= k
    ensures Pow128(j) <= Pow128(k)
    decreases k
  {
    if j < k {
      Pow128Monotone(j, k - 1);
    }
  }

  // ---------- Digits ----------

  /** The minimal little-endian base-128 digits of v, every digit but the last flagged with 0x80. */
  function Digits(v: nat): (d: bytes)
    ensures 1 <= |d|
  {
    if v < 128 then [v] else [v % 128 + 128] + Digits(v / 128)
  }

  /** The value of a run of digits, flags ignored. */
  function Base128(s: bytes): (v: nat) {
    if s == [] then 0 else s[0] % 128 + 128 * Base128(s[1..])
  }

  lemma Base128OfNothing(s: bytes)
    requires s == []
    ensures Base128(s) == 0
  {
  }

  lemma {:induction false} Base128Bound(s: bytes)
    ensures Base128(s) < Pow128(|s|)
  {
    if s != [] {
      Base128Bound(s[1..]);
    }
  }

  /** How many bytes at the front of s carry the continuation flag. */
  function Continuations(s: bytes): (k: nat)
    ensures k <= |s|
    ensures forall i :: 0 <= i < k ==> s[i] >= 128
    ensures k < |s| ==> s[k] < 128
  {
    if s == [] || s[0] < 128 then 0 else 1 + Continuations(s[1..])
  }

  datatype Number = Number(value: uint64, size: nat)

  /** The reference reader: a terminated run of at most ten bytes stands for its value mod 2^64. */
  function ReadVarint(s: bytes): (r: Result<Number, Error>)
    ensures r.Ok? ==> 1 <= r.value.size <= |s| && r.value.size <= 10
  {
    var k := Continuations(s);
    if k >= 10 then Err(IntOverflow)
    else if k == |s| then Err(UnexpectedEOF)
    else Ok(Number(Base128(s[..k + 1]) % TWO_64, k + 1))
  }

  /** s is exactly one varint. */
  predicate IsVarint(s: bytes) {
    |s| <= 10 && Continuations(s) == |s| - 1
  }

  lemma ContinuationsUnique(s: bytes, k: nat)
    requires k <= |s|
    requires forall i :: 0 <= i < k ==> s[i] >= 128
    requires k < |s| ==> s[k] < 128
    ensures Continuations(s) == k
  {
  }

  /** Reading looks at one varint and at nothing after it. */
  lemma {:induction false} ReadVarintOf(s: bytes, rest: bytes)
    requires IsVarint(s)
    ensures ReadVarint(s + rest) == Ok(Number(Base128(s) % TWO_64, |s|))
  {
    ContinuationsUnique(s + rest, |s| - 1);
    assert (s + rest)[..|s|] == s;
  }

  /** Reading fails exactly on ten flagged bytes, or if the input ends while its bytes are flagged. */
  lemma ReadVarintErrors(s: bytes)
    ensures ReadVarint(s) == Err(IntOverflow) <==> |s| >= 10 && forall i :: 0 <= i < 10 ==> s[i] >= 128
    ensures ReadVarint(s) == Err(UnexpectedEOF) <==> |s| < 10 && forall i :: 0 <= i < |s| ==> s[i] >= 128
    ensures ReadVarint(s).Err? ==> ReadVarint(s).error in {IntOverflow, UnexpectedEOF}
  {
    hide Base128;
  }

  /** The converse: what was read is one varint. */
  lemma ReadVarintSplits(s: bytes)
    requires ReadVarint(s).Ok?
    ensures var n := ReadVarint(s).value; IsVarint(s[..n.size]) && n.value == Base128(s[..n.size]) % TWO_64
  {
    ContinuationsUnique(s[..Continuations(s) + 1], Continuations(s));
  }

  /** A number read stays the same whatever is appended to the input. */
  lemma ReadVarintStable(s: bytes, rest: bytes)
    requires ReadVarint(s).Ok?
    ensures ReadVarint(s + rest) == ReadVarint(s)
  {
    var n := ReadVarint(s).value.size;
    ReadVarintSplits(s);
    ReadVarintOf(s[..n], s[n..] + rest);
    assert s[..n] + (s[n..] + rest) == s + rest;
  }

  lemma AddEights(r: nat, k: nat)
    ensures (r + 8 * k) % 8 == r % 8
  {
  }

  lemma LowBitsOfSum(low: nat, high: nat)
    ensures (low % 128 + 128 * high) % 8 == low % 8
  {
    AddEights(low % 128, 16 * high);
    AddEights(low % 128, 16 * (low / 128));
  }

  lemma LowBitsOfRemainder(v: nat)
    ensures v % TWO_64 % 8 == v % 8
  {
    AddEights(v % TWO_64, 0x2000_0000_0000_0000 * (v / TWO_64));
  }

  /** The low three bits of a varint are those of its first byte. */
  lemma LowBits(s: bytes)
    requires s != []
    ensures Base128(s) % TWO_64 % 8 == s[0] % 8
  {
    LowBitsOfRemainder(Base128(s));
    assert Base128(s) % 8 == s[0] % 8 by { LowBitsOfSum(s[0], Base128(s[1..])); }
  }

  lemma {:induction false} DigitsAreDigits(v: nat)
    ensures Continuations(Digits(v)) == |Digits(v)| - 1
    ensures Base128(Digits(v)) == v
  {
    if v >= 128 {
      DigitsAreDigits(v / 128);
      assert Digits(v)[1..] == Digits(v / 128);
    } else {
      assert Digits(v)[1..] == [];
    }
  }

  /** No run of k digits holds a number that needs more than k digits. */
  lemma {:induction false} DigitsMinimal(v: nat, k: nat)
    requires v < Pow128(k)
    ensures k == 0 || |Digits(v)| <= k
  {
    if v >= 128 {
      DigitsMinimal(v / 128, k - 1);
    }
  }

  lemma DigitsIsVarint(v: uint64)
    ensures IsVarint(Digits(v))
  {
    DigitsAreDigits(v);
    Pow128At9();
    DigitsMinimal(v, 10);
  }

  /** Reading inverts writing, for each of the 2^64 values, with anything after it. */
  lemma ReadVarintOfDigits(v: uint64, rest: bytes)
    ensures ReadVarint(Digits(v) + rest) == Ok(Number(v, |Digits(v)|))
  {
    hide Digits, Base128, IsVarint, ReadVarint;
    DigitsIsVarint(v);
    DigitsAreDigits(v);
    ReadVarintOf(Digits(v), rest);
  }

  /** The canonical form is the shortest: every encoding that reads as v is at least as long. */
  lemma CanonicalIsShortest(s: bytes)
    requires ReadVarint(s).Ok?
    ensures |Digits(ReadVarint(s).value.value)| <= ReadVarint(s).value.size
  {
    var n := ReadVarint(s).value;
    Base128Bound(s[..n.size]);
    assert n.value <= Base128(s[..n.size]);
    DigitsMinimal(n.value, n.size);
  }

  // ---------- sovTx ----------

  /** math/bits.Len64: the number of bits needed for x. */
  function Len64(x: nat): (n: nat) {
    if x == 0 then 0 else 1 + Len64(x / 2)
  }

  /** sovTx; the argument of Len64 is x|1. */
  function SovTx(x: uint64): (n: nat) {
    (Len64(if x % 2 == 0 then x + 1 else x) + 6) / 7
  }

  lemma Len64Half(x: nat)
    requires x > 0
    ensures Len64(x) == 1 + Len64(x / 2)
  {
  }

  lemma Len64Shift7(x: nat)
    requires x >= 128
    ensures Len64(x) == 7 + Len64(x / 128)
  {
    hide Len64;
    var a := x / 2;
    var b := a / 2;
    var c := b / 2;
    var d := c / 2;
    var f := d / 2;
    var g := f / 2;
    Len64Half(x);
    Len64Half(a);
    Len64Half(b);
    Len64Half(c);
    Len64Half(d);
    Len64Half(f);
    Len64Half(g);
    assert g / 2 == x / 128;
  }

  lemma {:induction false} Len64Bound(x: nat, n: nat)
    requires x < Pow2(n)
    ensures Len64(x) <= n
  {
    if x > 0 {
      Len64Bound(x / 2, n - 1);
    }
  }

  lemma SovOfOneDigit(x: uint64)
    requires x < 128
    ensures SovTx(x) == 1
  {
    var y := if x % 2 == 0 then x + 1 else x;
    assert Pow2(7) == 128 by { Pow2Of7(1); }
    Len64Bound(y, 7);
    Len64Half(y);
  }

  lemma SovOfMoreDigits(x: uint64)
    requires x >= 128
    ensures SovTx(x) == 1 + SovTx(x / 128)
  {
    hide Len64;
    var y := if x % 2 == 0 then x + 1 else x;
    var h := x / 128;
    assert y / 128 == h;
    Len64Shift7(y);
    var z := if h % 2 == 0 then h + 1 else h;
    assert z / 2 == h / 2;
    Len64Half(h);
    Len64Half(z);
  }

  lemma {:induction false} SovCountsDigits(x: uint64)
    ensures SovTx(x) == |Digits(x)|
  {
    hide SovTx;
    if x < 128 {
      SovOfOneDigit(x);
    } else {
      SovOfMoreDigits(x);
      SovCountsDigits(x / 128);
    }
  }

  /** sovTx predicts the number of digits exactly, from bit lengths alone. */
  lemma SovIsDigitCount(x: uint64)
    ensures SovTx(x) == |Digits(x)|
    ensures 1 <= SovTx(x) <= 10
  {
    hide SovTx;
    SovCountsDigits(x);
    DigitsIsVarint(x);
  }

  // ---------- encodeVarintTx ----------

  lemma DigitsOfOne(u: nat)
    requires u < 128
    ensures Digits(u) == [u]
  {
  }

  lemma DigitsOfMore(u: nat)
    requires u >= 128
    ensures Digits(u) == [u % 128 + 128] + Digits(u / 128)
  {
  }

  /** `dAtA[i] = b`. */
  method Put(dAtA: array<byte>, i: nat, b: byte)
    requires i < dAtA.Length
    modifies dAtA
    ensures dAtA[..] == old(dAtA[..])[i := b]
  {
    dAtA[i] := b;
  }

  /** Writes v so that it ends where the old offset was, and touches nothing else. */
  method EncodeVarintTx(dAtA: array<byte>, offset: nat, v: uint64) returns (base: nat)
    requires SovTx(v) <= offset <= dAtA.Length
    modifies dAtA
    ensures base == offset - |Digits(v)|
    ensures dAtA[..] == Splice(old(dAtA[..]), base, Digits(v))
  {
    hide Digits, SovTx, Splice;
    SovIsDigitCount(v);
    var off := offset - SovTx(v);
    base := off;
    var u: nat := v;
    ghost var was, done: bytes := dAtA[..], [];
    SpliceNothing(was, base);
    while u >= 0x80
      invariant base <= off == base + |done| && off + |Digits(u)| == offset
      invariant done + Digits(u) == Digits(v)
      invariant dAtA[..] == Splice(was, base, done)
    {
      DigitsOfMore(u);
      var digit: byte := u % 0x80 + 0x80;
      ConcatAssociative(done, [digit], Digits(u / 0x80));
      SpliceOneMore(was, base, done, digit);
      Put(dAtA, off, digit);
      done := done + [digit];
      u := u / 0x80;
      off := off + 1;
    }
    DigitsOfOne(u);
    SpliceOneMore(was, base, done, u);
    Put(dAtA, off, u);
  }

  // ---------- The decoding loop ----------

  /** `x << shift` on uint64: bits above 64 are dropped. */
  function Shl64(x: nat, shift: nat): (v: uint64) {
    x * Pow2(shift) % TWO_64
  }

  /** Go accumulates with `|`; the bits below the shift are the only ones set, so it is addition. */
  lemma OrOfDisjointBits(w: bv64, b: bv64, s: bv64)
    requires s in {0, 7, 14, 21, 28, 35, 42, 49, 56, 63} && w < 1 << s
    ensures w | ((b & 0x7F) << s) == w + ((b & 0x7F) << s)
  {
  }

  /** The remaining bit operations of the generated code, as the arithmetic that the model uses. */
  lemma MasksAndShifts(b: bv64)
    ensures b & 0x7F == b % 128 && b & 0x7 == b % 8
    ensures b >> 7 == b / 128 && b >> 3 == b / 8
    ensures (b & 0x7F) | 0x80 == b % 128 + 128
    ensures b | 1 == if b % 2 == 0 then b + 1 else b
  {
  }

  lemma NextPlace(v: nat, x: nat, p: nat)
    ensures 128 * (v + x * p) == 128 * v + x * (128 * p)
  {
  }

  lemma {:induction false} Base128Append(s: bytes, b: byte)
    ensures Base128(s + [b]) == Base128(s) + b % 128 * Pow128(|s|)
  {
    if s == [] {
      assert (s + [b])[1..] == [];
    } else {
      Base128Append(s[1..], b);
      assert (s + [b])[1..] == s[1..] + [b];
      NextPlace(Base128(s[1..]), b % 128, Pow128(|s| - 1));
    }
  }

  lemma Remainder(q: nat, r: uint64)
    ensures (q * TWO_64 + r) % TWO_64 == r
  {
  }

  /** Adding to v a digit that starts above v, modulo 2^64; y is the digit at its place. */
  lemma AddAbove(v: nat, q: nat, y: nat, r: nat)
    requires y == q * TWO_64 + r && v + r < TWO_64
    ensures v + y % TWO_64 == (v + y) % TWO_64
  {
    Remainder(q, r);
    Remainder(q, v + r);
  }

  lemma MultipleBelow(x: nat, p: nat)
    requires x < 128
    ensures 0 <= x * p && x * p + p <= 128 * p
  {
    assert x * p + p == (x + 1) * p;
  }

  lemma AddDigit(v: nat, x: nat, k: nat, p: nat)
    requires v < p == Pow128(k) && x < 128 && k <= 9
    ensures v < TWO_64 && v + x * p % TWO_64 == (v + x * p) % TWO_64
  {
    Pow128At9();
    Pow128Monotone(k, 9);
    if k == 9 {
      var q := x / 2;
      assert x * TWO_63 == q * TWO_64 + x % 2 * TWO_63;
      AddAbove(v, q, x * TWO_63, x % 2 * TWO_63);
    } else {
      Pow128Monotone(k + 1, 9);
      MultipleBelow(x, p);
      AddAbove(v, 0, x * p, x * p);
    }
  }

  /** Adding one more seven-bit digit at its place, modulo 2^64: of the tenth only one bit stays. */
  lemma AccumulateDigit(s: bytes, b: byte)
    requires |s| <= 9
    ensures Base128(s) < TWO_64
    ensures Base128(s) + Shl64(b % 128, 7 * |s|) == Base128(s + [b]) % TWO_64
  {
    hide Base128;
    var x, v, k := b % 128, Base128(s), |s|;
    Base128Bound(s);
    var y := x * Pow128(k);
    AddDigit(v, x, k, Pow128(k));
    assert Shl64(x, 7 * k) == y % TWO_64 by { Pow2Of7(k); }
    assert Base128(s + [b]) == v + y by { Base128Append(s, b); }
  }

  /** The loop that reads tags, lengths and values; it starts at dAtA[start]. */
  method DecodeVarint(dAtA: slice, start: nat) returns (r: Result<uint64, Error>, iNdEx: nat)
    requires start <= |dAtA|
    ensures match ReadVarint(dAtA[start..])
            case Ok(n) => r == Ok(n.value) && iNdEx == start + n.size
            case Err(e) => r == Err(e)
  {
    hide Shl64, Base128, Continuations;
    ghost var s := dAtA[start..];
    assert Base128(s[..0]) == 0 by { Base128OfNothing(s[..0]); }
    var wire: uint64, shift := 0, 0;
    iNdEx := start;
    while true
      invariant start <= iNdEx <= |dAtA| && iNdEx - start <= 10
      invariant shift == 7 * (iNdEx - start)
      invariant forall i :: 0 <= i < iNdEx - start ==> s[i] >= 128
      invariant wire == Base128(s[..iNdEx - start]) % TWO_64
      decreases |dAtA| - iNdEx
    {
      if shift >= 64 {
        return Err(IntOverflow), iNdEx;
      }
      if iNdEx >= |dAtA| {
        ContinuationsUnique(s, |s|);
        return Err(UnexpectedEOF), iNdEx;
      }
      ghost var run := s[..iNdEx - start];
      var b := dAtA[iNdEx];
      assert s[..iNdEx - start + 1] == run + [b];
      AccumulateDigit(run, b);
      iNdEx := iNdEx + 1;
      wire := wire + Shl64(b % 128, shift);
      if b < 0x80 {
        ContinuationsUnique(s, iNdEx - start - 1);
        return Ok(wire), iNdEx;
      }
      shift := shift + 7;
    }
  }
}
