/** The messages themselves: encoders, the backward-writing marshallers, Unmarshal, and what relates them. */
module Messages {
  import opened Bytes
  import opened Varint
  import opened Skipper
  import opened Parser

  // ---------- Message values and their schemas ----------

  datatype Broadcast = Broadcast(sender: bytes, data: bytes)

  datatype Params = Params

  datatype Update = Update(authority: bytes, params: Params)

  function BroadcastSchema(): (r: Schema<Broadcast>) {
    Schema(2, (m: Broadcast, num: nat, p: bytes) =>
      Outcome(if num == 1 then m.(sender := p) else m.(data := p), None))
  }

  /** Params has no fields, so every field is unknown to it. */
  function ParamsSchema(): (r: Schema<Params>) {
    Schema(0, (m: Params, num: nat, p: bytes) => Outcome(m, None))
  }

  function UpdateSchema(): (r: Schema<Update>) {
    Schema(2, (m: Update, num: nat, p: bytes) =>
      if num == 1 then Outcome(m.(authority := p), None)
      else var r := Unmarshal(ParamsSchema(), m.params, p); Outcome(m.(params := r.msg), r.err))
  }

  // ---------- The encoding, written forwards ----------

  function EncodeField(tag: byte, p: bytes): (s: bytes) {
    [tag] + (Digits(|p|) + p)
  }

  function EncodeNonEmpty(tag: byte, p: bytes): (s: bytes) {
    if p == [] then [] else EncodeField(tag, p)
  }

  function EncodeBroadcast(m: Broadcast): (s: bytes) {
    EncodeNonEmpty(0x0a, m.sender) + EncodeNonEmpty(0x12, m.data)
  }

  function EncodeParams(m: Params): (s: bytes) {
    []
  }

  /** The params field is always there, even though params are empty. */
  function EncodeUpdate(m: Update): (s: bytes) {
    EncodeNonEmpty(0x0a, m.authority) + EncodeField(0x12, EncodeParams(m.params))
  }

  // ---------- Size ----------

  function FieldSize(p: slice): (n: nat) {
    1 + |p| + SovTx(|p|)
  }

  /** Size() sums in Go's int. */
  function BroadcastSize(m: Broadcast): (n: int)
    requires |m.sender| < TWO_63 && |m.data| < TWO_63
  {
    var n := if |m.sender| > 0 then Int64(FieldSize(m.sender)) else 0;
    if |m.data| > 0 then Int64(n + FieldSize(m.data)) else n
  }

  function UpdateSize(m: Update): (n: int)
    requires |m.authority| < TWO_63
  {
    var n := if |m.authority| > 0 then Int64(FieldSize(m.authority)) else 0;
    Int64(n + FieldSize(EncodeParams(m.params)))
  }

  lemma FieldSizeExact(tag: byte, p: slice)
    ensures FieldSize(p) == |EncodeField(tag, p)| <= |p| + 11
  {
    SovIsDigitCount(|p|);
  }

  /** Size() is the length of the encoding exactly when that length is an int. */
  lemma BroadcastSizeExact(m: Broadcast)
    requires |m.sender| < TWO_63 && |m.data| < TWO_63
    ensures BroadcastSize(m) == |EncodeBroadcast(m)| <==> |EncodeBroadcast(m)| < TWO_63
  {
    hide EncodeField, FieldSize;
    FieldSizeExact(0x0a, m.sender);
    FieldSizeExact(0x12, m.data);
  }

  lemma UpdateSizeExact(m: Update)
    requires |m.authority| < TWO_63
    ensures UpdateSize(m) == |EncodeUpdate(m)| <==> |EncodeUpdate(m)| < TWO_63
  {
    hide EncodeField, FieldSize;
    FieldSizeExact(0x0a, m.authority);
    FieldSizeExact(0x12, EncodeParams(m.params));
  }

  // ---------- Writing backwards ----------

  /** `copy(dAtA[i:], p)`. */
  method Copy(dAtA: array<byte>, i: nat, p: bytes)
    requires i + |p| <= dAtA.Length
    modifies dAtA
    ensures dAtA[..] == Splice(old(dAtA[..]), i, p)
  {
    forall k | 0 <= k < |p| {
      dAtA[i + k] := p[k];
    }
  }

  /** One length-delimited field, written from its last byte to its tag so that it ends at i. */
  method WriteField(dAtA: array<byte>, i: nat, tag: byte, p: slice) returns (start: nat)
    requires |EncodeField(tag, p)| <= i <= dAtA.Length
    modifies dAtA
    ensures start == i - |EncodeField(tag, p)|
    ensures dAtA[..] == Splice(old(dAtA[..]), start, EncodeField(tag, p))
  {
    hide Digits, SovTx, Splice, EncodeField;
    SovIsDigitCount(|p|);
    ghost var was, d := dAtA[..], Digits(|p|);
    EncodedField(tag, p);
    start := i - |p|;
    Copy(dAtA, start, p);
    start := EncodeVarintTx(dAtA, start, |p|);
    SpliceBefore(was, start, d, p);
    ghost var counted := dAtA[..];
    assert counted == Splice(was, start, d + p);
    start := start - 1;
    SpliceByte(counted, start, tag);
    Put(dAtA, start, tag);
    SpliceBefore(was, start, [tag], d + p);
  }

  lemma EncodedField(tag: byte, p: bytes)
    ensures EncodeField(tag, p) == [tag] + (Digits(|p|) + p)
    ensures |EncodeField(tag, p)| == 1 + |Digits(|p|)| + |p|
  {
    hide Digits;
  }

  /** The guarded form of a proto3 string field: nothing is written for an empty one. */
  method WriteNonEmpty(dAtA: array<byte>, i: nat, tag: byte, p: slice) returns (start: nat)
    requires |EncodeNonEmpty(tag, p)| <= i <= dAtA.Length
    modifies dAtA
    ensures start == i - |EncodeNonEmpty(tag, p)|
    ensures dAtA[..] == Splice(old(dAtA[..]), start, EncodeNonEmpty(tag, p))
  {
    hide EncodeField, Splice;
    start := i;
    if |p| > 0 {
      start := WriteField(dAtA, i, tag, p);
    } else {
      SpliceNothing(dAtA[..], i);
    }
  }

  // ---------- The message types ----------

  class MsgBroadcastData {
    var sender: slice
    var data: slice

    constructor (sender: slice, data: slice)
      ensures Value() == Broadcast(sender, data)
    {
      this.sender, this.data := sender, data;
    }

    function Value(): (r: Broadcast)
      reads this
    {
      Broadcast(sender, data)
    }

    /** Writes the encoding so that it ends at the end of the slice dAtA[:end]. */
    method MarshalToSizedBuffer(dAtA: array<byte>, end: nat) returns (n: nat)
      requires |EncodeBroadcast(Value())| <= end <= dAtA.Length
      modifies dAtA
      ensures n == |EncodeBroadcast(Value())|
      ensures dAtA[..] == Splice(old(dAtA[..]), end - n, EncodeBroadcast(Value()))
    {
      hide EncodeNonEmpty, Splice;
      ghost var was := dAtA[..];
      var i := end;
      i := WriteNonEmpty(dAtA, i, 0x12, data);
      i := WriteNonEmpty(dAtA, i, 0x0a, sender);
      SpliceBefore(was, i, EncodeNonEmpty(0x0a, sender), EncodeNonEmpty(0x12, data));
      n := end - i;
    }

    /** MarshalTo slices the buffer to the size first. */
    method MarshalTo(dAtA: array<byte>) returns (n: nat)
      requires |EncodeBroadcast(Value())| <= dAtA.Length < TWO_63
      modifies dAtA
      ensures n == |EncodeBroadcast(Value())|
      ensures dAtA[..] == Splice(old(dAtA[..]), 0, EncodeBroadcast(Value()))
    {
      hide EncodeBroadcast, BroadcastSize, Splice;
      BroadcastSizeExact(Value());
      var size := BroadcastSize(Value());
      n := MarshalToSizedBuffer(dAtA, size);
    }

    /** The buffer is made to measure and filled completely. */
    method Marshal() returns (dAtA: array<byte>)
      requires |EncodeBroadcast(Value())| < TWO_63
      ensures fresh(dAtA) && dAtA[..] == EncodeBroadcast(Value())
    {
      hide EncodeBroadcast, BroadcastSize, Splice;
      BroadcastSizeExact(Value());
      var size := BroadcastSize(Value());
      dAtA := new byte[size](_ => 0);
      SpliceAll(dAtA[..], EncodeBroadcast(Value()));
      var n := MarshalToSizedBuffer(dAtA, size);
    }

    /** Merges dAtA into the message. On an error the fields stored before it stay stored. */
    method Unmarshal(dAtA: slice) returns (err: Option<Error>)
      modifies this
      ensures Outcome(Value(), err) == Parser.Unmarshal(BroadcastSchema(), old(Value()), dAtA)
    {
      hide NextField;
      var l := |dAtA|;
      var iNdEx := 0;
      ghost var sch, whole := BroadcastSchema(), Parse(BroadcastSchema(), Value(), dAtA, 0);
      assert dAtA[0..] == dAtA;
      while iNdEx < l
        invariant 0 <= iNdEx <= l
        invariant whole == Parse(sch, Value(), dAtA[iNdEx..], iNdEx)
        decreases l - iNdEx
      {
        ghost var s := dAtA[iNdEx..];
        var field, next := ReadField(2, dAtA, iNdEx);
        if field.Err? {
          return Some(field.error);
        }
        match field.value {
          case Known(num, payload) =>
            if num == 1 {
              sender := payload;
            } else {
              data := payload;
            }
          case Unknown =>
        }
        assert s[next - iNdEx..] == dAtA[next..];
        iNdEx := next;
      }
      // The index stops exactly at the end: the generated test `iNdEx > l` never succeeds.
      assert iNdEx == l;
      err := if iNdEx > l then Some(UnexpectedEOF) else None;
    }
  }

  /** Params.MarshalToSizedBuffer writes nothing. */
  method MarshalParamsToSizedBuffer(m: Params, dAtA: array<byte>, end: nat) returns (n: nat)
    requires end <= dAtA.Length
    ensures n == |EncodeParams(m)|
  {
    var i := end;
    n := end - i;
  }

  /** Params.Unmarshal checks its input field by field and stores nothing. */
  method UnmarshalParams(m: Params, dAtA: slice) returns (m': Params, err: Option<Error>)
    ensures Outcome(m', err) == Parser.Unmarshal(ParamsSchema(), m, dAtA)
  {
    hide NextField;
    m' := m;
    var l := |dAtA|;
    var iNdEx := 0;
    ghost var sch, whole := ParamsSchema(), Parse(ParamsSchema(), m, dAtA, 0);
    assert dAtA[0..] == dAtA;
    while iNdEx < l
      invariant 0 <= iNdEx <= l
      invariant whole == Parse(sch, m, dAtA[iNdEx..], iNdEx)
      decreases l - iNdEx
    {
      ghost var s := dAtA[iNdEx..];
      var field, next := ReadField(0, dAtA, iNdEx);
      if field.Err? {
        return m, Some(field.error);
      }
      assert s[next - iNdEx..] == dAtA[next..];
      iNdEx := next;
    }
    assert iNdEx == l;
    err := if iNdEx > l then Some(UnexpectedEOF) else None;
  }

  class MsgUpdateParams {
    var authority: slice
    var params: Params

    constructor (authority: slice, params: Params)
      ensures Value() == Update(authority, params)
    {
      this.authority, this.params := authority, params;
    }

    function Value(): (r: Update)
      reads this
    {
      Update(authority, params)
    }

    method MarshalToSizedBuffer(dAtA: array<byte>, end: nat) returns (n: nat)
      requires |EncodeUpdate(Value())| <= end <= dAtA.Length
      modifies dAtA
      ensures n == |EncodeUpdate(Value())|
      ensures dAtA[..] == Splice(old(dAtA[..]), end - n, EncodeUpdate(Value()))
    {
      hide EncodeNonEmpty, Digits, SovTx, Splice;
      ghost var was := dAtA[..];
      var i := end;
      var size := MarshalParamsToSizedBuffer(params, dAtA, i);
      i := i - size;
      SovIsDigitCount(size);
      i := EncodeVarintTx(dAtA, i, size);
      i := i - 1;
      SpliceByte(dAtA[..], i, 0x12);
      Put(dAtA, i, 0x12);
      SpliceBefore(was, i, [0x12], Digits(size));
      ghost var tail := EncodeField(0x12, EncodeParams(params));
      assert tail == [0x12] + Digits(size);
      i := WriteNonEmpty(dAtA, i, 0x0a, authority);
      SpliceBefore(was, i, EncodeNonEmpty(0x0a, authority), tail);
      n := end - i;
    }

    method MarshalTo(dAtA: array<byte>) returns (n: nat)
      requires |EncodeUpdate(Value())| <= dAtA.Length < TWO_63
      modifies dAtA
      ensures n == |EncodeUpdate(Value())|
      ensures dAtA[..] == Splice(old(dAtA[..]), 0, EncodeUpdate(Value()))
    {
      hide EncodeUpdate, UpdateSize, Splice;
      UpdateSizeExact(Value());
      var size := UpdateSize(Value());
      n := MarshalToSizedBuffer(dAtA, size);
    }

    method Marshal() returns (dAtA: array<byte>)
      requires |EncodeUpdate(Value())| < TWO_63
      ensures fresh(dAtA) && dAtA[..] == EncodeUpdate(Value())
    {
      hide EncodeUpdate, UpdateSize, Splice;
      UpdateSizeExact(Value());
      var size := UpdateSize(Value());
      dAtA := new byte[size](_ => 0);
      SpliceAll(dAtA[..], EncodeUpdate(Value()));
      var n := MarshalToSizedBuffer(dAtA, size);
    }

    method Unmarshal(dAtA: slice) returns (err: Option<Error>)
      modifies this
      ensures Outcome(Value(), err) == Parser.Unmarshal(UpdateSchema(), old(Value()), dAtA)
    {
      hide NextField;
      var l := |dAtA|;
      var iNdEx := 0;
      ghost var sch, whole := UpdateSchema(), Parse(UpdateSchema(), Value(), dAtA, 0);
      assert dAtA[0..] == dAtA;
      while iNdEx < l
        invariant 0 <= iNdEx <= l
        invariant whole == Parse(sch, Value(), dAtA[iNdEx..], iNdEx)
        decreases l - iNdEx
      {
        ghost var s := dAtA[iNdEx..];
        var field, next := ReadField(2, dAtA, iNdEx);
        if field.Err? {
          return Some(field.error);
        }
        match field.value {
          case Known(num, payload) =>
            if num == 1 {
              authority := payload;
            } else {
              params, err := UnmarshalParams(params, payload);
              if err.Some? {
                return;
              }
            }
          case Unknown =>
        }
        assert s[next - iNdEx..] == dAtA[next..];
        iNdEx := next;
      }
      assert iNdEx == l;
      err := if iNdEx > l then Some(UnexpectedEOF) else None;
    }
  }

  // ---------- Round trips ----------

  /** An encoded field is read back, whatever follows. */
  lemma ReadEncodedField(num: nat, p: slice, rest: bytes, at: nat)
    requires num in {1, 2}
    ensures var f := EncodeField(8 * num + 2, p);
            NextField(2, f + rest, at) == Ok(Step(Known(num, p), |f|)) && (f + rest)[|f|..] == rest
  {
    hide ReadVarint, Skip, Digits;
    var tag: byte := 8 * num + 2;
    var f, after := EncodeField(tag, p), Digits(|p|) + (p + rest);
    DigitsOfOne(tag);
    assert f + rest == Digits(tag) + after;
    ReadVarintOfDigits(tag, after);
    assert (f + rest)[1..] == after;
    ReadVarintOfDigits(|p|, p + rest);
    assert (f + rest)[1 + |Digits(|p|)|..|f|] == p;
  }

  /** Storing an encoded field, by itself, in a message: an empty one is not written and changes nothing. */
  lemma ParseEncodedField<M>(sch: Schema<M>, m: M, num: nat, p: slice, rest: bytes, at: nat)
    requires sch.known == 2 && num in {1, 2}
    requires sch.apply(m, num, p).err.None?
    ensures var f := EncodeField(8 * num + 2, p);
            Parse(sch, m, f + rest, at) == Parse(sch, sch.apply(m, num, p).msg, rest, at + |f|)
  {
    hide NextField, EncodeField;
    ReadEncodedField(num, p, rest, at);
  }

  /** Unmarshal merges: a field that is empty in the encoded message keeps its old value. */
  function MergeBytes(before: bytes, given: bytes): (r: bytes) {
    if given == [] then before else given
  }

  /** Unmarshalling an encoded message into any message overwrites it field by field. */
  lemma BroadcastMerge(into: Broadcast, m: Broadcast)
    requires |m.sender| < TWO_63 && |m.data| < TWO_63
    ensures Unmarshal(BroadcastSchema(), into, EncodeBroadcast(m))
         == Outcome(Broadcast(MergeBytes(into.sender, m.sender), MergeBytes(into.data, m.data)), None)
  {
    hide Parse, EncodeField;
    var sch := BroadcastSchema();
    var s, d := EncodeNonEmpty(0x0a, m.sender), EncodeNonEmpty(0x12, m.data);
    var half := into.(sender := MergeBytes(into.sender, m.sender));
    if m.sender != [] {
      ParseEncodedField(sch, into, 1, m.sender, d, 0);
    } else {
      assert s + d == d;
    }
    assert Parse(sch, into, s + d, 0) == Parse(sch, half, d, |s|);
    var whole := half.(data := MergeBytes(into.data, m.data));
    if m.data != [] {
      ParseEncodedField(sch, half, 2, m.data, [], |s|);
      assert d + [] == d;
    }
    ParseNothing(sch, whole, |s| + |d|);
  }

  /** Decoding into an empty message inverts encoding. */
  lemma BroadcastRoundTrip(m: Broadcast)
    requires |m.sender| < TWO_63 && |m.data| < TWO_63
    ensures Unmarshal(BroadcastSchema(), Broadcast([], []), EncodeBroadcast(m)) == Outcome(m, None)
  {
    BroadcastMerge(Broadcast([], []), m);
  }

  lemma BroadcastInjective(m: Broadcast, m': Broadcast)
    requires |m.sender| < TWO_63 && |m.data| < TWO_63 && |m'.sender| < TWO_63 && |m'.data| < TWO_63
    requires EncodeBroadcast(m) == EncodeBroadcast(m')
    ensures m == m'
  {
    BroadcastRoundTrip(m);
    BroadcastRoundTrip(m');
  }

  lemma UpdateMerge(into: Update, m: Update)
    requires |m.authority| < TWO_63
    ensures Unmarshal(UpdateSchema(), into, EncodeUpdate(m))
         == Outcome(Update(MergeBytes(into.authority, m.authority), m.params), None)
  {
    hide Parse, EncodeField;
    var sch := UpdateSchema();
    var a, p := EncodeNonEmpty(0x0a, m.authority), EncodeField(0x12, EncodeParams(m.params));
    var half := into.(authority := MergeBytes(into.authority, m.authority));
    if m.authority != [] {
      ParseEncodedField(sch, into, 1, m.authority, p, 0);
    } else {
      assert a + p == p;
    }
    ParseNothing(ParamsSchema(), half.params, 0);
    var r := Unmarshal(ParamsSchema(), half.params, []);
    assert r == Outcome(half.params, None);
    assert sch.apply(half, 2, []) == Outcome(half.(params := r.msg), r.err);
    assert half.params == m.params == Params;
    ParseEncodedField(sch, half, 2, EncodeParams(m.params), [], |a|);
    assert p + [] == p;
    ParseNothing(sch, half, |a| + |p|);
  }

  lemma UpdateRoundTrip(m: Update)
    requires |m.authority| < TWO_63
    ensures Unmarshal(UpdateSchema(), Update([], Params), EncodeUpdate(m)) == Outcome(m, None)
  {
    UpdateMerge(Update([], Params), m);
  }

  lemma UpdateInjective(m: Update, m': Update)
    requires |m.authority| < TWO_63 && |m'.authority| < TWO_63
    requires EncodeUpdate(m) == EncodeUpdate(m')
    ensures m == m'
  {
    UpdateRoundTrip(m);
    UpdateRoundTrip(m');
  }

  // ---------- Any field, by its number ----------

  /** A length-delimited field of every number: two are stored, the others skipped or refused. */
  lemma {:induction false} BroadcastField(into: Broadcast, n: nat, p: slice)
    requires n < 0x2000_0000_0000_0000 && |Digits(8 * n + 2) + (Digits(|p|) + p)| < TWO_63
    ensures var low := n % 0x1_0000_0000;
            var o := Unmarshal(BroadcastSchema(), into, Digits(8 * n + 2) + (Digits(|p|) + p));
            && (low == 0 ==> o == Outcome(into, Some(IllegalTag(0, 8 * n + 2))))
            && (low == 1 ==> o == Outcome(Broadcast(p, into.data), None))
            && (low == 2 ==> o == Outcome(Broadcast(into.sender, p), None))
            && (2 < low < 0x8000_0000 ==> o == Outcome(into, None))
            && (low >= 0x8000_0000 ==> o == Outcome(into, Some(IllegalTag(low - 0x1_0000_0000, 8 * n + 2))))
  {
    hide NextField, Digits;
    OneField(BroadcastSchema(), into, n, p);
  }

  /** Params takes none in, and tests every one. */
  lemma {:induction false} ParamsField(into: Params, n: nat, p: slice)
    requires n < 0x2000_0000_0000_0000 && |Digits(8 * n + 2) + (Digits(|p|) + p)| < TWO_63
    ensures var low := n % 0x1_0000_0000;
            var o := Unmarshal(ParamsSchema(), into, Digits(8 * n + 2) + (Digits(|p|) + p));
            && (low == 0 ==> o == Outcome(into, Some(IllegalTag(0, 8 * n + 2))))
            && (0 < low < 0x8000_0000 ==> o == Outcome(into, None))
            && (low >= 0x8000_0000 ==> o == Outcome(into, Some(IllegalTag(low - 0x1_0000_0000, 8 * n + 2))))
  {
    hide NextField, Digits;
    OneField(ParamsSchema(), into, n, p);
  }

  /** In an update, field 2 is what unmarshalling its payload as params says. */
  lemma {:induction false} UpdateField(into: Update, n: nat, p: slice)
    requires n < 0x2000_0000_0000_0000 && |Digits(8 * n + 2) + (Digits(|p|) + p)| < TWO_63
    ensures var low := n % 0x1_0000_0000;
            var o := Unmarshal(UpdateSchema(), into, Digits(8 * n + 2) + (Digits(|p|) + p));
            && (low == 0 ==> o == Outcome(into, Some(IllegalTag(0, 8 * n + 2))))
            && (low == 1 ==> o == Outcome(Update(p, into.params), None))
            && (low == 2 ==> o == Outcome(into, Unmarshal(ParamsSchema(), into.params, p).err))
            && (2 < low < 0x8000_0000 ==> o == Outcome(into, None))
            && (low >= 0x8000_0000 ==> o == Outcome(into, Some(IllegalTag(low - 0x1_0000_0000, 8 * n + 2))))
  {
    hide NextField, Digits, Parse;
    OneField(UpdateSchema(), into, n, p);
    NestedParams(into, p);
  }

  /** Storing field 2 of an update: params hold nothing, so only their error is left. */
  lemma NestedParams(m: Update, p: bytes)
    ensures UpdateSchema().apply(m, 2, p) == Outcome(m, Unmarshal(ParamsSchema(), m.params, p).err)
  {
    hide Parse;
    var r := Unmarshal(ParamsSchema(), m.params, p);
    assert r.msg == Params == m.params;
  }

  lemma {:induction false} OneField<M>(sch: Schema<M>, into: M, n: nat, p: slice)
    requires n < 0x2000_0000_0000_0000 && |Digits(8 * n + 2) + (Digits(|p|) + p)| < TWO_63
    ensures var low, o := n % 0x1_0000_0000, Unmarshal(sch, into, Digits(8 * n + 2) + (Digits(|p|) + p));
            && (low == 0 ==> o == Outcome(into, Some(IllegalTag(0, 8 * n + 2))))
            && (low >= 0x8000_0000 ==> o == Outcome(into, Some(IllegalTag(low - 0x1_0000_0000, 8 * n + 2))))
            && (0 < low < 0x8000_0000 ==>
                  o == if low <= sch.known then sch.apply(into, low, p) else Outcome(into, None))
  {
    hide NextField, Digits;
    var low, f := n % 0x1_0000_0000, Digits(8 * n + 2) + (Digits(|p|) + p);
    if 0 < low < 0x8000_0000 {
      assert f + [] == f && f[|f|..] == [];
      DelimitedField(sch.known, n, p, [], 0);
      ParseNothing(sch, if low <= sch.known then sch.apply(into, low, p).msg else into, |f|);
    } else {
      TagDecides(sch.known, n, 2, Digits(|p|) + p, 0);
    }
  }

  // ---------- Exactly which messages are accepted ----------

  lemma {:induction false} BroadcastReads(m: Broadcast, items: Items, m': Broadcast)
    ensures Reads(BroadcastSchema(), m, items, m')
       <==> && AllAcceptable(2, items)
            && m' == Broadcast(LastPayload(items, 1, m.sender), LastPayload(items, 2, m.data))
    decreases items
  {
    hide WellFormed, FieldNumber;
    match items
    case Nil =>
    case Cons(head, tail) =>
      if Acceptable(2, head) {
        BroadcastReads(Store(BroadcastSchema(), m, FieldOf(2, head)).msg, tail, m');
      }
  }

  /** s is a sequence of acceptable fields, and m' holds the last payloads of fields 1 and 2, or what m had. */
  ghost predicate IsBroadcast(m: Broadcast, s: bytes, m': Broadcast) {
    exists items ::
      && PrintAll(items) == s && AllAcceptable(2, items)
      && m' == Broadcast(LastPayload(items, 1, m.sender), LastPayload(items, 2, m.data))
  }

  lemma {:induction false} BroadcastAcceptedIff(m: Broadcast, s: slice, m': Broadcast)
    ensures Unmarshal(BroadcastSchema(), m, s) == Outcome(m', None) <==> IsBroadcast(m, s, m')
  {
    hide Unmarshal, Reads, AllAcceptable, LastPayload;
    UnmarshalIffMessage(BroadcastSchema(), m, s, m');
    forall items
      ensures Reads(BroadcastSchema(), m, items, m')
         <==> && AllAcceptable(2, items)
              && m' == Broadcast(LastPayload(items, 1, m.sender), LastPayload(items, 2, m.data))
    {
      BroadcastReads(m, items, m');
    }
  }

  /** p is a sequence of fields with positive numbers. */
  ghost predicate IsParams(p: bytes) {
    exists items :: PrintAll(items) == p && AllAcceptable(0, items)
  }

  lemma {:induction false} ParamsReads(m: Params, items: Items)
    ensures Reads(ParamsSchema(), m, items, m) <==> AllAcceptable(0, items)
    decreases items
  {
    hide WellFormed, FieldNumber;
    match items
    case Nil =>
    case Cons(head, tail) => ParamsReads(m, tail);
  }

  lemma {:induction false} ParamsAcceptedIff(m: Params, p: slice)
    ensures Unmarshal(ParamsSchema(), m, p).err.None? <==> IsParams(p)
  {
    hide Unmarshal, Reads, AllAcceptable;
    UnmarshalIffMessage(ParamsSchema(), m, p, m);
    assert Unmarshal(ParamsSchema(), m, p).msg == Params == m;
    forall items
      ensures Reads(ParamsSchema(), m, items, m) <==> AllAcceptable(0, items)
    {
      ParamsReads(m, items);
    }
  }

  /** The payload of each field 2 is params. */
  ghost predicate ParamsFieldsOk(items: Items) {
    match items
    case Nil => true
    case Cons(head, tail) =>
      (head.DelimitedItem? && FieldNumber(head) == 2 ==> IsParams(head.body)) && ParamsFieldsOk(tail)
  }

  lemma {:induction false} UpdateReads(m: Update, items: Items, m': Update)
    ensures Reads(UpdateSchema(), m, items, m')
       <==> && AllAcceptable(2, items) && ParamsFieldsOk(items)
            && m' == Update(LastPayload(items, 1, m.authority), m.params)
    decreases items
  {
    hide FieldNumber, IsParams, Unmarshal;
    match items
    case Nil =>
    case Cons(head, tail) =>
      if Acceptable(2, head) {
        if FieldNumber(head) == 2 {
          ParamsAcceptedIff(m.params, head.body);
        }
        UpdateReads(Store(UpdateSchema(), m, FieldOf(2, head)).msg, tail, m');
      }
  }

  /** s is a sequence of acceptable fields, each field 2 holding params, and m' has the last payload of field 1. */
  ghost predicate IsUpdate(m: Update, s: bytes, m': Update) {
    exists items ::
      && PrintAll(items) == s && AllAcceptable(2, items) && ParamsFieldsOk(items)
      && m' == Update(LastPayload(items, 1, m.authority), m.params)
  }

  lemma {:induction false} UpdateAcceptedIff(m: Update, s: slice, m': Update)
    ensures Unmarshal(UpdateSchema(), m, s) == Outcome(m', None) <==> IsUpdate(m, s, m')
  {
    hide Unmarshal, Reads, AllAcceptable, LastPayload, ParamsFieldsOk, UpdateSchema;
    UnmarshalIffMessage(UpdateSchema(), m, s, m');
    forall items
      ensures Reads(UpdateSchema(), m, items, m')
         <==> && AllAcceptable(2, items) && ParamsFieldsOk(items)
              && m' == Update(LastPayload(items, 1, m.authority), m.params)
    {
      UpdateReads(m, items, m');
    }
  }

  /** Behind any accepted fields, params that are refused refuse the update, with their own error. */
  lemma {:induction false} UpdateNestedError(m: Update, a: bytes, u: slice, rest: bytes)
    requires Unmarshal(UpdateSchema(), m, a).err.None?
    requires Unmarshal(ParamsSchema(), m.params, u).err.Some?
    ensures Unmarshal(UpdateSchema(), m, a + ([0x12] + (Digits(|u|) + u) + rest))
         == Outcome(Unmarshal(UpdateSchema(), m, a).msg, Unmarshal(ParamsSchema(), m.params, u).err)
  {
    hide NextField, EncodeField, Digits;
    var f, m1 := EncodeField(0x12, u), Unmarshal(UpdateSchema(), m, a).msg;
    assert f == [0x12] + (Digits(|u|) + u) by { EncodedField(0x12, u); }
    ParseConcat(UpdateSchema(), m, a, f + rest, 0);
    ReadEncodedField(2, u, rest, |a|);
    assert m1.params == Params == m.params;
    NestedParams(m1, u);
  }

  // ---------- What an encoding looks like ----------

  /** One encoded field is one field of the grammar. */
  lemma {:induction false} EncodedItem(num: nat, p: slice)
    requires num in {1, 2}
    ensures var i := DelimitedItem([8 * num + 2], Digits(|p|), p);
            WellFormed(i) && FieldNumber(i) == num && Print(i) == EncodeField(8 * num + 2, p)
  {
    hide Base128, Digits, IsVarint;
    var tag: uint64 := 8 * num + 2;
    DigitsOfOne(tag);
    DigitsIsVarint(tag);
    DigitsAreDigits(tag);
    DigitsIsVarint(|p|);
    DigitsAreDigits(|p|);
  }

  /** A field, written if it is not empty, in front of fields with greater numbers. */
  lemma {:induction false} FieldInFront(num: nat, p: slice, written: bool, tail: Items) returns (items: Items)
    requires num in {1, 2} && AllAcceptable(2, tail) && Ascending(tail, num)
    ensures AllAcceptable(2, items) && Ascending(items, num - 1)
    ensures PrintAll(items) == (if written then EncodeField(8 * num + 2, p) else []) + PrintAll(tail)
    ensures forall n: nat, o: bytes ::
              LastPayload(items, n, o) == LastPayload(tail, n, if written && n == num then p else o)
  {
    hide WellFormed, FieldNumber, EncodeField, Print;
    if written {
      EncodedItem(num, p);
      items := Cons(DelimitedItem([8 * num + 2], Digits(|p|), p), tail);
    } else {
      items := tail;
      AscendingFrom(tail, num, num - 1);
    }
  }

  lemma AscendingFrom(items: Items, last: int, lower: int)
    requires lower <= last && Ascending(items, last)
    ensures Ascending(items, lower)
  {
    hide FieldNumber;
  }

  lemma NoFields()
    ensures AllAcceptable(2, Nil) && Ascending(Nil, 2) && PrintAll(Nil) == []
    ensures forall n: nat, o: bytes :: LastPayload(Nil, n, o) == o
  {
  }

  /** Only fields that are present are written, each once, in the order of their numbers. */
  lemma {:induction false} BroadcastAscending(m: Broadcast) returns (items: Items)
    requires |m.sender| < TWO_63 && |m.data| < TWO_63
    ensures PrintAll(items) == EncodeBroadcast(m) && AllAcceptable(2, items) && Ascending(items, 0)
    ensures LastPayload(items, 1, []) == m.sender && LastPayload(items, 2, []) == m.data
  {
    hide EncodeField, AllAcceptable, Ascending, LastPayload, PrintAll;
    NoFields();
    items := FieldInFront(2, m.data, m.data != [], Nil);
    items := FieldInFront(1, m.sender, m.sender != [], items);
  }

  /** An update ends with its one params field. */
  lemma {:induction false} UpdateAscending(m: Update) returns (items: Items)
    requires |m.authority| < TWO_63
    ensures PrintAll(items) == EncodeUpdate(m) && AllAcceptable(2, items) && Ascending(items, 0)
    ensures LastPayload(items, 1, []) == m.authority && forall o: bytes :: LastPayload(items, 2, o) == []
  {
    hide EncodeField, AllAcceptable, Ascending, LastPayload, PrintAll;
    NoFields();
    items := FieldInFront(2, [], true, Nil);
    items := FieldInFront(1, m.authority, m.authority != [], items);
  }

  predicate EndsWith(s: bytes, t: bytes) {
    |t| <= |s| && s[|s| - |t|..] == t
  }

  /** The two ends of an encoding, byte by byte. */
  lemma EncodingEnds(b: Broadcast, u: Update)
    ensures b.sender != [] ==> [0x0a] + (Digits(|b.sender|) + b.sender) <= EncodeBroadcast(b)
    ensures b.data != [] ==> EndsWith(EncodeBroadcast(b), [0x12] + (Digits(|b.data|) + b.data))
    ensures u.authority != [] ==> [0x0a] + (Digits(|u.authority|) + u.authority) <= EncodeUpdate(u)
    ensures EndsWith(EncodeUpdate(u), [0x12, 0x00])
  {
    hide EncodeField;
    EncodedField(0x0a, b.sender);
    EncodedField(0x12, b.data);
    EncodedField(0x0a, u.authority);
    EncodedField(0x12, []);
    assert Digits(0) == [0x00];
  }

  lemma WireExamples()
    ensures EncodeBroadcast(Broadcast([97], [98])) == [0x0a, 0x01, 97, 0x12, 0x01, 98]
    ensures EncodeUpdate(Update([97], Params)) == [0x0a, 0x01, 97, 0x12, 0x00]
    ensures EncodeBroadcast(Broadcast([], [])) == [] && EncodeUpdate(Update([], Params)) == [0x12, 0x00]
    ensures Digits(300) == [0xac, 0x02]
  {
  }

  // ---------- Canonical form ----------

  /** A field on the wire is at least as long as the canonical encoding of its payload. */
  lemma FieldIsNotShorter(known: nat, s: bytes, at: nat, tag: byte)
    requires NextField(known, s, at).Ok? && NextField(known, s, at).value.field.Known?
    ensures var step := NextField(known, s, at).value;
            |EncodeField(tag, step.field.payload)| <= step.size
  {
    hide ReadVarint, Skip;
    var n := ReadVarint(s).value.size;
    CanonicalIsShortest(s[n..]);
  }

  /** Parsing adds no more to the canonical size than it consumes. */
  lemma {:induction false} BroadcastGrowth(m: Broadcast, s: bytes, at: nat)
    ensures var m' := Parse(BroadcastSchema(), m, s, at).msg;
            |EncodeBroadcast(m')| <= |EncodeBroadcast(m)| + |s|
    decreases |s|
  {
    hide NextField, EncodeField;
    if s != [] && NextField(2, s, at).Ok? {
      var step := NextField(2, s, at).value;
      var m' := Store(BroadcastSchema(), m, step.field).msg;
      if step.field.Known? {
        FieldIsNotShorter(2, s, at, 0x0a);
        FieldIsNotShorter(2, s, at, 0x12);
      }
      BroadcastGrowth(m', s[step.size..], at + step.size);
    }
  }

  lemma {:induction false} UpdateGrowth(m: Update, s: bytes, at: nat)
    ensures var m' := Parse(UpdateSchema(), m, s, at).msg;
            |EncodeUpdate(m')| <= |EncodeUpdate(m)| + |s|
    decreases |s|
  {
    hide NextField, EncodeField;
    if s != [] && NextField(2, s, at).Ok? {
      var step := NextField(2, s, at).value;
      var m' := Store(UpdateSchema(), m, step.field).msg;
      if step.field.Known? {
        FieldIsNotShorter(2, s, at, 0x0a);
      }
      UpdateGrowth(m', s[step.size..], at + step.size);
    }
  }

  /** Overlong varints, repeated and unknown fields: the canonical form of what was read is never longer. */
  lemma {:induction false} BroadcastNotLonger(s: slice)
    ensures |EncodeBroadcast(Unmarshal(BroadcastSchema(), Broadcast([], []), s).msg)| <= |s|
  {
    hide Parse;
    BroadcastGrowth(Broadcast([], []), s, 0);
  }

  /** And it reads as the same message, so that encoding is a fixed point of decoding and encoding. */
  lemma {:induction false} BroadcastCanonical(s: slice)
    ensures var m := Unmarshal(BroadcastSchema(), Broadcast([], []), s).msg;
            Unmarshal(BroadcastSchema(), Broadcast([], []), EncodeBroadcast(m)) == Outcome(m, None)
  {
    hide Parse;
    BroadcastNotLonger(s);
    BroadcastRoundTrip(Unmarshal(BroadcastSchema(), Broadcast([], []), s).msg);
  }

  /** For MsgUpdateParams the always-written params cost up to two bytes more. */
  lemma {:induction false} UpdateCanonical(s: slice)
    ensures var o := Unmarshal(UpdateSchema(), Update([], Params), s);
            && |EncodeUpdate(o.msg)| <= |s| + 2
            && Unmarshal(UpdateSchema(), Update([], Params), EncodeUpdate(o.msg)) == Outcome(o.msg, None)
  {
    hide Parse;
    UpdateGrowth(Update([], Params), s, 0);
    UpdateRoundTrip(Unmarshal(UpdateSchema(), Update([], Params), s).msg);
  }

  // ---------- Errors ----------

  /** A rejected broadcast keeps exactly what the fields before the unreadable one store. */
  lemma {:induction false} BroadcastRejected(m: Broadcast, s: slice) returns (items: Items, t: bytes)
    requires Unmarshal(BroadcastSchema(), m, s).err.Some?
    ensures s == PrintAll(items) + t && t != []
    ensures Reads(BroadcastSchema(), m, items, Unmarshal(BroadcastSchema(), m, s).msg)
    ensures var r := NextField(2, t, |PrintAll(items)|);
            r.Err? && Unmarshal(BroadcastSchema(), m, s).err == Some(Visible(r.error))
  {
    hide Parse, Reads, NextField;
    items, t := ParseStops(BroadcastSchema(), m, s, 0);
  }

  lemma BroadcastNeverEndsGroup(m: Broadcast, s: bytes)
    ensures Unmarshal(BroadcastSchema(), m, s).err != Some(UnexpectedEndOfGroup)
  {
    hide Parse;
    ParseNeverEndsGroup(BroadcastSchema(), m, s, 0);
  }

  lemma UpdateNeverEndsGroup(m: Update, s: bytes)
    ensures Unmarshal(UpdateSchema(), m, s).err != Some(UnexpectedEndOfGroup)
  {
    hide Parse;
    forall x: Update, num: nat, p: bytes
      ensures UpdateSchema().apply(x, num, p).err != Some(UnexpectedEndOfGroup)
    {
      var r := Unmarshal(ParamsSchema(), x.params, p);
      ParseNeverEndsGroup(ParamsSchema(), x.params, p, 0);
      assert r.err != Some(UnexpectedEndOfGroup);
      assert num != 1 ==> UpdateSchema().apply(x, num, p).err == r.err;
    }
    ParseNeverEndsGroup(UpdateSchema(), m, s, 0);
  }

  /** The exception in UnmarshalConcat is real: behind two more bytes the same overlong field fails differently. */
  lemma ConcatErrorDiffers(m: Broadcast)
    ensures var a, b := [0x0a, 0x00], [0x0a] + Digits(TWO_63 - 11);
            && Unmarshal(BroadcastSchema(), m, b).err == Some(UnexpectedEOF)
            && Unmarshal(BroadcastSchema(), m, a).err == None
            && Unmarshal(BroadcastSchema(), m, a + b).err == Some(InvalidLength)
  {
    hide Parse;
    var sch := BroadcastSchema();
    var a: bytes, b: bytes := [0x0a, 0x00], [0x0a] + Digits(TWO_63 - 11);
    OverlongField(sch, m, 0);
    OverlongField(sch, m.(sender := []), 2);
    assert a == EncodeField(0x0a, []) && a + [] == a;
    ParseEncodedField(sch, m, 1, [], [], 0);
    ParseNothing(sch, m.(sender := []), 2);
    ParseConcat(sch, m, a, b, 0);
  }

  lemma OverlongField<M>(sch: Schema<M>, m: M, at: nat)
    requires sch.known == 2
    ensures Parse(sch, m, [0x0a] + Digits(TWO_63 - 11), at) == Parsed(m, Some(PastEnd(at + (TWO_63 - 1))))
  {
    hide ReadVarint, Skip, Digits;
    var d := Digits(TWO_63 - 11);
    var b: bytes := [0x0a] + d;
    assert Digits(0x0a) == [0x0a] by { DigitsOfOne(0x0a); }
    ReadVarintOfDigits(0x0a, d);
    ReadVarintOfDigits(TWO_63 - 11, []);
    assert d + [] == d && b[1..] == d;
    assert |d| == 9 by { NineDigits(); }
  }

  lemma NineDigits()
    ensures |Digits(TWO_63 - 11)| == 9
  {
    Pow128At9();
    DigitsMinimal(TWO_63 - 11, 9);
    DigitsAreDigits(TWO_63 - 11);
    Base128Bound(Digits(TWO_63 - 11));
    if |Digits(TWO_63 - 11)| <= 8 {
      Pow128Monotone(|Digits(TWO_63 - 11)|, 8);
    }
  }
}
