/**
 * The field-by-field parser that every generated Unmarshal is an instance of. A message type is
 * described by a schema: its field numbers are 1..known, all length-delimited, and `apply` stores
 * the payload of one field. The parser merges into the message it is given.
 */
module Parser {
  import opened Bytes
  import opened Varint
  import opened Skipper

  /** A message after a parse, with the error the Go code returns, if any. */
  datatype Outcome<+M> = Outcome(msg: M, err: Option<Error>)

  datatype Schema<!M> = Schema(known: nat, apply: (M, nat, bytes) -> Outcome<M>)

  /**
   * How the parser stops. A field that reaches beyond the buffer stops it at the mathematical end of
   * that field: which Go error this becomes depends on whether the index wraps, so on the position.
   */
  datatype Failure = Reported(error: Error) | PastEnd(end: nat)

  function Visible(f: Failure): (r: Error) {
    match f
    case Reported(e) => e
    case PastEnd(end) => if end >= TWO_63 then InvalidLength else UnexpectedEOF
  }

  datatype Field = Unknown | Known(num: nat, payload: bytes)

  datatype Step = Step(field: Field, size: nat)

  /** The length and the payload of a known field. */
  function Payload(num: nat, s: bytes, n: nat, at: nat): (r: Result<Step, Failure>)
    requires n <= |s|
    ensures r.Ok? ==> n < r.value.size <= |s| && r.value.field.Known?
    ensures r.Ok? ==> r.value.field.num == num && |r.value.field.payload| < r.value.size
  {
    match ReadVarint(s[n..])
    case Err(e) => Err(Reported(e))
    case Ok(length) =>
      var start := n + length.size;
      if length.value >= TWO_63 then Err(Reported(InvalidLength))
      else if start + length.value > |s| then Err(PastEnd(at + start + length.value))
      else Ok(Step(Known(num, s[start..start + length.value]), start + length.value))
  }

  /** The field at the front of s, which is at index `at` of the buffer. */
  function NextField(known: nat, s: bytes, at: nat): (r: Result<Step, Failure>)
    ensures r.Ok? ==> 1 <= r.value.size <= |s|
    ensures r.Ok? && r.value.field.Known? ==>
              1 <= r.value.field.num <= known && |r.value.field.payload| < r.value.size
  {
    match ReadVarint(s)
    case Err(e) => Err(Reported(e))
    case Ok(tag) =>
      var fieldNum, wireType := Int32(tag.value / 8), tag.value % 8;
      if wireType == 4 then Err(Reported(EndGroupForNonGroup))
      else if fieldNum <= 0 then Err(Reported(IllegalTag(fieldNum, tag.value)))
      else if fieldNum <= known then
        if wireType != 2 then Err(Reported(WrongWireType(wireType, fieldNum)))
        else Payload(fieldNum, s, tag.size, at)
      else
        match Skip(s, 0, 0)
        case Err(e) => Err(Reported(e))
        case Ok(n) => if n > |s| then Err(PastEnd(at + n)) else Ok(Step(Unknown, n))
  }

  datatype Parsed<+M> = Parsed(msg: M, err: Option<Failure>)

  function Store<M>(sch: Schema<M>, m: M, field: Field): (r: Outcome<M>) {
    match field
    case Unknown => Outcome(m, None)
    case Known(num, payload) => sch.apply(m, num, payload)
  }

  /** Parses s, found at index `at`, into m. */
  function Parse<M>(sch: Schema<M>, m: M, s: bytes, at: nat): (r: Parsed<M>)
    decreases |s|
  {
    if s == [] then Parsed(m, None) else
    match NextField(sch.known, s, at)
    case Err(f) => Parsed(m, Some(f))
    case Ok(step) =>
      match Store(sch, m, step.field)
      case Outcome(m', Some(e)) => Parsed(m', Some(Reported(e)))
      case Outcome(m', None) => Parse(sch, m', s[step.size..], at + step.size)
  }

  /** Unmarshal as Go callers see it. */
  function Unmarshal<M>(sch: Schema<M>, m: M, s: bytes): (r: Outcome<M>) {
    var p := Parse(sch, m, s, 0);
    Outcome(p.msg, if p.err.None? then None else Some(Visible(p.err.value)))
  }

  // ---------- One iteration of the loop, as a method ----------

  /** The case of a known field behind its tag: length, bounds and payload; postIndex may wrap. */
  method ReadPayload(num: nat, dAtA: slice, iNdEx: nat, ghost preIndex: nat)
    returns (r: Result<Field, Error>, postIndex: int)
    requires preIndex <= iNdEx <= |dAtA|
    ensures match Payload(num, dAtA[preIndex..], iNdEx - preIndex, preIndex)
            case Ok(step) => r == Ok(step.field) && postIndex == preIndex + step.size <= |dAtA|
            case Err(f) => r == Err(Visible(f))
  {
    hide ReadVarint, Int64;
    postIndex := 0;
    ghost var s := dAtA[preIndex..];
    assert s[iNdEx - preIndex..] == dAtA[iNdEx..];
    var stringLen, start := DecodeVarint(dAtA, iNdEx);
    if stringLen.Err? {
      return Err(stringLen.error), 0;
    }
    Int64Of(stringLen.value);
    var intStringLen := Int64(stringLen.value);
    if intStringLen < 0 {
      return Err(InvalidLength), 0;
    }
    Int64Of(start + intStringLen);
    postIndex := Int64(start + intStringLen);
    if postIndex < 0 {
      return Err(InvalidLength), 0;
    }
    if postIndex > |dAtA| {
      return Err(UnexpectedEOF), 0;
    }
    assert dAtA[start..postIndex] == s[start - preIndex..postIndex - preIndex];
    r := Ok(Known(num, dAtA[start..postIndex]));
  }

  /** The body of the Unmarshal loop up to the assignment, every index computed in wrapping ints. */
  method ReadField(known: nat, dAtA: slice, preIndex: nat) returns (r: Result<Field, Error>, iNdEx: int)
    requires preIndex < |dAtA|
    ensures match NextField(known, dAtA[preIndex..], preIndex)
            case Ok(step) => r == Ok(step.field) && iNdEx == preIndex + step.size <= |dAtA|
            case Err(f) => r == Err(Visible(f))
  {
    hide ReadVarint, Skip, Payload, Int64;
    var l := |dAtA|;
    iNdEx := preIndex;
    ghost var s := dAtA[preIndex..];
    var wire, next := DecodeVarint(dAtA, preIndex);
    if wire.Err? {
      return Err(wire.error), iNdEx;
    }
    var fieldNum := Int32(wire.value / 8);
    var wireType := wire.value % 8;
    if wireType == 4 {
      return Err(EndGroupForNonGroup), iNdEx;
    }
    if fieldNum <= 0 {
      return Err(IllegalTag(fieldNum, wire.value)), iNdEx;
    }
    if fieldNum <= known {
      if wireType != 2 {
        return Err(WrongWireType(wireType, fieldNum)), iNdEx;
      }
      r, iNdEx := ReadPayload(fieldNum, dAtA, next, preIndex);
    } else {
      var skippy := SkipTx(dAtA[preIndex..]);
      if skippy.Err? {
        return Err(skippy.error), iNdEx;
      }
      Int64Of(iNdEx + skippy.value);
      if skippy.value < 0 || Int64(iNdEx + skippy.value) < 0 {
        return Err(InvalidLength), iNdEx;
      }
      if Int64(iNdEx + skippy.value) > l {
        return Err(UnexpectedEOF), iNdEx;
      }
      return Ok(Unknown), iNdEx + skippy.value;
    }
  }

  // ---------- Position independence ----------

  function Moved(f: Option<Failure>, shift: nat): (r: Option<Failure>) {
    match f
    case Some(PastEnd(end)) => Some(PastEnd(end + shift))
    case _ => f
  }

  lemma NextFieldMoved(known: nat, s: bytes, at: nat, shift: nat)
    ensures match NextField(known, s, at)
            case Ok(step) => NextField(known, s, at + shift) == Ok(step)
            case Err(f) => NextField(known, s, at + shift) == Err(Moved(Some(f), shift).value)
  {
    hide ReadVarint, Skip;
  }

  /** Where a buffer starts matters to the end of an overlong field and to nothing else. */
  lemma {:induction false} ParseMoved<M>(sch: Schema<M>, m: M, s: bytes, at: nat, shift: nat)
    ensures var p := Parse(sch, m, s, at);
            Parse(sch, m, s, at + shift) == Parsed(p.msg, Moved(p.err, shift))
    decreases |s|
  {
    hide NextField;
    if s != [] {
      NextFieldMoved(sch.known, s, at, shift);
      if NextField(sch.known, s, at).Ok? {
        var step := NextField(sch.known, s, at).value;
        var o := Store(sch, m, step.field);
        ParseMoved(sch, o.msg, s[step.size..], at + step.size, shift);
      }
    }
  }

  // ---------- Exactly which inputs are accepted ----------

  /** The field number in a tag: of the bits above the wire type the lowest 32, as a signed number. */
  function NumberOf(tag: uint64): (n: int) {
    var low := tag / 8 % 0x1_0000_0000;
    if low < 0x8000_0000 then low else low - 0x1_0000_0000
  }

  lemma NumberOfIsInt32(tag: uint64)
    ensures Int32(tag / 8) == NumberOf(tag)
  {
    var q, low := tag / 8 / 0x1_0000_0000, tag / 8 % 0x1_0000_0000;
    assert tag / 8 == q * 0x1_0000_0000 + low;
  }

  function FieldNumber(i: Item): (r: int) {
    NumberOf(Base128(i.tag) % TWO_64)
  }

  /** A field that a message may hold: a positive number, and known fields are length-delimited. */
  predicate Acceptable(known: nat, i: Item) {
    WellFormed(i) && FieldNumber(i) > 0 && (FieldNumber(i) <= known ==> i.DelimitedItem?)
  }

  function FieldOf(known: nat, i: Item): (r: Field)
    requires Acceptable(known, i)
  {
    if FieldNumber(i) <= known then Known(FieldNumber(i), i.body) else Unknown
  }

  /** Storing the known fields one after the other turns m into m'. */
  ghost predicate Reads<M>(sch: Schema<M>, m: M, items: Items, m': M)
    decreases items
  {
    match items
    case Nil => m == m'
    case Cons(head, tail) =>
      && Acceptable(sch.known, head)
      && var o := Store(sch, m, FieldOf(sch.known, head));
         o.err.None? && Reads(sch, o.msg, tail, m')
  }

  predicate AllAcceptable(known: nat, items: Items) {
    match items
    case Nil => true
    case Cons(head, tail) => Acceptable(known, head) && AllAcceptable(known, tail)
  }

  /** The payload of the last field with the number, if there is one. */
  function LastPayload(items: Items, num: nat, otherwise: bytes): (p: bytes) {
    match items
    case Nil => otherwise
    case Cons(head, tail) =>
      LastPayload(tail, num, if head.DelimitedItem? && FieldNumber(head) == num then head.body else otherwise)
  }

  /** The fields come in strictly increasing order of their numbers, which are all above `last`. */
  predicate Ascending(items: Items, last: int) {
    match items
    case Nil => true
    case Cons(head, tail) => FieldNumber(head) > last && Ascending(tail, FieldNumber(head))
  }

  lemma PrintedTag(i: Item, rest: bytes)
    requires WellFormed(i)
    ensures IsVarint(i.tag) && |i.tag| <= |Print(i)|
    ensures ReadVarint(Print(i) + rest) == Ok(Number(Base128(i.tag) % TWO_64, |i.tag|))
  {
    hide ReadVarint, Base128;
    var body := Print(i)[|i.tag|..];
    assert Print(i) + rest == i.tag + (body + rest);
    ReadVarintOf(i.tag, body + rest);
  }

  /** The wire type of a well-formed field is never that of an end tag. */
  lemma PrintedWireType(i: Item)
    requires WellFormed(i)
    ensures i.DelimitedItem? ==> Base128(i.tag) % TWO_64 % 8 == 2
    ensures Base128(i.tag) % TWO_64 % 8 != 4
  {
    hide Base128;
    LowBits(i.tag);
  }

  lemma PayloadOf(num: nat, i: Item, rest: bytes, at: nat)
    requires WellFormed(i) && i.DelimitedItem?
    ensures |i.tag| <= |Print(i)|
    ensures Payload(num, Print(i) + rest, |i.tag|, at) == Ok(Step(Known(num, i.body), |Print(i)|))
  {
    hide ReadVarint, Base128, IsVarint, IsTag;
    var s := Print(i) + rest;
    ConcatAssociative(i.tag, i.length, i.body);
    ConcatAssociative(i.length, i.body, rest);
    Pieces(i.tag, i.length + i.body, rest);
    Pieces(i.tag + i.length, i.body, rest);
    ReadVarintOf(i.length, i.body + rest);
  }

  /** An acceptable field is read as such, whatever follows it. */
  lemma {:induction false} ItemIsRead(known: nat, i: Item, rest: bytes, at: nat)
    requires Acceptable(known, i) && |Print(i)| < TWO_63
    ensures NextField(known, Print(i) + rest, at) == Ok(Step(FieldOf(known, i), |Print(i)|))
  {
    hide ReadVarint, Skip, WellFormed, Payload, Print, NumberOf, Int32, Base128;
    PrintedTag(i, rest);
    PrintedWireType(i);
    NumberOfIsInt32(Base128(i.tag) % TWO_64);
    if FieldNumber(i) <= known {
      PayloadOf(FieldNumber(i), i, rest, at);
    } else {
      SkipItem(i, rest, 0, 0);
    }
  }

  lemma PayloadParses(num: nat, s: bytes, n: nat, at: nat) returns (i: Item)
    requires n <= |s| && IsTag(s[..n], 2)
    requires Payload(num, s, n, at).Ok?
    ensures WellFormed(i) && i.DelimitedItem? && i.tag == s[..n]
    ensures Payload(num, s, n, at) == Ok(Step(Known(num, i.body), |Print(i)|))
    ensures Print(i) == s[..|Print(i)|]
  {
    hide ReadVarint, IsVarint, Base128, IsTag;
    ReadVarintSplits(s[n..]);
    var length := ReadVarint(s[n..]).value;
    var start := n + length.size;
    CutInThree(s, n, length.size, start + length.value);
    i := DelimitedItem(s[..n], s[n..][..length.size], s[start..start + length.value]);
  }

  /** What was read is an acceptable field. */
  lemma ReadIsItem(known: nat, s: bytes, at: nat) returns (i: Item)
    requires NextField(known, s, at).Ok?
    ensures Acceptable(known, i)
    ensures NextField(known, s, at) == Ok(Step(FieldOf(known, i), |Print(i)|))
    ensures Print(i) == s[..|Print(i)|]
  {
    hide ReadVarint, IsVarint, Base128, IsTag, Skip, Payload, WellFormed, Print, NumberOf, Int32;
    TagSplits(s);
    ReadVarintSplits(s);
    var tag := ReadVarint(s).value;
    var fieldNum := NumberOf(tag.value);
    NumberOfIsInt32(tag.value);
    if fieldNum <= known {
      i := PayloadParses(fieldNum, s, tag.size, at);
    } else {
      var n := Skip(s, 0, 0).value;
      i := SkipFindsItem(s, n);
      PrintedTag(i, s[n..]);
      assert Print(i) + s[n..] == s;
    }
  }

  lemma {:induction false} ParseReads<M>(sch: Schema<M>, m: M, s: bytes, at: nat) returns (items: Items)
    requires Parse(sch, m, s, at).err.None?
    ensures PrintAll(items) == s && Reads(sch, m, items, Parse(sch, m, s, at).msg)
    decreases |s|
  {
    hide NextField, Acceptable, Print, FieldOf;
    if s == [] {
      items := Nil;
    } else {
      var step := NextField(sch.known, s, at).value;
      var head := ReadIsItem(sch.known, s, at);
      var o := Store(sch, m, step.field);
      var tail := ParseReads(sch, o.msg, s[step.size..], at + step.size);
      items := Cons(head, tail);
      assert s == s[..step.size] + s[step.size..];
    }
  }

  lemma ParseNothing<M>(sch: Schema<M>, m: M, at: nat)
    ensures Parse(sch, m, [], at) == Parsed(m, None)
  {
  }

  lemma {:induction false} ParseItem<M>(sch: Schema<M>, m: M, i: Item, rest: bytes, at: nat)
    requires Acceptable(sch.known, i) && |Print(i)| < TWO_63
    requires Store(sch, m, FieldOf(sch.known, i)).err.None?
    ensures Parse(sch, m, Print(i) + rest, at)
         == Parse(sch, Store(sch, m, FieldOf(sch.known, i)).msg, rest, at + |Print(i)|)
  {
    hide NextField, Acceptable, Print, FieldOf, Store;
    ItemIsRead(sch.known, i, rest, at);
    assert (Print(i) + rest)[|Print(i)|..] == rest;
  }

  /** Printed fields are stored one by one, and parsing goes on with what follows them. */
  lemma {:induction false} ReadsParse<M>(sch: Schema<M>, m: M, items: Items, m': M, t: bytes, at: nat)
    requires Reads(sch, m, items, m') && |PrintAll(items)| < TWO_63
    ensures Parse(sch, m, PrintAll(items) + t, at) == Parse(sch, m', t, at + |PrintAll(items)|)
    decreases items
  {
    hide Parse, Acceptable, Print, FieldOf, Store;
    match items
    case Nil =>
      assert PrintAll(items) + t == t;
    case Cons(head, tail) =>
      assert PrintAll(items) + t == Print(head) + (PrintAll(tail) + t);
      ParseItem(sch, m, head, PrintAll(tail) + t, at);
      ReadsParse(sch, Store(sch, m, FieldOf(sch.known, head)).msg, tail, m', t, at + |Print(head)|);
  }

  ghost predicate IsMessage<M>(sch: Schema<M>, m: M, s: bytes, m': M) {
    exists items :: Reads(sch, m, items, m') && PrintAll(items) == s
  }

  /** Unmarshal accepts exactly the sequences of acceptable fields, and stores what they say, in order. */
  lemma {:induction false} UnmarshalIffMessage<M>(sch: Schema<M>, m: M, s: slice, m': M)
    ensures Unmarshal(sch, m, s) == Outcome(m', None) <==> IsMessage(sch, m, s, m')
  {
    hide Parse, Reads;
    if Unmarshal(sch, m, s) == Outcome(m', None) {
      var items := ParseReads(sch, m, s, 0);
    }
    if IsMessage(sch, m, s, m') {
      var items :| Reads(sch, m, items, m') && PrintAll(items) == s;
      ReadsParse(sch, m, items, m', [], 0);
      assert s + [] == s;
      ParseNothing(sch, m', |s|);
    }
  }

  // ---------- What a tag decides ----------

  lemma NumberInTag(n: nat, w: nat)
    requires n < 0x2000_0000_0000_0000 && w < 8
    ensures (8 * n + w) % 8 == w && (8 * n + w) / 8 == n && 8 * n + w < TWO_64
  {
  }

  /** Which tags are refused, by all 2^61 field numbers and eight wire types. */
  lemma {:induction false} TagDecides(known: nat, n: nat, w: nat, rest: bytes, at: nat)
    requires n < 0x2000_0000_0000_0000 && w < 8
    ensures var low, r := n % 0x1_0000_0000, NextField(known, Digits(8 * n + w) + rest, at);
            && (w == 4 ==> r == Err(Reported(EndGroupForNonGroup)))
            && (w != 4 && low == 0 ==> r == Err(Reported(IllegalTag(0, 8 * n + w))))
            && (w != 4 && low >= 0x8000_0000 ==>
                  r == Err(Reported(IllegalTag(low - 0x1_0000_0000, 8 * n + w))))
            && (w !in {2, 4} && 0 < low < 0x8000_0000 && low <= known ==>
                  r == Err(Reported(WrongWireType(w, low))))
            && (w in {6, 7} && known < low < 0x8000_0000 ==> r == Err(Reported(IllegalWireType(w))))
  {
    hide ReadVarint, Skip, Payload, Digits, Int32;
    NumberInTag(n, w);
    var tag: uint64 := 8 * n + w;
    NumberOfIsInt32(tag);
    ReadVarintOfDigits(tag, rest);
    if w in {6, 7} {
      SkipRefuses(Digits(tag) + rest, w);
    }
  }

  lemma {:induction false} SkipRefuses(s: bytes, w: nat)
    requires ReadVarint(s).Ok? && ReadVarint(s).value.value % 8 == w && w in {6, 7}
    ensures Skip(s, 0, 0) == Err(IllegalWireType(w))
  {
    hide ReadVarint;
    NotEmpty(s);
  }

  /** A length-delimited field of any positive number: stored if the number is known, otherwise skipped. */
  lemma {:induction false} DelimitedField(known: nat, n: nat, p: slice, rest: bytes, at: nat)
    requires 0 < n % 0x1_0000_0000 < 0x8000_0000 && n < 0x2000_0000_0000_0000
    requires |Digits(8 * n + 2) + (Digits(|p|) + p)| < TWO_63
    ensures var low, f := n % 0x1_0000_0000, Digits(8 * n + 2) + (Digits(|p|) + p);
            NextField(known, f + rest, at) == Ok(Step(if low <= known then Known(low, p) else Unknown, |f|))
  {
    hide NextField, Digits, Base128, IsVarint;
    NumberInTag(n, 2);
    var tag: uint64 := 8 * n + 2;
    DigitsIsVarint(tag);
    DigitsAreDigits(tag);
    DigitsIsVarint(|p|);
    DigitsAreDigits(|p|);
    LowBits(Digits(tag));
    ItemIsRead(known, DelimitedItem(Digits(tag), Digits(|p|), p), rest, at);
  }

  /** With less behind it than its length says, such a field is an error; which one, its end decides. */
  lemma {:induction false} TruncatedField(known: nat, n: nat, length: uint64, p: bytes, at: nat)
    requires 0 < n % 0x1_0000_0000 < 0x8000_0000 && n < 0x2000_0000_0000_0000
    requires |p| < length
    ensures var head := Digits(8 * n + 2) + Digits(length);
            var r := NextField(known, head + p, at);
            r.Err? && Visible(r.error) == if at + |head| + length >= TWO_63 then InvalidLength else UnexpectedEOF
  {
    hide ReadVarint, Skip, Digits, Int32;
    NumberInTag(n, 2);
    var tag: uint64 := 8 * n + 2;
    NumberOfIsInt32(tag);
    var s := Digits(tag) + Digits(length) + p;
    assert s == Digits(tag) + (Digits(length) + p);
    ReadVarintOfDigits(tag, Digits(length) + p);
    assert s[|Digits(tag)|..] == Digits(length) + p;
    ReadVarintOfDigits(length, p);
    SkipTruncated(s, |Digits(tag)|, Number(length, |Digits(length)|));
  }

  lemma {:induction false} SkipTruncated(s: bytes, tagSize: nat, length: Number)
    requires ReadVarint(s).Ok? && ReadVarint(s).value.value % 8 == 2 && ReadVarint(s).value.size == tagSize
    requires ReadVarint(s[tagSize..]) == Ok(length)
    ensures var end := tagSize + length.size + length.value;
            Skip(s, 0, 0) == if end >= TWO_63 then Err(InvalidLength) else Ok(end)
  {
    hide ReadVarint;
    NotEmpty(s);
  }

  // ---------- What a rejected input leaves behind, and where it stops ----------

  /** At t, index `at`, the parser stops with p: no field can be read there, or storing the one read fails. */
  ghost predicate StopsAt<M>(sch: Schema<M>, m: M, t: bytes, at: nat, p: Parsed<M>) {
    && t != []
    && match NextField(sch.known, t, at)
       case Err(f) => p == Parsed(m, Some(f))
       case Ok(step) =>
         var o := Store(sch, m, step.field);
         o.err.Some? && p == Parsed(o.msg, Some(Reported(o.err.value)))
  }

  /** The fields are stored in m, and then t stops the parser with p. */
  ghost predicate ReadsThenStops<M(!new)>(sch: Schema<M>, m: M, items: Items, t: bytes, at: nat, p: Parsed<M>) {
    exists m' :: Reads(sch, m, items, m') && StopsAt(sch, m', t, at + |PrintAll(items)|, p)
  }

  lemma {:induction false} ParseStops<M(!new)>(sch: Schema<M>, m: M, s: bytes, at: nat) returns (items: Items, t: bytes)
    requires Parse(sch, m, s, at).err.Some?
    ensures s == PrintAll(items) + t && ReadsThenStops(sch, m, items, t, at, Parse(sch, m, s, at))
    decreases |s|
  {
    hide NextField, Acceptable, Print, FieldOf;
    var p := Parse(sch, m, s, at);
    items, t := Nil, s;
    if NextField(sch.known, s, at).Ok? {
      var step := NextField(sch.known, s, at).value;
      var o := Store(sch, m, step.field);
      if o.err.None? {
        var head := ReadIsItem(sch.known, s, at);
        var tail;
        tail, t := ParseStops(sch, o.msg, s[step.size..], at + step.size);
        var m' :| Reads(sch, o.msg, tail, m') && StopsAt(sch, m', t, at + step.size + |PrintAll(tail)|, p);
        items := Cons(head, tail);
        assert s == s[..step.size] + s[step.size..];
        assert Reads(sch, m, items, m');
        return;
      }
    }
    assert Reads(sch, m, Nil, m) && StopsAt(sch, m, s, at, p);
  }

  lemma {:induction false} StopsParse<M(!new)>(sch: Schema<M>, m: M, items: Items, t: bytes, at: nat, p: Parsed<M>)
    requires |PrintAll(items)| < TWO_63 && ReadsThenStops(sch, m, items, t, at, p)
    ensures Parse(sch, m, PrintAll(items) + t, at) == p
  {
    hide NextField, Reads;
    var m' :| Reads(sch, m, items, m') && StopsAt(sch, m', t, at + |PrintAll(items)|, p);
    ReadsParse(sch, m, items, m', t, at);
  }

  ghost predicate IsRejected<M(!new)>(sch: Schema<M>, m: M, s: bytes, p: Parsed<M>) {
    exists items, t :: s == PrintAll(items) + t && ReadsThenStops(sch, m, items, t, 0, p)
  }

  /**
   * Parsing fails exactly on a sequence of acceptable fields with a stop behind it. The message is then
   * what those fields store, and the error is that of the stop.
   */
  lemma {:induction false} ParseIffRejected<M(!new)>(sch: Schema<M>, m: M, s: slice, p: Parsed<M>)
    requires p.err.Some?
    ensures Parse(sch, m, s, 0) == p <==> IsRejected(sch, m, s, p)
  {
    hide Parse, ReadsThenStops;
    if Parse(sch, m, s, 0) == p {
      var items, t := ParseStops(sch, m, s, 0);
    }
    if IsRejected(sch, m, s, p) {
      var items, t :| s == PrintAll(items) + t && ReadsThenStops(sch, m, items, t, 0, p);
      StopsParse(sch, m, items, t, 0, p);
    }
  }

  // ---------- Overlong fields ----------

  /** The size that the wire type and the length at the front of t give to a field, if they can be read. */
  function DeclaredSize(t: bytes): (n: Option<nat>) {
    match ReadVarint(t)
    case Err(_) => None
    case Ok(tag) =>
      match tag.value % 8
      case 1 => Some(tag.size + 8)
      case 5 => Some(tag.size + 4)
      case 2 => (
        match ReadVarint(t[tag.size..])
        case Ok(length) => if length.value < TWO_63 then Some(tag.size + length.size + length.value) else None
        case Err(_) => None)
      case _ => None
  }

  /** t starts with a field that the message may hold, of n bytes, more than there are. */
  predicate Overruns(known: nat, t: bytes, n: nat) {
    && DeclaredSize(t) == Some(n) && n > |t|
    && var tag := ReadVarint(t).value.value;
       && NumberOf(tag) > 0
       && if NumberOf(tag) <= known then tag % 8 == 2 else n < TWO_63
  }

  lemma OverlongPayload(num: nat, t: bytes, tagSize: nat, at: nat, n: nat)
    requires tagSize <= |t|
    ensures Payload(num, t, tagSize, at) == Err(PastEnd(at + n))
       <==> && ReadVarint(t[tagSize..]).Ok?
            && var length := ReadVarint(t[tagSize..]).value;
               length.value < TWO_63 && n == tagSize + length.size + length.value > |t|
  {
    hide ReadVarint;
  }

  /** Past the end, a declared size is the size of one token. */
  lemma DeclaredIsToken(t: bytes, n: nat)
    requires n > |t|
    ensures DeclaredSize(t) == Some(n) <==> NextToken(t) == Ok(Token(Leaf, n))
  {
    hide ReadVarint;
  }

  lemma OverlongSkip(t: bytes, n: nat)
    requires n > |t|
    ensures Skip(t, 0, 0) == Ok(n) <==> DeclaredSize(t) == Some(n) && n < TWO_63
  {
    hide NextToken, DeclaredSize, Skip;
    DeclaredIsToken(t, n);
    if Skip(t, 0, 0) == Ok(n) {
      SkipInverts(t, 0, 0);
      OverlongToken(t, n);
    }
    if NextToken(t) == Ok(Token(Leaf, n)) && n < TWO_63 {
      TokenNotEmpty(t);
      SkipLeafAtTop(t, n);
    }
  }

  lemma SkipLeafAtTop(t: bytes, n: nat)
    requires t != [] && NextToken(t) == Ok(Token(Leaf, n)) && n < TWO_63
    ensures Skip(t, 0, 0) == Ok(n)
  {
    hide NextToken;
  }

  lemma TokenNotEmpty(t: bytes)
    requires NextToken(t).Ok?
    ensures t != []
  {
    hide ReadVarint;
    assert ReadVarint(t).Ok?;
    NotEmpty(t);
  }

  lemma NotEmpty(t: bytes)
    requires ReadVarint(t).Ok?
    ensures t != []
  {
  }

  /** A skip past the end goes over one token. */
  lemma OverlongToken(t: bytes, n: nat)
    requires t != [] && Skip(t, 0, 0) == Ok(n) && n > |t|
    ensures NextToken(t) == Ok(Token(Leaf, n))
  {
    hide NextToken, Skip;
    SkipInverts(t, 0, 0);
    var first := NextToken(t).value;
    if DepthAfter(first.kind, 0) != 0 {
      OverrunIsTopLevel(t[first.size..], first.size, DepthAfter(first.kind, 0));
    }
  }

  /** The parser runs past the end exactly at such a field. */
  lemma NextFieldPastEnd(known: nat, t: bytes, at: nat, n: nat)
    ensures NextField(known, t, at) == Err(PastEnd(at + n)) <==> Overruns(known, t, n)
  {
    hide ReadVarint, Skip, Payload, DeclaredSize, NumberOf, Int32;
    if ReadVarint(t).Err? {
      DeclaredNeedsTag(t);
    } else {
      var tag := ReadVarint(t).value;
      NumberOfIsInt32(tag.value);
      if tag.value % 8 != 4 && NumberOf(tag.value) > 0 {
        if NumberOf(tag.value) <= known {
          OverlongPayload(NumberOf(tag.value), t, tag.size, at, n);
          DeclaredDelimited(t);
        } else if n > |t| {
          OverlongSkip(t, n);
        }
      } else {
        DeclaredDelimited(t);
      }
    }
  }

  lemma DeclaredNeedsTag(t: bytes)
    ensures DeclaredSize(t).Some? ==> ReadVarint(t).Ok?
  {
  }

  lemma DeclaredDelimited(t: bytes)
    requires ReadVarint(t).Ok?
    ensures var tag := ReadVarint(t).value;
            && (tag.value % 8 == 4 ==> DeclaredSize(t) == None)
            && (tag.value % 8 == 2 ==>
                  forall n: nat :: DeclaredSize(t) == Some(n)
                    <==> && ReadVarint(t[tag.size..]).Ok?
                         && var length := ReadVarint(t[tag.size..]).value;
                            length.value < TWO_63 && n == tag.size + length.size + length.value)
  {
    hide ReadVarint;
  }

  /** s is a sequence of fields that m takes in, and an overlong field behind them that would end at n. */
  ghost predicate EndsOverlong<M(!new)>(sch: Schema<M>, m: M, s: bytes, n: nat) {
    exists items, t, m' ::
      && s == PrintAll(items) + t
      && Reads(sch, m, items, m')
      && |PrintAll(items)| <= n
      && Overruns(sch.known, t, n - |PrintAll(items)|)
  }

  /** The position of an overlong field's end, told from the bytes. */
  lemma {:induction false} ParsePastEndIff<M(!new)>(sch: Schema<M>, m: M, s: slice, n: nat)
    ensures Parse(sch, m, s, 0).err == Some(PastEnd(n)) <==> EndsOverlong(sch, m, s, n)
  {
    hide Parse, Reads, NextField, Overruns;
    var p := Parse(sch, m, s, 0);
    if p.err == Some(PastEnd(n)) {
      var items, t := ParseStops(sch, m, s, 0);
      var m' :| Reads(sch, m, items, m') && StopsAt(sch, m', t, |PrintAll(items)|, p);
      var start := |PrintAll(items)|;
      NextFieldEnd(sch.known, t, start, n);
      NextFieldPastEnd(sch.known, t, start, n - start);
    }
    if EndsOverlong(sch, m, s, n) {
      var items, t, m' :|
        && s == PrintAll(items) + t && Reads(sch, m, items, m')
        && |PrintAll(items)| <= n && Overruns(sch.known, t, n - |PrintAll(items)|);
      var start := |PrintAll(items)|;
      NextFieldPastEnd(sch.known, t, start, n - start);
      OverrunsSomething(sch.known, t, n - start);
      assert StopsAt(sch, m', t, start, Parsed(m', Some(PastEnd(n))));
      StopsParse(sch, m, items, t, 0, Parsed(m', Some(PastEnd(n))));
    }
  }

  lemma OverrunsSomething(known: nat, t: bytes, n: nat)
    requires Overruns(known, t, n)
    ensures t != []
  {
    NotEmpty(t);
  }

  lemma NextFieldEnd(known: nat, t: bytes, at: nat, end: nat)
    requires NextField(known, t, at) == Err(PastEnd(end))
    ensures end > at + |t|
  {
    hide ReadVarint, Skip;
  }

  // ---------- Concatenation is merge ----------

  lemma NextFieldStable(known: nat, s: bytes, rest: bytes, at: nat)
    requires NextField(known, s, at).Ok?
    ensures NextField(known, s + rest, at) == NextField(known, s, at)
  {
    hide ReadVarint, Skip;
    ReadVarintStable(s, rest);
    var tag := ReadVarint(s).value;
    var fieldNum := Int32(tag.value / 8);
    if fieldNum <= known {
      PayloadStable(fieldNum, s, rest, tag.size, at);
    } else {
      SkipStable(s, rest, 0, 0);
    }
  }

  lemma PayloadStable(num: nat, s: bytes, rest: bytes, n: nat, at: nat)
    requires n <= |s| && Payload(num, s, n, at).Ok?
    ensures Payload(num, s + rest, n, at) == Payload(num, s, n, at)
  {
    hide ReadVarint;
    ReadVarintStable(s[n..], rest);
    assert (s + rest)[n..] == s[n..] + rest;
    var length := ReadVarint(s[n..]).value;
    var start := n + length.size;
    assert (s + rest)[start..start + length.value] == s[start..start + length.value];
  }

  /** After a has been parsed, parsing goes on with b exactly as if a had been parsed before. */
  lemma {:induction false} ParseConcat<M>(sch: Schema<M>, m: M, a: bytes, b: bytes, at: nat)
    requires Parse(sch, m, a, at).err.None?
    ensures Parse(sch, m, a + b, at) == Parse(sch, Parse(sch, m, a, at).msg, b, at + |a|)
    decreases |a|
  {
    hide NextField;
    if a == [] {
      assert a + b == b;
    } else {
      NextFieldStable(sch.known, a, b, at);
      var step := NextField(sch.known, a, at).value;
      var o := Store(sch, m, step.field);
      ParseConcat(sch, o.msg, a[step.size..], b, at + step.size);
      assert (a + b)[step.size..] == a[step.size..] + b;
    }
  }

  /** The one way in which a position shows: a field end that only the longer buffer carries past 2^63. */
  ghost predicate WrapsOnlyAfter<M(!new)>(sch: Schema<M>, m: M, s: bytes, shift: nat) {
    exists n: nat :: EndsOverlong(sch, m, s, n) && n < TWO_63 <= n + shift
  }

  lemma {:induction false} MovedErrorDiffers<M(!new)>(sch: Schema<M>, m: M, s: bytes, shift: nat)
    ensures var f := Parse(sch, m, s, 0).err;
            f.Some? ==> (Visible(f.value) == Visible(Moved(f, shift).value) <==> !WrapsOnlyAfter(sch, m, s, shift))
    ensures Parse(sch, m, s, 0).err.None? ==> !WrapsOnlyAfter(sch, m, s, shift)
  {
    hide Parse, EndsOverlong;
    var f := Parse(sch, m, s, 0).err;
    if |s| < TWO_63 {
      forall n: nat | EndsOverlong(sch, m, s, n)
        ensures f == Some(PastEnd(n))
      {
        ParsePastEndIff(sch, m, s, n);
      }
      if f.Some? && f.value.PastEnd? {
        ParsePastEndIff(sch, m, s, f.value.end);
      }
    } else {
      forall n: nat | EndsOverlong(sch, m, s, n)
        ensures n > |s|
      {
        OverlongEnd(sch, m, s, n);
      }
      if f.Some? && f.value.PastEnd? {
        ParseEnd(sch, m, s, 0);
      }
    }
  }

  lemma {:induction false} OverlongEnd<M(!new)>(sch: Schema<M>, m: M, s: bytes, n: nat)
    requires EndsOverlong(sch, m, s, n)
    ensures n > |s|
  {
    hide DeclaredSize, Reads;
  }

  lemma {:induction false} ParseEnd<M>(sch: Schema<M>, m: M, s: bytes, at: nat)
    requires var f := Parse(sch, m, s, at).err; f.Some? && f.value.PastEnd?
    ensures Parse(sch, m, s, at).err.value.end > at + |s|
    decreases |s|
  {
    hide NextField;
    match NextField(sch.known, s, at)
    case Err(f) => NextFieldEnd(sch.known, s, at, f.end);
    case Ok(step) => ParseEnd(sch, Store(sch, m, step.field).msg, s[step.size..], at + step.size);
  }

  /**
   * Unmarshalling a + b into m is unmarshalling b into what a gave: the same message, the same verdict,
   * and the same error but for one case, an overlong field of b whose end wraps only behind a.
   */
  lemma {:induction false} UnmarshalConcat<M(!new)>(sch: Schema<M>, m: M, a: bytes, b: bytes)
    requires Unmarshal(sch, m, a).err.None?
    ensures var whole, second := Unmarshal(sch, m, a + b), Unmarshal(sch, Unmarshal(sch, m, a).msg, b);
            && whole.msg == second.msg
            && (whole.err.None? <==> second.err.None?)
            && (whole.err == second.err <==> !WrapsOnlyAfter(sch, Unmarshal(sch, m, a).msg, b, |a|))
  {
    hide Parse, WrapsOnlyAfter;
    var m1 := Unmarshal(sch, m, a).msg;
    ParseConcat(sch, m, a, b, 0);
    ParseMoved(sch, m1, b, 0, |a|);
    MovedErrorDiffers(sch, m1, b, |a|);
  }

  // ---------- Unknown fields ----------

  /** u is one field that skipTx accepts, with a number that is positive and unknown. */
  predicate IsUnknownField(known: nat, u: bytes) {
    && Skip(u, 0, 0) == Ok(|u|)
    && ReadVarint(u).Ok?
    && NumberOf(ReadVarint(u).value.value) > known
  }

  lemma UnknownFieldStep(known: nat, u: bytes, at: nat)
    requires IsUnknownField(known, u)
    ensures u != [] && NextField(known, u, at) == Ok(Step(Unknown, |u|))
  {
    hide ReadVarint, NumberOf, Int32;
    SkipInverts(u, 0, 0);
    NumberOfIsInt32(ReadVarint(u).value.value);
    if ReadVarint(u).value.value % 8 == 4 {
      CloseAtTop(u);
    }
  }

  lemma CloseAtTop(u: bytes)
    requires ReadVarint(u).Ok? && ReadVarint(u).value.value % 8 == 4
    ensures Skip(u, 0, 0).Err?
  {
    hide ReadVarint;
  }

  lemma UnknownFieldParsed<M>(sch: Schema<M>, m: M, u: bytes, at: nat)
    requires IsUnknownField(sch.known, u)
    ensures Parse(sch, m, u, at) == Parsed(m, None)
  {
    hide NextField, IsUnknownField;
    UnknownFieldStep(sch.known, u, at);
    assert u[|u|..] == [];
  }

  /** Behind a, an unknown field u only moves the rest of the buffer. */
  lemma {:induction false} UnknownFieldMoves<M>(sch: Schema<M>, m: M, a: bytes, u: bytes, b: bytes)
    requires Unmarshal(sch, m, a).err.None?
    requires IsUnknownField(sch.known, u)
    ensures var plain := Parse(sch, m, a + b, 0);
            Parse(sch, m, a + (u + b), 0) == Parsed(plain.msg, Moved(plain.err, |u|))
  {
    hide Parse, IsUnknownField;
    var m1 := Parse(sch, m, a, 0).msg;
    ParseConcat(sch, m, a, u + b, 0);
    ParseConcat(sch, m, a, b, 0);
    UnknownFieldParsed(sch, m1, u, |a|);
    ParseConcat(sch, m1, u, b, |a|);
    ParseMoved(sch, m1, b, |a|, |u|);
  }

  /** An unknown field between two fields, a before and b after it, leaves no trace. */
  lemma {:induction false} UnknownFieldTransparent<M>(sch: Schema<M>, m: M, a: bytes, u: bytes, b: bytes)
    requires Unmarshal(sch, m, a).err.None?
    requires IsUnknownField(sch.known, u)
    ensures var marked, plain := Unmarshal(sch, m, a + (u + b)), Unmarshal(sch, m, a + b);
            marked.msg == plain.msg && (marked.err.None? <==> plain.err.None?)
  {
    hide Parse, IsUnknownField;
    UnknownFieldMoves(sch, m, a, u, b);
  }

  /** It changes the error in the one case in which two concatenated buffers do. */
  lemma {:induction false} UnknownFieldError<M(!new)>(sch: Schema<M>, m: M, a: bytes, u: bytes, b: bytes)
    requires Unmarshal(sch, m, a).err.None?
    requires IsUnknownField(sch.known, u)
    ensures Unmarshal(sch, m, a + (u + b)).err == Unmarshal(sch, m, a + b).err
       <==> !WrapsOnlyAfter(sch, m, a + b, |u|)
  {
    hide Parse, IsUnknownField, WrapsOnlyAfter;
    UnknownFieldMoves(sch, m, a, u, b);
    MovedErrorDiffers(sch, m, a + b, |u|);
  }

  /** Any field of the grammar, nested groups included, is such a field if its number is. */
  lemma {:induction false} ItemIsUnknownField(known: nat, i: Item)
    requires WellFormed(i) && |Print(i)| < TWO_63 && FieldNumber(i) > known
    ensures IsUnknownField(known, Print(i))
  {
    hide Skip, ReadVarint, WellFormed, Print, Base128, NumberOf;
    SkipItem(i, [], 0, 0);
    PrintedTag(i, []);
    assert Print(i) + [] == Print(i);
  }

  // ---------- An error that cannot come out ----------

  lemma {:induction false} NoUnexpectedEndOfGroupBelow(s: bytes, at: nat, depth: nat)
    requires depth > 0
    ensures Skip(s, at, depth) != Err(UnexpectedEndOfGroup)
    decreases |s|
  {
    hide NextToken;
    if s != [] {
      NextTokenError(s);
      if NextToken(s).Ok? {
        var t := NextToken(s).value;
        if DepthAfter(t.kind, depth) > 0 && t.size <= |s| {
          NoUnexpectedEndOfGroupBelow(s[t.size..], at + t.size, DepthAfter(t.kind, depth));
        }
      }
    }
  }

  lemma NextTokenError(s: bytes)
    ensures NextToken(s) != Err(UnexpectedEndOfGroup)
  {
    hide Base128;
  }

  /** skipTx meets an end tag at depth 0 only in its first step, which the parser's own test rules out. */
  lemma NoUnexpectedEndOfGroup(known: nat, s: bytes, at: nat)
    ensures NextField(known, s, at) != Err(Reported(UnexpectedEndOfGroup))
  {
    hide Base128, Continuations;
    if s != [] && ReadVarint(s).Ok? && ReadVarint(s).value.value % 8 != 4 {
      NoEndAtTop(s);
    }
  }

  lemma NoEndAtTop(s: bytes)
    requires ReadVarint(s).Ok? && ReadVarint(s).value.value % 8 != 4
    ensures Skip(s, 0, 0) != Err(UnexpectedEndOfGroup)
  {
    NextTokenError(s);
    NotAClose(s);
    hide NextToken, ReadVarint;
    if NextToken(s).Ok? {
      var t := NextToken(s).value;
      if DepthAfter(t.kind, 0) > 0 {
        NoUnexpectedEndOfGroupBelow(s[t.size..], t.size, DepthAfter(t.kind, 0));
      }
    }
  }

  /** skipTx itself reports it exactly for an input that starts with an end tag. */
  lemma {:induction false} EndOfGroupIff(s: bytes)
    ensures Skip(s, 0, 0) == Err(UnexpectedEndOfGroup) <==> ReadVarint(s).Ok? && ReadVarint(s).value.value % 8 == 4
  {
    hide ReadVarint, Skip, NextToken;
    SkipUnfold(s, 0, 0);
    if ReadVarint(s).Err? {
      NextTokenError(s);
      assert NextToken(s).Err? by { NoTagNoToken(s); }
    } else if ReadVarint(s).value.value % 8 == 4 {
      NotEmpty(s);
      assert NextToken(s).Ok? && NextToken(s).value.kind.Close? by { CloseToken(s); }
    } else {
      NoEndAtTop(s);
    }
  }

  lemma NoTagNoToken(s: bytes)
    requires ReadVarint(s).Err?
    ensures NextToken(s).Err?
  {
    hide ReadVarint;
  }

  lemma CloseToken(s: bytes)
    requires ReadVarint(s).Ok? && ReadVarint(s).value.value % 8 == 4
    ensures NextToken(s) == Ok(Token(Close, ReadVarint(s).value.size))
  {
    hide ReadVarint;
  }

  lemma NotAClose(s: bytes)
    requires ReadVarint(s).Ok? && ReadVarint(s).value.value % 8 != 4
    ensures NextToken(s).Ok? ==> !NextToken(s).value.kind.Close?
  {
    hide ReadVarint;
  }

  /** So Unmarshal reports the end-of-group error only if storing a payload does. */
  lemma {:induction false} ParseNeverEndsGroup<M(!new)>(sch: Schema<M>, m: M, s: bytes, at: nat)
    requires forall x: M, num: nat, p: bytes :: sch.apply(x, num, p).err != Some(UnexpectedEndOfGroup)
    ensures Parse(sch, m, s, at).err != Some(Reported(UnexpectedEndOfGroup))
    decreases |s|
  {
    hide NextField;
    if s != [] {
      NoUnexpectedEndOfGroup(sch.known, s, at);
      if NextField(sch.known, s, at).Ok? {
        var step := NextField(sch.known, s, at).value;
        ParseNeverEndsGroup(sch, Store(sch, m, step.field).msg, s[step.size..], at + step.size);
      }
    }
  }
}
