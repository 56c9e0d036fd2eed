/** The unknown-field skipper: one loop with a depth counter, against a grammar of nested groups. */
module Skipper {
  import opened Bytes
  import opened Varint

  // ---------- The skipper, one token at a time ----------

  datatype Kind = Leaf | Open | Close

  /** A tag with its body; the size may reach beyond the input, the skipper does not look. */
  datatype Token = Token(kind: Kind, size: nat)

  function NextToken(s: bytes): (r: Result<Token, Error>)
    ensures r.Ok? ==> 1 <= r.value.size < |s| + TWO_63 && (r.value.kind.Leaf? || r.value.size <= |s|)
  {
    match ReadVarint(s)
    case Err(e) => Err(e)
    case Ok(tag) =>
      var n := tag.size;
      match tag.value % 8
      case 0 => (
        match ReadVarint(s[n..])
        case Err(e) => Err(e)
        case Ok(v) => Ok(Token(Leaf, n + v.size)))
      case 1 => Ok(Token(Leaf, n + 8))
      case 2 => (
        match ReadVarint(s[n..])
        case Err(e) => Err(e)
        case Ok(v) => if v.value >= TWO_63 then Err(InvalidLength) else Ok(Token(Leaf, n + v.size + v.value)))
      case 3 => Ok(Token(Open, n))
      case 4 => Ok(Token(Close, n))
      case 5 => Ok(Token(Leaf, n + 4))
      case w => Err(IllegalWireType(w))
  }

  function DepthAfter(kind: Kind, depth: nat): (r: nat)
    requires kind.Close? ==> depth > 0
  {
    match kind
    case Leaf => depth
    case Open => depth + 1
    case Close => depth - 1
  }

  /** The state of skipTx after `at` bytes with `depth` open groups, s being what is left. */
  function Skip(s: bytes, at: nat, depth: nat): (r: Result<nat, Error>)
    ensures r.Ok? ==> at < r.value < TWO_63
    decreases |s|
  {
    if s == [] then Err(UnexpectedEOF) else
    match NextToken(s)
    case Err(e) => Err(e)
    case Ok(t) =>
      if t.kind.Close? && depth == 0 then Err(UnexpectedEndOfGroup)
      else if at + t.size >= TWO_63 then Err(InvalidLength)
      else if DepthAfter(t.kind, depth) == 0 then Ok(at + t.size)
      else if t.size > |s| then Err(UnexpectedEOF)
      else Skip(s[t.size..], at + t.size, DepthAfter(t.kind, depth))
  }

  /** One step that stays inside the input and leaves a group open. */
  lemma SkipStep(s: bytes, at: nat, depth: nat, t: Token)
    requires s != [] && NextToken(s) == Ok(t) && t.size <= |s|
    requires t.kind.Close? ==> depth > 0
    requires at + t.size < TWO_63 && DepthAfter(t.kind, depth) != 0
    ensures Skip(s, at, depth) == Skip(s[t.size..], at + t.size, DepthAfter(t.kind, depth))
  {
    hide NextToken;
  }

  /** What a successful skip says about its first token. */
  lemma SkipInverts(s: bytes, at: nat, depth: nat)
    requires Skip(s, at, depth).Ok?
    ensures s != [] && NextToken(s).Ok?
    ensures var t := NextToken(s).value;
            && at + t.size < TWO_63
            && (t.kind.Close? ==> depth > 0)
            && if DepthAfter(t.kind, depth) == 0
               then Skip(s, at, depth) == Ok(at + t.size)
               else t.size <= |s| && Skip(s, at, depth) == Skip(s[t.size..], at + t.size, DepthAfter(t.kind, depth))
  {
    hide NextToken;
  }

  /** The definition once more, for one step at a time. */
  lemma {:induction false} SkipUnfold(s: bytes, at: nat, depth: nat)
    ensures s == [] ==> Skip(s, at, depth) == Err(UnexpectedEOF)
    ensures s != [] ==>
              match NextToken(s)
              case Err(e) => Skip(s, at, depth) == Err(e)
              case Ok(t) =>
                if t.kind.Close? && depth == 0 then Skip(s, at, depth) == Err(UnexpectedEndOfGroup)
                else Skip(s, at, depth)
                     == if at + t.size >= TWO_63 then Err(InvalidLength)
                        else if DepthAfter(t.kind, depth) == 0 then Ok(at + t.size)
                        else if t.size > |s| then Err(UnexpectedEOF)
                        else Skip(s[t.size..], at + t.size, DepthAfter(t.kind, depth))
  {
    hide NextToken;
  }

  /** The wire-type switch of skipTx: a tag with its body, from dAtA[start]. The index wraps like Go's int. */
  method NextTokenAt(dAtA: slice, start: nat) returns (r: Result<Kind, Error>, iNdEx: int)
    requires start < |dAtA|
    ensures match NextToken(dAtA[start..])
            case Ok(t) => r == Ok(t.kind) && iNdEx == Int64(start + t.size)
            case Err(e) => r == Err(e)
  {
    hide ReadVarint, Int64;
    ghost var s := dAtA[start..];
    var wire, next := DecodeVarint(dAtA, start);
    if wire.Err? {
      return Err(wire.error), 0;
    }
    assert s[next - start..] == dAtA[next..];
    var wireType := wire.value % 8;
    match wireType {
      case 0 =>
        var value, end := DecodeVarint(dAtA, next);
        if value.Err? {
          return Err(value.error), 0;
        }
        Int64Of(end);
        return Ok(Leaf), end;
      case 1 =>
        return Ok(Leaf), Int64(next + 8);
      case 2 =>
        var value, end := DecodeVarint(dAtA, next);
        if value.Err? {
          return Err(value.error), 0;
        }
        Int64Of(value.value);
        var length := Int64(value.value);
        if length < 0 {
          return Err(InvalidLength), 0;
        }
        return Ok(Leaf), Int64(end + length);
      case 3 =>
        Int64Of(next);
        return Ok(Open), next;
      case 4 =>
        Int64Of(next);
        return Ok(Close), next;
      case 5 =>
        return Ok(Leaf), Int64(next + 4);
      case _ =>
        return Err(IllegalWireType(wireType)), 0;
    }
  }

  /** skipTx. The sign of the wrapped index is tested after every token. */
  method SkipTx(dAtA: slice) returns (r: Result<nat, Error>)
    ensures r == Skip(dAtA, 0, 0)
  {
    hide NextToken, Int64, Skip;
    var l := |dAtA|;
    var iNdEx: int, depth: nat := 0, 0;
    assert dAtA[0..] == dAtA;
    while iNdEx < l
      invariant 0 <= iNdEx < TWO_63
      invariant iNdEx <= l ==> Skip(dAtA, 0, 0) == Skip(dAtA[iNdEx..], iNdEx, depth)
      invariant iNdEx > l ==> Skip(dAtA, 0, 0) == Err(UnexpectedEOF)
      decreases l - iNdEx
    {
      ghost var start, s := iNdEx, dAtA[iNdEx..];
      SkipUnfold(s, start, depth);
      var token, next := NextTokenAt(dAtA, iNdEx);
      if token.Err? {
        return Err(token.error);
      }
      iNdEx := next;
      Int64Of(start + NextToken(s).value.size);
      match token.value {
        case Leaf =>
        case Open =>
          depth := depth + 1;
        case Close =>
          if depth == 0 {
            return Err(UnexpectedEndOfGroup);
          }
          depth := depth - 1;
      }
      if iNdEx < 0 {
        return Err(InvalidLength);
      }
      if depth == 0 {
        return Ok(iNdEx);
      }
      assert iNdEx <= l ==> dAtA[iNdEx..] == s[iNdEx - start..];
    }
    if iNdEx == l {
      SkipUnfold(dAtA[iNdEx..], iNdEx, depth);
    }
    return Err(UnexpectedEOF);
  }

  // ---------- Prefix stability ----------

  lemma NextTokenStable(s: bytes, rest: bytes)
    requires NextToken(s).Ok?
    ensures NextToken(s + rest) == NextToken(s)
  {
    hide ReadVarint;
    ReadVarintStable(s, rest);
    var n := ReadVarint(s).value.size;
    assert (s + rest)[n..] == s[n..] + rest;
    if ReadVarint(s).value.value % 8 in {0, 2} {
      ReadVarintStable(s[n..], rest);
    }
  }

  /** A field skipped inside the input is skipped the same way in every longer input. */
  lemma {:induction false} SkipStable(s: bytes, rest: bytes, at: nat, depth: nat)
    requires Skip(s, at, depth).Ok?
    ensures Skip(s + rest, at, depth) == Skip(s, at, depth)
    decreases |s|
  {
    hide NextToken;
    SkipInverts(s, at, depth);
    NextTokenStable(s, rest);
    var t := NextToken(s).value;
    if DepthAfter(t.kind, depth) != 0 {
      SkipStable(s[t.size..], rest, at + t.size, DepthAfter(t.kind, depth));
      assert (s + rest)[t.size..] == s[t.size..] + rest;
    }
  }

  // ---------- The grammar ----------

  /** One field of the wire format. Groups hold fields, so the grammar is recursive. */
  datatype Item =
    | VarintItem(tag: bytes, value: bytes)
    | Fixed64Item(tag: bytes, body: bytes)
    | DelimitedItem(tag: bytes, length: bytes, body: bytes)
    | GroupItem(tag: bytes, items: Items, end: bytes)
    | Fixed32Item(tag: bytes, body: bytes)

  datatype Items = Nil | Cons(head: Item, tail: Items)

  predicate IsTag(s: bytes, wireType: nat) {
    IsVarint(s) && s[0] % 8 == wireType
  }

  /** Any field number at all, and the two numbers of a group need not agree: skipTx ignores both. */
  predicate WellFormed(i: Item) {
    match i
    case VarintItem(tag, value) => IsTag(tag, 0) && IsVarint(value)
    case Fixed64Item(tag, body) => IsTag(tag, 1) && |body| == 8
    case DelimitedItem(tag, length, body) =>
      IsTag(tag, 2) && IsVarint(length) && Base128(length) % TWO_64 == |body| < TWO_63
    case GroupItem(tag, items, end) => IsTag(tag, 3) && AllWellFormed(items) && IsTag(end, 4)
    case Fixed32Item(tag, body) => IsTag(tag, 5) && |body| == 4
  }

  predicate AllWellFormed(items: Items) {
    match items
    case Nil => true
    case Cons(head, tail) => WellFormed(head) && AllWellFormed(tail)
  }

  function Print(i: Item): (s: bytes) {
    match i
    case VarintItem(tag, value) => tag + value
    case Fixed64Item(tag, body) => tag + body
    case DelimitedItem(tag, length, body) => tag + (length + body)
    case GroupItem(tag, items, end) => tag + (PrintAll(items) + end)
    case Fixed32Item(tag, body) => tag + body
  }

  function PrintAll(items: Items): (s: bytes) {
    match items
    case Nil => []
    case Cons(head, tail) => Print(head) + PrintAll(tail)
  }

  /** A tag, whatever follows, is read back with its wire type. */
  lemma TagRead(tag: bytes, wireType: nat, rest: bytes)
    requires IsTag(tag, wireType)
    ensures var r := ReadVarint(tag + rest);
            r.Ok? && r.value.size == |tag| && r.value.value % 8 == wireType
    ensures (tag + rest)[|tag|..] == rest
  {
    hide ReadVarint, Base128, IsVarint;
    ReadVarintOf(tag, rest);
    LowBits(tag);
  }

  lemma VarintToken(tag: bytes, value: bytes, rest: bytes)
    requires IsTag(tag, 0) && IsVarint(value)
    ensures NextToken(tag + (value + rest)) == Ok(Token(Leaf, |tag| + |value|))
  {
    hide ReadVarint, Base128, IsVarint, IsTag;
    TagRead(tag, 0, value + rest);
    ReadVarintOf(value, rest);
  }

  lemma FixedToken(tag: bytes, wireType: nat, rest: bytes)
    requires IsTag(tag, wireType) && wireType in {1, 5}
    ensures NextToken(tag + rest) == Ok(Token(Leaf, |tag| + if wireType == 1 then 8 else 4))
  {
    hide ReadVarint, Base128, IsVarint, IsTag;
    TagRead(tag, wireType, rest);
  }

  lemma DelimitedToken(tag: bytes, length: bytes, size: nat, rest: bytes)
    requires IsTag(tag, 2) && IsVarint(length) && Base128(length) % TWO_64 == size < TWO_63
    ensures NextToken(tag + (length + rest)) == Ok(Token(Leaf, |tag| + |length| + size))
  {
    hide ReadVarint, Base128, IsVarint, IsTag;
    TagRead(tag, 2, length + rest);
    ReadVarintOf(length, rest);
  }

  lemma LeafToken(i: Item, rest: bytes)
    requires WellFormed(i) && !i.GroupItem?
    ensures NextToken(Print(i) + rest) == Ok(Token(Leaf, |Print(i)|))
  {
    hide NextToken, Base128, IsVarint, IsTag;
    match i
    case VarintItem(tag, value) =>
      assert Print(i) + rest == tag + (value + rest);
      VarintToken(tag, value, rest);
    case Fixed64Item(tag, body) =>
      assert Print(i) + rest == tag + (body + rest);
      FixedToken(tag, 1, body + rest);
    case DelimitedItem(tag, length, body) =>
      assert Print(i) + rest == tag + (length + (body + rest));
      DelimitedToken(tag, length, |body|, body + rest);
    case Fixed32Item(tag, body) =>
      assert Print(i) + rest == tag + (body + rest);
      FixedToken(tag, 5, body + rest);
  }

  /** The tags of a group are tokens. */
  lemma GroupToken(tag: bytes, wireType: nat, rest: bytes)
    requires IsTag(tag, wireType) && wireType in {3, 4}
    ensures NextToken(tag + rest) == Ok(Token(if wireType == 3 then Open else Close, |tag|))
    ensures (tag + rest)[|tag|..] == rest && tag != []
  {
    TagRead(tag, wireType, rest);
  }

  lemma {:induction false} SkipLeaf(s: bytes, at: nat, depth: nat, n: nat)
    requires s != [] && n <= |s| && NextToken(s) == Ok(Token(Leaf, n)) && at + n < TWO_63
    ensures Skip(s, at, depth) == if depth == 0 then Ok(at + n) else Skip(s[n..], at + n, depth)
  {
    hide NextToken;
  }

  /** Completeness: a printed field is skipped as a whole, at any depth. */
  lemma {:induction false} SkipItem(i: Item, rest: bytes, at: nat, depth: nat)
    requires WellFormed(i) && at + |Print(i)| < TWO_63
    ensures Skip(Print(i) + rest, at, depth)
         == if depth == 0 then Ok(at + |Print(i)|) else Skip(rest, at + |Print(i)|, depth)
    decreases i
  {
    hide NextToken, IsTag, IsVarint, Skip;
    var s := Print(i) + rest;
    match i
    case GroupItem(tag, items, end) =>
      SkipGroup(tag, items, end, rest, at, depth);
      assert s == tag + (PrintAll(items) + (end + rest));
    case _ =>
      LeafToken(i, rest);
      SkipLeaf(s, at, depth, |Print(i)|);
      assert s[|Print(i)|..] == rest;
  }

  /** An end tag with a group open. */
  lemma {:induction false} SkipClose(end: bytes, rest: bytes, at: nat, depth: nat)
    requires IsTag(end, 4) && at + |end| < TWO_63
    ensures Skip(end + rest, at, depth + 1)
         == if depth == 0 then Ok(at + |end|) else Skip(rest, at + |end|, depth)
  {
    hide NextToken, IsTag;
    GroupToken(end, 4, rest);
  }

  lemma {:induction false} SkipGroup(tag: bytes, items: Items, end: bytes, rest: bytes, at: nat, depth: nat)
    requires IsTag(tag, 3) && AllWellFormed(items) && IsTag(end, 4)
    requires at + |tag| + |PrintAll(items)| + |end| < TWO_63
    ensures var s, at' := tag + (PrintAll(items) + (end + rest)), at + |tag| + |PrintAll(items)| + |end|;
            Skip(s, at, depth) == if depth == 0 then Ok(at') else Skip(rest, at', depth)
    decreases items, 1
  {
    hide NextToken, IsTag, Skip, AllWellFormed, PrintAll;
    var inner := PrintAll(items) + (end + rest);
    GroupToken(tag, 3, inner);
    SkipStep(tag + inner, at, depth, Token(Open, |tag|));
    SkipItems(items, end + rest, at + |tag|, depth + 1);
    SkipClose(end, rest, at + |tag| + |PrintAll(items)|, depth);
  }

  lemma {:induction false} SkipItems(items: Items, rest: bytes, at: nat, depth: nat)
    requires AllWellFormed(items) && at + |PrintAll(items)| < TWO_63 && depth > 0
    ensures Skip(PrintAll(items) + rest, at, depth) == Skip(rest, at + |PrintAll(items)|, depth)
    decreases items, 0
  {
    hide Skip, WellFormed, Print;
    match items
    case Nil =>
      assert PrintAll(items) + rest == rest;
    case Cons(head, tail) =>
      assert PrintAll(items) + rest == Print(head) + (PrintAll(tail) + rest);
      SkipItem(head, PrintAll(tail) + rest, at, depth);
      SkipItems(tail, rest, at + |Print(head)|, depth);
  }

  /**
   * Whatever stops the skipper behind fields inside a group stops it on the group: no more input, a token
   * that cannot be read, or one that is longer than the input.
   */
  lemma {:induction false} GroupStops(tag: bytes, items: Items, t: bytes)
    requires IsTag(tag, 3) && AllWellFormed(items) && |tag| + |PrintAll(items)| < TWO_63
    ensures var r := Skip(tag + (PrintAll(items) + t), 0, 0);
            && (t == [] ==> r == Err(UnexpectedEOF))
            && (t != [] && NextToken(t).Err? ==> r == Err(NextToken(t).error))
            && (t != [] && NextToken(t).Ok? && NextToken(t).value.size > |t| ==>
                  r == Err(if |tag| + |PrintAll(items)| + NextToken(t).value.size >= TWO_63
                           then InvalidLength else UnexpectedEOF))
  {
    hide NextToken, IsTag, Skip, AllWellFormed, PrintAll;
    var inner := PrintAll(items) + t;
    GroupToken(tag, 3, inner);
    SkipStep(tag + inner, 0, 0, Token(Open, |tag|));
    SkipItems(items, t, |tag|, 1);
    SkipUnfold(t, |tag| + |PrintAll(items)|, 1);
  }

  /** The tag that was read is one. */
  lemma TagSplits(s: bytes)
    requires ReadVarint(s).Ok?
    ensures var r := ReadVarint(s).value; IsTag(s[..r.size], r.value % 8)
  {
    ReadVarintSplits(s);
    LowBits(s[..ReadVarint(s).value.size]);
  }

  lemma DelimitedParses(s: bytes, tagSize: nat, n: nat) returns (i: Item)
    requires tagSize <= n <= |s| && IsTag(s[..tagSize], 2) && ReadVarint(s[tagSize..]).Ok?
    requires var length := ReadVarint(s[tagSize..]).value;
             length.value < TWO_63 && n == tagSize + length.size + length.value
    ensures WellFormed(i) && Print(i) == s[..n]
  {
    hide ReadVarint, IsVarint, Base128, IsTag;
    ReadVarintSplits(s[tagSize..]);
    var m := ReadVarint(s[tagSize..]).value.size;
    CutInThree(s, tagSize, m, n);
    i := DelimitedItem(s[..tagSize], s[tagSize..][..m], s[tagSize + m..n]);
  }

  lemma VarintParses(s: bytes, tagSize: nat, n: nat) returns (i: Item)
    requires tagSize <= n <= |s| && IsTag(s[..tagSize], 0) && ReadVarint(s[tagSize..]).Ok?
    requires n == tagSize + ReadVarint(s[tagSize..]).value.size
    ensures WellFormed(i) && Print(i) == s[..n]
  {
    hide ReadVarint, IsVarint, Base128, IsTag;
    ReadVarintSplits(s[tagSize..]);
    i := VarintItem(s[..tagSize], s[tagSize..][..n - tagSize]);
  }

  lemma LeafParses(s: bytes) returns (i: Item)
    requires NextToken(s).Ok? && NextToken(s).value.kind.Leaf? && NextToken(s).value.size <= |s|
    ensures WellFormed(i) && Print(i) == s[..NextToken(s).value.size]
  {
    hide ReadVarint, IsVarint, Base128, IsTag;
    TagSplits(s);
    var tag := ReadVarint(s).value;
    var n := NextToken(s).value.size;
    match tag.value % 8
    case 0 => i := VarintParses(s, tag.size, n);
    case 1 => i := Fixed64Item(s[..tag.size], s[tag.size..n]);
    case 2 => i := DelimitedParses(s, tag.size, n);
    case 5 => i := Fixed32Item(s[..tag.size], s[tag.size..n]);
  }

  lemma GroupTokenSplits(s: bytes)
    requires NextToken(s).Ok? && !NextToken(s).value.kind.Leaf?
    ensures var t := NextToken(s).value; IsTag(s[..t.size], if t.kind.Open? then 3 else 4)
  {
    hide ReadVarint, IsVarint;
    TagSplits(s);
  }

  /** Soundness below the top: skipping has gone over the rest of one group and its end tag. */
  lemma {:induction false} SkipParses(s: bytes, at: nat, depth: nat) returns (items: Items, end: bytes, rest: bytes)
    requires depth > 0 && Skip(s, at, depth).Ok? && Skip(s, at, depth).value <= at + |s|
    ensures AllWellFormed(items) && IsTag(end, 4) && s == PrintAll(items) + (end + rest)
    ensures var at' := at + |s| - |rest|;
            Skip(s, at, depth) == if depth == 1 then Ok(at') else Skip(rest, at', depth - 1)
    decreases |s|
  {
    hide NextToken, IsTag, Skip, WellFormed, Print;
    SkipInverts(s, at, depth);
    var t := NextToken(s).value;
    var first, after := s[..t.size], s[t.size..];
    assert s == first + after;
    match t.kind
    case Leaf =>
      var head := LeafParses(s);
      var tail;
      tail, end, rest := SkipParses(after, at + t.size, depth);
      items := Cons(head, tail);
    case Open =>
      GroupTokenSplits(s);
      var inner, close, next := SkipParses(after, at + t.size, depth + 1);
      var tail;
      tail, end, rest := SkipParses(next, at + |s| - |next|, depth);
      items := Cons(GroupItem(first, inner, close), tail);
      GroupConcat(first, inner, close, tail, end + rest);
      GroupIsWellFormed(first, inner, close);
    case Close =>
      GroupTokenSplits(s);
      items, end, rest := Nil, first, after;
  }

  lemma GroupIsWellFormed(tag: bytes, items: Items, end: bytes)
    requires IsTag(tag, 3) && AllWellFormed(items) && IsTag(end, 4)
    ensures WellFormed(GroupItem(tag, items, end))
  {
    hide IsTag;
  }

  lemma GroupConcat(tag: bytes, inner: Items, close: bytes, tail: Items, rest: bytes)
    ensures PrintAll(Cons(GroupItem(tag, inner, close), tail)) + rest
         == tag + (PrintAll(inner) + (close + (PrintAll(tail) + rest)))
  {
  }

  /** Is the first n bytes of s exactly one field, groups balanced? */
  ghost predicate StartsWithItem(s: bytes, n: nat) {
    n <= |s| && exists i :: WellFormed(i) && Print(i) == s[..n]
  }

  /** Soundness at the top. */
  lemma SkipFindsItem(s: bytes, n: nat) returns (item: Item)
    requires n <= |s| && Skip(s, 0, 0) == Ok(n)
    ensures WellFormed(item) && Print(item) == s[..n]
  {
    hide NextToken, IsTag, Skip;
    SkipInverts(s, 0, 0);
    var t := NextToken(s).value;
    if t.kind.Leaf? {
      item := LeafParses(s);
    } else {
      GroupTokenSplits(s);
      var items, end, rest := SkipParses(s[t.size..], t.size, 1);
      item := GroupItem(s[..t.size], items, end);
      assert s == s[..t.size] + (PrintAll(items) + (end + rest)) == Print(item) + rest;
    }
  }

  /** Within the buffer, the depth counter decides the grammar. */
  lemma {:induction false} SkipIffItem(s: slice, n: nat)
    requires n <= |s|
    ensures Skip(s, 0, 0) == Ok(n) <==> StartsWithItem(s, n)
  {
    hide Skip, WellFormed, Print;
    if Skip(s, 0, 0) == Ok(n) {
      var item := SkipFindsItem(s, n);
    }
    if StartsWithItem(s, n) {
      var i :| WellFormed(i) && Print(i) == s[..n];
      assert s == Print(i) + s[n..];
      SkipItem(i, s[n..], 0, 0);
    }
  }

  /** The grammar is prefix-free: a buffer starts with at most one field. */
  lemma {:induction false} OneItemAtMost(s: slice, n: nat, m: nat)
    requires StartsWithItem(s, n) && StartsWithItem(s, m)
    ensures n == m
  {
    SkipIffItem(s, n);
    SkipIffItem(s, m);
  }

  lemma OverrunToken(s: bytes)
    requires NextToken(s).Ok? && NextToken(s).value.size > |s|
    ensures s != [] && s[0] % 8 in {1, 2, 5}
  {
    hide ReadVarint, IsVarint;
    TagSplits(s);
  }

  /** A size beyond the buffer is reported only for a top-level fixed or length-delimited field. */
  lemma {:induction false} OverrunIsTopLevel(s: bytes, at: nat, depth: nat)
    requires Skip(s, at, depth).Ok? && Skip(s, at, depth).value > at + |s|
    ensures depth == 0 && s[0] % 8 in {1, 2, 5}
    decreases |s|
  {
    hide NextToken, Skip;
    SkipInverts(s, at, depth);
    var t := NextToken(s).value;
    if DepthAfter(t.kind, depth) == 0 {
      OverrunToken(s);
    } else {
      var rest := s[t.size..];
      SkipInverts(rest, at + t.size, DepthAfter(t.kind, depth));
      OverrunIsTopLevel(rest, at + t.size, DepthAfter(t.kind, depth));
    }
  }
}
