/** Secondary signatures in memos: the two ways of taking off the prefix, decoding and validating. */
module Memo {
  import opened Bytes
  import opened Environment

  // ---------- strings.Trim and strings.CutPrefix ----------

  function TrimLeft(s: bytes): (t: bytes)
    ensures |t| <= |s|
  {
    if s != [] && s[0] in PREFIX then TrimLeft(s[1..]) else s
  }

  function TrimRight(s: bytes): (t: bytes)
    ensures |t| <= |s|
  {
    if s != [] && s[|s| - 1] in PREFIX then TrimRight(s[..|s| - 1]) else s
  }

  /** strings.Trim(s, "SECONDARY"): the argument is a set of letters, not a word. */
  function Trim(s: bytes): (t: bytes)
    ensures |t| <= |s|
  {
    TrimRight(TrimLeft(s))
  }

  /** strings.CutPrefix(s, "SECONDARY") */
  function CutPrefix(s: bytes): (r: Option<bytes>) {
    if PREFIX <= s then Some(s[|PREFIX|..]) else None
  }

  predicate AllLetters(s: bytes) {
    forall i :: 0 <= i < |s| ==> s[i] in PREFIX
  }

  lemma {:induction false} TrimLeftFinds(left: bytes, rest: bytes)
    requires AllLetters(left)
    requires rest != [] ==> rest[0] !in PREFIX
    ensures TrimLeft(left + rest) == rest
  {
    if left == [] {
      assert left + rest == rest;
    } else {
      TrimLeftFinds(left[1..], rest);
      assert (left + rest)[1..] == left[1..] + rest;
    }
  }

  lemma TrimRightStops(s: bytes)
    requires s != [] ==> s[|s| - 1] !in PREFIX
    ensures TrimRight(s) == s
  {
  }

  lemma {:induction false} TrimRightStep(s: bytes, c: byte)
    requires c in PREFIX
    ensures TrimRight(s + [c]) == TrimRight(s)
  {
    assert (s + [c])[..|s|] == s;
  }

  lemma {:induction false} TrimRightFinds(rest: bytes, right: bytes)
    requires AllLetters(right)
    requires rest != [] ==> rest[|rest| - 1] !in PREFIX
    ensures TrimRight(rest + right) == rest
  {
    hide TrimRight;
    if right == [] {
      assert rest + right == rest;
      TrimRightStops(rest);
    } else {
      var n := |right| - 1;
      assert rest + right == rest + right[..n] + [right[n]];
      TrimRightStep(rest + right[..n], right[n]);
      TrimRightFinds(rest, right[..n]);
    }
  }

  /** Trim is fixed by its meaning: letters off both ends, up to the first other byte. */
  lemma TrimFinds(left: bytes, p: bytes, right: bytes)
    requires AllLetters(left) && AllLetters(right) && Clean(p)
    ensures Trim(left + p + right) == p
  {
    assert left + p + right == left + (p + right);
    TrimLeftFinds(left, p + right);
    TrimRightFinds(p, right);
  }

  lemma {:induction false} TrimLeftEnds(s: bytes)
    ensures var t := TrimLeft(s); t != [] ==> t[0] !in PREFIX
  {
    if s != [] && s[0] in PREFIX {
      TrimLeftEnds(s[1..]);
    }
  }

  lemma {:induction false} TrimRightEnds(s: bytes)
    ensures var t := TrimRight(s); t <= s && (t != [] ==> t[|t| - 1] !in PREFIX)
  {
    if s != [] && s[|s| - 1] in PREFIX {
      TrimRightEnds(s[..|s| - 1]);
    }
  }

  lemma TrimIsClean(s: bytes)
    ensures Trim(s) != [] ==> Clean(Trim(s))
  {
    TrimLeftEnds(s);
    TrimRightEnds(TrimLeft(s));
  }

  /** The case without a clean text: nothing is left exactly of a text that is all letters. */
  lemma TrimIsEmptyIff(s: bytes)
    ensures Trim(s) == [] <==> AllLetters(s)
  {
    if AllLetters(s) {
      assert s + [] == s;
      TrimLeftFinds(s, []);
    }
    if Trim(s) == [] {
      TrimLeftTakesLetters(s);
      TrimRightTakesLetters(TrimLeft(s));
      TrimLeftEnds(s);
    }
  }

  lemma {:induction false} TrimLeftTakesLetters(s: bytes)
    ensures TrimLeft(s) == [] ==> AllLetters(s)
  {
    if s != [] && s[0] in PREFIX {
      TrimLeftTakesLetters(s[1..]);
      assert s == [s[0]] + s[1..];
    }
  }

  lemma {:induction false} TrimRightTakesLetters(s: bytes)
    ensures TrimRight(s) == [] ==> AllLetters(s)
  {
    if s != [] && s[|s| - 1] in PREFIX {
      TrimRightTakesLetters(s[..|s| - 1]);
      assert s == s[..|s| - 1] + [s[|s| - 1]];
    }
  }

  /** BroadcastData and AnteHandle take the same payload out of a prefixed memo exactly when it is clean. */
  lemma TrimIsCutPrefix(p: bytes)
    ensures CutPrefix(PREFIX + p) == Some(p)
    ensures Trim(PREFIX + p) == p <==> p == [] || Clean(p)
  {
    if p == [] {
      TrimLeftFinds(PREFIX, []);
      TrimRightFinds([], []);
    } else if Clean(p) {
      TrimFinds(PREFIX, p, []);
      assert PREFIX + p + [] == PREFIX + p;
    } else {
      TrimIsClean(PREFIX + p);
    }
  }

  // ---------- Secondary signatures ----------

  /** Validate: nil error? */
  predicate Validate(s: SecondarySignature) {
    |s.publicKey| != 0 && |s.signature| != 0
  }

  /** DecodeSecondSigFromMemo: a 65-byte signature loses its recovery byte. */
  function DecodeSecondSigFromMemo(e: Env, memo: bytes): (r: Option<SecondarySignature>) {
    match e.decodeMemo(memo)
    case None => None
    case Some(d) =>
      var sig := if |d.signature| == 65 then d.signature[..64] else d.signature;
      Some(SecondarySignature(d.publicKey, sig))
  }

  /** A secondary signature signs the hash of its own key. */
  predicate SelfSigned(e: Env, s: SecondarySignature) {
    e.verify(s.publicKey, e.keccak(s.publicKey), s.signature)
  }

  /** CreateValidMemo for a generated key k. If the check of its own signature failed, Go returns an empty memo. */
  function CreateValidMemo(e: Env, k: bytes): (r: Option<bytes>)
    requires SigningLaw(e)
  {
    var key := e.publicKey(k);
    match e.sign(k, e.keccak(key))
    case None => None
    case Some(signature) =>
      var s := SecondarySignature(key, signature[..64]);
      match e.encodeMemo(s)
      case None => None
      case Some(text) => if SelfSigned(e, s) then Some(PREFIX + text) else Some([])
  }

  // ---------- What the memo has to say ----------

  /** The text decodes, and both parts are there. */
  ghost predicate Complete(e: Env, text: bytes) {
    && e.decodeMemo(text).Some?
    && e.decodeMemo(text).value.publicKey != [] && e.decodeMemo(text).value.signature != []
  }

  /** The text holds the key and its signature over the key's own hash, with or without the recovery byte. */
  ghost predicate Signs(e: Env, text: bytes, key: bytes) {
    && Complete(e, text)
    && var d := e.decodeMemo(text).value;
       d.publicKey == key
       && e.verify(key, e.keccak(key), if |d.signature| == 65 then d.signature[..64] else d.signature)
  }

  lemma DecodedSigns(e: Env, text: bytes)
    ensures DecodeSecondSigFromMemo(e, text).Some? <==> e.decodeMemo(text).Some?
    ensures DecodeSecondSigFromMemo(e, text).Some? ==>
              var s := DecodeSecondSigFromMemo(e, text).value;
              && s.publicKey == e.decodeMemo(text).value.publicKey
              && (Validate(s) <==> Complete(e, text))
              && (Validate(s) && SelfSigned(e, s) <==> Signs(e, text, s.publicKey))
  {
  }

  lemma SignsOneKey(e: Env, text: bytes)
    ensures forall key :: Signs(e, text, key) ==>
              Complete(e, text) && e.decodeMemo(text).Some? && e.decodeMemo(text).value.publicKey == key
  {
  }

  /** The memo text that holds the public key of k with the given form of its signature over the key's hash. */
  ghost predicate SignedText(e: Env, k: bytes, cut: bool, text: bytes) {
    && e.sign(k, e.keccak(e.publicKey(k))).Some?
    && var signature := e.sign(k, e.keccak(e.publicKey(k))).value;
       && (cut ==> |signature| >= 64)
       && e.encodeMemo(SecondarySignature(e.publicKey(k), if cut then signature[..64] else signature)) == Some(text)
  }

  /** With the full 65 bytes of Sign or with the 64 that CreateValidMemo keeps, the text signs. */
  lemma SignedTextSigns(e: Env, k: bytes, cut: bool, text: bytes)
    requires Lawful(e) && SignedText(e, k, cut, text)
    ensures Signs(e, text, e.publicKey(k))
    ensures Clean(text) && Trim(text) == text && Trim(PREFIX + text) == text && CutPrefix(PREFIX + text) == Some(text)
  {
    hide Trim;
    var signature := e.sign(k, e.keccak(e.publicKey(k))).value;
    assert e.decodeMemo(text)
        == Some(SecondarySignature(e.publicKey(k), if cut then signature[..64] else signature));
    TrimIsCutPrefix(text);
    assert [] + text + [] == text;
    TrimFinds([], text, []);
  }

  /** There is a memo exactly if signing and encoding work, and it is the word with the signed text behind it. */
  lemma CreatedMemoIff(e: Env, k: bytes, memo: bytes)
    requires SigningLaw(e)
    ensures CreateValidMemo(e, k) == Some(memo) <==> PREFIX <= memo && SignedText(e, k, true, memo[|PREFIX|..])
  {
    if CreateValidMemo(e, k).Some? {
      var signature := e.sign(k, e.keccak(e.publicKey(k))).value;
      var s := SecondarySignature(e.publicKey(k), signature[..64]);
      assert SelfSigned(e, s);
      assert (PREFIX + e.encodeMemo(s).value)[|PREFIX|..] == e.encodeMemo(s).value;
    }
    assert PREFIX <= memo ==> PREFIX + memo[|PREFIX|..] == memo;
  }

  /** A created memo yields, on both paths, a text that holds the creator's key with a signature that verifies. */
  lemma CreatedMemoDecodes(e: Env, k: bytes, memo: bytes)
    requires Lawful(e) && CreateValidMemo(e, k) == Some(memo)
    ensures CutPrefix(memo) == Some(Trim(memo)) && Signs(e, Trim(memo), e.publicKey(k))
  {
    hide Trim, CreateValidMemo, Lawful, Signs;
    assert SigningLaw(e) by { SigningLawOf(e); }
    CreatedMemoIff(e, k, memo);
    SignedTextSigns(e, k, true, memo[|PREFIX|..]);
    assert PREFIX + memo[|PREFIX|..] == memo;
  }

  lemma SigningLawOf(e: Env)
    requires Lawful(e)
    ensures SigningLaw(e)
  {
  }
}
