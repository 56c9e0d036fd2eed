/**
 * What the repository takes from libraries: ECDSA, Keccak, JSON and bech32. Each is a parameter, a
 * function without a definition; what the proofs may use about it is written down as a law.
 */
module Environment {
  import opened Bytes

  datatype ValidatorSignature = ValidatorSignature(validatorAddress: bytes, signature: bytes)

  datatype SecondarySignature = SecondarySignature(publicKey: bytes, signature: bytes)

  datatype Env = Env(
    publicKey: bytes -> bytes,                        // FromECDSAPub of a private key's public half
    sign: (bytes, bytes) -> Option<bytes>,            // Sign(hash, key) as sign(key, hash)
    recover: (bytes, bytes) -> Option<bytes>,         // FromECDSAPub(SigToPub(hash, signature))
    verify: (bytes, bytes, bytes) -> bool,            // VerifySignature(key, hash, signature)
    keccak: bytes -> bytes,                           // Keccak256
    encodeVote: bytes -> Option<bytes>,               // json.Marshal of SignatureVoteExtend
    decodeVote: bytes -> Option<bytes>,
    spare: bytes -> bytes,                            // what lies behind the signature decoded, up to its capacity
    encodeInjected: seq<ValidatorSignature> -> Option<bytes>,
    decodeInjected: bytes -> Option<seq<ValidatorSignature>>,
    encodeMemo: SecondarySignature -> Option<bytes>,
    decodeMemo: bytes -> Option<SecondarySignature>,
    senderCodec: bytes -> bool,                       // does addressCodec.StringToBytes accept?
    bech32: bytes -> Option<bytes>)                   // AccAddressFromBech32

  /** The bytes of "SECONDARY": the prefix of AnteHandle and the cutset of BroadcastData. */
  const PREFIX: bytes := [83, 69, 67, 79, 78, 68, 65, 82, 89]

  lemma PrefixIsTheWord()
    ensures |PREFIX| == |"SECONDARY"| && forall i :: 0 <= i < |PREFIX| ==> PREFIX[i] == "SECONDARY"[i] as int
  {
  }

  /** A non-empty text whose two ends are not letters of the prefix. */
  predicate Clean(p: bytes) {
    p != [] && p[0] !in PREFIX && p[|p| - 1] !in PREFIX
  }

  /** A signature has 65 bytes, recovers to the signer's key, and verifies under it without its last byte. */
  ghost predicate SigningLaw(e: Env) {
    forall k, h :: e.sign(k, h).Some? ==>
      var s := e.sign(k, h).value;
      |s| == 65 && e.recover(h, s) == Some(e.publicKey(k)) && e.verify(e.publicKey(k), h, s[..64])
  }

  ghost predicate RecoveryLaw(e: Env) {
    forall h, s :: e.recover(h, s).Some? ==> |s| == 65
  }

  /** Nothing verifies under an absent key, and only 64-byte signatures verify. */
  ghost predicate VerificationLaw(e: Env) {
    forall k, h, s :: e.verify(k, h, s) ==> k != [] && |s| == 64
  }

  ghost predicate VoteJsonLaw(e: Env) {
    forall s :: e.encodeVote(s).Some? ==> e.decodeVote(e.encodeVote(s).value) == Some(s)
  }

  ghost predicate InjectedJsonLaw(e: Env) {
    forall l :: e.encodeInjected(l).Some? ==> e.decodeInjected(e.encodeInjected(l).value) == Some(l)
  }

  ghost predicate MemoRoundTripLaw(e: Env) {
    forall s :: e.encodeMemo(s).Some? ==> e.decodeMemo(e.encodeMemo(s).value) == Some(s)
  }

  /** No JSON text begins or ends with a capital letter. */
  ghost predicate MemoTextLaw(e: Env) {
    forall p :: e.decodeMemo(p).Some? ==> Clean(p)
  }

  ghost predicate Lawful(e: Env) {
    && SigningLaw(e) && RecoveryLaw(e) && VerificationLaw(e)
    && VoteJsonLaw(e) && InjectedJsonLaw(e) && MemoRoundTripLaw(e) && MemoTextLaw(e)
  }

  // ---------- The laws can hold together ----------

  function ToyKey(k: bytes): (r: bytes) { [4] + k }

  function ToySign(k: bytes, h: bytes): (r: Option<bytes>) {
    if |k| <= 32 && |h| == 32 then Some([|k|] + k + seq(64 - |k|, _ => 0)) else None
  }

  function ToyRecover(h: bytes, s: bytes): (r: Option<bytes>) {
    if |s| == 65 && s[0] <= 32 then Some([4] + s[1..1 + s[0]]) else None
  }

  predicate ToyVerify(k: bytes, h: bytes, s: bytes) {
    |s| == 64 && s[0] <= 32 && k == [4] + s[1..1 + s[0]]
  }

  function ToyEncodeInjected(l: seq<ValidatorSignature>): (r: Option<bytes>) {
    if |l| == 1 && |l[0].validatorAddress| < 256
    then Some([|l[0].validatorAddress|] + l[0].validatorAddress + l[0].signature) else None
  }

  function ToyDecodeInjected(b: bytes): (r: Option<seq<ValidatorSignature>>) {
    if b != [] && b[0] < |b| then Some([ValidatorSignature(b[1..1 + b[0]], b[1 + b[0]..])]) else None
  }

  function ToyEncodeMemo(s: SecondarySignature): (r: Option<bytes>) {
    if |s.publicKey| < 256 then Some([123, |s.publicKey|] + s.publicKey + s.signature + [125]) else None
  }

  function ToyDecodeMemo(b: bytes): (r: Option<SecondarySignature>) {
    if |b| >= 3 && b[0] == 123 && b[|b| - 1] == 125 && b[1] + 3 <= |b|
    then Some(SecondarySignature(b[2..2 + b[1]], b[2 + b[1]..|b| - 1])) else None
  }

  function ToyBech32(s: bytes): (r: Option<bytes>) {
    if s != [] then Some(s[1..]) else None
  }

  function Toy(): (r: Env) {
    Env(ToyKey, ToySign, ToyRecover, ToyVerify, (b: bytes) => if |b| >= 32 then b[..32] else b + seq(32 - |b|, _ => 0),
        (s: bytes) => Some(s), (s: bytes) => Some(s), (s: bytes) => [], ToyEncodeInjected, ToyDecodeInjected,
        ToyEncodeMemo, ToyDecodeMemo, (s: bytes) => s != [], ToyBech32)
  }

  lemma ToySigns(k: bytes, h: bytes)
    requires ToySign(k, h).Some?
    ensures var s := ToySign(k, h).value;
            |s| == 65 && ToyRecover(h, s) == Some(ToyKey(k)) && ToyVerify(ToyKey(k), h, s[..64])
  {
    var s := ToySign(k, h).value;
    assert s[1..1 + |k|] == k;
    assert s[..64][1..1 + |k|] == k;
  }

  lemma ToyInjects(l: seq<ValidatorSignature>)
    requires ToyEncodeInjected(l).Some?
    ensures ToyDecodeInjected(ToyEncodeInjected(l).value) == Some(l)
  {
    var b, n := ToyEncodeInjected(l).value, |l[0].validatorAddress|;
    assert b[1..1 + n] == l[0].validatorAddress && b[1 + n..] == l[0].signature;
    assert l == [ValidatorSignature(l[0].validatorAddress, l[0].signature)];
  }

  lemma ToyRemembers(s: SecondarySignature)
    requires ToyEncodeMemo(s).Some?
    ensures ToyDecodeMemo(ToyEncodeMemo(s).value) == Some(s)
  {
    var b, n := ToyEncodeMemo(s).value, |s.publicKey|;
    assert b[2..2 + n] == s.publicKey && b[2 + n..|b| - 1] == s.signature;
  }

  /** The laws are consistent: a toy scheme obeys them all. */
  lemma ToyIsLawful()
    ensures Lawful(Toy())
  {
    hide ToySign, ToyKey, ToyEncodeInjected, ToyDecodeInjected, ToyEncodeMemo;
    forall k: bytes, h: bytes | ToySign(k, h).Some?
      ensures var s := ToySign(k, h).value;
              |s| == 65 && ToyRecover(h, s) == Some(ToyKey(k)) && ToyVerify(ToyKey(k), h, s[..64])
    {
      ToySigns(k, h);
    }
    forall l: seq<ValidatorSignature> | ToyEncodeInjected(l).Some?
      ensures ToyDecodeInjected(ToyEncodeInjected(l).value) == Some(l)
    {
      ToyInjects(l);
    }
    forall s: SecondarySignature | ToyEncodeMemo(s).Some?
      ensures ToyDecodeMemo(ToyEncodeMemo(s).value) == Some(s)
    {
      ToyRemembers(s);
    }
  }
}
