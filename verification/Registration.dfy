/** Registering a secondary key by transaction, and the ante handler that asks for it. */
module Registration {
  import opened Bytes
  import opened Environment
  import opened Keeper
  import opened Memo
  import opened Messages

  // ---------- BroadcastData ----------

  datatype Reply = Response | InvalidAddress | Panic

  /** The secondary signature in the data, if it decodes and has both parts; BroadcastData panics if not. */
  function Submitted(e: Env, data: bytes): (r: Option<SecondarySignature>) {
    match DecodeSecondSigFromMemo(e, Trim(data))
    case Some(s) => if Validate(s) then Some(s) else None
    case None => None
  }

  function Register(e: Env, users: KeyMap, sender: bytes, data: bytes, setFails: bool): (r: (KeyMap, Reply)) {
    if !e.senderCodec(sender) then (users, InvalidAddress) else
    match Submitted(e, data)
    case None => (users, Panic)
    case Some(s) =>
      if !SelfSigned(e, s) then (users, Response) else
      match e.bech32(sender)
      case None => (users, Panic)
      case Some(addr) => if setFails then (users, Panic) else (users[addr := s.publicKey], Response)
  }

  method BroadcastData(k: Keeper, e: Env, msg: MsgBroadcastData, setFails: bool) returns (reply: Reply)
    modifies k`anteHandlerMap, msg`data
    ensures (k.anteHandlerMap, reply) == Register(e, old(k.anteHandlerMap), msg.sender, old(msg.data), setFails)
    ensures msg.data == if reply == InvalidAddress then old(msg.data) else Trim(old(msg.data))
  {
    if !e.senderCodec(msg.sender) {
      return InvalidAddress;
    }
    msg.data := Trim(msg.data);
    var secondSig := DecodeSecondSigFromMemo(e, msg.data);
    if secondSig.None? || !Validate(secondSig.value) {
      return Panic;
    }
    var hsh := e.keccak(secondSig.value.publicKey);
    if e.verify(secondSig.value.publicKey, hsh, secondSig.value.signature) {
      var f := e.bech32(msg.sender);
      if f.None? {
        return Panic;
      }
      var ok := k.SetSecondaryPubKeyAnteHandler(f.value, secondSig.value.publicKey, setFails);
      if !ok {
        return Panic;
      }
    }
    return Response;
  }

  /** A message that registers key for addr: the condition under which BroadcastData writes. */
  ghost predicate Registers(e: Env, sender: bytes, data: bytes, addr: bytes, key: bytes) {
    e.senderCodec(sender) && e.bech32(sender) == Some(addr) && Signs(e, Trim(data), key)
  }

  /** One message writes at most one binding, and a binding it writes is a registration. */
  lemma RegisterWrites(e: Env, users: KeyMap, sender: bytes, data: bytes, setFails: bool, addr: bytes, key: bytes)
    ensures Registers(e, sender, data, addr, key) && !setFails ==>
              Register(e, users, sender, data, setFails) == (users[addr := key], Response)
    ensures Get(Register(e, users, sender, data, setFails).0, addr, false) != Get(users, addr, false) ==>
              !setFails && exists key' :: Registers(e, sender, data, addr, key')
  {
    hide Trim, Signs, Complete, DecodeSecondSigFromMemo, SelfSigned, Validate;
    DecodedSigns(e, Trim(data));
    SignsOneKey(e, Trim(data));
    var s := Submitted(e, data);
    if s.Some? && SelfSigned(e, s.value) && e.senderCodec(sender) && e.bech32(sender) == Some(addr) {
      assert Registers(e, sender, data, addr, s.value.publicKey);
    }
  }

  /** The replies: a bad sender is an error; a text that is not complete, or a registration that fails, panics. */
  lemma RegisterReplies(e: Env, users: KeyMap, sender: bytes, data: bytes, setFails: bool)
    ensures var (users', reply) := Register(e, users, sender, data, setFails);
            && (reply == InvalidAddress <==> !e.senderCodec(sender))
            && (reply == Panic <==>
                  && e.senderCodec(sender)
                  && (|| !Complete(e, Trim(data))
                      || (&& Signs(e, Trim(data), e.decodeMemo(Trim(data)).value.publicKey)
                          && (e.bech32(sender).None? || setFails))))
            && (reply != Response ==> users' == users)
  {
    hide Trim, DecodeSecondSigFromMemo, SelfSigned, Validate;
    DecodedSigns(e, Trim(data));
  }

  // ---------- GetAddr and AnteHandle ----------

  /** The signatures of a transaction that has such an interface: an error, or the signers' addresses. */
  datatype Signatures = NotVerifiable | Broken | Signers(addresses: seq<Option<bytes>>)

  /** memo is None for a transaction that has no memo at all. */
  datatype Tx = Tx(memo: Option<bytes>, signatures: Signatures)

  datatype AddressError = TxDecode | PanicError | NoSignatures | InvalidPubKey

  function GetAddr(tx: Tx): (r: Result<bytes, AddressError>) {
    match tx.signatures
    case NotVerifiable => Err(TxDecode)
    case Broken => Err(PanicError)
    case Signers(addresses) =>
      if |addresses| == 0 then Err(NoSignatures) else
      match addresses[0]
      case None => Err(InvalidPubKey)
      case Some(addr) => Ok(addr)
  }

  datatype Admission =
    | Next
    | ErrTxDecode
    | ErrInvalidRequest
    | ErrLogic
    | ErrNotFound
    | ErrStore
    | InvalidSecondaryPublicKey
    | VerificationFailed

  function AnteHandle(e: Env, users: KeyMap, tx: Tx, f: Faults): (r: Admission) {
    match tx.memo
    case None => ErrTxDecode
    case Some(memo) =>
      if memo == [] then Next else
      match CutPrefix(memo)
      case None => Next
      case Some(text) =>
        match DecodeSecondSigFromMemo(e, text)
        case None => ErrInvalidRequest
        case Some(s) =>
          match GetAddr(tx)
          case Err(_) => ErrLogic
          case Ok(addr) =>
            if f.hasFails then InvalidSecondaryPublicKey
            else if addr !in users then ErrNotFound
            else
              match Get(users, addr, f.getFails)
              case None => ErrStore
              case Some(key) =>
                if key != s.publicKey then InvalidSecondaryPublicKey
                else if !Validate(s) then ErrInvalidRequest
                else if !SelfSigned(e, s) then VerificationFailed
                else Next
  }

  /** The transaction has signatures, and the first of them is by addr. */
  predicate FirstSigner(tx: Tx, addr: bytes) {
    tx.signatures.Signers? && |tx.signatures.addresses| > 0 && tx.signatures.addresses[0] == Some(addr)
  }

  /** Only the first signature counts. */
  lemma FirstSignerOf(tx: Tx)
    ensures GetAddr(tx).Ok? ==> FirstSigner(tx, GetAddr(tx).value)
    ensures forall addr :: FirstSigner(tx, addr) ==> GetAddr(tx) == Ok(addr)
  {
  }

  /** Why there is no such signer. */
  lemma NoFirstSigner(tx: Tx)
    ensures GetAddr(tx) == Err(TxDecode) <==> tx.signatures == NotVerifiable
    ensures GetAddr(tx) == Err(NoSignatures) <==> tx.signatures == Signers([])
    ensures GetAddr(tx) == Err(InvalidPubKey)
       <==> tx.signatures.Signers? && exists rest :: tx.signatures.addresses == [None] + rest
  {
    if tx.signatures.Signers? && |tx.signatures.addresses| > 0 {
      assert tx.signatures.addresses == [tx.signatures.addresses[0]] + tx.signatures.addresses[1..];
    }
  }

  /** Behind the prefix the memo has the very key that is bound to the first signer, and a signature by it. */
  ghost predicate Presents(e: Env, users: KeyMap, tx: Tx, text: bytes) {
    exists addr :: FirstSigner(tx, addr) && addr in users && Signs(e, text, users[addr])
  }

  /**
   * A transaction with a memo is admitted exactly if the memo has no prefix, or presents the key that is
   * bound to the first signer and the store answers.
   */
  lemma AdmittedIff(e: Env, users: KeyMap, tx: Tx, f: Faults)
    ensures AnteHandle(e, users, tx, f) == Next
       <==> && tx.memo.Some?
            && (PREFIX <= tx.memo.value ==>
                  !f.hasFails && !f.getFails && Presents(e, users, tx, tx.memo.value[|PREFIX|..]))
  {
    hide Signs, Complete, DecodeSecondSigFromMemo, SelfSigned, Validate, FirstSigner, GetAddr;
    FirstSignerOf(tx);
    if tx.memo.Some? && PREFIX <= tx.memo.value {
      var text := tx.memo.value[|PREFIX|..];
      DecodedSigns(e, text);
      SignsOneKey(e, text);
      if AnteHandle(e, users, tx, f) == Next {
        assert FirstSigner(tx, GetAddr(tx).value) && Signs(e, text, users[GetAddr(tx).value]);
      }
    }
  }

  /** Why a memo with the prefix is refused. */
  lemma RefusedBecause(e: Env, users: KeyMap, tx: Tx, text: bytes, f: Faults)
    requires tx.memo == Some(PREFIX + text)
    ensures var r := AnteHandle(e, users, tx, f);
            && (e.decodeMemo(text).None? ==> r == ErrInvalidRequest)
            && (e.decodeMemo(text).Some? ==>
                  var key := e.decodeMemo(text).value.publicKey;
                  && (r == ErrLogic <==> forall addr :: !FirstSigner(tx, addr))
                  && (r == ErrNotFound <==> exists addr :: FirstSigner(tx, addr) && !f.hasFails && addr !in users)
                  && (r == ErrStore <==>
                        exists addr :: FirstSigner(tx, addr) && !f.hasFails && addr in users && f.getFails)
                  && (r == InvalidSecondaryPublicKey <==>
                        exists addr :: FirstSigner(tx, addr)
                          && (f.hasFails || (addr in users && !f.getFails && users[addr] != key)))
                  && (r == ErrInvalidRequest <==>
                        && !f.hasFails && !f.getFails && !Complete(e, text)
                        && exists addr :: FirstSigner(tx, addr) && addr in users && users[addr] == key)
                  && (r == VerificationFailed <==>
                        && !f.hasFails && !f.getFails && Complete(e, text) && !Signs(e, text, key)
                        && exists addr :: FirstSigner(tx, addr) && addr in users && users[addr] == key))
    ensures AnteHandle(e, users, tx.(memo := None), f) == ErrTxDecode
  {
    hide Signs, Complete, DecodeSecondSigFromMemo, SelfSigned, Validate, FirstSigner, GetAddr;
    FirstSignerOf(tx);
    DecodedSigns(e, text);
    assert (PREFIX + text)[|PREFIX|..] == text;
  }

  /**
   * The memo that registered a key admits, as long as that key is bound, exactly if it has no prefix
   * or what follows the prefix is clean; trimming letters and cutting a word differ on the others.
   */
  lemma RegisteringMemoAdmits(e: Env, users: KeyMap, tx: Tx, sender: bytes, data: bytes, addr: bytes, key: bytes)
    requires MemoTextLaw(e)
    requires Registers(e, sender, data, addr, key)
    requires tx.memo == Some(data) && FirstSigner(tx, addr)
    requires Get(users, addr, false) == Some(key)
    ensures AnteHandle(e, users, tx, NO_FAULTS) == Next
       <==> PREFIX <= data ==> Clean(data[|PREFIX|..])
  {
    hide Trim, AnteHandle, Clean;
    AdmittedIff(e, users, tx, NO_FAULTS);
    if PREFIX <= data {
      var text := data[|PREFIX|..];
      assert data == PREFIX + text;
      TrimIsCutPrefix(text);
      CompleteIsClean(e, text);
    }
  }

  lemma CompleteIsClean(e: Env, text: bytes)
    requires MemoTextLaw(e)
    ensures Complete(e, text) ==> Clean(text)
  {
  }

  /**
   * A signed text, with the recovery byte or without it, registers its key with or without the prefix, and
   * behind the prefix it then admits the sender's transactions.
   */
  lemma SignedTextRegisters(e: Env, users: KeyMap, k: bytes, cut: bool, text: bytes, sender: bytes, addr: bytes, tx: Tx)
    requires Lawful(e) && SignedText(e, k, cut, text)
    requires e.senderCodec(sender) && e.bech32(sender) == Some(addr)
    ensures Register(e, users, sender, PREFIX + text, false) == (users[addr := e.publicKey(k)], Response)
    ensures Register(e, users, sender, text, false) == (users[addr := e.publicKey(k)], Response)
    ensures tx.memo == Some(PREFIX + text) && FirstSigner(tx, addr) ==>
              AnteHandle(e, users[addr := e.publicKey(k)], tx, NO_FAULTS) == Next
  {
    hide Trim, Register, AnteHandle, Signs, SignedText, Lawful, FirstSigner;
    SignedTextSigns(e, k, cut, text);
    assert Registers(e, sender, PREFIX + text, addr, e.publicKey(k));
    assert Registers(e, sender, text, addr, e.publicKey(k));
    RegisterWrites(e, users, sender, PREFIX + text, false, addr, e.publicKey(k));
    RegisterWrites(e, users, sender, text, false, addr, e.publicKey(k));
    AdmittedIff(e, users[addr := e.publicKey(k)], tx, NO_FAULTS);
    assert (PREFIX + text)[|PREFIX|..] == text;
  }

  /** A letter too many behind the prefix: trimming takes it off, cutting leaves it. */
  lemma OneLetterTooMany(text: bytes)
    requires Clean(text)
    ensures Trim(PREFIX + ([83] + text)) == text
    ensures CutPrefix(PREFIX + ([83] + text)) == Some([83] + text) && !Clean([83] + text)
  {
    hide Trim;
    var letter: bytes := [83];
    assert PREFIX + (letter + text) == PREFIX + letter + text + [];
    TrimFinds(PREFIX + letter, text, []);
    TrimIsCutPrefix(letter + text);
    assert (letter + text)[0] == 83 && PREFIX[0] == 83;
  }

  /**
   * Memos that register and are not admitted exist: a created memo with one letter put behind its prefix
   * still registers the creator's key, and is then turned away.
   */
  lemma RegisteredButNotAdmitted(e: Env, k: bytes, text: bytes, sender: bytes, addr: bytes)
    requires Lawful(e) && CreateValidMemo(e, k) == Some(PREFIX + text)
    requires e.senderCodec(sender) && e.bech32(sender) == Some(addr)
    ensures var data := PREFIX + ([83] + text);
            && Register(e, map[], sender, data, false) == (map[addr := e.publicKey(k)], Response)
            && AnteHandle(e, map[addr := e.publicKey(k)], Tx(Some(data), Signers([Some(addr)])), NO_FAULTS)
               == ErrInvalidRequest
  {
    hide Trim, CutPrefix, CreateValidMemo, SigningLaw, RecoveryLaw, VerificationLaw, VoteJsonLaw, InjectedJsonLaw,
         MemoRoundTripLaw, Clean, Register, Signs, SignedText, Registers;
    CreatedMemoIff(e, k, PREFIX + text);
    assert (PREFIX + text)[|PREFIX|..] == text;
    SignedTextSigns(e, k, true, text);
    OneLetterTooMany(text);
    var data := PREFIX + ([83] + text);
    RegistersTrimmed(e, sender, data, addr, e.publicKey(k));
    RegisterWrites(e, map[], sender, data, false, addr, e.publicKey(k));
  }

  lemma RegistersTrimmed(e: Env, sender: bytes, data: bytes, addr: bytes, key: bytes)
    requires e.senderCodec(sender) && e.bech32(sender) == Some(addr) && Signs(e, Trim(data), key)
    ensures Registers(e, sender, data, addr, key)
  {
  }
}
