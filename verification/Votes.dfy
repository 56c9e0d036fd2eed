/** The four ABCI handlers around vote extensions. */
module Votes {
  import opened Bytes
  import opened Environment
  import opened Keeper

  /** Panic: the handler does not return; no store operation follows it. */
  datatype Verdict = ACCEPT | REJECT | UNKNOWN | Panic

  // ---------- ExtendVote and VerifyVoteExtension ----------

  function ExtendVote(e: Env, key: bytes, hash: bytes): (r: Option<bytes>) {
    match e.sign(key, hash)
    case None => None
    case Some(signature) => e.encodeVote(signature)
  }

  datatype VerifyRequest = VerifyRequest(validatorAddress: bytes, hash: bytes, voteExtension: bytes)

  /** The key map after the first half of the handler: an unbound address is bound on first sight. */
  function BindOnSight(e: Env, keys: KeyMap, req: VerifyRequest, signature: bytes, f: Faults): (r: Option<KeyMap>) {
    if req.validatorAddress in keys then Some(keys) else
    match e.recover(req.hash, signature)
    case None => None
    case Some(pub) => Some(if f.setFails then keys else keys[req.validatorAddress := pub])
  }

  /** Go's signature[:64]: a slice may be extended into its spare capacity; beyond that it panics. */
  function First64(signature: bytes, spare: bytes): (r: Option<bytes>) {
    if |signature + spare| < 64 then None else Some((signature + spare)[..64])
  }

  function VerifyVote(e: Env, keys: KeyMap, req: VerifyRequest, f: Faults): (r: (KeyMap, Verdict)) {
    match e.decodeVote(req.voteExtension)
    case None => (keys, REJECT)
    case Some(signature) =>
      if f.hasFails then (keys, UNKNOWN) else
      match BindOnSight(e, keys, req, signature, f)
      case None => (keys, REJECT)
      case Some(keys') =>
        match First64(signature, e.spare(req.voteExtension))
        case None => (keys', Panic)
        case Some(rs) =>
          match Get(keys', req.validatorAddress, f.getFails)
          case None => (keys', if e.verify([], req.hash, rs) then ACCEPT else REJECT)
          case Some(pub) => (keys', if e.verify(pub, req.hash, rs) then ACCEPT else REJECT)
  }

  method VerifyVoteExtension(k: Keeper, e: Env, req: VerifyRequest, f: Faults) returns (status: Verdict)
    modifies k`voteExtensionMap
    ensures (k.voteExtensionMap, status) == VerifyVote(e, old(k.voteExtensionMap), req, f)
  {
    var voteExtension := e.decodeVote(req.voteExtension);
    if voteExtension.None? {
      return REJECT;
    }
    var signature := voteExtension.value;
    if f.hasFails {
      return UNKNOWN;
    }
    var bound := req.validatorAddress in k.voteExtensionMap;
    if !bound {
      var pk := e.recover(req.hash, signature);
      if pk.None? {
        return REJECT;
      }
      // The error of Set is dropped.
      var _ := k.SetVoteExtension(req.validatorAddress, pk.value, f.setFails);
    }
    // The error of Get is overwritten unread; the key is then nil.
    var got := Get(k.voteExtensionMap, req.validatorAddress, f.getFails);
    var pubBytes := if got.Some? then got.value else [];
    var rs := First64(signature, e.spare(req.voteExtension));
    if rs.None? {
      return Panic;
    }
    if !e.verify(pubBytes, req.hash, rs.value) {
      return REJECT;
    }
    return ACCEPT;
  }

  /**
   * The verdicts, each by its own condition: rs is the signature as it is verified, pub the key that it is
   * verified under, which the store may fail to return.
   */
  lemma VerdictIff(e: Env, keys: KeyMap, req: VerifyRequest, f: Faults)
    ensures var (keys', verdict) := VerifyVote(e, keys, req, f);
            && (e.decodeVote(req.voteExtension).None? ==> verdict == REJECT)
            && (e.decodeVote(req.voteExtension).Some? ==>
                  var signature, spare := e.decodeVote(req.voteExtension).value, e.spare(req.voteExtension);
                  var keyed := req.validatorAddress in keys || e.recover(req.hash, signature).Some?;
                  var pub := if req.validatorAddress in keys' && !f.getFails then keys'[req.validatorAddress] else [];
                  && (verdict == UNKNOWN <==> f.hasFails)
                  && (verdict == Panic <==> !f.hasFails && keyed && |signature| + |spare| < 64)
                  && (verdict == ACCEPT <==>
                        && !f.hasFails && keyed && |signature| + |spare| >= 64
                        && e.verify(pub, req.hash, (signature + spare)[..64])))
  {
  }

  /** ACCEPT means that the address is bound, whatever the store did, to a key that verifies the signature. */
  lemma AcceptIsSound(e: Env, keys: KeyMap, req: VerifyRequest, f: Faults)
    requires VerificationLaw(e)
    requires VerifyVote(e, keys, req, f).1 == ACCEPT
    ensures var keys' := VerifyVote(e, keys, req, f).0;
            && e.decodeVote(req.voteExtension).Some?
            && var rs := First64(e.decodeVote(req.voteExtension).value, e.spare(req.voteExtension));
               && rs.Some?
               && req.validatorAddress in keys'
               && e.verify(keys'[req.validatorAddress], req.hash, rs.value)
  {
  }

  /** The handler panics exactly on a signature that, with its spare capacity, is short, at a bound address. */
  lemma PanicsIff(e: Env, keys: KeyMap, req: VerifyRequest, f: Faults)
    requires RecoveryLaw(e)
    ensures VerifyVote(e, keys, req, f).1 == Panic
       <==> && e.decodeVote(req.voteExtension).Some?
            && !f.hasFails
            && req.validatorAddress in keys
            && |e.decodeVote(req.voteExtension).value| + |e.spare(req.voteExtension)| < 64
  {
  }

  /** What a call binds does not depend on its verdict: a rejected first signature stays bound. */
  lemma BindingIgnoresVerdict(e: Env, keys: KeyMap, req: VerifyRequest, f: Faults)
    ensures var keys' := VerifyVote(e, keys, req, f).0;
            && Extends(keys, keys')
            && (keys' != keys
                <==> && req.validatorAddress !in keys && !f.hasFails && !f.setFails
                     && e.decodeVote(req.voteExtension).Some?
                     && e.recover(req.hash, e.decodeVote(req.voteExtension).value).Some?)
            && (keys' != keys ==>
                  keys' == keys[req.validatorAddress :=
                    e.recover(req.hash, e.decodeVote(req.voteExtension).value).value])
  {
    var keys' := VerifyVote(e, keys, req, f).0;
    if req.validatorAddress !in keys && keys' != keys {
      assert req.validatorAddress in keys';
    }
  }

  /** Is the address free for the key of this validator, or already bound to it? */
  predicate OpenTo(keys: KeyMap, addr: bytes, pub: bytes) {
    addr in keys ==> keys[addr] == pub
  }

  /**
   * Where signing and encoding work there is an extension, and it is accepted where its validator's address
   * is open to it, and binds its own key.
   */
  lemma HonestVoteAccepted(e: Env, keys: KeyMap, key: bytes, addr: bytes, hash: bytes)
    requires SigningLaw(e) && VoteJsonLaw(e)
    requires e.sign(key, hash).Some? && e.encodeVote(e.sign(key, hash).value).Some?
    requires OpenTo(keys, addr, e.publicKey(key))
    ensures ExtendVote(e, key, hash).Some?
    ensures VerifyVote(e, keys, VerifyRequest(addr, hash, ExtendVote(e, key, hash).value), NO_FAULTS)
         == (keys[addr := e.publicKey(key)], ACCEPT)
  {
    var signature := e.sign(key, hash).value;
    var ext := e.encodeVote(signature).value;
    assert e.decodeVote(ext) == Some(signature);
    assert (signature + e.spare(ext))[..64] == signature[..64];
    if addr in keys {
      assert keys[addr := e.publicKey(key)] == keys;
    }
  }

  // ---------- PrepareProposal ----------

  datatype Vote = Vote(validatorAddress: bytes, voteExtension: bytes)

  /** What one vote adds to the list. */
  function Entries(e: Env, v: Vote): (r: seq<ValidatorSignature>) {
    if |v.voteExtension| == 0 then [] else
    match e.decodeVote(v.voteExtension)
    case None => []
    case Some(signature) => [ValidatorSignature(v.validatorAddress, signature)]
  }

  function Collect(e: Env, votes: seq<Vote>): (r: seq<ValidatorSignature>) {
    if |votes| == 0 then [] else
    var n := |votes| - 1;
    Collect(e, votes[..n]) + Entries(e, votes[n])
  }

  function Prepare(e: Env, votes: seq<Vote>, txs: seq<bytes>): (r: Option<seq<bytes>>) {
    var signatures := Collect(e, votes);
    if |signatures| == 0 then Some(txs) else
    match e.encodeInjected(signatures)
    case None => None
    case Some(tx) => Some([tx] + txs)
  }

  method PrepareProposal(e: Env, votes: seq<Vote>, txs: seq<bytes>) returns (r: Option<seq<bytes>>)
    ensures r == Prepare(e, votes, txs)
  {
    var validatorSignatures: seq<ValidatorSignature> := [];
    for i := 0 to |votes|
      invariant validatorSignatures == Collect(e, votes[..i])
    {
      assert votes[..i + 1][..i] == votes[..i];
      var vote := votes[i];
      assert validatorSignatures + [] == validatorSignatures;
      if |vote.voteExtension| == 0 {
        continue;
      }
      var voteExt := e.decodeVote(vote.voteExtension);
      if voteExt.None? {
        continue;
      }
      validatorSignatures := validatorSignatures + [ValidatorSignature(vote.validatorAddress, voteExt.value)];
    }
    assert votes[..|votes|] == votes;
    if |validatorSignatures| == 0 {
      return Some(txs);
    }
    var tx := e.encodeInjected(validatorSignatures);
    if tx.None? {
      return None;
    }
    return Some([tx.value] + txs);
  }

  /** The vote has an extension that decodes. */
  predicate Usable(e: Env, v: Vote) {
    v.voteExtension != [] && e.decodeVote(v.voteExtension).Some?
  }

  /** The entry names the validator of a usable vote and holds the signature decoded from its extension. */
  predicate EntryFor(e: Env, v: Vote, entry: ValidatorSignature) {
    && v.voteExtension != []
    && e.decodeVote(v.voteExtension) == Some(entry.signature)
    && v.validatorAddress == entry.validatorAddress
  }

  /** picks lists, in increasing order, exactly the usable votes, and l holds their entries in that order. */
  ghost predicate SelectsUsable(e: Env, votes: seq<Vote>, picks: seq<nat>, l: seq<ValidatorSignature>) {
    && |picks| == |l|
    && (forall j :: 0 <= j < |picks| ==> picks[j] < |votes| && EntryFor(e, votes[picks[j]], l[j]))
    && (forall i, j :: 0 <= i < j < |picks| ==> picks[i] < picks[j])
    && (forall i :: 0 <= i < |votes| && Usable(e, votes[i]) ==> i in picks)
  }

  lemma EntriesOfUsable(e: Env, v: Vote)
    ensures Usable(e, v) ==> |Entries(e, v)| == 1 && EntryFor(e, v, Entries(e, v)[0])
    ensures !Usable(e, v) ==> Entries(e, v) == []
  {
  }

  /** Every vote before n keeps its pick when votes are added. */
  lemma StillPicked(e: Env, votes: seq<Vote>, n: nat, picks: seq<nat>, l: seq<ValidatorSignature>, i: nat)
    requires i < n <= |votes| && SelectsUsable(e, votes[..n], picks, l) && Usable(e, votes[i])
    ensures i in picks
  {
    hide Usable, EntryFor;
    assert votes[..n][i] == votes[i];
  }

  lemma SelectsWithout(e: Env, votes: seq<Vote>, n: nat, picks: seq<nat>, l: seq<ValidatorSignature>)
    requires |votes| == n + 1 && SelectsUsable(e, votes[..n], picks, l) && !Usable(e, votes[n])
    ensures SelectsUsable(e, votes, picks, l)
  {
    hide Usable, EntryFor;
    forall i | 0 <= i < |votes| && Usable(e, votes[i])
      ensures i in picks
    {
      StillPicked(e, votes, n, picks, l, i);
    }
  }

  lemma SelectsWith(e: Env, votes: seq<Vote>, n: nat, picks: seq<nat>, l: seq<ValidatorSignature>,
                    entry: ValidatorSignature)
    requires |votes| == n + 1 && SelectsUsable(e, votes[..n], picks, l) && EntryFor(e, votes[n], entry)
    ensures SelectsUsable(e, votes, picks + [n], l + [entry])
  {
    hide Usable, EntryFor;
    var picks', l' := picks + [n], l + [entry];
    forall i | 0 <= i < |votes| && Usable(e, votes[i])
      ensures i in picks'
    {
      if i < n {
        StillPicked(e, votes, n, picks, l, i);
      } else {
        assert picks'[|picks|] == i;
      }
    }
    forall j | 0 <= j < |picks'|
      ensures picks'[j] < |votes| && EntryFor(e, votes[picks'[j]], l'[j])
    {
      if j < |picks| {
        assert EntryFor(e, votes[..n][picks[j]], l[j]);
      }
    }
  }

  /** Nothing usable is lost, doubled, reordered or invented. */
  lemma {:induction false} CollectConserves(e: Env, votes: seq<Vote>) returns (picks: seq<nat>)
    ensures SelectsUsable(e, votes, picks, Collect(e, votes))
    decreases |votes|
  {
    if |votes| == 0 {
      picks := [];
    } else {
      hide Usable, Entries, SelectsUsable;
      var n := |votes| - 1;
      picks := CollectConserves(e, votes[..n]);
      EntriesOfUsable(e, votes[n]);
      var l := Collect(e, votes[..n]);
      if Usable(e, votes[n]) {
        SelectsWith(e, votes, n, picks, l, Entries(e, votes[n])[0]);
        picks := picks + [n];
      } else {
        SelectsWithout(e, votes, n, picks, l);
        assert l + [] == l;
      }
    }
  }

  // ---------- ProcessProposal ----------

  /** The signature loop from entry i on; plan(i) are the store faults of that iteration. */
  function Bind(e: Env, keys: KeyMap, hash: bytes, entries: seq<ValidatorSignature>, plan: nat -> Faults, i: nat)
    : (r: (KeyMap, Verdict))
    requires i <= |entries|
    decreases |entries| - i
  {
    if i == |entries| then (keys, ACCEPT) else
    match e.recover(hash, entries[i].signature)
    case None => (keys, REJECT)
    case Some(pub) =>
      var addr := entries[i].validatorAddress;
      if plan(i).hasFails then (keys, REJECT)
      else if addr in keys then Bind(e, keys, hash, entries, plan, i + 1)
      else if plan(i).setFails then (keys, REJECT)
      else Bind(e, keys[addr := pub], hash, entries, plan, i + 1)
  }

  function Process(e: Env, keys: KeyMap, hash: bytes, txs: seq<bytes>, plan: nat -> Faults): (r: (KeyMap, Verdict)) {
    if |txs| == 0 then (keys, ACCEPT) else
    match e.decodeInjected(txs[0])
    case None => (keys, REJECT)
    case Some(entries) =>
      if |entries| == 0 then (keys, REJECT) else Bind(e, keys, hash, entries, plan, 0)
  }

  method ProcessProposal(k: Keeper, e: Env, hash: bytes, txs: seq<bytes>, plan: nat -> Faults)
    returns (status: Verdict)
    modifies k`voteExtensionMap
    ensures (k.voteExtensionMap, status) == Process(e, old(k.voteExtensionMap), hash, txs, plan)
  {
    if |txs| == 0 {
      return ACCEPT;
    }
    var injectedTx := e.decodeInjected(txs[0]);
    if injectedTx.None? {
      return REJECT;
    }
    var entries := injectedTx.value;
    if |entries| == 0 {
      return REJECT;
    }
    for i := 0 to |entries|
      invariant Bind(e, k.voteExtensionMap, hash, entries, plan, i)
             == Bind(e, old(k.voteExtensionMap), hash, entries, plan, 0)
    {
      var valSig := entries[i];
      var publicKey := e.recover(hash, valSig.signature);
      if publicKey.None? {
        return REJECT;
      }
      if plan(i).hasFails {
        return REJECT;
      }
      if valSig.validatorAddress !in k.voteExtensionMap {
        var ok := k.SetVoteExtension(valSig.validatorAddress, publicKey.value, plan(i).setFails);
        if !ok {
          return REJECT;
        }
      }
    }
    return ACCEPT;
  }

  /** Entry j is the first one of its address. */
  predicate FirstOf(entries: seq<ValidatorSignature>, j: nat)
    requires j < |entries|
  {
    forall i :: 0 <= i < j ==> entries[i].validatorAddress != entries[j].validatorAddress
  }

  /** The address has one of the first n entries. */
  predicate Occurs(entries: seq<ValidatorSignature>, n: nat, a: bytes)
    requires n <= |entries|
  {
    exists j :: 0 <= j < n && entries[j].validatorAddress == a
  }

  /** out is keys plus, for each new address among the first n entries, the key recovered from its first entry. */
  ghost predicate FirstWriteWins(e: Env, keys: KeyMap, hash: bytes, entries: seq<ValidatorSignature>, n: nat,
                                 out: KeyMap)
    requires n <= |entries|
  {
    && (forall a :: a in out <==> a in keys || Occurs(entries, n, a))
    && (forall a :: a in keys ==> out[a] == keys[a])
    && (forall j :: 0 <= j < n && FirstOf(entries, j) && entries[j].validatorAddress !in keys ==>
          e.recover(hash, entries[j].signature) == Some(out[entries[j].validatorAddress]))
  }

  /** Entry i stops the loop: no key to recover, or a store operation that it needs fails. */
  predicate Stops(e: Env, bound: set<bytes>, hash: bytes, entries: seq<ValidatorSignature>, plan: nat -> Faults, i: nat)
    requires i < |entries|
  {
    || e.recover(hash, entries[i].signature).None?
    || plan(i).hasFails
    || (plan(i).setFails && entries[i].validatorAddress !in bound && FirstOf(entries, i))
  }

  /** The loop processes the entries before the first one that stops it, first write winning. */
  lemma {:induction false} BindRefinesFold(e: Env, keys: KeyMap, now: KeyMap, hash: bytes,
                                           entries: seq<ValidatorSignature>, plan: nat -> Faults, i: nat)
    returns (n: nat)
    requires i <= |entries| && FirstWriteWins(e, keys, hash, entries, i, now)
    ensures i <= n <= |entries|
    ensures FirstWriteWins(e, keys, hash, entries, n, Bind(e, now, hash, entries, plan, i).0)
    ensures forall j :: i <= j < n ==> !Stops(e, keys.Keys, hash, entries, plan, j)
    ensures n < |entries| ==> Stops(e, keys.Keys, hash, entries, plan, n)
    ensures Bind(e, now, hash, entries, plan, i).1 == if n == |entries| then ACCEPT else REJECT
    decreases |entries| - i
  {
    hide FirstWriteWins, FirstOf;
    n := i;
    if i < |entries| {
      var addr, pub := entries[i].validatorAddress, e.recover(hash, entries[i].signature);
      NewExactlyWhenFirst(e, keys, now, hash, entries, i);
      if !Stops(e, keys.Keys, hash, entries, plan, i) {
        OneMoreEntry(e, keys, now, hash, entries, i);
        n := BindRefinesFold(e, keys, BindEntry(e, now, hash, entries[i]), hash, entries, plan, i + 1);
      }
    }
  }

  lemma NewExactlyWhenFirst(e: Env, keys: KeyMap, now: KeyMap, hash: bytes, entries: seq<ValidatorSignature>, i: nat)
    requires i < |entries| && FirstWriteWins(e, keys, hash, entries, i, now)
    ensures entries[i].validatorAddress !in now
       <==> entries[i].validatorAddress !in keys && FirstOf(entries, i)
  {
    assert FirstOf(entries, i) <==> !Occurs(entries, i, entries[i].validatorAddress);
  }

  lemma OccursOneMore(entries: seq<ValidatorSignature>, i: nat, a: bytes)
    requires i < |entries|
    ensures Occurs(entries, i + 1, a) <==> Occurs(entries, i, a) || a == entries[i].validatorAddress
  {
    if Occurs(entries, i, a) {
      var j :| 0 <= j < i && entries[j].validatorAddress == a;
      assert 0 <= j < i + 1;
    }
  }

  /** One more entry with a key to recover: the map it leaves. */
  function BindEntry(e: Env, now: KeyMap, hash: bytes, entry: ValidatorSignature): (next: KeyMap)
    requires e.recover(hash, entry.signature).Some?
  {
    if entry.validatorAddress in now then now
    else now[entry.validatorAddress := e.recover(hash, entry.signature).value]
  }

  lemma DomainOneMore(e: Env, keys: KeyMap, now: KeyMap, hash: bytes, entries: seq<ValidatorSignature>, i: nat,
                      a: bytes)
    requires i < |entries| && FirstWriteWins(e, keys, hash, entries, i, now)
    requires e.recover(hash, entries[i].signature).Some?
    ensures a in BindEntry(e, now, hash, entries[i]) <==> a in keys || Occurs(entries, i + 1, a)
    ensures a in now ==> BindEntry(e, now, hash, entries[i])[a] == now[a]
  {
    hide Occurs, FirstOf;
    OccursOneMore(entries, i, a);
  }

  lemma KeyOneMore(e: Env, keys: KeyMap, now: KeyMap, hash: bytes, entries: seq<ValidatorSignature>, i: nat, j: nat)
    requires j <= i < |entries| && FirstWriteWins(e, keys, hash, entries, i, now)
    requires e.recover(hash, entries[i].signature).Some?
    requires FirstOf(entries, j) && entries[j].validatorAddress !in keys
    ensures entries[j].validatorAddress in BindEntry(e, now, hash, entries[i])
    ensures e.recover(hash, entries[j].signature)
         == Some(BindEntry(e, now, hash, entries[i])[entries[j].validatorAddress])
  {
    hide FirstOf;
    NewExactlyWhenFirst(e, keys, now, hash, entries, i);
    if j < i {
      assert Occurs(entries, i, entries[j].validatorAddress);
    }
  }

  lemma OneMoreEntry(e: Env, keys: KeyMap, now: KeyMap, hash: bytes, entries: seq<ValidatorSignature>, i: nat)
    requires i < |entries| && FirstWriteWins(e, keys, hash, entries, i, now)
    requires e.recover(hash, entries[i].signature).Some?
    ensures FirstWriteWins(e, keys, hash, entries, i + 1, BindEntry(e, now, hash, entries[i]))
  {
    hide Occurs, FirstOf, BindEntry;
    var next := BindEntry(e, now, hash, entries[i]);
    forall a
      ensures a in next <==> a in keys || Occurs(entries, i + 1, a)
      ensures a in keys ==> a in next && next[a] == keys[a]
    {
      DomainOneMore(e, keys, now, hash, entries, i, a);
    }
    forall j | 0 <= j < i + 1 && FirstOf(entries, j) && entries[j].validatorAddress !in keys
      ensures entries[j].validatorAddress in next
      ensures e.recover(hash, entries[j].signature) == Some(next[entries[j].validatorAddress])
    {
      KeyOneMore(e, keys, now, hash, entries, i, j);
    }
  }

  /** ProcessProposal as a fold over a prefix, with the exact place where and reason why it rejects. */
  lemma ProcessRefinesFold(e: Env, keys: KeyMap, hash: bytes, txs: seq<bytes>, plan: nat -> Faults) returns (n: nat)
    requires |txs| > 0 && e.decodeInjected(txs[0]).Some? && |e.decodeInjected(txs[0]).value| > 0
    ensures var entries := e.decodeInjected(txs[0]).value;
            && n <= |entries|
            && FirstWriteWins(e, keys, hash, entries, n, Process(e, keys, hash, txs, plan).0)
            && (forall j :: 0 <= j < n ==> !Stops(e, keys.Keys, hash, entries, plan, j))
            && (n < |entries| ==> Stops(e, keys.Keys, hash, entries, plan, n))
            && Process(e, keys, hash, txs, plan).1 == if n == |entries| then ACCEPT else REJECT
  {
    n := BindRefinesFold(e, keys, keys, hash, e.decodeInjected(txs[0]).value, plan, 0);
  }

  /** The verdict for every proposal and every pattern of store failures; without a list nothing is bound. */
  lemma AcceptsIff(e: Env, keys: KeyMap, hash: bytes, txs: seq<bytes>, plan: nat -> Faults)
    ensures var r := Process(e, keys, hash, txs, plan);
            var listed := |txs| > 0 && e.decodeInjected(txs[0]).Some? && e.decodeInjected(txs[0]).value != [];
            && (r.1 == ACCEPT <==>
                  || txs == []
                  || (listed && var entries := e.decodeInjected(txs[0]).value;
                      forall i :: 0 <= i < |entries| ==> !Stops(e, keys.Keys, hash, entries, plan, i)))
            && (r.1 != ACCEPT ==> r.1 == REJECT)
            && (!listed ==> r.0 == keys)
  {
    hide Bind, FirstWriteWins, Stops;
    if |txs| > 0 && e.decodeInjected(txs[0]).Some? && |e.decodeInjected(txs[0]).value| > 0 {
      var n := ProcessRefinesFold(e, keys, hash, txs, plan);
    }
  }

  function NoFaults(): (r: nat -> Faults) {
    (i: nat) => NO_FAULTS
  }

  /** Every entry of the injected list, which is not empty, recovers. */
  predicate Recoverable(e: Env, hash: bytes, txs: seq<bytes>) {
    |txs| > 0 ==>
      && e.decodeInjected(txs[0]).Some?
      && var entries := e.decodeInjected(txs[0]).value;
         |entries| > 0 && forall i :: 0 <= i < |entries| ==> e.recover(hash, entries[i].signature).Some?
  }

  lemma StopsWithoutFaults(e: Env, keys: KeyMap, hash: bytes, entries: seq<ValidatorSignature>, n: nat)
    requires n <= |entries|
    requires forall j :: 0 <= j < n ==> !Stops(e, keys.Keys, hash, entries, NoFaults(), j)
    requires n < |entries| ==> Stops(e, keys.Keys, hash, entries, NoFaults(), n)
    ensures forall j :: 0 <= j < n ==> e.recover(hash, entries[j].signature).Some?
    ensures n < |entries| ==> e.recover(hash, entries[n].signature).None?
  {
    forall j | 0 <= j < n
      ensures e.recover(hash, entries[j].signature).Some?
    {
      assert !Stops(e, keys.Keys, hash, entries, NoFaults(), j);
    }
  }

  /** With a store that works the verdict is a property of the proposal and the header alone. */
  lemma VerdictIgnoresKeys(e: Env, keys: KeyMap, hash: bytes, txs: seq<bytes>)
    ensures Process(e, keys, hash, txs, NoFaults()).1 == if Recoverable(e, hash, txs) then ACCEPT else REJECT
  {
    hide Bind, FirstWriteWins;
    if |txs| > 0 && e.decodeInjected(txs[0]).Some? && |e.decodeInjected(txs[0]).value| > 0 {
      var n := ProcessRefinesFold(e, keys, hash, txs, NoFaults());
      StopsWithoutFaults(e, keys, hash, e.decodeInjected(txs[0]).value, n);
    }
  }

  /** Nodes with different keys agree, on the verdict and on each address that neither had bound. */
  lemma NodesAgree(e: Env, keys: KeyMap, keys': KeyMap, hash: bytes, txs: seq<bytes>)
    ensures var r, r' := Process(e, keys, hash, txs, NoFaults()), Process(e, keys', hash, txs, NoFaults());
            && r.1 == r'.1
            && forall a :: a !in keys && a !in keys' ==> Get(r.0, a, false) == Get(r'.0, a, false)
  {
    hide Bind, FirstWriteWins;
    VerdictIgnoresKeys(e, keys, hash, txs);
    VerdictIgnoresKeys(e, keys', hash, txs);
    if |txs| > 0 && e.decodeInjected(txs[0]).Some? && |e.decodeInjected(txs[0]).value| > 0 {
      var entries := e.decodeInjected(txs[0]).value;
      var n := ProcessRefinesFold(e, keys, hash, txs, NoFaults());
      var n' := ProcessRefinesFold(e, keys', hash, txs, NoFaults());
      StopsWithoutFaults(e, keys, hash, entries, n);
      StopsWithoutFaults(e, keys', hash, entries, n');
      forall a | a !in keys && a !in keys'
        ensures Get(Process(e, keys, hash, txs, NoFaults()).0, a, false)
             == Get(Process(e, keys', hash, txs, NoFaults()).0, a, false)
      {
        SameNewBinding(e, keys, keys', hash, entries, n, Process(e, keys, hash, txs, NoFaults()).0,
                       Process(e, keys', hash, txs, NoFaults()).0, a);
      }
    }
  }

  lemma SameNewBinding(e: Env, keys: KeyMap, keys': KeyMap, hash: bytes, entries: seq<ValidatorSignature>, n: nat,
                       out: KeyMap, out': KeyMap, a: bytes)
    requires n <= |entries|
    requires FirstWriteWins(e, keys, hash, entries, n, out) && FirstWriteWins(e, keys', hash, entries, n, out')
    requires a !in keys && a !in keys'
    ensures Get(out, a, false) == Get(out', a, false)
  {
    if Occurs(entries, n, a) {
      var j := FirstOccurrence(entries, n, a);
    }
  }

  lemma {:induction false} FirstOccurrence(entries: seq<ValidatorSignature>, n: nat, a: bytes) returns (j: nat)
    requires n <= |entries| && Occurs(entries, n, a)
    ensures j < n && FirstOf(entries, j) && entries[j].validatorAddress == a
  {
    j := 0;
    while entries[j].validatorAddress != a
      invariant j < n && Occurs(entries, n, a)
      invariant forall i :: 0 <= i < j ==> entries[i].validatorAddress != a
      decreases n - j
    {
      j := j + 1;
    }
  }

  /** Processing again, or after any further bindings, changes nothing and says the same. */
  lemma {:induction false} BindAgain(e: Env, keys: KeyMap, hash: bytes, entries: seq<ValidatorSignature>, i: nat,
                                     later: KeyMap)
    requires i <= |entries| && Extends(Bind(e, keys, hash, entries, NoFaults(), i).0, later)
    ensures Bind(e, later, hash, entries, NoFaults(), i)
         == (later, Bind(e, keys, hash, entries, NoFaults(), i).1)
    decreases |entries| - i
  {
    if i < |entries| && e.recover(hash, entries[i].signature).Some? {
      var addr, pub := entries[i].validatorAddress, e.recover(hash, entries[i].signature).value;
      var next := if addr in keys then keys else keys[addr := pub];
      BindExtends(e, next, hash, entries, NoFaults(), i + 1);
      BindAgain(e, next, hash, entries, i + 1, later);
    }
  }

  lemma {:induction false} BindExtends(e: Env, keys: KeyMap, hash: bytes, entries: seq<ValidatorSignature>,
                                       plan: nat -> Faults, i: nat)
    requires i <= |entries|
    ensures Extends(keys, Bind(e, keys, hash, entries, plan, i).0)
    decreases |entries| - i
  {
    if i < |entries| && e.recover(hash, entries[i].signature).Some? {
      var addr, pub := entries[i].validatorAddress, e.recover(hash, entries[i].signature).value;
      BindExtends(e, if addr in keys then keys else keys[addr := pub], hash, entries, plan, i + 1);
    }
  }

  lemma ProcessExtends(e: Env, keys: KeyMap, hash: bytes, txs: seq<bytes>, plan: nat -> Faults)
    ensures Extends(keys, Process(e, keys, hash, txs, plan).0)
  {
    if |txs| > 0 && e.decodeInjected(txs[0]).Some? {
      BindExtends(e, keys, hash, e.decodeInjected(txs[0]).value, plan, 0);
    }
  }

  /** Idempotence, also when other bindings were added in between. */
  lemma ProcessAgain(e: Env, keys: KeyMap, hash: bytes, txs: seq<bytes>, later: KeyMap)
    requires Extends(Process(e, keys, hash, txs, NoFaults()).0, later)
    ensures Process(e, later, hash, txs, NoFaults()) == (later, Process(e, keys, hash, txs, NoFaults()).1)
  {
    if |txs| > 0 && e.decodeInjected(txs[0]).Some? {
      BindAgain(e, keys, hash, e.decodeInjected(txs[0]).value, 0, later);
    }
  }

  /**
   * The entries give key to a, which is not bound: its first entry recovers to key, and nothing stops the
   * loop up to there, the failing write of that very key included.
   */
  ghost predicate Gives(e: Env, bound: set<bytes>, hash: bytes, entries: seq<ValidatorSignature>,
                        plan: nat -> Faults, a: bytes, key: bytes)
  {
    exists j ::
      && 0 <= j < |entries| && FirstOf(entries, j) && entries[j].validatorAddress == a
      && e.recover(hash, entries[j].signature) == Some(key)
      && forall i :: 0 <= i <= j ==> !Stops(e, bound, hash, entries, plan, i)
  }

  /** What the loop does to one address, store failures included. */
  lemma {:induction false} BindGives(e: Env, keys: KeyMap, hash: bytes, entries: seq<ValidatorSignature>,
                                     plan: nat -> Faults, a: bytes, key: bytes)
    requires a !in keys
    ensures Get(Bind(e, keys, hash, entries, plan, 0).0, a, false) == Some(key)
       <==> Gives(e, keys.Keys, hash, entries, plan, a, key)
  {
    hide Bind, FirstOf, Stops;
    var out := Bind(e, keys, hash, entries, plan, 0).0;
    var n := BindRefinesFoldFromStart(e, keys, hash, entries, plan);
    if a in out {
      assert Occurs(entries, n, a);
      var j := FirstOccurrence(entries, n, a);
      assert e.recover(hash, entries[j].signature) == Some(out[a]);
      if out[a] == key {
        assert forall i :: 0 <= i <= j ==> !Stops(e, keys.Keys, hash, entries, plan, i);
      }
    }
    if Gives(e, keys.Keys, hash, entries, plan, a, key) {
      var j :| && 0 <= j < |entries| && FirstOf(entries, j) && entries[j].validatorAddress == a
               && e.recover(hash, entries[j].signature) == Some(key)
               && forall i :: 0 <= i <= j ==> !Stops(e, keys.Keys, hash, entries, plan, i);
      assert j < n;
      assert Occurs(entries, n, a);
    }
  }

  lemma {:induction false} BindRefinesFoldFromStart(e: Env, keys: KeyMap, hash: bytes,
                                                    entries: seq<ValidatorSignature>, plan: nat -> Faults)
    returns (n: nat)
    ensures n <= |entries| && FirstWriteWins(e, keys, hash, entries, n, Bind(e, keys, hash, entries, plan, 0).0)
    ensures forall j :: 0 <= j < n ==> !Stops(e, keys.Keys, hash, entries, plan, j)
    ensures n < |entries| ==> Stops(e, keys.Keys, hash, entries, plan, n)
  {
    n := BindRefinesFold(e, keys, keys, hash, entries, plan, 0);
  }

  // ---------- Hand-over ----------

  /** A prepared proposal carries the user transactions behind exactly the list that ProcessProposal then binds. */
  lemma HandOver(e: Env, keys: KeyMap, votes: seq<Vote>, txs: seq<bytes>, hash: bytes, plan: nat -> Faults)
    requires InjectedJsonLaw(e)
    requires Prepare(e, votes, txs).Some?
    ensures var proposal, l := Prepare(e, votes, txs).value, Collect(e, votes);
            && (l == [] ==> proposal == txs)
            && (l != [] ==>
                  && |proposal| == |txs| + 1 && proposal[1..] == txs
                  && e.decodeInjected(proposal[0]) == Some(l)
                  && Process(e, keys, hash, proposal, plan) == Bind(e, keys, hash, l, plan, 0))
  {
    hide Bind;
  }

  ghost predicate SomeUsable(e: Env, votes: seq<Vote>) {
    exists i :: 0 <= i < |votes| && Usable(e, votes[i])
  }

  /** A list is injected exactly if some vote is usable; the proposal fails exactly if that list does not encode. */
  lemma {:induction false} InjectsIff(e: Env, votes: seq<Vote>, txs: seq<bytes>)
    ensures Collect(e, votes) != [] <==> SomeUsable(e, votes)
    ensures Prepare(e, votes, txs).Some? <==> SomeUsable(e, votes) ==> e.encodeInjected(Collect(e, votes)).Some?
    ensures !SomeUsable(e, votes) ==> Prepare(e, votes, txs) == Some(txs)
  {
    hide Collect;
    var picks := CollectConserves(e, votes);
    if Collect(e, votes) != [] {
      assert EntryFor(e, votes[picks[0]], Collect(e, votes)[0]);
    }
  }

  /** The proposal with a list is accepted exactly if each usable vote's signature recovers over the header hash. */
  lemma {:induction false} PreparedAcceptedIff(e: Env, keys: KeyMap, votes: seq<Vote>, txs: seq<bytes>, hash: bytes)
    requires InjectedJsonLaw(e)
    requires SomeUsable(e, votes) && e.encodeInjected(Collect(e, votes)).Some?
    ensures Prepare(e, votes, txs).Some?
    ensures Process(e, keys, hash, Prepare(e, votes, txs).value, NoFaults()).1 == ACCEPT
       <==> forall i :: 0 <= i < |votes| && Usable(e, votes[i]) ==>
              e.recover(hash, e.decodeVote(votes[i].voteExtension).value).Some?
  {
    hide Bind, Collect;
    var l := Collect(e, votes);
    InjectsIff(e, votes, txs);
    HandOver(e, keys, votes, txs, hash, NoFaults());
    VerdictIgnoresKeys(e, keys, hash, Prepare(e, votes, txs).value);
    var picks := CollectConserves(e, votes);
    if forall j :: 0 <= j < |l| ==> e.recover(hash, l[j].signature).Some? {
      forall i | 0 <= i < |votes| && Usable(e, votes[i])
        ensures e.recover(hash, e.decodeVote(votes[i].voteExtension).value).Some?
      {
        assert i in picks;
        var j :| 0 <= j < |picks| && picks[j] == i;
        assert EntryFor(e, votes[picks[j]], l[j]);
      }
    } else {
      var j :| 0 <= j < |l| && e.recover(hash, l[j].signature).None?;
      assert EntryFor(e, votes[picks[j]], l[j]);
    }
  }

  // ---------- A round of honest validators ----------

  /** The extension of each usable vote i is what ExtendVote made with the key signer(i) for the hash. */
  ghost predicate Honest(e: Env, votes: seq<Vote>, signer: nat -> bytes, hash: bytes) {
    forall i :: 0 <= i < |votes| && Usable(e, votes[i]) ==>
      ExtendVote(e, signer(i), hash) == Some(votes[i].voteExtension)
  }

  /** Vote i is the first usable one of its validator. */
  ghost predicate FirstUsable(e: Env, votes: seq<Vote>, i: nat)
    requires i < |votes|
  {
    && Usable(e, votes[i])
    && forall j :: 0 <= j < i && Usable(e, votes[j]) ==> votes[j].validatorAddress != votes[i].validatorAddress
  }

  /** What ExtendVote signs, the other nodes recover. */
  lemma HonestRecovers(e: Env, v: Vote, key: bytes, hash: bytes)
    requires SigningLaw(e) && VoteJsonLaw(e)
    requires ExtendVote(e, key, hash) == Some(v.voteExtension)
    ensures e.decodeVote(v.voteExtension).Some?
    ensures e.recover(hash, e.decodeVote(v.voteExtension).value) == Some(e.publicKey(key))
  {
    assert e.decodeVote(v.voteExtension) == e.sign(key, hash);
  }

  lemma HonestEntry(e: Env, votes: seq<Vote>, signer: nat -> bytes, hash: bytes, picks: seq<nat>,
                    l: seq<ValidatorSignature>, j: nat)
    requires SigningLaw(e) && VoteJsonLaw(e) && Honest(e, votes, signer, hash)
    requires j < |l| && SelectsUsable(e, votes, picks, l)
    ensures Usable(e, votes[picks[j]]) && l[j].validatorAddress == votes[picks[j]].validatorAddress
    ensures e.recover(hash, l[j].signature) == Some(e.publicKey(signer(picks[j])))
  {
    hide SigningLaw, VoteJsonLaw, ExtendVote;
    assert EntryFor(e, votes[picks[j]], l[j]);
    HonestRecovers(e, votes[picks[j]], signer(picks[j]), hash);
  }

  /** The first usable vote of a validator has its first entry. */
  lemma FirstPick(e: Env, votes: seq<Vote>, picks: seq<nat>, l: seq<ValidatorSignature>, i: nat) returns (j: nat)
    requires i < |votes| && FirstUsable(e, votes, i) && SelectsUsable(e, votes, picks, l)
    ensures j < |l| && picks[j] == i && FirstOf(l, j)
  {
    assert i in picks;
    j :| 0 <= j < |picks| && picks[j] == i;
    forall j' | 0 <= j' < j
      ensures l[j'].validatorAddress != l[j].validatorAddress
    {
      assert EntryFor(e, votes[picks[j']], l[j']) && EntryFor(e, votes[picks[j]], l[j]);
    }
  }

  /** Entries that all recover are all bound. */
  lemma {:induction false} AllBound(e: Env, keys: KeyMap, hash: bytes, l: seq<ValidatorSignature>)
    requires forall j :: 0 <= j < |l| ==> e.recover(hash, l[j].signature).Some?
    ensures Bind(e, keys, hash, l, NoFaults(), 0).1 == ACCEPT
    ensures FirstWriteWins(e, keys, hash, l, |l|, Bind(e, keys, hash, l, NoFaults(), 0).0)
  {
    hide Bind, FirstWriteWins, FirstOf;
    StartsUnchanged(e, keys, hash, l);
    var n := BindRefinesFold(e, keys, keys, hash, l, NoFaults(), 0);
    StopsWithoutFaults(e, keys, hash, l, n);
  }

  lemma StartsUnchanged(e: Env, keys: KeyMap, hash: bytes, l: seq<ValidatorSignature>)
    ensures FirstWriteWins(e, keys, hash, l, 0, keys)
  {
  }

  /** out is keys with, for the validator of each usable vote that it does not bind, the first one's signer. */
  ghost predicate BindsSigners(e: Env, keys: KeyMap, votes: seq<Vote>, signer: nat -> bytes, out: KeyMap) {
    && Extends(keys, out)
    && (forall a :: a in out ==>
          a in keys || exists i :: 0 <= i < |votes| && Usable(e, votes[i]) && votes[i].validatorAddress == a)
    && (forall i :: 0 <= i < |votes| && FirstUsable(e, votes, i) && votes[i].validatorAddress !in keys ==>
          Get(out, votes[i].validatorAddress, false) == Some(e.publicKey(signer(i))))
  }

  lemma FoldBindsSigners(e: Env, keys: KeyMap, votes: seq<Vote>, signer: nat -> bytes, hash: bytes, picks: seq<nat>,
                         l: seq<ValidatorSignature>, out: KeyMap)
    requires SelectsUsable(e, votes, picks, l) && FirstWriteWins(e, keys, hash, l, |l|, out)
    requires forall j :: 0 <= j < |l| ==>
               && Usable(e, votes[picks[j]]) && l[j].validatorAddress == votes[picks[j]].validatorAddress
               && e.recover(hash, l[j].signature) == Some(e.publicKey(signer(picks[j])))
    ensures BindsSigners(e, keys, votes, signer, out)
  {
    hide Usable, FirstUsable, EntryFor, FirstOf;
    forall i | 0 <= i < |votes| && FirstUsable(e, votes, i) && votes[i].validatorAddress !in keys
      ensures Get(out, votes[i].validatorAddress, false) == Some(e.publicKey(signer(i)))
    {
      var j := FirstPick(e, votes, picks, l, i);
      assert Occurs(l, |l|, l[j].validatorAddress);
    }
  }

  /**
   * From ExtendVote through PrepareProposal to ProcessProposal: if the usable votes were signed over the hash
   * that the proposal is processed with, it is accepted, each new address is bound to the public key of its
   * first usable vote's signer, and nothing else changes.
   */
  lemma {:induction false} HonestProposalBinds(e: Env, keys: KeyMap, votes: seq<Vote>, txs: seq<bytes>, hash: bytes,
                                               signer: nat -> bytes)
    requires SigningLaw(e) && VoteJsonLaw(e) && InjectedJsonLaw(e)
    requires Honest(e, votes, signer, hash)
    requires SomeUsable(e, votes) && e.encodeInjected(Collect(e, votes)).Some?
    ensures Prepare(e, votes, txs).Some?
    ensures var r := Process(e, keys, hash, Prepare(e, votes, txs).value, NoFaults());
            r.1 == ACCEPT && BindsSigners(e, keys, votes, signer, r.0)
  {
    hide Bind, Collect, SigningLaw, VoteJsonLaw, Honest, FirstWriteWins, SelectsUsable, BindsSigners, SomeUsable;
    InjectsIff(e, votes, txs);
    var l := Collect(e, votes);
    HandOver(e, keys, votes, txs, hash, NoFaults());
    var picks := CollectConserves(e, votes);
    SameLength(e, votes, picks, l);
    forall j | 0 <= j < |l|
      ensures && Usable(e, votes[picks[j]]) && l[j].validatorAddress == votes[picks[j]].validatorAddress
              && e.recover(hash, l[j].signature) == Some(e.publicKey(signer(picks[j])))
    {
      HonestEntry(e, votes, signer, hash, picks, l, j);
    }
    AllBound(e, keys, hash, l);
    FoldBindsSigners(e, keys, votes, signer, hash, picks, l, Bind(e, keys, hash, l, NoFaults(), 0).0);
  }

  lemma SameLength(e: Env, votes: seq<Vote>, picks: seq<nat>, l: seq<ValidatorSignature>)
    requires SelectsUsable(e, votes, picks, l)
    ensures |picks| == |l| && forall j :: 0 <= j < |picks| ==> picks[j] < |votes|
  {
  }
}
