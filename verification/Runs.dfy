/** The whole system: every interleaving of the handlers on one store, and nodes that commit and discard. */
module Runs {
  import opened Bytes
  import opened Environment
  import opened Keeper
  import opened Memo
  import opened Votes
  import opened Registration

  datatype Store = Store(voteKeys: KeyMap, userKeys: KeyMap)

  const EMPTY := Store(map[], map[])

  /** A call of a handler, with the store faults it meets. Extending votes and preparing proposals only read. */
  datatype Event =
    | VerifyEvent(req: VerifyRequest, f: Faults)
    | ProcessEvent(hash: bytes, txs: seq<bytes>, plan: nat -> Faults)
    | BroadcastEvent(sender: bytes, data: bytes, setFails: bool)
    | AnteEvent(tx: Tx, f: Faults)

  function Step(e: Env, st: Store, ev: Event): (r: Store) {
    match ev
    case VerifyEvent(req, f) => st.(voteKeys := VerifyVote(e, st.voteKeys, req, f).0)
    case ProcessEvent(hash, txs, plan) => st.(voteKeys := Process(e, st.voteKeys, hash, txs, plan).0)
    case BroadcastEvent(sender, data, setFails) =>
      st.(userKeys := Register(e, st.userKeys, sender, data, setFails).0)
    case AnteEvent(tx, f) => st
  }

  function Run(e: Env, st: Store, evs: seq<Event>): (r: Store) {
    if |evs| == 0 then st else Step(e, Run(e, st, evs[..|evs| - 1]), evs[|evs| - 1])
  }

  lemma {:induction false} RunConcat(e: Env, st: Store, a: seq<Event>, b: seq<Event>)
    ensures Run(e, st, a + b) == Run(e, Run(e, st, a), b)
    decreases |b|
  {
    hide Step;
    if |b| == 0 {
      assert a + b == a;
    } else {
      var n := |b| - 1;
      RunConcat(e, st, a, b[..n]);
      assert (a + b)[..|a| + n] == a + b[..n];
    }
  }

  // ---------- Validators: a binding is for ever ----------

  lemma {:induction false} BindingStable(e: Env, st: Store, evs: seq<Event>)
    ensures Extends(st.voteKeys, Run(e, st, evs).voteKeys)
    decreases |evs|
  {
    hide VerifyVote, Process, Register;
    if |evs| > 0 {
      var n := |evs| - 1;
      var before := Run(e, st, evs[..n]);
      BindingStable(e, st, evs[..n]);
      match evs[n]
      case VerifyEvent(req, f) => BindingIgnoresVerdict(e, before.voteKeys, req, f);
      case ProcessEvent(hash, txs, plan) => ProcessExtends(e, before.voteKeys, hash, txs, plan);
      case _ =>
    }
  }

  lemma RunVerify(e: Env, st: Store, req: VerifyRequest, f: Faults)
    ensures Run(e, st, [VerifyEvent(req, f)]).voteKeys == VerifyVote(e, st.voteKeys, req, f).0
  {
    hide VerifyVote;
    assert [VerifyEvent(req, f)][..0] == [];
    assert Run(e, st, []) == st;
  }

  /**
   * A validator whose address was open to its key when one of its extensions was verified is accepted ever
   * after, for every hash, whatever happens in between.
   */
  lemma HonestValidatorStaysAccepted(e: Env, st: Store, key: bytes, addr: bytes, first: bytes, evs: seq<Event>,
                                     hash: bytes)
    requires SigningLaw(e) && VoteJsonLaw(e)
    requires e.sign(key, first).Some? && e.encodeVote(e.sign(key, first).value).Some?
    requires e.sign(key, hash).Some? && e.encodeVote(e.sign(key, hash).value).Some?
    requires OpenTo(st.voteKeys, addr, e.publicKey(key))
    ensures ExtendVote(e, key, first).Some? && ExtendVote(e, key, hash).Some?
    ensures var verified := VerifyEvent(VerifyRequest(addr, first, ExtendVote(e, key, first).value), NO_FAULTS);
            var later := Run(e, st, [verified] + evs).voteKeys;
            VerifyVote(e, later, VerifyRequest(addr, hash, ExtendVote(e, key, hash).value), NO_FAULTS)
            == (later, ACCEPT)
  {
    hide VerifyVote, ExtendVote, SigningLaw, VoteJsonLaw, Run;
    HonestVoteAccepted(e, st.voteKeys, key, addr, first);
    HonestVoteAccepted(e, map[], key, addr, hash);
    var verified := VerifyEvent(VerifyRequest(addr, first, ExtendVote(e, key, first).value), NO_FAULTS);
    RunConcat(e, st, [verified], evs);
    var mid := Run(e, st, [verified]);
    RunVerify(e, st, verified.req, NO_FAULTS);
    BindingStable(e, mid, evs);
    var later := Run(e, mid, evs).voteKeys;
    HonestVoteAccepted(e, later, key, addr, hash);
    assert later[addr := e.publicKey(key)] == later;
  }

  /**
   * The event writes key for a validator a that is not bound yet; bound are the addresses that are. With
   * the store failures of the event this is all that its effect on a depends on.
   */
  ghost predicate Shows(e: Env, bound: set<bytes>, ev: Event, a: bytes, key: bytes) {
    match ev
    case VerifyEvent(req, f) =>
      && !f.hasFails && !f.setFails && req.validatorAddress == a
      && e.decodeVote(req.voteExtension).Some?
      && e.recover(req.hash, e.decodeVote(req.voteExtension).value) == Some(key)
    case ProcessEvent(hash, txs, plan) =>
      && |txs| > 0
      && e.decodeInjected(txs[0]).Some?
      && Gives(e, bound, hash, e.decodeInjected(txs[0]).value, plan, a, key)
    case _ => false
  }

  lemma {:induction false} StepShows(e: Env, st: Store, ev: Event, a: bytes, key: bytes)
    ensures Get(Step(e, st, ev).voteKeys, a, false) == Some(key)
       <==> if a in st.voteKeys then st.voteKeys[a] == key else Shows(e, st.voteKeys.Keys, ev, a, key)
  {
    hide Bind, Gives, VerifyVote;
    match ev
    case VerifyEvent(req, f) => BindingIgnoresVerdict(e, st.voteKeys, req, f);
    case ProcessEvent(hash, txs, plan) =>
      ProcessExtends(e, st.voteKeys, hash, txs, plan);
      if a !in st.voteKeys && |txs| > 0 && e.decodeInjected(txs[0]).Some? {
        BindGives(e, st.voteKeys, hash, e.decodeInjected(txs[0]).value, plan, a, key);
        ProcessIsBind(e, st.voteKeys, hash, txs, plan);
      }
    case _ =>
  }

  lemma {:induction false} ProcessIsBind(e: Env, keys: KeyMap, hash: bytes, txs: seq<bytes>, plan: nat -> Faults)
    requires |txs| > 0 && e.decodeInjected(txs[0]).Some?
    ensures Process(e, keys, hash, txs, plan).0 == Bind(e, keys, hash, e.decodeInjected(txs[0]).value, plan, 0).0
  {
  }

  /** The addresses that an event names. */
  function Named(e: Env, ev: Event): (r: set<bytes>) {
    match ev
    case VerifyEvent(req, _) => {req.validatorAddress}
    case ProcessEvent(_, txs, _) =>
      if |txs| == 0 then {} else (
      match e.decodeInjected(txs[0])
      case Some(entries) => set i | 0 <= i < |entries| :: entries[i].validatorAddress
      case None => {})
    case _ => {}
  }

  ghost predicate ShowsSome(e: Env, bound: set<bytes>, ev: Event, a: bytes) {
    exists key :: Shows(e, bound, ev, a, key)
  }

  ghost function NewlyBound(e: Env, bound: set<bytes>, ev: Event): (s: set<bytes>) {
    set a | a in Named(e, ev) && ShowsSome(e, bound, ev, a)
  }

  /** The validators bound by a history: those for whom one of its events writes a key. */
  ghost function Bound(e: Env, evs: seq<Event>): (s: set<bytes>) {
    if |evs| == 0 then {} else
    var before := Bound(e, evs[..|evs| - 1]);
    before + NewlyBound(e, before, evs[|evs| - 1])
  }

  lemma {:induction false} ShowsNamed(e: Env, bound: set<bytes>, ev: Event, a: bytes, key: bytes)
    requires Shows(e, bound, ev, a, key)
    ensures a in Named(e, ev)
  {
    hide Stops, FirstOf;
  }

  lemma {:induction false} BoundOneMore(e: Env, evs: seq<Event>, n: nat, a: bytes)
    requires |evs| == n + 1
    ensures a in Bound(e, evs)
       <==> a in Bound(e, evs[..n]) || ShowsSome(e, Bound(e, evs[..n]), evs[n], a)
  {
    hide Shows, Named;
    if key :| Shows(e, Bound(e, evs[..n]), evs[n], a, key) {
      ShowsNamed(e, Bound(e, evs[..n]), evs[n], a, key);
    }
  }

  /** Event i is the one that binds a to key. */
  ghost predicate BindsAt(e: Env, evs: seq<Event>, i: nat, a: bytes, key: bytes)
    requires i < |evs|
  {
    a !in Bound(e, evs[..i]) && Shows(e, Bound(e, evs[..i]), evs[i], a, key)
  }

  /** key comes from the first event of the history that writes one for a. */
  ghost predicate First(e: Env, evs: seq<Event>, a: bytes, key: bytes) {
    exists i :: 0 <= i < |evs| && BindsAt(e, evs, i, a, key)
  }

  lemma {:induction false} FirstOneMore(e: Env, evs: seq<Event>, n: nat, a: bytes, key: bytes)
    requires |evs| == n + 1
    ensures First(e, evs, a, key) <==> First(e, evs[..n], a, key) || BindsAt(e, evs, n, a, key)
  {
    hide Bound, Shows;
    forall i | 0 <= i < n
      ensures BindsAt(e, evs[..n], i, a, key) == BindsAt(e, evs, i, a, key)
    {
      assert evs[..n][..i] == evs[..i];
    }
    if First(e, evs[..n], a, key) {
      var i :| 0 <= i < n && BindsAt(e, evs[..n], i, a, key);
      assert BindsAt(e, evs, i, a, key);
    }
    if First(e, evs, a, key) {
      var i :| 0 <= i < |evs| && BindsAt(e, evs, i, a, key);
      assert i < n ==> BindsAt(e, evs[..n], i, a, key);
    }
  }

  /** The bound addresses are told from the history alone. */
  lemma {:induction false} BoundAddresses(e: Env, evs: seq<Event>)
    ensures Run(e, EMPTY, evs).voteKeys.Keys == Bound(e, evs)
    decreases |evs|
  {
    hide Step, Shows, Bound, ShowsSome;
    if |evs| == 0 {
      assert Bound(e, evs) == {} by { BoundNothing(e, evs); }
    } else {
      var n := |evs| - 1;
      var before := Run(e, EMPTY, evs[..n]);
      BoundAddresses(e, evs[..n]);
      forall a
        ensures a in Run(e, EMPTY, evs).voteKeys <==> a in Bound(e, evs)
      {
        BoundOneMore(e, evs, n, a);
        BoundByStep(e, before, evs[n], a);
      }
    }
  }

  lemma BoundNothing(e: Env, evs: seq<Event>)
    requires |evs| == 0
    ensures Bound(e, evs) == {}
  {
  }

  lemma {:induction false} BoundByStep(e: Env, st: Store, ev: Event, a: bytes)
    ensures a in Step(e, st, ev).voteKeys
       <==> a in st.voteKeys || ShowsSome(e, st.voteKeys.Keys, ev, a)
  {
    hide Step, Shows;
    var after := Step(e, st, ev).voteKeys;
    if a in after {
      StepShows(e, st, ev, a, after[a]);
    }
    if a in st.voteKeys {
      StepShows(e, st, ev, a, st.voteKeys[a]);
    } else if key :| Shows(e, st.voteKeys.Keys, ev, a, key) {
      StepShows(e, st, ev, a, key);
    }
  }

  /**
   * Over all handlers, any run from the empty store and any store failures: a validator's key is the one
   * that the first event to write one for it wrote.
   */
  lemma {:induction false} VoteKeyIsFirst(e: Env, evs: seq<Event>, a: bytes, key: bytes)
    ensures Get(Run(e, EMPTY, evs).voteKeys, a, false) == Some(key) <==> First(e, evs, a, key)
    decreases |evs|
  {
    hide Step, Shows, Bound, First;
    if |evs| == 0 {
      assert !First(e, evs, a, key) by { FirstNeedsEvents(e, evs, a, key); }
    } else {
      var n := |evs| - 1;
      VoteKeyIsFirst(e, evs[..n], a, key);
      BoundAddresses(e, evs[..n]);
      FirstOneMore(e, evs, n, a, key);
      StepShows(e, Run(e, EMPTY, evs[..n]), evs[n], a, key);
    }
  }

  lemma {:induction false} FirstNeedsEvents(e: Env, evs: seq<Event>, a: bytes, key: bytes)
    ensures First(e, evs, a, key) ==> |evs| > 0
  {
  }

  /** The store operations of the event succeed. */
  ghost predicate StoreWorks(ev: Event) {
    match ev
    case VerifyEvent(_, f) => f == NO_FAULTS
    case ProcessEvent(_, _, plan) => forall i :: plan(i) == NO_FAULTS
    case _ => true
  }

  /** With a store that works, an event shows the same key whoever else is bound. */
  lemma {:induction false} ShowsIgnoresBound(e: Env, bound: set<bytes>, bound': set<bytes>, ev: Event, a: bytes,
                                             key: bytes)
    requires StoreWorks(ev) && Shows(e, bound, ev, a, key)
    ensures Shows(e, bound', ev, a, key)
  {
    hide FirstOf;
    if ev.ProcessEvent? {
      var entries := e.decodeInjected(ev.txs[0]).value;
      var j :| && 0 <= j < |entries| && FirstOf(entries, j) && entries[j].validatorAddress == a
               && e.recover(ev.hash, entries[j].signature) == Some(key)
               && forall i :: 0 <= i <= j ==> !Stops(e, bound, ev.hash, entries, ev.plan, i);
      forall i | 0 <= i <= j
        ensures !Stops(e, bound', ev.hash, entries, ev.plan, i)
      {
        assert !Stops(e, bound, ev.hash, entries, ev.plan, i);
      }
    }
  }

  // ---------- Users: the last registration counts ----------

  /** Event i of the history registers key for addr. */
  ghost predicate RegistersAt(e: Env, evs: seq<Event>, i: nat, addr: bytes, key: bytes)
    requires i < |evs|
  {
    evs[i].BroadcastEvent? && !evs[i].setFails && Registers(e, evs[i].sender, evs[i].data, addr, key)
  }

  /** Some event from i on registers a key for addr. */
  ghost predicate RegisteredFrom(e: Env, evs: seq<Event>, i: nat, addr: bytes) {
    exists j, key :: i <= j < |evs| && RegistersAt(e, evs, j, addr, key)
  }

  /** key comes from the latest registration for addr in the history. */
  ghost predicate Latest(e: Env, evs: seq<Event>, addr: bytes, key: bytes) {
    exists i :: 0 <= i < |evs| && RegistersAt(e, evs, i, addr, key) && !RegisteredFrom(e, evs, i + 1, addr)
  }

  lemma RegistersBefore(e: Env, evs: seq<Event>, n: nat, i: nat, addr: bytes, key: bytes)
    requires i < n <= |evs|
    ensures RegistersAt(e, evs[..n], i, addr, key) == RegistersAt(e, evs, i, addr, key)
  {
    hide Registers;
  }

  lemma {:induction false} RegisteredOneMore(e: Env, evs: seq<Event>, n: nat, i: nat, addr: bytes)
    requires |evs| == n + 1 && i <= n
    ensures RegisteredFrom(e, evs, i, addr)
       <==> RegisteredFrom(e, evs[..n], i, addr) || exists key :: RegistersAt(e, evs, n, addr, key)
  {
    hide RegistersAt;
    if RegisteredFrom(e, evs[..n], i, addr) {
      var j, key :| i <= j < n && RegistersAt(e, evs[..n], j, addr, key);
      RegistersBefore(e, evs, n, j, addr, key);
    }
    if RegisteredFrom(e, evs, i, addr) {
      var j, key :| i <= j < |evs| && RegistersAt(e, evs, j, addr, key);
      if j < n {
        RegistersBefore(e, evs, n, j, addr, key);
        assert RegistersAt(e, evs[..n], j, addr, key);
      }
    }
  }

  lemma LatestIsLast(e: Env, evs: seq<Event>, addr: bytes, key: bytes)
    requires |evs| > 0 && RegistersAt(e, evs, |evs| - 1, addr, key)
    ensures forall key' :: Latest(e, evs, addr, key') <==> key' == key
  {
    var n := |evs| - 1;
    assert !RegisteredFrom(e, evs, n + 1, addr);
    assert Latest(e, evs, addr, key);
    forall key' | Latest(e, evs, addr, key')
      ensures key' == key
    {
      var i :| 0 <= i < |evs| && RegistersAt(e, evs, i, addr, key') && !RegisteredFrom(e, evs, i + 1, addr);
      if i < n {
        assert i + 1 <= n < |evs| && RegistersAt(e, evs, n, addr, key);
      }
    }
  }

  lemma {:induction false} LatestIsBefore(e: Env, evs: seq<Event>, n: nat, addr: bytes, key: bytes)
    requires |evs| == n + 1 && !exists key' :: RegistersAt(e, evs, n, addr, key')
    ensures Latest(e, evs, addr, key) <==> Latest(e, evs[..n], addr, key)
  {
    hide RegistersAt, RegisteredFrom;
    if Latest(e, evs, addr, key) {
      var i :| 0 <= i < |evs| && RegistersAt(e, evs, i, addr, key) && !RegisteredFrom(e, evs, i + 1, addr);
      RegisteredOneMore(e, evs, n, i + 1, addr);
      RegistersBefore(e, evs, n, i, addr, key);
    }
    if Latest(e, evs[..n], addr, key) {
      var i :| 0 <= i < n && RegistersAt(e, evs[..n], i, addr, key) && !RegisteredFrom(e, evs[..n], i + 1, addr);
      RegisteredOneMore(e, evs, n, i + 1, addr);
      RegistersBefore(e, evs, n, i, addr, key);
    }
  }

  /** In every state reached from the empty store a user's key is that of the latest registration, or there is none. */
  lemma {:induction false} UserKeyIsLatest(e: Env, evs: seq<Event>, addr: bytes, key: bytes)
    ensures Get(Run(e, EMPTY, evs).userKeys, addr, false) == Some(key) <==> Latest(e, evs, addr, key)
    decreases |evs|
  {
    hide Register, Registers, Latest;
    if |evs| == 0 {
      if Latest(e, evs, addr, key) {
        LatestNeedsEvents(e, evs, addr, key);
      }
    } else {
      var n := |evs| - 1;
      var before := Run(e, EMPTY, evs[..n]);
      UserKeyIsLatest(e, evs[..n], addr, key);
      if key' :| RegistersAt(e, evs, n, addr, key') {
        LatestIsLast(e, evs, addr, key');
        RegisterWrites(e, before.userKeys, evs[n].sender, evs[n].data, evs[n].setFails, addr, key');
      } else {
        LatestIsBefore(e, evs, n, addr, key);
        if evs[n].BroadcastEvent? {
          RegisterWrites(e, before.userKeys, evs[n].sender, evs[n].data, evs[n].setFails, addr, key);
          forall key'
            ensures evs[n].setFails || !Registers(e, evs[n].sender, evs[n].data, addr, key')
          {
            assert !RegistersAt(e, evs, n, addr, key');
          }
        }
      }
    }
  }

  lemma LatestNeedsEvents(e: Env, evs: seq<Event>, addr: bytes, key: bytes)
    requires Latest(e, evs, addr, key)
    ensures |evs| > 0
  {
  }

  /** Every registered key of a reachable state is a key: not empty, and with a signature over its own hash. */
  lemma {:induction false} UserKeyHasWitness(e: Env, evs: seq<Event>, addr: bytes)
    ensures var users := Run(e, EMPTY, evs).userKeys;
            addr in users ==> users[addr] != [] && exists s :: e.verify(users[addr], e.keccak(users[addr]), s)
  {
    hide Register, Run;
    var users := Run(e, EMPTY, evs).userKeys;
    if addr in users {
      UserKeyIsLatest(e, evs, addr, users[addr]);
      var i :| 0 <= i < |evs| && RegistersAt(e, evs, i, addr, users[addr]);
      var signature := e.decodeMemo(Trim(evs[i].data)).value.signature;
      assert e.verify(users[addr], e.keccak(users[addr]),
                      if |signature| == 65 then signature[..64] else signature);
    }
  }

  /** The text holds the key of the latest registration for the first signer, and a signature by it. */
  ghost predicate PresentsLatest(e: Env, evs: seq<Event>, tx: Tx, text: bytes) {
    exists addr, key :: FirstSigner(tx, addr) && Latest(e, evs, addr, key) && Signs(e, text, key)
  }

  /** Admission, over whole runs: a prefixed memo presents the key of the signer's latest registration. */
  lemma {:induction false} AdmittedIffLatest(e: Env, evs: seq<Event>, tx: Tx, f: Faults)
    ensures AnteHandle(e, Run(e, EMPTY, evs).userKeys, tx, f) == Next
       <==> && tx.memo.Some?
            && (PREFIX <= tx.memo.value ==>
                  !f.hasFails && !f.getFails && PresentsLatest(e, evs, tx, tx.memo.value[|PREFIX|..]))
  {
    hide Run, AnteHandle, Latest, Signs, FirstSigner;
    var users := Run(e, EMPTY, evs).userKeys;
    AdmittedIff(e, users, tx, f);
    forall addr, key
      ensures Get(users, addr, false) == Some(key) <==> Latest(e, evs, addr, key)
    {
      UserKeyIsLatest(e, evs, addr, key);
    }
    if tx.memo.Some? && PREFIX <= tx.memo.value && Presents(e, users, tx, tx.memo.value[|PREFIX|..]) {
      var addr :| FirstSigner(tx, addr) && addr in users && Signs(e, tx.memo.value[|PREFIX|..], users[addr]);
      assert Latest(e, evs, addr, users[addr]);
    }
  }

  /** Whatever the events register for addr is key. */
  ghost predicate OnlyRegisters(e: Env, evs: seq<Event>, addr: bytes, key: bytes) {
    forall i, key' :: 0 <= i < |evs| && RegistersAt(e, evs, i, addr, key') ==> key' == key
  }

  /** A registered key stays the latest while nothing registers another one for its address. */
  lemma {:induction false} LatestPersists(e: Env, a: seq<Event>, b: seq<Event>, addr: bytes, key: bytes)
    requires |a| > 0 && RegistersAt(e, a, |a| - 1, addr, key) && OnlyRegisters(e, b, addr, key)
    ensures Latest(e, a + b, addr, key)
    decreases |b|
  {
    hide Latest, Registers;
    var evs := a + b;
    if |b| == 0 {
      assert evs == a;
      LatestIsLast(e, evs, addr, key);
    } else {
      var n := |b| - 1;
      OnlyRegistersBefore(e, b, n, addr, key);
      LatestPersists(e, a, b[..n], addr, key);
      var last := |a| + n;
      assert evs[..last] == a + b[..n] && evs[last] == b[n];
      if key' :| RegistersAt(e, evs, last, addr, key') {
        assert RegistersAt(e, b, n, addr, key');
        LatestIsLast(e, evs, addr, key);
      } else {
        LatestIsBefore(e, evs, last, addr, key);
      }
    }
  }

  lemma {:induction false} OnlyRegistersBefore(e: Env, b: seq<Event>, n: nat, addr: bytes, key: bytes)
    requires n <= |b| && OnlyRegisters(e, b, addr, key)
    ensures OnlyRegisters(e, b[..n], addr, key)
  {
    hide Registers;
    forall i, key' | 0 <= i < n && RegistersAt(e, b[..n], i, addr, key')
      ensures key' == key
    {
      assert RegistersAt(e, b, i, addr, key');
    }
  }

  /**
   * In every run, whatever came before, a memo that registered a key admits its sender's transactions until
   * another key is registered for the sender, exactly if it has no prefix or a clean text behind it.
   */
  lemma {:induction false} RegisteringMemoAdmitsLater(e: Env, a: seq<Event>, sender: bytes, data: bytes,
                                                      addr: bytes, key: bytes, b: seq<Event>, tx: Tx)
    requires MemoTextLaw(e)
    requires Registers(e, sender, data, addr, key) && OnlyRegisters(e, b, addr, key)
    requires tx.memo == Some(data) && FirstSigner(tx, addr)
    ensures var evs := a + [BroadcastEvent(sender, data, false)] + b;
            AnteHandle(e, Run(e, EMPTY, evs).userKeys, tx, NO_FAULTS) == Next
            <==> PREFIX <= data ==> Clean(data[|PREFIX|..])
  {
    hide Run, AnteHandle, Latest, Registers, OnlyRegisters, FirstSigner;
    KeyKept(e, a, sender, data, addr, key, b);
    var evs := a + [BroadcastEvent(sender, data, false)] + b;
    RegisteringMemoAdmits(e, Run(e, EMPTY, evs).userKeys, tx, sender, data, addr, key);
  }

  /** A registered key is the one in the store until another is registered. */
  lemma {:induction false} KeyKept(e: Env, a: seq<Event>, sender: bytes, data: bytes, addr: bytes, key: bytes,
                                   b: seq<Event>)
    requires Registers(e, sender, data, addr, key) && OnlyRegisters(e, b, addr, key)
    ensures Get(Run(e, EMPTY, a + [BroadcastEvent(sender, data, false)] + b).userKeys, addr, false) == Some(key)
  {
    hide Run, Latest, Registers, OnlyRegisters;
    var first := a + [BroadcastEvent(sender, data, false)];
    assert RegistersAt(e, first, |a|, addr, key);
    LatestPersists(e, first, b, addr, key);
    UserKeyIsLatest(e, first + b, addr, key);
  }

  /**
   * A signed text, broadcast with the prefix or without it, in its full form or cut to 64 bytes, admits its
   * sender's transactions that carry it behind the prefix, until the sender registers another key.
   */
  lemma {:induction false} SignedTextAdmits(e: Env, k: bytes, cut: bool, text: bytes, data: bytes, a: seq<Event>,
                                            sender: bytes, addr: bytes, b: seq<Event>, tx: Tx)
    requires Lawful(e) && SignedText(e, k, cut, text) && data in {text, PREFIX + text}
    requires e.senderCodec(sender) && e.bech32(sender) == Some(addr)
    requires OnlyRegisters(e, b, addr, e.publicKey(k))
    requires tx.memo == Some(PREFIX + text) && FirstSigner(tx, addr)
    ensures var evs := a + [BroadcastEvent(sender, data, false)] + b;
            AnteHandle(e, Run(e, EMPTY, evs).userKeys, tx, NO_FAULTS) == Next
  {
    hide Run, AnteHandle, OnlyRegisters, Trim, Signs, SignedText, Lawful, FirstSigner;
    SignedTextSigns(e, k, cut, text);
    KeyKept(e, a, sender, data, addr, e.publicKey(k), b);
    assert (PREFIX + text)[|PREFIX|..] == text;
    AdmittedIff(e, Run(e, EMPTY, a + [BroadcastEvent(sender, data, false)] + b).userKeys, tx, NO_FAULTS);
  }

  /** So a created memo, once broadcast, admits its sender's transactions. */
  lemma {:induction false} CreatedMemoAdmits(e: Env, k: bytes, memo: bytes, a: seq<Event>, sender: bytes, addr: bytes,
                                             b: seq<Event>, tx: Tx)
    requires Lawful(e) && CreateValidMemo(e, k) == Some(memo)
    requires e.senderCodec(sender) && e.bech32(sender) == Some(addr)
    requires OnlyRegisters(e, b, addr, e.publicKey(k))
    requires tx.memo == Some(memo) && FirstSigner(tx, addr)
    ensures var evs := a + [BroadcastEvent(sender, memo, false)] + b;
            AnteHandle(e, Run(e, EMPTY, evs).userKeys, tx, NO_FAULTS) == Next
  {
    hide Run, AnteHandle, OnlyRegisters, SignedText, Lawful, FirstSigner, CreateValidMemo;
    SigningLawOf(e);
    CreatedMemoIff(e, k, memo);
    assert PREFIX + memo[|PREFIX|..] == memo;
    SignedTextAdmits(e, k, true, memo[|PREFIX|..], memo, a, sender, addr, b, tx);
  }

  // ---------- Nodes that commit and discard ----------

  /** The committed store, and the branch that the handlers write to. */
  datatype Node = Node(committed: Store, branch: Store)

  datatype NodeEvent = Call(ev: Event) | Commit | Discard

  function NodeStep(e: Env, n: Node, ev: NodeEvent): (r: Node) {
    match ev
    case Call(c) => n.(branch := Step(e, n.branch, c))
    case Commit => n.(committed := n.branch)
    case Discard => n.(branch := n.committed)
  }

  function NodeRun(e: Env, n: Node, evs: seq<NodeEvent>): (r: Node) {
    if |evs| == 0 then n else NodeStep(e, NodeRun(e, n, evs[..|evs| - 1]), evs[|evs| - 1])
  }

  ghost predicate OnlyCalls(evs: seq<NodeEvent>) {
    forall i :: 0 <= i < |evs| ==> evs[i].Call?
  }

  lemma {:induction false} LastNodeStep(e: Env, n: Node, evs: seq<NodeEvent>, ev: NodeEvent)
    ensures NodeRun(e, n, evs + [ev]) == NodeStep(e, NodeRun(e, n, evs), ev)
  {
    hide NodeStep;
    assert (evs + [ev])[..|evs|] == evs;
  }

  lemma {:induction false} CallsStayOnBranch(e: Env, n: Node, evs: seq<NodeEvent>)
    requires OnlyCalls(evs)
    ensures NodeRun(e, n, evs).committed == n.committed
    decreases |evs|
  {
    hide Step, NodeRun;
    if |evs| == 0 {
      NoEvents(e, n, evs);
    } else {
      var last := |evs| - 1;
      CallsStayOnBranch(e, n, evs[..last]);
      assert evs[..last] + [evs[last]] == evs;
      LastNodeStep(e, n, evs[..last], evs[last]);
    }
  }

  lemma NoEvents(e: Env, n: Node, evs: seq<NodeEvent>)
    requires |evs| == 0
    ensures NodeRun(e, n, evs) == n
  {
  }

  /** A discard behind calls takes the node back to its committed store, a commit keeps what they did. */
  lemma DiscardUndoes(e: Env, n: Node, evs: seq<NodeEvent>)
    requires OnlyCalls(evs)
    ensures NodeRun(e, n, evs + [Discard]) == Node(n.committed, n.committed)
    ensures var branch := NodeRun(e, n, evs).branch; NodeRun(e, n, evs + [Commit]) == Node(branch, branch)
  {
    hide NodeRun, OnlyCalls;
    CallsStayOnBranch(e, n, evs);
    LastNodeStep(e, n, evs, Discard);
    LastNodeStep(e, n, evs, Commit);
  }

  /** The calls that are left of a run: those committed, and with them those on the branch. */
  datatype Histories = Histories(committed: seq<Event>, branch: seq<Event>)

  function Surviving(evs: seq<NodeEvent>): (r: Histories) {
    if |evs| == 0 then Histories([], []) else
    var h := Surviving(evs[..|evs| - 1]);
    match evs[|evs| - 1]
    case Call(c) => h.(branch := h.branch + [c])
    case Commit => h.(committed := h.branch)
    case Discard => h.(branch := h.committed)
  }

  /** Discarding erases calls as if they had never been made: both stores are plain runs of what survives. */
  lemma {:induction false} DiscardErases(e: Env, st: Store, evs: seq<NodeEvent>)
    ensures var h := Surviving(evs);
            && NodeRun(e, Node(st, st), evs) == Node(Run(e, st, h.committed), Run(e, st, h.branch))
            && h.committed <= h.branch
    decreases |evs|
  {
    hide Step;
    if |evs| > 0 {
      var before := evs[..|evs| - 1];
      DiscardErases(e, st, before);
      match evs[|evs| - 1]
      case Call(c) =>
        var b := Surviving(before).branch;
        assert (b + [c])[..|b|] == b;
      case _ =>
    }
  }

  /** The committed history only grows. */
  lemma {:induction false} CommittedGrows(evs: seq<NodeEvent>, i: nat)
    requires i <= |evs|
    ensures Surviving(evs[..i]).committed <= Surviving(evs).committed <= Surviving(evs).branch
    decreases |evs|
  {
    if i == |evs| {
      assert evs[..i] == evs;
      if |evs| > 0 {
        CommittedGrows(evs[..|evs| - 1], |evs| - 1);
      }
    } else {
      var before := evs[..|evs| - 1];
      CommittedGrows(before, i);
      assert before[..i] == evs[..i];
    }
  }

  /** A committed binding of a validator never changes or disappears, through all commits and discards. */
  lemma CommittedBindingStable(e: Env, st: Store, evs: seq<NodeEvent>, i: nat)
    requires i <= |evs|
    ensures var early, late := NodeRun(e, Node(st, st), evs[..i]), NodeRun(e, Node(st, st), evs);
            && Extends(early.committed.voteKeys, late.committed.voteKeys)
            && Extends(early.committed.voteKeys, late.branch.voteKeys)
  {
    hide NodeRun, Run, Surviving;
    DiscardErases(e, st, evs[..i]);
    DiscardErases(e, st, evs);
    CommittedGrows(evs, i);
    var early, late := Surviving(evs[..i]).committed, Surviving(evs);
    PrefixBindingStable(e, st, early, late.committed);
    PrefixBindingStable(e, st, early, late.branch);
  }

  lemma PrefixBindingStable(e: Env, st: Store, a: seq<Event>, b: seq<Event>)
    requires a <= b
    ensures Extends(Run(e, st, a).voteKeys, Run(e, st, b).voteKeys)
  {
    hide Run;
    assert b == a + b[|a|..];
    RunConcat(e, st, a, b[|a|..]);
    BindingStable(e, Run(e, st, a), b[|a|..]);
  }

  /** On every node, committed or not, the key of a user is that of the latest surviving registration. */
  lemma NodeUserKeyIsLatest(e: Env, evs: seq<NodeEvent>, addr: bytes, key: bytes)
    ensures var n, h := NodeRun(e, Node(EMPTY, EMPTY), evs), Surviving(evs);
            && (Get(n.committed.userKeys, addr, false) == Some(key) <==> Latest(e, h.committed, addr, key))
            && (Get(n.branch.userKeys, addr, false) == Some(key) <==> Latest(e, h.branch, addr, key))
  {
    hide NodeRun, Run, Surviving, Latest;
    DiscardErases(e, EMPTY, evs);
    UserKeyIsLatest(e, Surviving(evs).committed, addr, key);
    UserKeyIsLatest(e, Surviving(evs).branch, addr, key);
  }
}
