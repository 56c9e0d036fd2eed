# Verified model of the secondarykeys module

The chain lets validators and users hold a second signing key. This project models the module's two halves and
proves what they promise.

**The wire codec** (`Bytes`, `Varint`, `Skipper`, `Parser`, `Messages`). The generated code for `MsgBroadcastData`,
`MsgUpdateParams` and the nested `Params`: base-128 varints, the size predictor, the marshallers that fill a buffer
from its end, the field-by-field parser and the skipper for unknown fields. Each in-place or looping routine is a
method on the array or class field it changes, proved against a function; the functions are then tied to independent
descriptions: the digits of a number, a recursive grammar of fields and groups, the encoding written forwards.

* Go's `int` is 64 bits and wraps (`Int64`), `int32(...)` truncates (`Int32`), a slice is shorter than 2^63 (`slice`).
  A field number n is therefore read modulo 2^32, so that field 2^32 + 1 is field 1 (`Messages.BroadcastField`).
* Shifts and masks are arithmetic; `Varint.OrOfDisjointBits` and `Varint.MasksAndShifts` justify this on 64-bit words.
* The generated code repeats the varint loop inline, and repeats the loop body for each message. The model has one
  method for each. `msglen`, accumulated as an `int`, has the same bits as a `uint64` converted afterwards. `skipParams`
  is `skipTx` under another name, and the response messages parse like `Params`: neither is modelled twice.
* `Unmarshal` merges: it never resets the message, and fields stored before an error stay stored
  (`Parser.ParseIffRejected`, `Messages.BroadcastRejected`).
* `Bytes.Splice(was, start, w)` is the buffer `was` with `w` written over it from `start` on and nothing else changed.

**The protocol** (`Environment`, `Memo`, `Keeper`, `Votes`, `Registration`, `Runs`). The two key maps and the handlers
that use them, as methods on the keeper and as functions on its maps; then every interleaving of calls, with failing
store operations, and nodes that commit a branch of the store or discard it. Signatures, hashing, JSON and bech32 are
parameters (`Env`); what the proofs use about them are the named laws in `Environment`, each a precondition where it
is needed, and `ToyIsLawful` shows that they are consistent. The host's choice to commit or discard is a step of the
node, and `Runs.DiscardErases` reduces such runs to plain ones: discarded calls might as well not have been made. A Go
panic is an outcome.

Two things the design suggests are not so, and the exact condition is proved instead:

* Appending `b` to an accepted `a` gives the message and the verdict of parsing `b` next, but not always the same error:
  the end of an overlong field may wrap past 2^63 only behind `a`, which turns "unexpected EOF" into "negative length".
  `Parser.UnmarshalConcat` says so on the bytes: the errors differ exactly if `b` is a sequence of acceptable fields
  followed by one whose declared end lies below 2^63 in `b` and not below it in `a + b`. The input is in
  `Messages.ConcatErrorDiffers`.
* `BroadcastData` takes off every leading and trailing letter of the word SECONDARY, `AnteHandle` only the word. A memo
  that registered a key is admitted afterwards exactly if it has no prefix or the text behind the prefix neither begins
  nor ends with such a letter (`Registration.RegisteringMemoAdmits`, with the input, a created
  memo with one letter too many, in `Registration.RegisteredButNotAdmitted`).

## Model

| member | source | states |
|---|---|---|
| Varint.SovIsDigitCount | x/secondarykeys/types/tx.pb.go:566-568 | the bit-length formula is the exact number of base-128 digits, 1 to 10, for all 2^64 values |
| Varint.EncodeVarintTx | x/secondarykeys/types/tx.pb.go:505-515 | writes exactly the digits, ending at the old offset, returns where they start, leaves all other bytes alone |
| Varint.DecodeVarint | x/secondarykeys/types/tx.pb.go:743-756 | reads a terminated run of at most ten bytes as its base-128 value mod 2^64; ten continued bytes overflow, a run cut short is EOF |
| Varint.ReadVarintErrors | x/secondarykeys/types/tx.pb.go:743-756 | reading fails exactly on ten flagged bytes (overflow) or on fewer that are all flagged (EOF), and never otherwise |
| Varint.ReadVarintOfDigits | x/secondarykeys/types/tx.pb.go:505-515 | reading inverts writing for all 2^64 values, whatever follows |
| Varint.CanonicalIsShortest | x/secondarykeys/types/tx.pb.go:743-756 | no encoding that reads as v is shorter than the digits written for v |
| Varint.OrOfDisjointBits | x/secondarykeys/types/tx.pb.go:751 | on 64-bit words, or-ing a seven-bit digit in above the bits already read is addition |
| Skipper.NextTokenAt | x/secondarykeys/types/tx.pb.go:906-972 | one tag with its body: kind and size, the index wrapped to 64 bits |
| Skipper.SkipTx | x/secondarykeys/types/tx.pb.go:901-978 | the loop with the depth counter computes the skip function on every input, in bounds, and terminates |
| Skipper.SkipIffItem | x/secondarykeys/types/tx.pb.go:901-978 | within the buffer, n is returned exactly when the first n bytes are one well-formed field or balanced group of the recursive grammar |
| Skipper.GroupStops | x/secondarykeys/types/tx.pb.go:906-976 | behind any fields inside a group, the end of the input, an unreadable token and an overlong token are the error of the whole group, each with its kind |
| Skipper.OneItemAtMost | x/secondarykeys/types/tx.pb.go:901-978 | the grammar is prefix-free |
| Skipper.SkipStable | x/secondarykeys/types/tx.pb.go:901-978 | a skipped size does not depend on the bytes that follow |
| Skipper.OverrunIsTopLevel | x/secondarykeys/types/tx.pb.go:936-975 | a size past the end of the buffer is reported only for a top-level fixed or length-delimited field |
| Parser.ReadPayload | x/secondarykeys/types/tx.pb.go:770-797 | length, sign, wrap-around and bounds tests in Go's order give the payload or the error that the unbounded arithmetic of the specification prescribes |
| Parser.ReadField | x/secondarykeys/types/tx.pb.go:741-843 | one turn of the parser loop: field and strictly larger index, or the error, as Parser.NextField has it, which the next rows pin down |
| Parser.TagDecides | x/secondarykeys/types/tx.pb.go:757-765 | for all 2^61 field numbers and eight wire types, which tags are refused and with which error, the number taken modulo 2^32 as a signed int |
| Parser.DelimitedField | x/secondarykeys/types/tx.pb.go:763-842 | a length-delimited field of any positive number with any payload is stored under its number if that is known and skipped otherwise |
| Parser.TruncatedField | x/secondarykeys/types/tx.pb.go:784-841 | with less behind it than its length says, the same field is EOF or a negative length, by where it would end |
| Parser.EndOfGroupIff | x/secondarykeys/types/tx.pb.go:960-964 | the skipper itself reports that error exactly for an input that starts with an end tag |
| Parser.UnmarshalIffMessage | x/secondarykeys/types/tx.pb.go:737-850 | for every schema: accepted are exactly the sequences of grammar fields with numbers that are positive as the low 32 bits of the tag, known ones length-delimited, and the result is what storing them in order gives |
| Parser.ParseIffRejected | x/secondarykeys/types/tx.pb.go:737-850 | rejected are exactly the sequences of acceptable fields with an unreadable or unstorable one behind; the message is what the fields before it store |
| Parser.NextFieldPastEnd | x/secondarykeys/types/tx.pb.go:789-841 | a field runs past the buffer exactly if its tag, wire type and length declare more bytes than there are |
| Parser.ParsePastEndIff | x/secondarykeys/types/tx.pb.go:737-850 | and a whole parse does so exactly on acceptable fields followed by such a field |
| Parser.UnmarshalConcat | x/secondarykeys/types/tx.pb.go:737-850 | concatenation is merge: same message, same verdict, and the same error exactly unless the second part is acceptable fields followed by an overlong one whose end passes 2^63 only behind the first part |
| Parser.UnknownFieldTransparent | x/secondarykeys/types/tx.pb.go:830-842 | an unknown field inserted at any field boundary leaves message and verdict unchanged; its number is the low 32 bits above the wire type, read as signed |
| Parser.UnknownFieldError | x/secondarykeys/types/tx.pb.go:836-841 | and the error too, with the same exact exception on the bytes |
| Parser.ItemIsUnknownField | x/secondarykeys/types/tx.pb.go:757-765 | every grammar field, nested groups included, with an unknown positive number qualifies; the number is the low 32 bits of the tag above the wire type |
| Parser.ParseNeverEndsGroup | x/secondarykeys/types/tx.pb.go:757-761 | the skipper's end-of-group error never comes out of the parser |
| Messages.BroadcastSizeExact | x/secondarykeys/types/tx.pb.go:540-555 | Size, summed in wrapping ints, is the encoded length exactly when that length is an int |
| Messages.UpdateSizeExact | x/secondarykeys/types/tx.pb.go:516-529 | the same with the always-present params |
| Messages.WriteField | x/secondarykeys/types/tx.pb.go:466-470 | payload, length and tag written backwards are the forward encoding of the field, ending at the old index |
| Messages.MsgBroadcastData.MarshalToSizedBuffer | x/secondarykeys/types/tx.pb.go:460-480 | in any buffer that is long enough: the last bytes become the encoding, its length is returned, the rest is untouched; Messages.BroadcastAscending fixes the order of the fields |
| Messages.MsgBroadcastData.MarshalTo | x/secondarykeys/types/tx.pb.go:455-458 | the encoding goes to the front of a longer buffer |
| Messages.MsgBroadcastData.Marshal | x/secondarykeys/types/tx.pb.go:445-453 | the allocated buffer is filled exactly by the encoding |
| Messages.BroadcastAscending | x/secondarykeys/types/tx.pb.go:460-480 | the encoding is a sequence of acceptable fields in strictly increasing order of their numbers, with the sender and the data as payloads of 1 and 2 |
| Messages.EncodingEnds | x/secondarykeys/types/tx.pb.go:460-480 | byte by byte: a non-empty sender is the front of the encoding and non-empty data its end; an update ends with 12 00 |
| Messages.WireExamples | x/secondarykeys/types/tx.pb.go:460-480 | four encodings written out |
| Messages.MsgBroadcastData.Unmarshal | x/secondarykeys/types/tx.pb.go:737-850 | message and error are those of the parser on the old message, for every input; Messages.BroadcastField and Messages.BroadcastAcceptedIff say what that is |
| Messages.BroadcastField | x/secondarykeys/types/tx.pb.go:757-842 | for every field number: 1 stores the sender, 2 the data, others above leave the message alone, numbers that are 0 or negative as an int32 are illegal tags |
| Messages.BroadcastAcceptedIff | x/secondarykeys/types/tx.pb.go:737-850 | accepted with message m exactly if the input is a sequence of acceptable fields and m has the last payloads of fields 1 and 2 |
| Messages.MarshalParamsToSizedBuffer | x/secondarykeys/types/params.pb.go:124-130 | writes nothing |
| Messages.UnmarshalParams | x/secondarykeys/types/params.pb.go:158-207 | the parser with no known field |
| Messages.ParamsField | x/secondarykeys/types/params.pb.go:178-199 | for every field number: no field is stored, and illegal tags are errors |
| Messages.MsgUpdateParams.MarshalToSizedBuffer | x/secondarykeys/types/tx.pb.go:397-420 | as for the other message, with params written even when empty |
| Messages.MsgUpdateParams.MarshalTo | x/secondarykeys/types/tx.pb.go:392-395 | the encoding goes to the front of a longer buffer |
| Messages.MsgUpdateParams.Marshal | x/secondarykeys/types/tx.pb.go:382-390 | the allocated buffer is filled exactly by the encoding |
| Messages.UpdateAscending | x/secondarykeys/types/tx.pb.go:397-420 | the same order for MsgUpdateParams, with field 2 always there and empty |
| Messages.MsgUpdateParams.Unmarshal | x/secondarykeys/types/tx.pb.go:572-686 | message and error are those of the parser, nested params included; the next rows say what that is |
| Messages.UpdateField | x/secondarykeys/types/tx.pb.go:592-678 | for every field number: 1 stores the authority, 2 gives the result of unmarshalling its payload as params, the rest as for the other message |
| Messages.UpdateNestedError | x/secondarykeys/types/tx.pb.go:662-664 | behind any accepted input, a params field whose payload is refused ends the parse with the very error of the nested Unmarshal |
| Messages.UpdateAcceptedIff | x/secondarykeys/types/tx.pb.go:572-686 | accepted exactly if the input is a sequence of acceptable fields in which the payload of each field 2 is itself a sequence of grammar fields with positive numbers; the authority is the last one |
| Messages.BroadcastMerge | x/secondarykeys/types/tx.pb.go:737-850 | unmarshalling an encoding into any message overwrites its fields with the non-empty ones encoded |
| Messages.BroadcastRoundTrip | x/secondarykeys/types/tx.pb.go:460-480 | every message survives encoding and decoding |
| Messages.BroadcastInjective | x/secondarykeys/types/tx.pb.go:460-480 | different messages have different encodings |
| Messages.UpdateMerge | x/secondarykeys/types/tx.pb.go:572-686 | the same for MsgUpdateParams |
| Messages.UpdateRoundTrip | x/secondarykeys/types/tx.pb.go:397-420 | every message survives encoding and decoding |
| Messages.UpdateInjective | x/secondarykeys/types/tx.pb.go:397-420 | different messages have different encodings |
| Messages.BroadcastNotLonger | x/secondarykeys/types/tx.pb.go:540-555 | whatever was decoded, with overlong varints, repeated and unknown fields, encodes to no more bytes than it came from |
| Messages.BroadcastCanonical | x/secondarykeys/types/tx.pb.go:460-480 | and those bytes decode to the same message again |
| Messages.UpdateCanonical | x/secondarykeys/types/tx.pb.go:516-529 | the same with at most the two bytes of empty params more |
| Messages.BroadcastNeverEndsGroup | x/secondarykeys/types/tx.pb.go:737-850 | the end-of-group error of the skipper cannot surface |
| Messages.UpdateNeverEndsGroup | x/secondarykeys/types/tx.pb.go:572-686 | nor from the nested params |
| Messages.BroadcastRejected | x/secondarykeys/types/tx.pb.go:737-850 | after an error the message holds exactly what the fields before the unreadable one store |
| Messages.ConcatErrorDiffers | x/secondarykeys/types/tx.pb.go:789-795 | the input on which the error, and only the error, depends on the position |
| Memo.TrimFinds | x/secondarykeys/keeper/msg_server_broadcast_data.go:20 | trimming a set of letters is fixed by its meaning: letters off both ends up to a clean text |
| Memo.TrimIsEmptyIff | x/secondarykeys/keeper/msg_server_broadcast_data.go:20 | and nothing is left exactly of a text that is all letters |
| Memo.TrimIsCutPrefix | x/secondarykeys/keeper/msg_server_broadcast_data.go:20 | both handlers extract the same payload from a prefixed memo exactly when the payload is empty or clean |
| Environment.PrefixIsTheWord | x/secondarykeys/module/module.go:43 | the nine bytes that are cut and trimmed spell SECONDARY |
| Memo.SignedTextSigns | common/helper_functions.go:113-134 | an encoded key with the full 65-byte signature over its hash, or with the first 64 bytes, verifies: the recovery byte is removed |
| Memo.CreatedMemoIff | common/helper_functions.go:49-89 | a memo is created exactly if signing and encoding work, and it is the word with the encoded key and the first 64 bytes of the signature |
| Memo.CreatedMemoDecodes | common/helper_functions.go:49-89 | the handlers take the same text out of a created memo, and it holds the creator's key with a signature over the key's hash |
| Keeper.Keeper.SetSecondaryPubKeyAnteHandler | x/secondarykeys/keeper/keeper.go:79-81 | one entry overwritten, or nothing if the store fails |
| Keeper.Keeper.SetVoteExtension | x/secondarykeys/VoteExtension/propose_handler.go:126-131 | one entry overwritten, or nothing if the store fails |
| Votes.VerifyVoteExtension | x/secondarykeys/VoteExtension/vote_extend.go:54-99 | new key map and status, for every request and every store failure |
| Votes.VerdictIff | x/secondarykeys/VoteExtension/vote_extend.go:58-99 | when the status is REJECT, UNKNOWN, ACCEPT or a panic, each by its own condition, for every request and every store failure |
| Votes.AcceptIsSound | x/secondarykeys/VoteExtension/vote_extend.go:77-97 | ACCEPT implies that the address is bound to a key that verifies `signature[:64]` over the request's hash |
| Votes.PanicsIff | x/secondarykeys/VoteExtension/vote_extend.go:86 | the slice expression panics exactly for a decodable signature that with its spare capacity is short of 64 bytes, at a bound address |
| Votes.BindingIgnoresVerdict | x/secondarykeys/VoteExtension/vote_extend.go:70-84 | exactly when a call binds and what, whether or not it then rejects; other bindings stay |
| Votes.HonestVoteAccepted | x/secondarykeys/VoteExtension/vote_extend.go:29-53 | where signing and encoding work, ExtendVote gives an extension, and it is accepted where the address is unbound or bound to the own key, and binds that key |
| Votes.PrepareProposal | x/secondarykeys/VoteExtension/propose_handler.go:30-73 | the loop computes the collected list, which Votes.CollectConserves fixes, and the injected transactions |
| Votes.CollectConserves | x/secondarykeys/VoteExtension/propose_handler.go:35-51 | the list has, in order, one entry for exactly each vote with a non-empty extension that decodes: the validator's address and the decoded signature |
| Votes.InjectsIff | x/secondarykeys/VoteExtension/propose_handler.go:52-64 | a list is injected exactly if some vote has a non-empty extension that decodes, and the handler fails exactly if such a list does not encode |
| Votes.HandOver | x/secondarykeys/VoteExtension/propose_handler.go:52-71 | the user transactions survive as a suffix, and ProcessProposal enters its loop with exactly the collected list |
| Votes.PreparedAcceptedIff | x/secondarykeys/VoteExtension/propose_handler.go:86-137 | if some vote is usable and the list encodes there is a proposal, and it is accepted exactly if each signature decoded from a usable vote recovers over the header hash |
| Votes.HonestProposalBinds | x/secondarykeys/VoteExtension/propose_handler.go:30-139 | end to end: usable votes that ExtendVote made over the header hash give an accepted proposal, which binds each new address to the public key of its first usable vote's signer and changes nothing else |
| Votes.ProcessProposal | x/secondarykeys/VoteExtension/propose_handler.go:76-139 | new key map and status, for every proposal and every pattern of store failures |
| Votes.AcceptsIff | x/secondarykeys/VoteExtension/propose_handler.go:79-137 | ACCEPT exactly without transactions, or if the first one decodes to a non-empty list of which no entry stops the loop; REJECT otherwise, and without a list the map stays |
| Votes.ProcessRefinesFold | x/secondarykeys/VoteExtension/propose_handler.go:104-137 | the map is the first-write-wins fold of the entries before the first one that stops the loop, and ACCEPT means that none does |
| Votes.VerdictIgnoresKeys | x/secondarykeys/VoteExtension/propose_handler.go:77-138 | with a working store the status is a function of transactions and header hash |
| Votes.NodesAgree | x/secondarykeys/VoteExtension/propose_handler.go:77-138 | nodes with different maps agree on the status and on every binding new to both |
| Votes.ProcessAgain | x/secondarykeys/VoteExtension/propose_handler.go:104-137 | processing again, even after other bindings, changes nothing and says the same |
| Registration.BroadcastData | x/secondarykeys/keeper/msg_server_broadcast_data.go:16-42 | new key map, trimmed data and outcome, for every message; the next two rows say what they are |
| Registration.RegisterWrites | x/secondarykeys/keeper/msg_server_broadcast_data.go:30-40 | a sender with an address and a trimmed text that holds a key and a signature over its hash, 64 bytes or 65 with the last one dropped, overwrites the sender's key, and nothing else ever changes the map |
| Registration.RegisterReplies | x/secondarykeys/keeper/msg_server_broadcast_data.go:17-41 | when the handler answers with an address error, when it panics, and that then the map stays |
| Registration.FirstSignerOf | common/helper_functions.go:26-47 | the address is that of the first signature and of no other |
| Registration.NoFirstSigner | common/helper_functions.go:28-44 | the three other errors, by the shape of the signatures |
| Registration.AdmittedIff | app/ante_handler.go:69-132 | for every store failure: a transaction reaches the next handler exactly if its memo has no prefix, or the store answers and the text behind the prefix holds the key that is bound to its first signer and a signature over its hash |
| Registration.RefusedBecause | app/ante_handler.go:76-129 | each error of the handler for a prefixed memo, by its own condition, store failures included |
| Registration.RegisteringMemoAdmits | app/ante_handler.go:85-128 | the memo that registered a bound key is admitted exactly if it has no prefix or a clean text behind it |
| Registration.SignedTextRegisters | x/secondarykeys/keeper/msg_server_broadcast_data.go:16-42 | an encoded key with its full or cut signature registers with and without the prefix, and the prefixed memo is then admitted |
| Registration.RegisteredButNotAdmitted | x/secondarykeys/keeper/msg_server_broadcast_data.go:20 | a created memo with one letter too many registers its creator's key and is then refused |
| Runs.BindingStable | x/secondarykeys/VoteExtension/vote_extend.go:70-85 | over every interleaving a validator's binding never changes or disappears |
| Runs.HonestValidatorStaysAccepted | x/secondarykeys/VoteExtension/vote_extend.go:60-97 | once verified with an open address, a validator's extensions are accepted in every later state |
| Runs.VoteKeyIsFirst | x/secondarykeys/VoteExtension/vote_extend.go:70-84 | in every reachable state, whatever store operations failed, a validator's key is the one written by the first event of the history that writes one for it, and conversely |
| Runs.BoundAddresses | x/secondarykeys/VoteExtension/propose_handler.go:118-132 | which validators are bound is told from the history alone |
| Runs.ShowsIgnoresBound | x/secondarykeys/VoteExtension/propose_handler.go:118-132 | with a working store the key that an event has for a validator does not depend on who else is bound |
| Runs.UserKeyIsLatest | x/secondarykeys/keeper/msg_server_broadcast_data.go:30-40 | in every reachable state a user's key is that of the latest valid registration, and conversely |
| Runs.UserKeyHasWitness | x/secondarykeys/keeper/msg_server_broadcast_data.go:25-40 | every registered key is non-empty and has a signature that verifies over its own hash |
| Runs.AdmittedIffLatest | app/ante_handler.go:82-131 | over whole runs, a prefixed memo is admitted exactly if the store answers and it presents the key of the first signer's latest registration |
| Runs.RegisteringMemoAdmitsLater | app/ante_handler.go:82-131 | in every run, until another key is registered for the sender, a memo that registered a key is admitted exactly if it has no prefix or a clean text behind it |
| Runs.SignedTextAdmits | app/ante_handler.go:82-131 | in every run, an encoded key with its full or cut signature, broadcast with or without the prefix, admits its sender until the sender registers another key |
| Runs.CreatedMemoAdmits | common/helper_functions.go:49-89 | so a created memo, once broadcast, admits its sender until the sender registers another key |
| Runs.CommittedBindingStable | x/secondarykeys/VoteExtension/propose_handler.go:118-132 | a committed binding stays through all commits and discards |
| Runs.DiscardUndoes | x/secondarykeys/VoteExtension/propose_handler.go:76-139 | calls stay on the branch until a commit; a discard takes them all back |
| Runs.NodeUserKeyIsLatest | x/secondarykeys/keeper/msg_server_broadcast_data.go:30-40 | the latest-registration invariant for both stores of a node |

## Left out

- Votes.VerdictIgnoresKeys: for a store that works; with failing operations the status depends on the failures, as Votes.ProcessRefinesFold says exactly.
- Votes.NodesAgree: for a store that works, for the same reason.
- Votes.ProcessAgain: for a store that works, for the same reason.
- Votes.HonestVoteAccepted: for a store that works; if Set or Get fails, VerifyVoteExtension verifies against a missing key.
- Votes.PreparedAcceptedIff: like Votes.HonestProposalBinds for a store that works; Votes.AcceptsIff has the failures.
- Registration.RegisteringMemoAdmits: like Registration.SignedTextRegisters for a store that works; a failing one is an error, as Registration.AdmittedIff says.
- Messages.MsgBroadcastData.Marshal: like Messages.MsgUpdateParams.Marshal for encodings shorter than 2^63 bytes, as no longer slice exists; Messages.BroadcastSizeExact says when Size overflows.
- Error texts, and the difference between the error variables of tx.pb.go and params.pb.go, which have the same text.
- Nil message receivers, the response messages, sozTx, gRPC, gateway, descriptors and the twins generated for other messages.
- ECDSA, Keccak, JSON, base64 and bech32: parameters with laws.
- Byte strings are values: that Go slices may share memory is not modelled for decoded inputs. The spare capacity behind a decoded signature, which `signature[:64]` may reach into, is a parameter of the environment.
- SetSecondaryPubKeyVoteExtension: no handler calls it.
- UpdateParams, params and genesis storage: Params is empty.
- What the host makes of a panic, and branches of the store other than one above the committed state.
- The other ante decorators, application wiring, the command line, HTTP helpers, benchmarks and logging.
