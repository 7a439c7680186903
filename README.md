# Mina learn-to-earn challenges in Dafny

A model of four small Mina zkApp and Protokit state machines, with proofs of
their contracts:

1. **SecretMessageBox** (module `SecretBox`). An administrator registers up to 100
   addresses in a Merkle map. Each registered address may then deposit one message.
   The message must be neither 0 nor the placeholder, and its six top-bit flags must
   obey three rules.
2. **MessageProcessor** (modules `MessageTypes`, `Processor`).
   - Batches of 10 agent messages are validated.
   - Their `(number, isValid)` residue goes to an append-only action log.
   - A roll-up folds the pending actions into the highest valid message number.
3. **MessageBox** (module `AgentBox`). This is a Protokit runtime module.
   - It stores each agent's last message number and security code.
   - It accepts a message only when five checks pass, and it reports the first one that fails.
   - It includes `String.getLength`, modelled exactly with its quirk.
4. **PrivateMessageBox and the offline validator** (modules `OfflineProof`, `PrivateBox`).
   - A zero-knowledge program publishes the hashes of the agent id and of the security
     code, together with the message number.
   - The runtime module checks that output against per-agent state. On success it records
     the block height, the sender and the nonce.

The shared modules are:

- `Outcomes`: `Option`, `Result`, and `Outcome` (a pass, or a failure with its error).
- `O1js`: fields as unbounded naturals, `UInt32` with overflow-checked addition, public
  keys, and the Poseidon hash as an injective digest.
- `MerkleMap`: a root is the map of its non-empty leaves, and a witness is what the
  siblings along a path commit to.

Each contract has the same three parts:

- **A pure step function.** It takes the old state and the call's inputs. It returns the
  new state, or the first assertion that fails. This is where the lemmas look.
- **A class with the source's fields.** Its methods do the same work imperatively. Each
  method's `ensures` ties the new fields to the step function of the old ones: on a
  failure, nothing changes.
- **Counter and cursor invariants.** The `SecretMessageBox` and `MessageProcessor` classes
  keep them as `Valid()`.

Both failure semantics map to that single "first failure, state unchanged" result:

- o1js: a failed assertion aborts the transaction.
- Protokit: a failed `assert` keeps the first failing message and drops the transaction's
  state changes.

## Model

| member | source | states |
|---|---|---|
| O1js.PublicKey.ToFields | challenge_1/src/secret_message_box.ts:91-94 | definition of `toFields`: two fields, the first the key's x coordinate; characterised by KeyFingerprintInjective |
| O1js.Hash | challenge_1/src/secret_message_box.ts:91-94 | definition of `Poseidon.hash` as an injective digest of its input fields; characterised by KeyFingerprintInjective and OfflineProof.IntendedOutputBindsIdAndCode |
| O1js.AddUInt32 | challenge_2/src/message_processor.ts:49 | UInt32 addition yields a value exactly when the sum is below 2^32, and then the sum itself |
| O1js.KeyFingerprintInjective | challenge_1/src/secret_message_box.ts:91-94 | two public keys have the same Poseidon fingerprint exactly when they are the same key |
| MerkleMap.Get | challenge_1/src/secret_message_box.ts:95-97 | definition of the leaf a root holds for a key, 0 when absent; characterised by Commit and RootExtensional |
| MerkleMap.ComputeRoot | challenge_1/src/secret_message_box.ts:95 | definition of the root part of `computeRootAndKey`; characterised by ComputeRootMatches and ComputeRootUpdates |
| MerkleMap.ComputeKey | challenge_1/src/secret_message_box.ts:95 | definition of the key part of `computeRootAndKey`; characterised by ComputeRootMatches |
| MerkleMap.Commit | challenge_1/src/secret_message_box.ts:69-70 | the root committing to a map reads back every key's value, 0 for absent keys |
| MerkleMap.RootExtensional | challenge_1/src/secret_message_box.ts:95-97 | two roots are equal exactly when they hold the same value at every key |
| MerkleMap.Set | challenge_1/src/secret_message_box.ts:103-104 | writing a leaf changes that key's value and no other |
| MerkleMap.WitnessFor | challenge_1/src/secret_message_box.test.ts:193 | the map's witness for a key is for that key and agrees with the root elsewhere |
| MerkleMap.ComputeRootMatches | challenge_1/src/secret_message_box.ts:95-97 | a witness recomputes the root for a value exactly when the root holds that value at the witness's key and the witness is honest about the other leaves |
| MerkleMap.ComputeRootUpdates | challenge_1/src/secret_message_box.ts:103-104 | a witness that matched the root recomputes, for a new value, the root with only that leaf changed |
| MerkleMap.WitnessForChecks | challenge_1/src/secret_message_box.test.ts:193 | the map's own witness recomputes the current root from the current leaf |
| SecretBox.ReadFlags | challenge_1/src/secret_message_box.ts:133 | definition of the six top bits read as flags; characterised by ReadFromFlags, FlagsOfTopBits and ReadFlagsIgnoresLowBits |
| SecretBox.Flag1Exclusive | challenge_1/src/secret_message_box.ts:135-136 | definition of the flag 1 rule; characterised by DummyBreaksFlagRules and FlagRuleExamples |
| SecretBox.Flag2NeedsFlag3 | challenge_1/src/secret_message_box.ts:138-139 | definition of the flag 2 rule; characterised by FlagRuleExamples |
| SecretBox.Flag4Exclusive | challenge_1/src/secret_message_box.ts:141-142 | definition of the flag 4 rule; characterised by FlagRuleExamples |
| SecretBox.FlagRulesHold | challenge_1/src/secret_message_box.ts:133-142 | definition of the three flag rules together; characterised by DepositMessageOutcome and FlagRuleExamples |
| SecretBox.ReadFromFlags | challenge_1/src/secret_message_box.test.ts:217-234 | reading the flags of the message the test helper builds from six flags returns those flags |
| SecretBox.FlagsOfTopBits | challenge_1/src/secret_message_box.ts:133 | the six flags are recovered, flag 1 lowest, from the binary digits of the number they make |
| SecretBox.ReadFlagsIgnoresLowBits | challenge_1/src/secret_message_box.ts:133 | only bits 249 and up are inspected; the bits below never change the flags |
| SecretBox.DummyBreaksFlagRules | challenge_1/src/secret_message_box.ts:28-32 | the placeholder carries exactly flags 1 and 2, so it violates the flag 1 rule |
| SecretBox.FlagRuleExamples | challenge_1/src/secret_message_box.test.ts:100-167 | the three accepted and three rejected flag combinations of the tests obey or break the stated rule |
| SecretBox.Deploy | challenge_1/src/secret_message_box.ts:60-77 | deployment makes the deployer's fingerprint the admin, every leaf empty and both counters 0 |
| SecretBox.StoreAddressStep | challenge_1/src/secret_message_box.ts:81-108 | definition; characterised by StoreAddressOutcome, StorePreservesInv and StepsAdvanceOneLeaf |
| SecretBox.StoreAddressOutcome | challenge_1/src/secret_message_box.ts:81-108 | storing succeeds exactly when the signer is admin, the witness is honest for the address's key, the leaf is empty and fewer than 100 are stored; then that leaf becomes the placeholder, the address count grows by one and nothing else changes |
| SecretBox.StoreRegisteredFails | challenge_1/src/secret_message_box.ts:93-97 | an address whose leaf is not empty cannot be stored with any witness |
| SecretBox.StoreTwiceFails | challenge_1/src/secret_message_box.ts:93-97 | storing an address a second time fails, whoever signs and whatever witness is used |
| SecretBox.StoreAtCapacityFails | challenge_1/src/secret_message_box.ts:99-100 | with 100 addresses stored, every further store fails |
| SecretBox.DepositMessageStep | challenge_1/src/secret_message_box.ts:112-153 | definition; characterised by DepositMessageOutcome, DepositPreservesInv and StepsAdvanceOneLeaf |
| SecretBox.DepositMessageOutcome | challenge_1/src/secret_message_box.ts:112-153 | depositing succeeds exactly when the sender's leaf holds the placeholder under an honest witness, the message is neither 0 nor the placeholder, the three flag rules hold and the counter does not overflow; then that leaf holds the message, the count grows by one and the old count is emitted |
| SecretBox.DepositNotEligibleFails | challenge_1/src/secret_message_box.ts:122-125 | a sender whose leaf is not the placeholder (never registered, or already deposited) cannot deposit |
| SecretBox.DepositTwiceFails | challenge_1/src/secret_message_box.ts:122-125 | a second deposit by the same sender fails |
| SecretBox.DepositRejectsSentinels | challenge_1/src/secret_message_box.ts:127-131 | the empty message and the placeholder are always refused |
| SecretBox.StepsAdvanceOneLeaf | challenge_1/src/secret_message_box.ts:93-146 | each successful call moves exactly one leaf one stage forward (empty, registered, deposited) and leaves all other leaves untouched |
| SecretBox.InvBoundsCounters | challenge_1/src/secret_message_box.ts:99-107 | under the invariant, messages deposited ≤ addresses stored ≤ 100 |
| SecretBox.DeployEstablishesInv | challenge_1/src/secret_message_box.ts:72-76 | deployment establishes the invariant relating counters, leaves and events |
| SecretBox.StorePreservesInv | challenge_1/src/secret_message_box.ts:102-107 | a successful store keeps the address count equal to the number of non-empty leaves |
| SecretBox.DepositPreservesInv | challenge_1/src/secret_message_box.ts:144-152 | a successful deposit keeps the message count equal to the number of deposited leaves, and the i-th event carries i |
| SecretBox.InvPreventsCounterOverflow | challenge_1/src/secret_message_box.ts:149 | under the invariant, the message counter's checked increment never overflows |
| SecretBox.SecretMessageBox.constructor | challenge_1/src/secret_message_box.ts:60-77 | the deployed contract's fields are the deployment state, and the invariant holds |
| SecretBox.SecretMessageBox.StoreAddress | challenge_1/src/secret_message_box.ts:81-108 | the fields become the store step's result, or stay as they were with the first failing check reported; the invariant is kept |
| SecretBox.SecretMessageBox.DepositMessage | challenge_1/src/secret_message_box.ts:112-153 | the fields become the deposit step's result, or stay as they were with the first failing check reported; the invariant is kept |
| MessageTypes.PublicMessageFrom | challenge_2/src/message.ts:11-13 | the public message carries the given number and validity |
| MessageTypes.BatchMessagesFrom | challenge_2/src/message.ts:20-23 | a batch holds exactly the 10 given messages in order |
| MessageTypes.Padded | challenge_2/src/message_processor.test.ts:224-226 | the tests' batch is the given messages followed by fillers, exactly 10 long |
| Processor.IsValid | challenge_2/src/message_processor.ts:42-68 | definition; characterised by IsValidRules |
| Processor.IsValidRules | challenge_2/src/message_processor.ts:42-68 | validation aborts exactly when id + x + y does not fit in 32 bits; otherwise agent 0 is always valid, and any other agent is valid exactly when checksum = id + x + y, 0 < id < 3000, 0 < x < 15000, 5000 < y < 20000 and y > x |
| Processor.Dispatch | challenge_2/src/message_processor.ts:36-39 | a batch dispatches one action per message, in order, with its number and validity; nothing is dispatched when any validation aborts |
| Processor.Reduce | challenge_2/src/message_processor.ts:83-93 | definition; characterised by ReduceIsMax and ReduceAppend |
| Processor.ReduceStep | challenge_2/src/message_processor.ts:86-91 | a valid action raises the state to the maximum of state and number; an invalid one leaves it |
| Processor.ReduceIsMax | challenge_2/src/message_processor.ts:83-93 | the fold is at least the start state, bounds every valid action's number, and equals the start or some valid action's number |
| Processor.ReduceAppend | challenge_2/src/message_processor.ts:78-93 | folding two stretches of the log in turn equals folding them at once |
| Processor.ReduceSnoc | challenge_2/src/message_processor.ts:83-93 | folding one more action applies the reducer step to the fold so far |
| Processor.ReduceSplit | challenge_2/src/message_processor.ts:78-93 | folding the whole log equals folding the processed part and then the pending part |
| Processor.ReduceWithoutHigherKeepsState | challenge_2/src/message_processor.ts:87-90 | actions that are invalid or not above the state (duplicates) leave it unchanged |
| Processor.ZeroAgentValid | challenge_2/src/message_processor.ts:63-67 | the tests' agent-0 message (x 1000, y 6000, checksum 7000) is valid whatever its number |
| Processor.FillerInvalid | challenge_2/src/message_processor.ts:51-52 | the tests' filler, from agent 3000, is invalid |
| Processor.HighestNumberScenario | challenge_2/src/message_processor.test.ts:186-199 | the tests' batch 100, 10, 100000, 250, 1 rolls up to 100000 from any state up to 100000 |
| Processor.ProcessedAggregateIsMax | challenge_2/src/message_processor.ts:12-13 | the stored aggregate bounds every valid processed message number |
| Processor.ProcessedAggregateMonotone | challenge_2/src/message_processor.ts:83-97 | the aggregate after processing up to one cursor is at most the aggregate after processing up to a later one |
| Processor.MessageProcessor.constructor | challenge_2/src/message_processor.ts:20-26 | deployment starts with aggregate 0, cursor 0 and an empty log |
| Processor.MessageProcessor.ReceiveMessages | challenge_2/src/message_processor.ts:35-40 | the log grows by exactly the batch's dispatched actions, or not at all when a validation aborts; aggregate and cursor are unchanged |
| Processor.MessageProcessor.ProcessMessages | challenge_2/src/message_processor.ts:72-98 | the cursor moves to the end of the log and the aggregate becomes the fold of the pending actions over the old aggregate; the aggregate stays the fold of all processed actions |
| AgentBox.FromString | challenge_3/packages/chain/src/message_box.ts:33-35 | a text of at most 128 characters becomes its character codes padded with zeros; a longer one is refused |
| AgentBox.FirstZeroFrom | challenge_3/packages/chain/src/message_box.ts:41-49 | the first position from a start that holds a zero, or 128 when there is none |
| AgentBox.Length | challenge_3/packages/chain/src/message_box.ts:41-49 | the length is 0 exactly when positions 1..127 hold no zero, and otherwise the first position from 1 that holds a zero |
| AgentBox.GetLength | challenge_3/packages/chain/src/message_box.ts:41-49 | the 128-step loop computes that length |
| AgentBox.LengthOfText | challenge_3/packages/chain/src/message_box.ts:41-49 | for a text without NUL characters, the measured length is its length when that is 1..127, 1 for the empty text and 0 for a full 128-character text |
| AgentBox.EmptyAndSingleCharacterCollide | challenge_3/packages/chain/src/message_box.ts:41-49 | the empty text and a one-character text both measure 1 |
| AgentBox.ReceiveMessageStep | challenge_3/packages/chain/src/message_box.ts:98-124 | definition; characterised by ReceiveMessageOutcome and ReceiveMessageErrors |
| AgentBox.ReceiveMessageOutcome | challenge_3/packages/chain/src/message_box.ts:98-124 | a message is accepted exactly when the agent exists, the code matches, the text measures 12, the code measures 2 and the number is above the last; then only that agent changes, to the new number, keeping its code |
| AgentBox.ReceiveMessageErrors | challenge_3/packages/chain/src/message_box.ts:101-119 | an unknown agent, a code mismatch, a wrong text length, a wrong code length and a number not above the last each report their own message when the earlier checks pass; a number not above the last always fails |
| AgentBox.CodeMismatchReportedBeforeLength | challenge_3/packages/chain/test/message_box.test.ts:97-103 | a three-character code for an agent with a two-character code reports the mismatch, not the length |
| AgentBox.AcceptThenRefuseReplay | challenge_3/packages/chain/test/message_box.test.ts:63-119 | message 10 with the right code is accepted, and then both 10 and 9 are refused with the number message |
| AgentBox.ApplyConfig | challenge_3/packages/chain/src/message_box.ts:88-90 | writing the configuration keeps every existing agent and adds every configured one |
| AgentBox.ApplyConfigKeys | challenge_3/packages/chain/src/message_box.ts:88-90 | after init, the agents are exactly those there before and those configured |
| AgentBox.ApplyConfigLastWins | challenge_3/packages/chain/src/message_box.ts:88-90 | after init, each configured agent holds the state of its last configuration entry |
| AgentBox.ApplyConfigOthersUntouched | challenge_3/packages/chain/src/message_box.ts:88-90 | init leaves every agent that is not configured as it was |
| AgentBox.InitThenRefusals | challenge_3/packages/chain/test/message_box.test.ts:73-95 | after the tests' init, an unknown agent, a wrong code and a 15-character text each get their own message |
| AgentBox.MessageBox.constructor | challenge_3/packages/chain/src/message_box.ts:81-82 | the module starts with its configuration and an empty state map |
| AgentBox.MessageBox.Init | challenge_3/packages/chain/src/message_box.ts:88-90 | the state map becomes the configuration written over it in order |
| AgentBox.MessageBox.ReceiveMessage | challenge_3/packages/chain/src/message_box.ts:98-124 | the state map becomes the receive step's result, or stays as it was with the first failing message reported |
| OfflineProof.LengthChecks | challenge_4/packages/chain/src/offline_proof.ts:21-22 | the checks pass exactly when the first string measures 12 and the second 2, and a wrong text length is reported first |
| OfflineProof.ValidateMessage | challenge_4/packages/chain/src/offline_proof.ts:15-34 | as written, every message fails a length check, and the published code hash is the hash of the message text |
| OfflineProof.ValidateMessageAsWritten | challenge_4/packages/chain/src/offline_proof.ts:16-33 | the output carries the message number and the hash of the agent id alone, and no output or status depends on the message's security code |
| OfflineProof.ValidatorRejectsTestMessage | challenge_4/packages/chain/src/offline_proof.ts:18-26 | the tests' message (10, "0123456789AB", code "AB") fails with the code length message, and its code hash differs from the hash of "AB" |
| OfflineProof.ValidateMessageIntended | challenge_4/packages/chain/src/offline_proof.ts:15-34 | with the code read from the details, a message passes exactly when its text measures 12 and its code 2, and the output hashes the code |
| OfflineProof.ValidateMessageIntendedOutcome | challenge_4/packages/chain/src/offline_proof.ts:25-33 | the output is the hash of the agent id, the hash of the code and the number, whatever the text |
| OfflineProof.IntendedOutputBindsIdAndCode | challenge_4/packages/chain/src/offline_proof.ts:25-26 | two outputs agree on both hashes exactly when the messages agree on agent id and security code |
| OfflineProof.ValidatorIntendedAcceptsTestMessage | challenge_4/packages/chain/test/private_message_box.test.ts:52-55 | the corrected validator passes the tests' message |
| PrivateBox.ReceiveProofStep | challenge_4/packages/chain/src/private_message_box.ts:53-78 | definition; characterised by ReceiveProofOutcome and ReceiveProofErrors |
| PrivateBox.ReceiveProofOutcome | challenge_4/packages/chain/src/private_message_box.ts:53-78 | a proof output is accepted exactly when the agent hash is known, the code hash matches and the number is higher; then that agent records the number, block height, sender and nonce, keeps its code hash, and no other agent changes |
| PrivateBox.ReceiveProofErrors | challenge_4/packages/chain/src/private_message_box.ts:58-70 | the checks run in the order existence, code, number, each reporting its own message |
| PrivateBox.ReplayRejected | challenge_4/packages/chain/src/private_message_box.ts:67-73 | an accepted output is refused the second time, with the number message |
| PrivateBox.AsWrittenProofRejected | challenge_4/packages/chain/src/private_message_box.ts:64 | with the validator as written, the tests' proof fails its length check and is refused for a code mismatch |
| PrivateBox.IntendedProofAccepted | challenge_4/packages/chain/test/private_message_box.test.ts:52-63 | with the corrected validator, the tests' proof is accepted and the agent's last number becomes 10 |
| PrivateBox.PrivateMessageBox.constructor | challenge_4/packages/chain/src/private_message_box.ts:36-37 | both state maps start empty |
| PrivateBox.PrivateMessageBox.Initialize | challenge_4/packages/chain/src/private_message_box.ts:43-45 | the agent's entry is set, replacing any earlier one; `blockState` is untouched |
| PrivateBox.PrivateMessageBox.ReceiveMessageProof | challenge_4/packages/chain/src/private_message_box.ts:53-78 | the state map becomes the receive step's result, or stays as it was with the first failing message reported; `blockState` is never written |

## Left out

- **Poseidon.** The hash is modelled as an injective digest of its input fields, so collisions are not modelled.
- **Merkle map internals.** A root is modelled as the map of non-empty leaves and a witness as its key plus what its siblings commit to. Tree depth, the path and the hashing along it are not modelled.
- **Field modulus.** Fields are unbounded naturals, so wrap-around modulo the Pallas prime is not modelled, and `greaterThan` compares the naturals. In provable code the o1js field comparisons (`lessThanOrEqual` at message_processor.ts:88, `greaterThan` at message_box.ts:116 and private_message_box.ts:67) accept only values of at most 253 bits. So a message or action number of 2^253 or more makes the source abort, where the model still compares the naturals. The Pallas modulus exceeds 2^254 by less than 2^126, so a real field element with bit 254 (the bit read as flag 6) set has bits 126 to 253 clear: flag 6 then comes alone. The model admits messages at or above the modulus, in which flag 6 may be set next to flags 1 to 5.
- **Data the model takes as given.** Transaction sender, signatures, `AccountUpdate.createSigned` and permissions are not modelled: the signer is an input. The same goes for `getAndRequireEquals` preconditions.
- **Runtime context for the private message box.** Block height, sender and nonce are values passed in as a `Context`.
- **Proof verification.** `messageProof.verify()` is assumed to succeed. The runtime module receives the public output.
- **Action hash chain.** The reducer's hash chain and its limits on pending actions are not modelled. The on-chain `actionState` is a cursor into an explicit log, and `Reducer.initialActionState` is cursor 0.
- **Events.** Only their values are kept, as a sequence.
- **Failed proofs of `receiveMessages`.** A checksum sum that overflows 32 bits aborts the whole proof, and the model dispatches nothing for that batch. No partial batch is modelled.
- **Processor.MessageProcessor.ReceiveMessages** is stated for batches of exactly 10 messages; the provable array type fixes that length.
- **Key identity in the configuration.** A JavaScript `Map` keeps its entries in insertion order, and its `AgentId` keys are distinct objects. The model's configuration is a sequence of (id, state) pairs, so later entries win on equal ids.
- **Inheritance.** `PrivateMessageBox` inherits `contractState` and `receiveMessage` from the message box. That part is modelled once, in `AgentBox`.
- **Characters.** Character codes are taken as the text's code units: `char` values as naturals. There is no UTF-16 surrogate handling.
- **Configuration and module plumbing.** The runtime configuration files and the Balances module are not modelled.
- **`BatchMessages.hash`.** It is not modelled; nothing in the core uses it.
- **`getValue`.** `String.getValue` is the identity on the wrapped CircuitString, so the model reads `value` directly.

## Findings

| source | as written | input that shows it | evidently intended | confidence | as-written member | corrected member |
|---|---|---|---|---|---|---|
| challenge_4/packages/chain/src/offline_proof.ts:18 | `securityCode` is bound to `message.details.characters`. Both length checks then measure the message text, which cannot measure both 12 and 2, so no message validates, and the published code hash is the hash of the text | message number 10 from agent 1, text "0123456789AB", code "AB" (the tests' message): fails "Security code length is wrong", and its code hash is not the hash of "AB" | `securityCode` bound to `message.details.securityCode`: a message with a 12-character text and a 2-character code passes, and the hash of its code is published | not executed | OfflineProof.ValidateMessage | OfflineProof.ValidateMessageIntended |
