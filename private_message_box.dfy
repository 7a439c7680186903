/**
 * The PrivateMessageBox runtime module: agents are keyed by the hash of their
 * id, and a message arrives as a proof whose public output carries that hash,
 * the hash of a security code and the message number. An accepted proof records
 * the number together with the block height, sender and nonce of the
 * transaction.
 */
module PrivateBox {
  import opened Outcomes
  import opened O1js
  import opened OfflineProof
  import AgentBox

  type BlockHeight = UInt64

  datatype AgentState = AgentState(lastMessageNumber: Field, securityCodeHash: Digest, blockHeight: BlockHeight,
                                   sender: PublicKey, nonce: UInt64)

  /** What the runtime supplies to a transaction: the current block height, and the sender and
      nonce of the transaction. */
  datatype Context = Context(blockHeight: BlockHeight, sender: PublicKey, nonce: UInt64)

  type AgentMap = map<Digest, AgentState>

  /** `receiveMessageProof` on the state map, for a proof that verifies: the checks in source order,
      the first failure reported. */
  function ReceiveProofStep(state: AgentMap, output: PublicOutput, ctx: Context): Result<AgentMap, string> {
    var agenIdHash := output.agenIdHash;
    if agenIdHash !in state then Failure(AgentBox.ERR_NO_AGENT)
    else
      var current := state[agenIdHash];
      if output.securityCodeHash != current.securityCodeHash then Failure(AgentBox.ERR_CODE_MISMATCH)
      else if !(output.messageNumber > current.lastMessageNumber) then Failure(AgentBox.ERR_NUMBER)
      else Success(state[agenIdHash := AgentState(output.messageNumber, current.securityCodeHash,
                                                  ctx.blockHeight, ctx.sender, ctx.nonce)])
  }

  /** A proof output is accepted exactly when its agent exists, its code hash matches and its number
      is higher; then that agent's entry takes the number and the transaction's block height,
      sender and nonce, keeps its code hash, and no other entry changes. */
  lemma ReceiveProofOutcome(state: AgentMap, output: PublicOutput, ctx: Context)
    ensures var h := output.agenIdHash;
      ReceiveProofStep(state, output, ctx).Success? <==>
        && h in state
        && output.securityCodeHash == state[h].securityCodeHash
        && output.messageNumber > state[h].lastMessageNumber
    ensures var h, r := output.agenIdHash, ReceiveProofStep(state, output, ctx);
      r.Success? ==>
        && r.value.Keys == state.Keys
        && r.value[h].lastMessageNumber == output.messageNumber
        && r.value[h].securityCodeHash == state[h].securityCodeHash
        && r.value[h].blockHeight == ctx.blockHeight
        && r.value[h].sender == ctx.sender
        && r.value[h].nonce == ctx.nonce
        && forall k :: k in state && k != h ==> r.value[k] == state[k]
  {
  }

  /** Each check reports its own message once the checks before it have passed. */
  lemma ReceiveProofErrors(state: AgentMap, output: PublicOutput, ctx: Context)
    ensures var h, r := output.agenIdHash, ReceiveProofStep(state, output, ctx);
      && (h !in state ==> r == Failure(AgentBox.ERR_NO_AGENT))
      && (h in state && output.securityCodeHash != state[h].securityCodeHash
          ==> r == Failure(AgentBox.ERR_CODE_MISMATCH))
      && (h in state && output.securityCodeHash == state[h].securityCodeHash
          && output.messageNumber <= state[h].lastMessageNumber
          ==> r == Failure(AgentBox.ERR_NUMBER))
  {
  }

  /** An accepted number can never be accepted again for the same agent. */
  lemma ReplayRejected(state: AgentMap, output: PublicOutput, ctx: Context, later: Context)
    requires ReceiveProofStep(state, output, ctx).Success?
    ensures ReceiveProofStep(ReceiveProofStep(state, output, ctx).value, output, later)
      == Failure(AgentBox.ERR_NUMBER)
  {
  }

  /** The tests' agent: id 1, last number 0, the hash of code "AB", block height 0, the empty key and
      nonce 0. */
  function TestState(): AgentMap {
    map[Hash([1]) := AgentState(0, Hash(AgentBox.Str("AB").value), 0, EMPTY_KEY, 0)]
  }

  function TestMessage(): AgentBox.Message {
    AgentBox.Message(10, AgentBox.MessageDetails(1, AgentBox.Str("0123456789AB"), AgentBox.Str("AB")))
  }

  /** With the validator as written, the tests' proof is refused by the runtime module too: its code
      hash is the hash of the text. */
  lemma AsWrittenProofRejected(ctx: Context)
    ensures ValidateMessage(TestMessage()).status.Fail?
    ensures ReceiveProofStep(TestState(), ValidateMessage(TestMessage()).output, ctx)
      == Failure(AgentBox.ERR_CODE_MISMATCH)
  {
    ValidatorRejectsTestMessage();
  }

  /** With the intended validator, the tests' proof is accepted and the agent's last number
      becomes 10. */
  lemma IntendedProofAccepted(ctx: Context)
    ensures ValidateMessageIntended(TestMessage()).status.Pass?
    ensures var r := ReceiveProofStep(TestState(), ValidateMessageIntended(TestMessage()).output, ctx);
      r.Success? && r.value[Hash([1])].lastMessageNumber == 10
  {
    ValidatorIntendedAcceptsTestMessage();
  }

  /** The runtime module; the members inherited from the message box are the message box's. */
  class PrivateMessageBox {
    var state: AgentMap
    var blockState: map<BlockHeight, Digest>

    constructor ()
      ensures state == map[] && blockState == map[]
    {
      state := map[];
      blockState := map[];
    }

    /** `initialize`: store the agent's state, replacing any earlier entry. */
    method Initialize(idHash: Digest, agentState: AgentState)
      modifies this
      ensures state == old(state)[idHash := agentState]
      ensures blockState == old(blockState)
    {
      state := state[idHash := agentState];
    }

    /** `receiveMessageProof`, for a proof that verifies, with the transaction's context. */
    method ReceiveMessageProof(output: PublicOutput, ctx: Context) returns (r: Outcome<string>)
      modifies this
      ensures Applied(ReceiveProofStep(old(state), output, ctx), old(state), state, r)
      ensures blockState == old(blockState)
    {
      var agenIdHash := output.agenIdHash;
      if agenIdHash !in state {
        return Fail(AgentBox.ERR_NO_AGENT);
      }
      var contractState := state[agenIdHash];
      if output.securityCodeHash != contractState.securityCodeHash {
        return Fail(AgentBox.ERR_CODE_MISMATCH);
      }
      if !(output.messageNumber > contractState.lastMessageNumber) {
        return Fail(AgentBox.ERR_NUMBER);
      }
      contractState := contractState.(lastMessageNumber := output.messageNumber);
      contractState := contractState.(blockHeight := ctx.blockHeight);
      contractState := contractState.(sender := ctx.sender);
      contractState := contractState.(nonce := ctx.nonce);
      state := state[agenIdHash := contractState];
      r := Pass;
    }
  }
}
