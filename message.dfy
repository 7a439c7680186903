/**
 * The record types of the batched message processor: an agent's private
 * details, the message that carries them, the public residue that is
 * dispatched, and the fixed-size batch a call receives.
 */
module MessageTypes {
  import opened O1js

  /** An agent's identifying and positional fields and their checksum. */
  datatype Agent = Agent(id: UInt32, xLocation: UInt32, yLocation: UInt32, checksum: UInt32)

  /** A full message, agent details included; only its public part reaches the chain. */
  datatype Message = Message(number: Field, agent: Agent)

  /** The public part of a message that is dispatched as an action. */
  datatype PublicMessage = PublicMessage(number: Field, isValid: bool)

  /** `PublicMessage.from`. */
  function PublicMessageFrom(number: Field, isValid: bool): (p: PublicMessage)
    ensures p.number == number && p.isValid == isValid
  {
    PublicMessage(number, isValid)
  }

  /** How many messages one batch carries. */
  const BATCH_SIZE: nat := 10

  /** A `Provable.Array(Message, BATCH_SIZE)`. */
  datatype BatchMessages = BatchMessages(value: seq<Message>)

  /** `BatchMessages.from`: the provable array type holds exactly BATCH_SIZE messages. */
  function BatchMessagesFrom(messages: seq<Message>): (b: BatchMessages)
    requires |messages| == BATCH_SIZE
    ensures |b.value| == BATCH_SIZE
    ensures forall i :: 0 <= i < BATCH_SIZE ==> b.value[i] == messages[i]
  {
    BatchMessages(messages)
  }

  /** The tests' filler message `createMessage()`: number 0 from agent 3000 at (1000, 6000). */
  const FILLER := Message(0, Agent(3000, 1000, 6000, 10000))

  /** The tests' `sendBatchMessages` padding: the messages, then fillers, cut to BATCH_SIZE. */
  function Padded(messages: seq<Message>): (b: seq<Message>)
    ensures |b| == BATCH_SIZE
    ensures forall i :: 0 <= i < BATCH_SIZE ==>
      b[i] == if i < |messages| then messages[i] else FILLER
  {
    (messages + seq(BATCH_SIZE, _ => FILLER))[..BATCH_SIZE]
  }
}
