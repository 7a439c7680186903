/**
 * The offline message validator: a zero-knowledge program whose only method
 * checks a message's lengths and publishes the hash of the agent id, the hash
 * of the security code and the message number, keeping the text private. A
 * failed length check is reported next to the output, with the first failing
 * message.
 */
module OfflineProof {
  import opened Outcomes
  import opened O1js
  import opened AgentBox

  /** The public output of a message proof. */
  datatype PublicOutput = PublicOutput(agenIdHash: Digest, securityCodeHash: Digest, messageNumber: Field)

  /** The output of a validator run and the first of its checks that failed, if any. */
  datatype Validation = Validation(output: PublicOutput, status: Outcome<string>)

  /** The two length checks on the strings the validator measures, first failure reported. */
  function LengthChecks(characters: String, securityCode: String): (r: Outcome<string>)
    ensures r.Pass? <==> Length(characters.value) == CHARACTERS_LENGTH && Length(securityCode.value) == CODE_LENGTH
    ensures Length(characters.value) != CHARACTERS_LENGTH ==> r == Fail(ERR_MESSAGE_LENGTH)
  {
    if Length(characters.value) != CHARACTERS_LENGTH then Fail(ERR_MESSAGE_LENGTH)
    else if Length(securityCode.value) != CODE_LENGTH then Fail(ERR_CODE_LENGTH)
    else Pass
  }

  /** `validateMessage` as written: the string it takes for the security code is the message text,
      so the published code hash is the hash of the text and no message passes both length checks. */
  function ValidateMessage(message: Message): (r: Validation)
    ensures r.status.Fail?
    ensures r.output.securityCodeHash == Hash(message.details.characters.value)
  {
    var agentId := message.details.agentId;
    var characters := message.details.characters;
    var securityCode := message.details.characters;
    Validation(PublicOutput(Hash([agentId]), Hash(securityCode.value), message.number),
               LengthChecks(characters, securityCode))
  }

  /** As written, the output carries the message number and the hash of the agent id alone, and the
      security code of the message is never read. */
  lemma ValidateMessageAsWritten(message: Message)
    ensures var v := ValidateMessage(message);
      && v.output.messageNumber == message.number
      && v.output.agenIdHash == Hash([message.details.agentId])
    ensures forall code: String ::
      ValidateMessage(message) == ValidateMessage(message.(details := message.details.(securityCode := code)))
  {
  }

  /** The tests' message, number 10 from agent 1 with code "AB": as written, it is rejected with
      the code length message and its output hash is that of the text, not of "AB". */
  lemma ValidatorRejectsTestMessage()
    ensures var m := Message(10, MessageDetails(1, Str("0123456789AB"), Str("AB")));
      && ValidateMessage(m).status == Fail(ERR_CODE_LENGTH)
      && ValidateMessage(m).output.securityCodeHash != Hash(Str("AB").value)
  {
    LengthOfText("0123456789AB");
    assert Str("AB").value[2] != Str("0123456789AB").value[2];
  }

  /** `validateMessage` as evidently intended: the security code checked and hashed is the one in
      the message's details, and a message passes when its text has 12 characters and its code 2. */
  function ValidateMessageIntended(message: Message): (r: Validation)
    ensures r.status.Pass? <==>
      Length(message.details.characters.value) == CHARACTERS_LENGTH &&
      Length(message.details.securityCode.value) == CODE_LENGTH
    ensures r.output.securityCodeHash == Hash(message.details.securityCode.value)
  {
    var agentId := message.details.agentId;
    var characters := message.details.characters;
    var securityCode := message.details.securityCode;
    Validation(PublicOutput(Hash([agentId]), Hash(securityCode.value), message.number),
               LengthChecks(characters, securityCode))
  }

  /** The intended validator publishes the hashes of the agent id and of the code and the message
      number, and nothing that depends on the text. */
  lemma ValidateMessageIntendedOutcome(message: Message)
    ensures ValidateMessageIntended(message).output ==
      PublicOutput(Hash([message.details.agentId]), Hash(message.details.securityCode.value), message.number)
    ensures forall text: String ::
      ValidateMessageIntended(message.(details := message.details.(characters := text))).output
        == ValidateMessageIntended(message).output
  {
  }

  /** Two outputs of the intended validator agree on their hashes exactly when the messages agree on
      agent id and security code. */
  lemma IntendedOutputBindsIdAndCode(m1: Message, m2: Message)
    ensures var o1, o2 := ValidateMessageIntended(m1).output, ValidateMessageIntended(m2).output;
      (o1.agenIdHash == o2.agenIdHash && o1.securityCodeHash == o2.securityCodeHash) <==>
      (m1.details.agentId == m2.details.agentId && m1.details.securityCode == m2.details.securityCode)
  {
    var o1, o2 := ValidateMessageIntended(m1).output, ValidateMessageIntended(m2).output;
    if o1.agenIdHash == o2.agenIdHash {
      assert [m1.details.agentId][0] == [m2.details.agentId][0];
    }
  }

  /** The intended validator accepts the tests' message. */
  lemma ValidatorIntendedAcceptsTestMessage()
    ensures var m := Message(10, MessageDetails(1, Str("0123456789AB"), Str("AB")));
      ValidateMessageIntended(m).status.Pass?
  {
    LengthOfText("0123456789AB");
    LengthOfText("AB");
  }
}
