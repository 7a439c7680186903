/**
 * The Protokit MessageBox runtime module: a state map from agent id to the
 * agent's last message number and security code. A message is accepted when
 * its agent exists, its security code matches, its text has 12 characters, its
 * code has 2, and its number is above the agent's last one; the agent's last
 * number then becomes the message's. A failed `assert` keeps the first failing
 * message and drops every state change of the transaction.
 */
module AgentBox {
  import opened Outcomes
  import opened O1js

  /** How many characters a message text must measure. */
  const CHARACTERS_LENGTH: nat := 12

  /** How many characters a security code must measure. */
  const CODE_LENGTH: nat := 2

  /** `CircuitString.maxLength`. */
  const MAX_LENGTH: nat := 128

  type AgentId = Field

  /** The character values of a CircuitString: always MAX_LENGTH of them. */
  type Chars = s: seq<Field> | |s| == MAX_LENGTH witness seq(MAX_LENGTH, _ => 0)

  /** The `String` wrapper around a CircuitString. */
  datatype String = String(value: Chars)

  /** `String.fromString`: the character codes of the text, padded with zeros; a text longer than
      MAX_LENGTH is refused. */
  function FromString(text: string): (r: Option<String>)
    ensures r.Some? <==> |text| <= MAX_LENGTH
    ensures r.Some? ==> forall i :: 0 <= i < MAX_LENGTH ==>
      r.value.value[i] == if i < |text| then text[i] as Field else 0
  {
    if |text| <= MAX_LENGTH then
      Some(String(seq(MAX_LENGTH, i requires 0 <= i < MAX_LENGTH => if i < |text| then text[i] as Field else 0)))
    else None
  }

  /** The first index at or after `from` holding a zero character, or MAX_LENGTH when there is none. */
  function FirstZeroFrom(c: Chars, from: nat): (j: nat)
    requires from <= MAX_LENGTH
    ensures from <= j <= MAX_LENGTH
    ensures j < MAX_LENGTH ==> c[j] == 0
    ensures forall i :: from <= i < j ==> c[i] != 0
    decreases MAX_LENGTH - from
  {
    if from == MAX_LENGTH then MAX_LENGTH
    else if c[from] == 0 then from
    else FirstZeroFrom(c, from + 1)
  }

  /**
   * What `getLength` computes. Its accumulator doubles as "no zero found yet",
   * so a zero in position 0 is passed over: the result is the first position
   * from 1 on that holds a zero, or 0 when there is none.
   */
  function Length(c: Chars): (n: nat)
    ensures n < MAX_LENGTH
    ensures n == 0 <==> forall i :: 1 <= i < MAX_LENGTH ==> c[i] != 0
    ensures n != 0 ==> c[n] == 0 && forall i :: 1 <= i < n ==> c[i] != 0
  {
    var j := FirstZeroFrom(c, 1);
    if j < MAX_LENGTH then j else 0
  }

  /** `String.getLength`, the loop over all MAX_LENGTH characters. */
  method GetLength(s: String) returns (length: Field)
    ensures length == Length(s.value)
  {
    length := 0;
    for i := 0 to MAX_LENGTH
      invariant length == 0 ==> forall j :: 1 <= j < i ==> s.value[j] != 0
      invariant length != 0 ==>
        1 <= length < i && s.value[length] == 0 && forall j :: 1 <= j < length ==> s.value[j] != 0
    {
      var character := s.value[i];
      length := if length == 0 && character == 0 then i else length;
    }
  }

  /** On a text without NUL characters, getLength is the text's length, except that the empty text
      measures 1 and a text filling all MAX_LENGTH characters measures 0. */
  lemma LengthOfText(text: string)
    requires |text| <= MAX_LENGTH
    requires forall i :: 0 <= i < |text| ==> text[i] as Field != 0
    ensures var n := Length(FromString(text).value.value);
      && (1 <= |text| < MAX_LENGTH ==> n == |text|)
      && (|text| == 0 ==> n == 1)
      && (|text| == MAX_LENGTH ==> n == 0)
  {
    var c := FromString(text).value.value;
    var n := Length(c);
    if 1 <= |text| < MAX_LENGTH {
      assert c[|text|] == 0;
    } else if |text| == 0 {
      assert c[1] == 0;
    }
  }

  /** The empty text and a one-character text are indistinguishable by length. */
  lemma EmptyAndSingleCharacterCollide()
    ensures Length(FromString("").value.value) == Length(FromString("A").value.value) == 1
  {
    LengthOfText("");
    LengthOfText("A");
  }

  datatype AgentState = AgentState(lastMessageNumber: Field, securityCode: String)

  datatype MessageDetails = MessageDetails(agentId: AgentId, characters: String, securityCode: String)

  datatype Message = Message(number: Field, details: MessageDetails)

  const ERR_NO_AGENT := "AgentID does not exist in the system"
  const ERR_CODE_MISMATCH := "Security code does not match"
  const ERR_MESSAGE_LENGTH := "Message length is wrong"
  const ERR_CODE_LENGTH := "Security code length is wrong"
  const ERR_NUMBER := "Message number must be greater than the last highest in state"

  /** `receiveMessage` on the state map: the checks in source order, the first failure reported. */
  function ReceiveMessageStep(state: map<AgentId, AgentState>, message: Message)
    : Result<map<AgentId, AgentState>, string>
  {
    var agentId := message.details.agentId;
    if agentId !in state then Failure(ERR_NO_AGENT)
    else
      var current := state[agentId];
      if message.details.securityCode != current.securityCode then Failure(ERR_CODE_MISMATCH)
      else if Length(message.details.characters.value) != CHARACTERS_LENGTH then Failure(ERR_MESSAGE_LENGTH)
      else if Length(message.details.securityCode.value) != CODE_LENGTH then Failure(ERR_CODE_LENGTH)
      else if !(message.number > current.lastMessageNumber) then Failure(ERR_NUMBER)
      else Success(state[agentId := current.(lastMessageNumber := message.number)])
  }

  /** A message is accepted exactly when all five checks pass; then only its agent's last number
      changes, to the message's number. */
  lemma ReceiveMessageOutcome(state: map<AgentId, AgentState>, message: Message)
    ensures var id := message.details.agentId;
      ReceiveMessageStep(state, message).Success? <==>
        && id in state
        && message.details.securityCode == state[id].securityCode
        && Length(message.details.characters.value) == CHARACTERS_LENGTH
        && Length(message.details.securityCode.value) == CODE_LENGTH
        && message.number > state[id].lastMessageNumber
    ensures var id, r := message.details.agentId, ReceiveMessageStep(state, message);
      r.Success? ==>
        && r.value.Keys == state.Keys
        && r.value[id].lastMessageNumber == message.number
        && r.value[id].securityCode == state[id].securityCode
        && forall k :: k in state && k != id ==> r.value[k] == state[k]
  {
  }

  /** Each check reports its own message once the checks before it have passed. */
  lemma ReceiveMessageErrors(state: map<AgentId, AgentState>, message: Message)
    ensures var id, r := message.details.agentId, ReceiveMessageStep(state, message);
      && (id !in state ==> r == Failure(ERR_NO_AGENT))
      && (id in state && message.details.securityCode != state[id].securityCode ==>
            r == Failure(ERR_CODE_MISMATCH))
      && (id in state && message.details.securityCode == state[id].securityCode
          && Length(message.details.characters.value) != CHARACTERS_LENGTH
          ==> r == Failure(ERR_MESSAGE_LENGTH))
      && (id in state && message.details.securityCode == state[id].securityCode
          && Length(message.details.characters.value) == CHARACTERS_LENGTH
          && Length(message.details.securityCode.value) != CODE_LENGTH
          ==> r == Failure(ERR_CODE_LENGTH))
      && (id in state && message.details.securityCode == state[id].securityCode
          && Length(message.details.characters.value) == CHARACTERS_LENGTH
          && Length(message.details.securityCode.value) == CODE_LENGTH
          && message.number <= state[id].lastMessageNumber
          ==> r == Failure(ERR_NUMBER))
      && (id in state && message.number <= state[id].lastMessageNumber ==> r.Failure?)
  {
  }

  /** A string built from a text of at most MAX_LENGTH characters. */
  function Str(text: string): String
    requires |text| <= MAX_LENGTH
  {
    FromString(text).value
  }

  /** The tests' case of a three-character code "EFG" sent for an agent whose code is "EF": the code
      mismatch is reported, not the wrong code length. */
  lemma CodeMismatchReportedBeforeLength(last: Field)
    ensures var state := map[3 := AgentState(last, Str("EF"))];
      ReceiveMessageStep(state, Message(last + 1, MessageDetails(3, Str("0123456789AB"), Str("EFG"))))
        == Failure(ERR_CODE_MISMATCH)
  {
    assert Str("EFG").value[2] != Str("EF").value[2];
  }

  /** The tests' accepted message and its replays: number 10 with code "AB" is accepted for an agent
      at 0, and afterwards 10 and 9 are refused. */
  lemma AcceptThenRefuseReplay()
    ensures var state := map[1 := AgentState(0, Str("AB"))];
      var text := Str("0123456789AB");
      var accepted := ReceiveMessageStep(state, Message(10, MessageDetails(1, text, Str("AB"))));
      && accepted == Success(map[1 := AgentState(10, Str("AB"))])
      && ReceiveMessageStep(accepted.value, Message(10, MessageDetails(1, text, Str("AB")))) == Failure(ERR_NUMBER)
      && ReceiveMessageStep(accepted.value, Message(9, MessageDetails(1, text, Str("AB")))) == Failure(ERR_NUMBER)
  {
    var state := map[1 := AgentState(0, Str("AB"))];
    var text := Str("0123456789AB");
    LengthOfText("0123456789AB");
    LengthOfText("AB");
    assert Length(text.value) == CHARACTERS_LENGTH && Length(Str("AB").value) == CODE_LENGTH;
    var accepted := ReceiveMessageStep(state, Message(10, MessageDetails(1, text, Str("AB"))));
    assert accepted.value == state[1 := AgentState(10, Str("AB"))];
    assert state[1 := AgentState(10, Str("AB"))] == map[1 := AgentState(10, Str("AB"))];
  }

  /** The state after `init` wrote the configured entries, in their order, over `state`. */
  function ApplyConfig(state: map<AgentId, AgentState>, config: seq<(AgentId, AgentState)>)
    : (r: map<AgentId, AgentState>)
    ensures forall k :: k in state ==> k in r
    ensures forall i :: 0 <= i < |config| ==> config[i].0 in r
    decreases |config|
  {
    if config == [] then state
    else
      var last := config[|config| - 1];
      ApplyConfig(state, config[..|config| - 1])[last.0 := last.1]
  }

  /** After `init` the agents are those that were there before and those configured. */
  lemma {:induction false} ApplyConfigKeys(state: map<AgentId, AgentState>, config: seq<(AgentId, AgentState)>)
    ensures forall k :: k in ApplyConfig(state, config) <==>
      (k in state || exists i :: 0 <= i < |config| && config[i].0 == k)
    decreases |config|
  {
    if config != [] {
      var prefix := config[..|config| - 1];
      ApplyConfigKeys(state, prefix);
      forall k ensures k in ApplyConfig(state, config) <==>
        (k in state || exists i :: 0 <= i < |config| && config[i].0 == k)
      {
        if exists i :: 0 <= i < |prefix| && prefix[i].0 == k {
          var i :| 0 <= i < |prefix| && prefix[i].0 == k;
          assert config[i].0 == k;
        }
        if exists i :: 0 <= i < |config| && config[i].0 == k {
          var i :| 0 <= i < |config| && config[i].0 == k;
          if i < |prefix| {
            assert prefix[i].0 == k;
          }
        }
      }
    }
  }

  /** After `init` every configured agent holds the state of its last configuration entry. */
  lemma {:induction false} ApplyConfigLastWins(state: map<AgentId, AgentState>, config: seq<(AgentId, AgentState)>)
    ensures forall i :: 0 <= i < |config| && (forall j :: i < j < |config| ==> config[j].0 != config[i].0) ==>
      ApplyConfig(state, config)[config[i].0] == config[i].1
    decreases |config|
  {
    if config != [] {
      var prefix := config[..|config| - 1];
      ApplyConfigLastWins(state, prefix);
      forall i | 0 <= i < |config| && (forall j :: i < j < |config| ==> config[j].0 != config[i].0)
        ensures ApplyConfig(state, config)[config[i].0] == config[i].1
      {
        if i < |prefix| {
          assert forall j :: i < j < |prefix| ==> prefix[j] == config[j];
          assert prefix[i] == config[i];
        }
      }
    }
  }

  /** `init` leaves every agent that is not configured as it was. */
  lemma {:induction false} ApplyConfigOthersUntouched(state: map<AgentId, AgentState>,
                                                      config: seq<(AgentId, AgentState)>)
    ensures forall k :: k in state && (forall i :: 0 <= i < |config| ==> config[i].0 != k) ==>
      ApplyConfig(state, config)[k] == state[k]
    decreases |config|
  {
    if config != [] {
      var prefix := config[..|config| - 1];
      ApplyConfigOthersUntouched(state, prefix);
      assert forall i :: 0 <= i < |prefix| ==> prefix[i] == config[i];
    }
  }

  /** The tests' configuration: agents 1, 2 and 3 with codes "AB", "CD" and "EF", all at 0. */
  function TestConfig(): seq<(AgentId, AgentState)> {
    [(1, AgentState(0, Str("AB"))), (2, AgentState(0, Str("CD"))), (3, AgentState(0, Str("EF")))]
  }

  /** The tests' refusals after `init`: an unknown agent, a wrong code, and a 15-character text with
      the right code. */
  lemma InitThenRefusals(last: Field)
    ensures var state := ApplyConfig(map[], TestConfig());
      var text := Str("0123456789AB");
      && state == map[1 := AgentState(0, Str("AB")), 2 := AgentState(0, Str("CD")), 3 := AgentState(0, Str("EF"))]
      && ReceiveMessageStep(state, Message(11, MessageDetails(4, text, Str("AB")))) == Failure(ERR_NO_AGENT)
      && ReceiveMessageStep(state, Message(12, MessageDetails(2, text, Str("AB")))) == Failure(ERR_CODE_MISMATCH)
      && ReceiveMessageStep(state, Message(13, MessageDetails(2, Str("0123456789ABCDE"), Str("CD"))))
           == Failure(ERR_MESSAGE_LENGTH)
  {
    var config := TestConfig();
    assert config[..3] == config && config[..3][..2] == config[..2] && config[..2][..1] == config[..1];
    assert config[..1][..0] == config[..0];
    var state := ApplyConfig(map[], config);
    assert ApplyConfig(map[], config[..1]) == map[1 := AgentState(0, Str("AB"))];
    assert ApplyConfig(map[], config[..2]) == map[1 := AgentState(0, Str("AB")), 2 := AgentState(0, Str("CD"))];
    assert state == map[1 := AgentState(0, Str("AB")), 2 := AgentState(0, Str("CD")), 3 := AgentState(0, Str("EF"))];
    assert Str("AB").value[0] != Str("CD").value[0];
    assert ReceiveMessageStep(state, Message(12, MessageDetails(2, Str("0123456789AB"), Str("AB")))) == Failure(ERR_CODE_MISMATCH);
    LengthOfText("0123456789ABCDE");
  }

  /** The runtime module. */
  class MessageBox {
    /** The module configuration's `initState`, entries in insertion order. */
    const config: seq<(AgentId, AgentState)>
    var contractState: map<AgentId, AgentState>

    constructor (config: seq<(AgentId, AgentState)>)
      ensures this.config == config && contractState == map[]
    {
      this.config := config;
      contractState := map[];
    }

    /** `init`: write every configured entry into the state map. */
    method Init()
      modifies this
      ensures contractState == ApplyConfig(old(contractState), config)
    {
      for i := 0 to |config|
        invariant contractState == ApplyConfig(old(contractState), config[..i])
      {
        assert config[..i + 1][..i] == config[..i];
        var (key, value) := config[i];
        contractState := contractState[key := value];
      }
      assert config[..|config|] == config;
    }

    /** `receiveMessage`, one message per transaction. */
    method ReceiveMessage(message: Message) returns (r: Outcome<string>)
      modifies this
      ensures Applied(ReceiveMessageStep(old(contractState), message), old(contractState), contractState, r)
    {
      var agentId := message.details.agentId;
      if agentId !in contractState {
        return Fail(ERR_NO_AGENT);
      }
      var current := contractState[agentId];
      if message.details.securityCode != current.securityCode {
        return Fail(ERR_CODE_MISMATCH);
      }
      var textLength := GetLength(message.details.characters);
      if textLength != CHARACTERS_LENGTH {
        return Fail(ERR_MESSAGE_LENGTH);
      }
      var codeLength := GetLength(message.details.securityCode);
      if codeLength != CODE_LENGTH {
        return Fail(ERR_CODE_LENGTH);
      }
      if !(message.number > current.lastMessageNumber) {
        return Fail(ERR_NUMBER);
      }
      current := current.(lastMessageNumber := message.number);
      contractState := contractState[agentId := current];
      r := Pass;
    }
  }
}
