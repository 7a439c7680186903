/**
 * The MessageProcessor contract: batches of agent messages are validated one by
 * one and their public residue `(number, isValid)` is dispatched to an
 * append-only action log; a separate call folds the actions not yet processed
 * into the highest valid message number and moves the cursor to the end of the
 * log. The action-state hash chain is modelled as a position in the log.
 */
module Processor {
  import opened Outcomes
  import opened O1js
  import opened MessageTypes

  /**
   * `isValid`. Both branches of `Provable.if` are evaluated, so the checksum sum
   * `id + (xLocation + yLocation)` is always computed with overflow-checked
   * UInt32 addition; an overflow aborts the proof, which is `None` here.
   */
  function IsValid(message: Message): Option<bool> {
    var agent := message.agent;
    var idIsZero := agent.id == 0;
    match AddUInt32(agent.xLocation, agent.yLocation)
    case None => None
    case Some(xy) =>
      match AddUInt32(agent.id, xy)
      case None => None
      case Some(sum) =>
        var checkSumIsValid := agent.checksum == sum;
        var idIsValid := 0 < agent.id && agent.id < 3000;
        var xLocationIsValid := 0 < agent.xLocation && agent.xLocation < 15000;
        var yLocationIsValid := 5000 < agent.yLocation && agent.yLocation < 20000;
        var yLocationIsGreater := agent.yLocation > agent.xLocation;
        Some(if idIsZero then true
             else checkSumIsValid && idIsValid && xLocationIsValid && yLocationIsValid && yLocationIsGreater)
  }

  /** The validation rules: an agent id of 0 is always accepted; any other agent needs the checksum
      to be the sum of its fields, each field in range, and y above x. Only a sum that does not fit
      in 32 bits makes the check abort instead. */
  lemma IsValidRules(message: Message)
    ensures var a := message.agent;
      IsValid(message).None? <==> a.id + a.xLocation + a.yLocation >= UINT32_BOUND
    ensures var a := message.agent;
      IsValid(message).Some? && a.id == 0 ==> IsValid(message).value
    ensures var a := message.agent;
      IsValid(message).Some? && a.id != 0 ==>
        (IsValid(message).value <==>
          && a.checksum == a.id + a.xLocation + a.yLocation
          && 0 < a.id < 3000
          && 0 < a.xLocation < 15000
          && 5000 < a.yLocation < 20000
          && a.yLocation > a.xLocation)
  {
  }

  /** The aborted proof of `receiveMessages`. */
  datatype Error = ChecksumSumOverflow

  /** The actions a batch dispatches, one per message in order, or `None` when validating one of
      them aborts. */
  function Dispatch(messages: seq<Message>): (r: Option<seq<PublicMessage>>)
    ensures r.Some? <==> forall i :: 0 <= i < |messages| ==> IsValid(messages[i]).Some?
    ensures r.Some? ==> |r.value| == |messages|
    ensures r.Some? ==> forall i :: 0 <= i < |messages| ==>
      r.value[i] == PublicMessage(messages[i].number, IsValid(messages[i]).value)
    decreases |messages|
  {
    if messages == [] then Some([])
    else match IsValid(messages[0])
      case None => None
      case Some(v) =>
        match Dispatch(messages[1..])
        case None => None
        case Some(rest) => Some([PublicMessageFrom(messages[0].number, v)] + rest)
  }

  function Max(a: Field, b: Field): Field {
    if a >= b then a else b
  }

  /** The reducer step: a valid action raises the state to its number if that is higher; an invalid
      action changes nothing. */
  function ReduceStep(state: Field, message: PublicMessage): (r: Field)
    ensures message.isValid ==> r == Max(state, message.number)
    ensures !message.isValid ==> r == state
  {
    var higherNumber := if message.number <= state then state else message.number;
    if message.isValid then higherNumber else state
  }

  /** `reducer.reduce`: the reducer step folded over the actions in dispatch order. */
  function Reduce(state: Field, actions: seq<PublicMessage>): Field
    decreases |actions|
  {
    if actions == [] then state else Reduce(ReduceStep(state, actions[0]), actions[1..])
  }

  /** Folding yields the maximum of the starting state and the numbers of the valid actions. */
  lemma {:induction false} ReduceIsMax(state: Field, actions: seq<PublicMessage>)
    ensures Reduce(state, actions) >= state
    ensures forall i :: 0 <= i < |actions| && actions[i].isValid ==> actions[i].number <= Reduce(state, actions)
    ensures Reduce(state, actions) == state ||
      exists i :: 0 <= i < |actions| && actions[i].isValid && actions[i].number == Reduce(state, actions)
    decreases |actions|
  {
    if actions != [] {
      var next := ReduceStep(state, actions[0]);
      ReduceIsMax(next, actions[1..]);
      var r := Reduce(state, actions);
      assert r == Reduce(next, actions[1..]);
      forall i | 0 <= i < |actions| && actions[i].isValid ensures actions[i].number <= r {
        if i > 0 {
          assert actions[1..][i - 1] == actions[i];
        }
      }
      if r != state {
        if r == next {
          assert actions[0].isValid && actions[0].number == r;
        } else {
          var j :| 0 <= j < |actions[1..]| && actions[1..][j].isValid && actions[1..][j].number == r;
          assert actions[j + 1].isValid && actions[j + 1].number == r;
        }
      }
    }
  }

  /** Folding two stretches of the log one after the other equals folding them together. */
  lemma {:induction false} ReduceAppend(state: Field, xs: seq<PublicMessage>, ys: seq<PublicMessage>)
    ensures Reduce(state, xs + ys) == Reduce(Reduce(state, xs), ys)
    decreases |xs|
  {
    if xs != [] {
      var next := ReduceStep(state, xs[0]);
      assert (xs + ys)[0] == xs[0] && (xs + ys)[1..] == xs[1..] + ys;
      ReduceAppend(next, xs[1..], ys);
      calc {
        Reduce(state, xs + ys);
        Reduce(next, xs[1..] + ys);
        Reduce(Reduce(next, xs[1..]), ys);
        Reduce(Reduce(state, xs), ys);
      }
    } else {
      assert xs + ys == ys;
    }
  }

  /** Actions that are invalid, or valid but not above the state, leave the state unchanged. */
  lemma ReduceWithoutHigherKeepsState(state: Field, actions: seq<PublicMessage>)
    requires forall i :: 0 <= i < |actions| && actions[i].isValid ==> actions[i].number <= state
    ensures Reduce(state, actions) == state
  {
    ReduceIsMax(state, actions);
  }

  /** Folding one more action applies the reducer step to the fold so far. */
  lemma ReduceSnoc(state: Field, log: seq<PublicMessage>, start: nat, i: nat)
    requires start <= i < |log|
    ensures Reduce(state, log[start..i + 1]) == ReduceStep(Reduce(state, log[start..i]), log[i])
  {
    ReduceAppend(state, log[start..i], [log[i]]);
    assert log[start..i + 1] == log[start..i] + [log[i]];
  }

  /** Folding the whole log equals folding the processed prefix and then the pending rest. */
  lemma ReduceSplit(state: Field, log: seq<PublicMessage>, start: nat)
    requires start <= |log|
    ensures Reduce(state, log) == Reduce(Reduce(state, log[..start]), log[start..])
  {
    ReduceAppend(state, log[..start], log[start..]);
    assert log[..start] + log[start..] == log;
  }

  /** A message from agent 0, which the tests use: valid whatever its number. */
  function ZeroAgentMessage(number: Field): Message {
    Message(number, Agent(0, 1000, 6000, 7000))
  }

  lemma ZeroAgentValid(number: Field)
    ensures IsValid(ZeroAgentMessage(number)) == Some(true)
  {
  }

  /** The tests' filler comes from agent 3000, which is out of range. */
  lemma FillerInvalid()
    ensures IsValid(FILLER) == Some(false)
  {
  }

  /** The tests' highest-number batch: numbers 100, 10, 100000, 250 and 1 from agent 0, padded with
      fillers; processed after a state of at most 100000, it leaves 100000. */
  lemma HighestNumberScenario(state: Field)
    requires state <= 100000
    ensures var batch := Padded([ZeroAgentMessage(100), ZeroAgentMessage(10), ZeroAgentMessage(100000),
                                 ZeroAgentMessage(250), ZeroAgentMessage(1)]);
      && Dispatch(batch).Some?
      && Reduce(state, Dispatch(batch).value) == 100000
  {
    var numbers := [100, 10, 100000, 250, 1];
    var messages := [ZeroAgentMessage(100), ZeroAgentMessage(10), ZeroAgentMessage(100000),
                     ZeroAgentMessage(250), ZeroAgentMessage(1)];
    var batch := Padded(messages);
    FillerInvalid();
    forall i | 0 <= i < |batch|
      ensures i < 5 ==> batch[i] == ZeroAgentMessage(numbers[i]) && IsValid(batch[i]) == Some(true)
      ensures i >= 5 ==> IsValid(batch[i]) == Some(false)
    {
      if i < 5 {
        assert messages[i] == ZeroAgentMessage(numbers[i]);
        ZeroAgentValid(numbers[i]);
      }
    }
    var actions := Dispatch(batch).value;
    ReduceIsMax(state, actions);
    assert actions[2] == PublicMessage(100000, true);
    forall i | 0 <= i < |actions| && actions[i].isValid ensures actions[i].number <= 100000 {
      assert i < 5 && actions[i].number == numbers[i];
    }
  }

  /** The deployed contract. */
  class MessageProcessor {
    /** Largest valid number folded in so far. */
    var highestMessageNumber: Field
    /** The position in the action log up to which actions were processed. */
    var actionState: nat
    /** The actions dispatched to the reducer so far, oldest first. */
    var actions: seq<PublicMessage>

    /** The aggregate is the fold of exactly the processed actions. */
    ghost predicate Valid()
      reads this
    {
      actionState <= |actions| && highestMessageNumber == Reduce(0, actions[..actionState])
    }

    /** Deployment, which runs `init`. */
    constructor ()
      ensures Valid()
      ensures highestMessageNumber == 0 && actionState == 0 && actions == []
    {
      highestMessageNumber := 0;
      actionState := 0;
      actions := [];
    }

    /** `receiveMessages`: one action per message of the batch, in order, or none at all when a
        checksum sum overflows. */
    method ReceiveMessages(messages: BatchMessages) returns (r: Outcome<Error>)
      requires Valid()
      requires |messages.value| == BATCH_SIZE
      modifies this
      ensures Valid()
      ensures r.Pass? <==> Dispatch(messages.value).Some?
      ensures r.Pass? ==> actions == old(actions) + Dispatch(messages.value).value
      ensures r.Fail? ==> actions == old(actions)
      ensures highestMessageNumber == old(highestMessageNumber) && actionState == old(actionState)
    {
      var batch := messages.value;
      var dispatched: seq<PublicMessage> := [];
      var i := 0;
      while i < |batch|
        invariant 0 <= i <= |batch|
        invariant |dispatched| == i
        invariant forall j :: 0 <= j < i ==>
          IsValid(batch[j]).Some? && dispatched[j] == PublicMessage(batch[j].number, IsValid(batch[j]).value)
      {
        var isValid := IsValid(batch[i]);
        if isValid.None? {
          return Fail(ChecksumSumOverflow);
        }
        dispatched := dispatched + [PublicMessageFrom(batch[i].number, isValid.value)];
        i := i + 1;
      }
      assert dispatched == Dispatch(batch).value;
      assert (actions + dispatched)[..actionState] == actions[..actionState];
      actions := actions + dispatched;
      r := Pass;
    }

    /** `processMessages`: fold the pending actions into the aggregate and move the cursor to the
        end of the log. */
    method ProcessMessages()
      requires Valid()
      modifies this
      ensures Valid()
      ensures actions == old(actions) && actionState == |actions|
      ensures highestMessageNumber == Reduce(old(highestMessageNumber), actions[old(actionState)..])
    {
      var log, start, initial := actions, actionState, highestMessageNumber;
      var state := initial;
      var i := start;
      while i < |log|
        invariant start <= i <= |log|
        invariant state == Reduce(initial, log[start..i])
        invariant unchanged(this)
      {
        ReduceSnoc(initial, log, start, i);
        state := ReduceStep(state, log[i]);
        i := i + 1;
      }
      ReduceSplit(0, log, start);
      assert log[start..i] == log[start..] && log[..i] == log;
      highestMessageNumber := state;
      actionState := i;
    }
  }

  /** The aggregate of a processor bounds every valid processed number. */
  lemma ProcessedAggregateIsMax(actions: seq<PublicMessage>, cursor: nat)
    requires cursor <= |actions|
    ensures forall i :: 0 <= i < cursor && actions[i].isValid ==> actions[i].number <= Reduce(0, actions[..cursor])
  {
    ReduceIsMax(0, actions[..cursor]);
    forall i | 0 <= i < cursor && actions[i].isValid ensures actions[i].number <= Reduce(0, actions[..cursor]) {
      assert actions[..cursor][i] == actions[i];
    }
  }

  /** The aggregate never decreases as the cursor advances over the log. */
  lemma ProcessedAggregateMonotone(actions: seq<PublicMessage>, c1: nat, c2: nat)
    requires c1 <= c2 <= |actions|
    ensures Reduce(0, actions[..c1]) <= Reduce(0, actions[..c2])
  {
    ReduceSplit(0, actions[..c2], c1);
    assert actions[..c2][..c1] == actions[..c1];
    ReduceIsMax(Reduce(0, actions[..c1]), actions[..c2][c1..]);
  }
}
