/**
 * The SecretMessageBox contract: an administrator registers up to
 * MAX_ADDRESS_COUNT addresses in a Merkle map, each set to DUMMY_MESSAGE, and
 * every registered address may then deposit one message that passes three
 * bit-flag rules. The on-chain state is the administrator's fingerprint, the
 * map root, the two counters and the emitted events.
 */
module SecretBox {
  import opened Outcomes
  import opened O1js
  import opened MerkleMap

  /** The most addresses the administrator may register. */
  const MAX_ADDRESS_COUNT: nat := 100

  /** The leaf of an address that is not in the map. */
  const NO_MESSAGE: Field := 0

  /** 2^249: the weight of bit 249, which holds flag 1. */
  const FLAG_BASE: nat := 0x200000000000000000000000000000000000000000000000000000000000000

  /** 2^249 | 2^250: flags 1 and 2 set, the placeholder leaf of a registered address. */
  const DUMMY_MESSAGE: Field := 0x600000000000000000000000000000000000000000000000000000000000000

  /** The six flags a message carries in its top bits; flag k is bit 248 + k. */
  datatype Flags = Flags(flag1: bool, flag2: bool, flag3: bool, flag4: bool, flag5: bool, flag6: bool)

  /**
   * `message.toBits().reverse()` destructured into flag6 .. flag1: of the 255
   * bits, the last six (249 .. 254) are the flags. Shifting the message right by
   * 249 bits leaves them as bits 0 .. 5; the lower bits are not inspected.
   */
  function ReadFlags(message: Field): Flags {
    FlagsOfTop(message / FLAG_BASE)
  }

  /** The six flags as the lowest six binary digits of `top`, flag 1 lowest. */
  function FlagsOfTop(top: nat): Flags {
    var t1 := top / 2;
    var t2 := t1 / 2;
    var t3 := t2 / 2;
    var t4 := t3 / 2;
    var t5 := t4 / 2;
    Flags(top % 2 == 1, t1 % 2 == 1, t2 % 2 == 1, t3 % 2 == 1, t4 % 2 == 1, t5 % 2 == 1)
  }

  /** Flag 1 excludes every other flag. */
  predicate Flag1Exclusive(f: Flags) {
    f.flag1 ==> !(f.flag2 || f.flag3 || f.flag4 || f.flag5 || f.flag6)
  }

  /** Flag 2 requires flag 3. */
  predicate Flag2NeedsFlag3(f: Flags) {
    f.flag2 ==> f.flag3
  }

  /** Flag 4 excludes flags 5 and 6. */
  predicate Flag4Exclusive(f: Flags) {
    f.flag4 ==> !(f.flag5 || f.flag6)
  }

  predicate FlagRulesHold(f: Flags) {
    Flag1Exclusive(f) && Flag2NeedsFlag3(f) && Flag4Exclusive(f)
  }

  function Bit(b: bool): nat {
    if b then 1 else 0
  }

  /** The test helper `generateMessageFromFlags`: the message whose only set bits are the chosen flags. */
  function FromFlags(f: Flags): Field {
    TopBits(f) * FLAG_BASE
  }

  /** The six flag bits as a number, flag 1 lowest. */
  function TopBits(f: Flags): nat {
    Bit(f.flag1) + 2 * (Bit(f.flag2) + 2 * (Bit(f.flag3) + 2 * (Bit(f.flag4) + 2 * (Bit(f.flag5) + 2 * Bit(f.flag6)))))
  }

  /** Shifting right by 249 bits drops exactly the bits below 249. */
  lemma ShiftOutLowBits(top: nat, low: nat)
    requires low < FLAG_BASE
    ensures (top * FLAG_BASE + low) / FLAG_BASE == top
  {
  }

  /** Halving a number drops its lowest binary digit, which is its remainder by 2. */
  lemma HalveDigit(x: nat, b: bool, rest: nat)
    requires x == Bit(b) + 2 * rest
    ensures x % 2 == 1 <==> b
    ensures x / 2 == rest
  {
  }

  /** Decoding the number the six flags make gives the flags back. */
  lemma FlagsOfTopBits(f: Flags)
    ensures FlagsOfTop(TopBits(f)) == f
  {
    var r5 := Bit(f.flag6);
    var r4 := Bit(f.flag5) + 2 * r5;
    var r3 := Bit(f.flag4) + 2 * r4;
    var r2 := Bit(f.flag3) + 2 * r3;
    var r1 := Bit(f.flag2) + 2 * r2;
    var r0 := Bit(f.flag1) + 2 * r1;
    HalveDigit(r0, f.flag1, r1);
    HalveDigit(r1, f.flag2, r2);
    HalveDigit(r2, f.flag3, r3);
    HalveDigit(r3, f.flag4, r4);
    HalveDigit(r4, f.flag5, r5);
    HalveDigit(r5, f.flag6, 0);
    assert FlagsOfTop(r0) == Flags(r0 % 2 == 1, r1 % 2 == 1, r2 % 2 == 1, r3 % 2 == 1, r4 % 2 == 1, r5 % 2 == 1);
    assert TopBits(f) == r0;
  }

  /** Reading the flags of a message built from flags gives those flags back. */
  lemma ReadFromFlags(f: Flags)
    ensures ReadFlags(FromFlags(f)) == f
  {
    ShiftOutLowBits(TopBits(f), 0);
    FlagsOfTopBits(f);
  }

  /** Bits below 249 do not affect the flags. */
  lemma ReadFlagsIgnoresLowBits(top: nat, low: nat)
    requires low < FLAG_BASE
    ensures ReadFlags(top * FLAG_BASE + low) == ReadFlags(top * FLAG_BASE)
  {
    ShiftOutLowBits(top, low);
    ShiftOutLowBits(top, 0);
  }

  /** The placeholder carries flags 1 and 2, so it breaks the flag 1 rule and is never a valid payload. */
  lemma DummyBreaksFlagRules()
    ensures ReadFlags(DUMMY_MESSAGE) == Flags(true, true, false, false, false, false)
    ensures !Flag1Exclusive(ReadFlags(DUMMY_MESSAGE))
  {
    assert DUMMY_MESSAGE == FromFlags(Flags(true, true, false, false, false, false));
    ReadFromFlags(Flags(true, true, false, false, false, false));
  }

  /** The accepted and rejected flag combinations of the contract's tests. */
  lemma FlagRuleExamples()
    ensures FlagRulesHold(ReadFlags(FromFlags(Flags(true, false, false, false, false, false))))
    ensures FlagRulesHold(ReadFlags(FromFlags(Flags(false, true, true, false, false, false))))
    ensures FlagRulesHold(ReadFlags(FromFlags(Flags(false, false, false, true, false, false))))
    ensures !Flag1Exclusive(ReadFlags(FromFlags(Flags(true, false, true, false, false, false))))
    ensures !Flag2NeedsFlag3(ReadFlags(FromFlags(Flags(false, true, false, false, false, false))))
    ensures !Flag4Exclusive(ReadFlags(FromFlags(Flags(false, false, false, true, true, false))))
  {
    ReadFromFlags(Flags(true, false, false, false, false, false));
    ReadFromFlags(Flags(false, true, true, false, false, false));
    ReadFromFlags(Flags(false, false, false, true, false, false));
    ReadFromFlags(Flags(true, false, true, false, false, false));
    ReadFromFlags(Flags(false, true, false, false, false, false));
    ReadFromFlags(Flags(false, false, false, true, true, false));
  }

  /** The assertion that stops a call; o1js reports the first one that fails. */
  datatype Error =
    | NotAdmin                  // the signer is not the administrator
    | KeyMismatch               // the Merkle witness is for another key
    | AddressAlreadyRegistered  // "Address already registered."
    | AddressLimitReached       // "Eligible address storage limit reached."
    | NotEligibleOrAlreadySent  // "Address is either not eligible or message already sent."
    | EmptyMessage              // the message is NO_MESSAGE
    | PlaceholderMessage        // the message is DUMMY_MESSAGE
    | Flag1NotExclusive
    | Flag2WithoutFlag3
    | Flag4NotExclusive
    | MessageCountOverflow      // UInt32 addition on the message counter

  /** The contract's on-chain state and emitted events. */
  datatype BoxState = BoxState(
    admin: Digest,
    mapRoot: Root,
    addressCount: UInt32,
    messageCount: UInt32,
    events: seq<UInt32>)

  /** `init`: the deployer becomes the administrator, the map is empty and both counters are zero. */
  function Deploy(deployer: PublicKey): (s: BoxState)
    ensures s.admin == Hash(deployer.ToFields())
    ensures forall k :: Get(s.mapRoot, k) == NO_MESSAGE
    ensures s.addressCount == 0 && s.messageCount == 0 && s.events == []
  {
    BoxState(Hash(deployer.ToFields()), EMPTY_ROOT, 0, 0, [])
  }

  /** `storeAddress`, signed by `sender`, registering `address` with a Merkle witness for its leaf. */
  function StoreAddressStep(s: BoxState, sender: PublicKey, address: PublicKey, w: Witness)
    : Result<BoxState, Error>
  {
    var key := Hash(address.ToFields());
    if s.admin != Hash(sender.ToFields()) then Failure(NotAdmin)
    else if ComputeKey(w) != key then Failure(KeyMismatch)
    else if ComputeRoot(w, NO_MESSAGE) != s.mapRoot then Failure(AddressAlreadyRegistered)
    else if !(s.addressCount < MAX_ADDRESS_COUNT) then Failure(AddressLimitReached)
    // the count is below 100 here, so the checked increment cannot overflow
    else Success(s.(mapRoot := ComputeRoot(w, DUMMY_MESSAGE), addressCount := s.addressCount + 1))
  }

  /** `depositMessage`, signed by `sender`, with a Merkle witness for the sender's own leaf. */
  function DepositMessageStep(s: BoxState, sender: PublicKey, message: Field, w: Witness)
    : Result<BoxState, Error>
  {
    var key := Hash(sender.ToFields());
    var flags := ReadFlags(message);
    if ComputeKey(w) != key then Failure(KeyMismatch)
    else if ComputeRoot(w, DUMMY_MESSAGE) != s.mapRoot then Failure(NotEligibleOrAlreadySent)
    else if message == NO_MESSAGE then Failure(EmptyMessage)
    else if message == DUMMY_MESSAGE then Failure(PlaceholderMessage)
    else if !Flag1Exclusive(flags) then Failure(Flag1NotExclusive)
    else if !Flag2NeedsFlag3(flags) then Failure(Flag2WithoutFlag3)
    else if !Flag4Exclusive(flags) then Failure(Flag4NotExclusive)
    else match AddUInt32(s.messageCount, 1)
      case None => Failure(MessageCountOverflow)
      case Some(count) =>
        Success(s.(mapRoot := ComputeRoot(w, message), messageCount := count,
                   events := s.events + [s.messageCount]))
  }

  /** `storeAddress` succeeds exactly when the sender is the administrator, the address is not yet in
      the map, the Merkle witness is honest and fewer than 100 addresses are stored; it then sets only that
      leaf, to DUMMY_MESSAGE, and counts one more address. */
  lemma StoreAddressOutcome(s: BoxState, sender: PublicKey, address: PublicKey, w: Witness)
    ensures var key := Hash(address.ToFields());
      StoreAddressStep(s, sender, address, w).Success? <==>
        && s.admin == Hash(sender.ToFields())
        && w.key == key && Agrees(w, s.mapRoot)
        && Get(s.mapRoot, key) == NO_MESSAGE
        && s.addressCount < MAX_ADDRESS_COUNT
    ensures var r := StoreAddressStep(s, sender, address, w);
      r.Success? ==>
        && r.value.mapRoot == Set(s.mapRoot, Hash(address.ToFields()), DUMMY_MESSAGE)
        && r.value.addressCount == s.addressCount + 1
        && r.value.admin == s.admin && r.value.messageCount == s.messageCount
        && r.value.events == s.events
  {
    ComputeRootMatches(w, NO_MESSAGE, s.mapRoot);
    if StoreAddressStep(s, sender, address, w).Success? {
      ComputeRootUpdates(w, NO_MESSAGE, s.mapRoot, DUMMY_MESSAGE);
    }
  }

  /** An address whose leaf is no longer empty cannot be stored, whatever the Merkle witness. */
  lemma StoreRegisteredFails(s: BoxState, sender: PublicKey, address: PublicKey, w: Witness)
    requires Get(s.mapRoot, Hash(address.ToFields())) != NO_MESSAGE
    ensures StoreAddressStep(s, sender, address, w).Failure?
  {
    StoreAddressOutcome(s, sender, address, w);
  }

  /** Storing the same address twice always fails the second time. */
  lemma StoreTwiceFails(s: BoxState, sender: PublicKey, address: PublicKey, w1: Witness,
                        sender2: PublicKey, w2: Witness)
    requires StoreAddressStep(s, sender, address, w1).Success?
    ensures StoreAddressStep(StoreAddressStep(s, sender, address, w1).value, sender2, address, w2).Failure?
  {
    StoreAddressOutcome(s, sender, address, w1);
    StoreRegisteredFails(StoreAddressStep(s, sender, address, w1).value, sender2, address, w2);
  }

  /** Once 100 addresses are stored, every further store fails. */
  lemma StoreAtCapacityFails(s: BoxState, sender: PublicKey, address: PublicKey, w: Witness)
    requires s.addressCount == MAX_ADDRESS_COUNT
    ensures StoreAddressStep(s, sender, address, w).Failure?
  {
  }

  /** `depositMessage` succeeds exactly when the sender's own leaf holds DUMMY_MESSAGE under an honest
      w, the message is neither 0 nor DUMMY_MESSAGE, its flags obey the three rules and the
      counter can be incremented; it then stores the message in that leaf and emits the old count. */
  lemma DepositMessageOutcome(s: BoxState, sender: PublicKey, message: Field, w: Witness)
    ensures var key := Hash(sender.ToFields());
      DepositMessageStep(s, sender, message, w).Success? <==>
        && w.key == key && Agrees(w, s.mapRoot)
        && Get(s.mapRoot, key) == DUMMY_MESSAGE
        && message != NO_MESSAGE && message != DUMMY_MESSAGE
        && FlagRulesHold(ReadFlags(message))
        && s.messageCount + 1 < UINT32_BOUND
    ensures var r := DepositMessageStep(s, sender, message, w);
      r.Success? ==>
        && r.value.mapRoot == Set(s.mapRoot, Hash(sender.ToFields()), message)
        && r.value.messageCount == s.messageCount + 1
        && r.value.events == s.events + [s.messageCount]
        && r.value.admin == s.admin && r.value.addressCount == s.addressCount
  {
    ComputeRootMatches(w, DUMMY_MESSAGE, s.mapRoot);
    if DepositMessageStep(s, sender, message, w).Success? {
      ComputeRootUpdates(w, DUMMY_MESSAGE, s.mapRoot, message);
    }
  }

  /** A sender whose leaf does not hold the placeholder (never registered, or already deposited)
      cannot deposit, whatever the Merkle witness. */
  lemma DepositNotEligibleFails(s: BoxState, sender: PublicKey, message: Field, w: Witness)
    requires Get(s.mapRoot, Hash(sender.ToFields())) != DUMMY_MESSAGE
    ensures DepositMessageStep(s, sender, message, w).Failure?
  {
    DepositMessageOutcome(s, sender, message, w);
  }

  /** A second deposit by the same sender always fails. */
  lemma DepositTwiceFails(s: BoxState, sender: PublicKey, m1: Field, w1: Witness, m2: Field, w2: Witness)
    requires DepositMessageStep(s, sender, m1, w1).Success?
    ensures DepositMessageStep(DepositMessageStep(s, sender, m1, w1).value, sender, m2, w2).Failure?
  {
    DepositMessageOutcome(s, sender, m1, w1);
    DepositNotEligibleFails(DepositMessageStep(s, sender, m1, w1).value, sender, m2, w2);
  }

  /** The empty message and the placeholder are refused before the flags are read. */
  lemma DepositRejectsSentinels(s: BoxState, sender: PublicKey, w: Witness)
    ensures DepositMessageStep(s, sender, NO_MESSAGE, w).Failure?
    ensures DepositMessageStep(s, sender, DUMMY_MESSAGE, w).Failure?
  {
  }

  /** Where a leaf is in its life: empty, registered, or holding a payload. */
  function Stage(leaf: Field): (n: nat)
    ensures n <= 2
  {
    if leaf == NO_MESSAGE then 0 else if leaf == DUMMY_MESSAGE then 1 else 2
  }

  /** A successful store or deposit moves exactly one leaf one stage forward and leaves every other
      leaf as it was; no leaf ever moves back. */
  lemma StepsAdvanceOneLeaf(s: BoxState, sender: PublicKey, address: PublicKey, message: Field, w: Witness)
    ensures var r := StoreAddressStep(s, sender, address, w);
      r.Success? ==>
        var key := Hash(address.ToFields());
        && Stage(Get(r.value.mapRoot, key)) == Stage(Get(s.mapRoot, key)) + 1
        && forall k :: k != key ==> Get(r.value.mapRoot, k) == Get(s.mapRoot, k)
    ensures var r := DepositMessageStep(s, sender, message, w);
      r.Success? ==>
        var key := Hash(sender.ToFields());
        && Stage(Get(r.value.mapRoot, key)) == Stage(Get(s.mapRoot, key)) + 1
        && forall k :: k != key ==> Get(r.value.mapRoot, k) == Get(s.mapRoot, k)
  {
    StoreAddressOutcome(s, sender, address, w);
    DepositMessageOutcome(s, sender, message, w);
  }

  /** The keys of registered addresses whose leaf holds a payload. */
  function Deposited(root: Root): set<Digest> {
    set k | k in root && root[k] != DUMMY_MESSAGE
  }

  /**
   * The contract's invariant: the address counter counts the non-empty leaves,
   * the message counter counts the leaves holding a payload, and the i-th event
   * carries i.
   */
  ghost predicate Inv(s: BoxState) {
    && s.addressCount == |s.mapRoot.Keys|
    && s.addressCount <= MAX_ADDRESS_COUNT
    && s.messageCount == |Deposited(s.mapRoot)|
    && |s.events| == s.messageCount
    && forall i :: 0 <= i < |s.events| ==> s.events[i] == i
  }

  /** Under the invariant, messages never outnumber addresses, and addresses never exceed the cap. */
  lemma InvBoundsCounters(s: BoxState)
    requires Inv(s)
    ensures s.messageCount <= s.addressCount <= MAX_ADDRESS_COUNT
  {
    assert Deposited(s.mapRoot) <= s.mapRoot.Keys;
    SubsetCardinality(Deposited(s.mapRoot), s.mapRoot.Keys);
  }

  lemma SubsetCardinality<T>(a: set<T>, b: set<T>)
    requires a <= b
    ensures |a| <= |b|
  {
    assert b == a + (b - a);
  }

  lemma DeployEstablishesInv(deployer: PublicKey)
    ensures Inv(Deploy(deployer))
  {
    assert Deposited(EMPTY_ROOT) == {};
  }

  lemma StorePreservesInv(s: BoxState, sender: PublicKey, address: PublicKey, w: Witness)
    requires Inv(s)
    requires StoreAddressStep(s, sender, address, w).Success?
    ensures Inv(StoreAddressStep(s, sender, address, w).value)
  {
    StoreAddressOutcome(s, sender, address, w);
    var key := Hash(address.ToFields());
    var root' := StoreAddressStep(s, sender, address, w).value.mapRoot;
    assert key !in s.mapRoot;
    assert root' == s.mapRoot[key := DUMMY_MESSAGE] by {
      RootExtensional(root', s.mapRoot[key := DUMMY_MESSAGE]);
    }
    assert root'.Keys == s.mapRoot.Keys + {key};
    assert Deposited(root') == Deposited(s.mapRoot);
  }

  lemma DepositPreservesInv(s: BoxState, sender: PublicKey, message: Field, w: Witness)
    requires Inv(s)
    requires DepositMessageStep(s, sender, message, w).Success?
    ensures Inv(DepositMessageStep(s, sender, message, w).value)
  {
    DepositMessageOutcome(s, sender, message, w);
    var key := Hash(sender.ToFields());
    var root' := DepositMessageStep(s, sender, message, w).value.mapRoot;
    assert key in s.mapRoot && s.mapRoot[key] == DUMMY_MESSAGE;
    assert root' == s.mapRoot[key := message] by {
      RootExtensional(root', s.mapRoot[key := message]);
    }
    assert root'.Keys == s.mapRoot.Keys;
    assert Deposited(root') == Deposited(s.mapRoot) + {key};
    assert key !in Deposited(s.mapRoot);
  }

  /** Under the invariant the message counter never overflows. */
  lemma InvPreventsCounterOverflow(s: BoxState, sender: PublicKey, message: Field, w: Witness)
    requires Inv(s)
    ensures DepositMessageStep(s, sender, message, w) != Failure(MessageCountOverflow)
  {
    InvBoundsCounters(s);
  }

  /** The deployed contract. */
  class SecretMessageBox {
    /** The fingerprint of the administrator's public key. */
    var admin: Digest
    /** The root of the map of stored addresses and deposited messages. */
    var mapRoot: Root
    var addressCount: UInt32
    var messageCount: UInt32
    /** The values of the `evtMessageReceived` events emitted so far. */
    var events: seq<UInt32>

    function State(): BoxState
      reads this
    {
      BoxState(admin, mapRoot, addressCount, messageCount, events)
    }

    ghost predicate Valid()
      reads this
    {
      Inv(State())
    }

    /** Deployment by `deployer`, which runs `init`. */
    constructor (deployer: PublicKey)
      ensures Valid()
      ensures State() == Deploy(deployer)
    {
      admin := Hash(deployer.ToFields());
      mapRoot := EMPTY_ROOT;
      addressCount := 0;
      messageCount := 0;
      events := [];
      new;
      DeployEstablishesInv(deployer);
    }

    method StoreAddress(sender: PublicKey, address: PublicKey, w: Witness) returns (r: Outcome<Error>)
      requires Valid()
      modifies this
      ensures Valid()
      ensures Applied(StoreAddressStep(old(State()), sender, address, w), old(State()), State(), r)
    {
      var adminNow, root, count := admin, mapRoot, addressCount;
      if adminNow != Hash(sender.ToFields()) {
        return Fail(NotAdmin);
      }
      var key := Hash(address.ToFields());
      var computedRoot, computedKey := ComputeRoot(w, NO_MESSAGE), ComputeKey(w);
      if computedKey != key {
        return Fail(KeyMismatch);
      }
      if computedRoot != root {
        return Fail(AddressAlreadyRegistered);
      }
      if !(count < MAX_ADDRESS_COUNT) {
        return Fail(AddressLimitReached);
      }
      StorePreservesInv(old(State()), sender, address, w);
      mapRoot := ComputeRoot(w, DUMMY_MESSAGE);
      addressCount := count + 1;
      r := Pass;
    }

    method DepositMessage(sender: PublicKey, message: Field, w: Witness) returns (r: Outcome<Error>)
      requires Valid()
      modifies this
      ensures Valid()
      ensures Applied(DepositMessageStep(old(State()), sender, message, w), old(State()), State(), r)
    {
      var root, count := mapRoot, messageCount;
      var key := Hash(sender.ToFields());
      var computedRoot, computedKey := ComputeRoot(w, DUMMY_MESSAGE), ComputeKey(w);
      if computedKey != key {
        return Fail(KeyMismatch);
      }
      if computedRoot != root {
        return Fail(NotEligibleOrAlreadySent);
      }
      if message == NO_MESSAGE {
        return Fail(EmptyMessage);
      }
      if message == DUMMY_MESSAGE {
        return Fail(PlaceholderMessage);
      }
      var flags := ReadFlags(message);
      if flags.flag1 && (flags.flag2 || flags.flag3 || flags.flag4 || flags.flag5 || flags.flag6) {
        return Fail(Flag1NotExclusive);
      }
      if flags.flag2 && !flags.flag3 {
        return Fail(Flag2WithoutFlag3);
      }
      if flags.flag4 && (flags.flag5 || flags.flag6) {
        return Fail(Flag4NotExclusive);
      }
      var next := AddUInt32(count, 1);
      if next.None? {
        return Fail(MessageCountOverflow);
      }
      DepositPreservesInv(old(State()), sender, message, w);
      mapRoot := ComputeRoot(w, message);
      messageCount := next.value;
      events := events + [count];
      r := Pass;
    }
  }
}
