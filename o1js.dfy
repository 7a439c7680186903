/**
 * The o1js primitives the contracts are written against, reduced to what the
 * models need: field elements as unbounded naturals (the field modulus is not
 * modelled), fixed-width unsigned integers with overflow-checked addition,
 * public keys, and the Poseidon hash as an injective digest.
 */
module O1js {
  import opened Outcomes

  /** A field element; the field modulus is not modelled. */
  type Field = nat

  const UINT32_BOUND: nat := 0x1_0000_0000
  const UINT64_BOUND: nat := 0x1_0000_0000_0000_0000

  type UInt32 = x: nat | x < UINT32_BOUND
  type UInt64 = x: nat | x < UINT64_BOUND

  /** `UInt32.add`: the sum is range-checked; an overflow aborts the whole proof. */
  function AddUInt32(a: UInt32, b: UInt32): (r: Option<UInt32>)
    ensures r.Some? <==> a + b < UINT32_BOUND
    ensures r.Some? ==> r.value == a + b
  {
    if a + b < UINT32_BOUND then Some(a + b) else None
  }

  /** A public key: the x coordinate of a curve point and the parity of its y coordinate. */
  datatype PublicKey = PublicKey(x: Field, isOdd: bool) {
    /** `PublicKey.toFields`: the two field elements the key serialises to. */
    function ToFields(): (fs: seq<Field>)
      ensures |fs| == 2 && fs[0] == x
    {
      [x, if isOdd then 1 else 0]
    }
  }

  /** `PublicKey.empty()`. */
  const EMPTY_KEY := PublicKey(0, false)

  /**
   * A Poseidon digest. The hash function is treated as collision-free, so a
   * digest is represented by the field elements it was computed from.
   */
  datatype Digest = Digest(preimage: seq<Field>)

  /** `Poseidon.hash`. */
  function Hash(fs: seq<Field>): Digest
  {
    Digest(fs)
  }

  /** Distinct keys have distinct fingerprints. */
  lemma KeyFingerprintInjective(a: PublicKey, b: PublicKey)
    ensures Hash(a.ToFields()) == Hash(b.ToFields()) <==> a == b
  {
    if Hash(a.ToFields()) == Hash(b.ToFields()) {
      assert a.ToFields()[1] == b.ToFields()[1];
    }
  }
}
