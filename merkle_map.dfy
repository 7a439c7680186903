/**
 * The o1js Merkle map as an authenticated key-value store. A root is an
 * injective commitment to the map it summarises, so it is represented by that
 * map itself, kept in normal form: keys whose leaf is the empty value 0 are
 * absent. A witness is the path to one key; its sibling hashes commit to the
 * leaves of every other key, which is what the witness carries here.
 */
module MerkleMap {
  import opened O1js

  /** A map with no explicit empty (zero) leaf. */
  predicate Normal(leaves: map<Digest, Field>) {
    forall k :: k in leaves ==> leaves[k] != 0
  }

  /** The commitment to a map: its normal form. */
  type Root = leaves: map<Digest, Field> | Normal(leaves) witness map[]

  /** The root of `new MerkleMap()`: every leaf is empty. */
  const EMPTY_ROOT: Root := map[]

  /** The leaf stored under `key`, 0 when the key was never set. */
  function Get(root: Root, key: Digest): Field {
    if key in root then root[key] else 0
  }

  /** The leaf a plain (not normalised) map gives to `key`. */
  function Lookup(m: map<Digest, Field>, key: Digest): Field {
    if key in m then m[key] else 0
  }

  /** The root summarising a map. */
  function Commit(m: map<Digest, Field>): (r: Root)
    ensures forall k :: Get(r, k) == Lookup(m, k)
  {
    map k | k in m && m[k] != 0 :: m[k]
  }

  /** Two roots are equal exactly when they give every key the same leaf. */
  lemma RootExtensional(a: Root, b: Root)
    requires forall k :: Get(a, k) == Get(b, k)
    ensures a == b
  {
    assert forall k :: k in a <==> k in b by {
      forall k ensures k in a <==> k in b {
        assert Get(a, k) == Get(b, k);
      }
    }
    forall k | k in a ensures a[k] == b[k] {
      assert Get(a, k) == Get(b, k);
    }
  }

  /** The root after `MerkleMap.set(key, value)`. */
  function Set(root: Root, key: Digest, value: Field): (r: Root)
    ensures Get(r, key) == value
    ensures forall k :: k != key ==> Get(r, k) == Get(root, k)
  {
    Commit(root[key := value])
  }

  /** A Merkle path to `key`; `siblings` is what its sibling hashes commit to. */
  datatype Witness = Witness(key: Digest, siblings: map<Digest, Field>)

  /** `MerkleMapWitness.computeRootAndKey(value)`: the root obtained by placing `value` at the witness's key. */
  function ComputeRoot(w: Witness, value: Field): Root {
    Commit(w.siblings[w.key := value])
  }

  /** The key part of `computeRootAndKey`. */
  function ComputeKey(w: Witness): Digest {
    w.key
  }

  /** The witness's siblings describe `root` at every key but its own. */
  ghost predicate Agrees(w: Witness, root: Root) {
    forall k :: k != w.key ==> Lookup(w.siblings, k) == Get(root, k)
  }

  /** `MerkleMap.getWitness(key)`: the honest witness for `key` under `root`. */
  function WitnessFor(root: Root, key: Digest): (w: Witness)
    ensures ComputeKey(w) == key && Agrees(w, root)
  {
    Witness(key, root)
  }

  /**
   * Checking `computeRootAndKey(v)` against a root proves that the root holds `v`
   * under the witness's key, and nothing else.
   */
  lemma ComputeRootMatches(w: Witness, value: Field, root: Root)
    ensures ComputeRoot(w, value) == root <==> Get(root, w.key) == value && Agrees(w, root)
  {
    var r := ComputeRoot(w, value);
    if Get(root, w.key) == value && Agrees(w, root) {
      forall k ensures Get(r, k) == Get(root, k) {
        if k != w.key {
          assert Lookup(w.siblings[w.key := value], k) == Lookup(w.siblings, k);
        }
      }
      RootExtensional(r, root);
    }
    if r == root {
      forall k | k != w.key ensures Lookup(w.siblings, k) == Get(root, k) {
        assert Lookup(w.siblings[w.key := value], k) == Lookup(w.siblings, k);
      }
    }
  }

  /**
   * A witness that checks against `root` for one value yields, for any new
   * value, exactly the root of the updated map.
   */
  lemma ComputeRootUpdates(w: Witness, old_value: Field, root: Root, value: Field)
    requires ComputeRoot(w, old_value) == root
    ensures ComputeRoot(w, value) == Set(root, w.key, value)
  {
    ComputeRootMatches(w, old_value, root);
    var a, b := ComputeRoot(w, value), Set(root, w.key, value);
    forall k ensures Get(a, k) == Get(b, k) {
      if k != w.key {
        assert Lookup(w.siblings[w.key := value], k) == Lookup(w.siblings, k);
      }
    }
    RootExtensional(a, b);
  }

  /** The honest witness checks against its root for the leaf actually stored. */
  lemma WitnessForChecks(root: Root, key: Digest)
    ensures ComputeRoot(WitnessFor(root, key), Get(root, key)) == root
  {
    ComputeRootMatches(WitnessFor(root, key), Get(root, key), root);
  }
}
