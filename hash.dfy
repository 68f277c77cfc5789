/**
 * The hash helpers every Merkle component relies on (src/hash.rs).
 *
 * SHA-256 is not modelled. `String::get_hash` is the parameter `H`, an
 * arbitrary function from strings to digest strings, and an item's own
 * `Hashable::get_hash` is the parameter `hashOf`. Nothing is assumed about
 * either, except where a lemma names `Injective(H)` as a hypothesis.
 */
module Hash {

  /** A digest: the hex string SHA-256 produces. Only compared for equality. */
  type Digest = string

  /** Collision freedom, the idealised property of SHA-256 tamper lemmas rely on. */
  ghost predicate Injective(H: string -> Digest)
  {
    forall a, b :: H(a) == H(b) ==> a == b
  }

  /** `concat_hashes`: the digest of `first` followed by `second`. */
  function ConcatHashes(H: string -> Digest, first: string, second: string): Digest
  {
    var result := first + second;
    H(result)
  }

  /** With an empty second part, `concat_hashes` is the single-child rule `H(first)`. */
  lemma ConcatHashesEmptySecond(H: string -> Digest, first: string)
    ensures ConcatHashes(H, first, "") == H(first)
    ensures ConcatHashes(H, "", first) == H(first)
  {
    assert first + "" == first;
    assert "" + first == first;
  }

  /**
   * Under a collision-free `H`, `concat_hashes` determines either part once
   * the other is fixed.
   */
  lemma ConcatHashesCancel(H: string -> Digest, fixed: string, a: string, b: string)
    requires Injective(H)
    ensures ConcatHashes(H, fixed, a) == ConcatHashes(H, fixed, b) ==> a == b
    ensures ConcatHashes(H, a, fixed) == ConcatHashes(H, b, fixed) ==> a == b
  {
    if ConcatHashes(H, fixed, a) == ConcatHashes(H, fixed, b) {
      assert fixed + a == fixed + b;
      assert a == (fixed + a)[|fixed|..];
      assert b == (fixed + b)[|fixed|..];
    }
    if ConcatHashes(H, a, fixed) == ConcatHashes(H, b, fixed) {
      assert a + fixed == b + fixed;
      assert |a| == |b|;
      assert a == (a + fixed)[..|a|];
      assert b == (b + fixed)[..|b|];
    }
  }

  /** `HashPointer<T>`: a boxed value together with the digest recorded for it. */
  datatype HashPointer<T> = HashPointer(hash: Digest, ptr: T)

  /** `HashPointer::to`: stores the item and its digest. */
  function To<T>(hashOf: T -> Digest, item: T): (p: HashPointer<T>)
    ensures p.ptr == item && p.hash == hashOf(item)
    ensures VerifyHash(hashOf, p)
  {
    HashPointer(hashOf(item), item)
  }

  /** `HashPointer::verify_hash`: re-hashes the pointee and compares. */
  function VerifyHash<T>(hashOf: T -> Digest, p: HashPointer<T>): bool
  {
    if hashOf(p.ptr) == p.hash then true else false
  }

  /**
   * A pointer passes `verify_hash` exactly when its digest is the pointee's, so
   * replacing the recorded digest of a passing pointer by any other value makes
   * it fail.
   */
  lemma VerifyHashDetectsReplacedHash<T>(hashOf: T -> Digest, p: HashPointer<T>, other: Digest)
    requires VerifyHash(hashOf, p)
    requires other != p.hash
    ensures !VerifyHash(hashOf, p.(hash := other))
  {
  }
}
