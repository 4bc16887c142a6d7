/** Tip5 digests as a free term algebra. Two digests are equal exactly when they were hashed from
    equal inputs, which is how collision resistance enters the model. */
module Digests {

  datatype Digest =
    | Raw(value: nat)                          // a digest given by its field elements
    | HashPair(left: Digest, right: Digest)    // Tip5::hash_pair
    | HashNats(nats: seq<nat>)                 // Tip5::hash of a list of integers, such as a chunk
    | HashDigests(digests: seq<Digest>)        // Tip5::hash_varlen of encoded digests

  /** Digest::default() */
  const Default: Digest := Raw(0)
}
