/** The password hasher (BCrypt in the application), kept uninterpreted: the model is given the two operations
    as values and assumes nothing about them unless a lemma says so explicitly. */
module Passwords {

  /** `Hash(cost, clear)` is the self-describing hash string stored for a clear password; `Verify(clear, stored)`
      tells whether a clear password matches a stored hash. Salt and timing behaviour live inside them. */
  datatype Hasher = Hasher(Hash: (int, string) -> string, Verify: (string, string) -> bool)

  /** The explicit assumption under which a freshly hashed password verifies: verifying a clear password
      against its own hash at the given cost succeeds. */
  ghost predicate VerifiesOwnHash(h: Hasher, cost: int)
  {
    forall clear :: h.Verify(clear, h.Hash(cost, clear))
  }
}
