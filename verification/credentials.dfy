/**
 The password hasher (bcrypt in the server). Hashing is randomised by a salt
 drawn per call, so the salt is a parameter here; the hash and compare
 functions themselves are left uninterpreted and passed in as values.
 */
module Credentials {

  /** The random salt bcrypt generates for one hash call. */
  type Salt = string

  /** `hash(plaintext, salt)` gives the stored hash; `verify(plaintext, stored)`
      says whether a plaintext matches a stored hash. */
  datatype Hasher = Hasher(hash: (string, Salt) -> string, verify: (string, string) -> bool)

  /** The one property the server relies on: a password verifies against any
      hash made from it, whatever salt was drawn. */
  ghost predicate Sound(h: Hasher) {
    forall p: string, salt: Salt :: h.verify(p, h.hash(p, salt))
  }
}
