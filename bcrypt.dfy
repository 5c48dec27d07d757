/**
  The password hashing library, kept uninterpreted. A hashing scheme is a
  pair of functions; the only thing the server relies on is that comparing
  a plaintext with a hash made from that same plaintext succeeds, whatever
  the salt. That requirement is the predicate `Sound`, which the lemmas
  that need it take as a hypothesis.
 */
module Bcrypt {

  /**
    `hash(plain, salt)` is `bcrypt.hash`, `compare(candidate, digest)` is
    `bcrypt.compare`. Both stay uninterpreted.
   */
  datatype Scheme = Scheme(hash: (string, string) -> string, compare: (string, string) -> bool)

  /** bcrypt's correctness: a plaintext always matches its own hash. */
  ghost predicate Sound(scheme: Scheme)
  {
    forall plain, salt :: scheme.compare(plain, scheme.hash(plain, salt))
  }
}
