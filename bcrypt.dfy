/** Password hashing. The model keeps bcrypt abstract: `Hash` stands for
    bcrypt's hashing at the configured work factor (backend/models/user.js:60, 137)
    and `Compare` for its check (backend/models/user.js:35).
    The salt and the work factor are not modelled. The rest of the project
    relies on exactly two facts: a digest accepts the password it was made
    from, `Compare(p, Hash(p))` (CompareAcceptsHash), and a digest is never
    the password itself, `Hash(p) != p` (HashIsNotPlaintext). */
module Bcrypt {

  /** Tag that every bcrypt digest starts with. */
  const Prefix: string := "$2b$"

  /** Stand-in for the one-way digest of `password`. This body is a placeholder
      and is not one-way. */
  function Hash(password: string): string {
    Prefix + password
  }

  /** Whether `password` matches the stored `digest`. */
  predicate Compare(password: string, digest: string) {
    digest == Hash(password)
  }

  /** A digest produced from a password accepts that password. */
  lemma CompareAcceptsHash(password: string)
    ensures Compare(password, Hash(password))
  {
  }

  /** A digest is never the password in plain text. */
  lemma HashIsNotPlaintext(password: string)
    ensures Hash(password) != password
  {
    assert |Hash(password)| == |Prefix| + |password|;
  }
}
