/** The password handling of `User.set_password` and `User.check_password`.
    bcrypt is abstracted as a salted hash that is injective in the
    password: the stored value records the salt and a digest from which
    nothing but equality with another password can be learnt. */
module Credentials {

  datatype PasswordHash = PasswordHash(salt: nat, digest: string)

  /** `bcrypt.hashpw(password, salt)`, with the salt from `bcrypt.gensalt()`
      passed in; the digest is modelled as the password itself, the simplest
      injective stand-in. */
  function HashPassword(password: string, salt: nat): (h: PasswordHash)
    ensures h.salt == salt
  {
    PasswordHash(salt, password)
  }

  /** `bcrypt.checkpw(password, stored)`: hash the candidate with the salt
      recorded in the stored value and compare. */
  function CheckPassword(stored: PasswordHash, password: string): bool {
    HashPassword(password, stored.salt) == stored
  }

  /** The check accepts the password that was hashed and no other, whatever
      the salt. */
  lemma CheckAcceptsOnlyOriginal(password: string, salt: nat, attempt: string)
    ensures CheckPassword(HashPassword(password, salt), attempt) <==> attempt == password
  {
  }
}
