/** The at-rest encryption of an entry's text (a Fernet key loaded once at
    start-up). The cryptography itself is not modelled: a stored value
    records whether it is a token made under some key, and from what. */
module Cipher {

  /** The process-wide Fernet key; keys are only ever compared. */
  type Key = nat

  /** The stored `texte` column. `Sealed` is a Fernet token that `key`
      produced from `plaintext`; `wire` is the token's bytes read as text
      (its base64 form, which depends on the random IV and the clock at
      encryption time). `Raw` is anything else found in the column: legacy
      unencrypted text or a damaged value. */
  datatype Ciphertext =
    | Sealed(key: Key, plaintext: string, wire: string)
    | Raw(wire: string)

  /** The `texte` setter: encrypts under `key`. The random parts of the
      token are the parameter `wire`. */
  function Encrypt(key: Key, plaintext: string, wire: string): (c: Ciphertext)
    ensures Decrypt(key, c) == plaintext
    ensures c.wire == wire
  {
    Sealed(key, plaintext, wire)
  }

  /** The `texte` getter: decrypts under `key`; when decryption fails (the
      value is not a token, or a token made under another key) it falls
      back to the stored bytes decoded as text. It never fails. */
  function Decrypt(key: Key, c: Ciphertext): (r: string)
    ensures c.Sealed? && c.key == key ==> r == c.plaintext
    ensures !(c.Sealed? && c.key == key) ==> r == c.wire
  {
    match c
    case Sealed(k, plaintext, wire) => if k == key then plaintext else wire
    case Raw(wire) => wire
  }
}
