/**
 * The cryptographic envelope, kept opaque. RSA-OAEP decryption under the
 * bank's private key, UTF-8 decoding and the two signature checks (RSA-PSS
 * and DSA, both over SHA-256) are not modelled; each processor receives them
 * as given functions, so the model fixes WHEN each one runs and what happens
 * when it fails, but not how it computes.
 */
module Crypto {
  import opened Maybe

  type Bytes = seq<bv8>

  /** The two signature schemes a terminal may sign with. */
  datatype Scheme = Rsa | Dsa

  /** A public key as loaded from its PEM file. */
  datatype PublicKey = PublicKey(pem: Bytes)

  /**
   * The primitives both processors call.
   * - `decrypt`: OAEP decryption with the bank's private key followed by
   *   UTF-8 decoding; `None` where either of them raises.
   * - `decode`: UTF-8 decoding of a frame; `None` where it raises.
   * - `verify`: the signature check of the scheme over the UTF-8 encoding of
   *   the message; `false` where the signature does not match.
   */
  datatype Primitives = Primitives(
    decrypt: Bytes -> Option<string>,
    decode: Bytes -> Option<string>,
    verify: (Scheme, PublicKey, string, Bytes) -> bool)
}
