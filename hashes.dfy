/**
 * The hash primitives the generator calls (`hashlib.sha256`,
 * `hashlib.pbkdf2_hmac('sha512', ...)`, `hmac.new(..., hashlib.sha512)`).
 * They are not modelled: each is a parameter of the model, an arbitrary
 * function of the right shape whose only known property is its output length.
 */
module Hashes {
  import opened Bytes

  type Digest32 = s: seq<byte> | |s| == 32 witness seq(32, _ => 0)

  type Digest64 = s: seq<byte> | |s| == 64 witness seq(64, _ => 0)

  /** `sha256(message).digest()`. */
  type Sha256 = seq<byte> -> Digest32

  /** `pbkdf2_hmac('sha512', password, salt, iterations)`. */
  type Pbkdf2Sha512 = (seq<byte>, seq<byte>, nat) -> Digest64

  /** `hmac.new(key, message, hashlib.sha512).digest()`. */
  type HmacSha512 = (seq<byte>, seq<byte>) -> Digest64
}
