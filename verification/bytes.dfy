/** Octets and the fixed-size octet strings the codec produces. */
module Bytes {

  newtype byte = x: int | 0 <= x < 256

  /** The 16 octets of `Guid.ToByteArray()`. */
  type Bytes16 = s: seq<byte> | |s| == 16 witness seq(16, _ => 0)

  /** 32 octets: a SHA-256 digest, or the refresh-secret buffer filled by the CSPRNG. */
  type Bytes32 = s: seq<byte> | |s| == 32 witness seq(32, _ => 0)
}
