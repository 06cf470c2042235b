/**
 * The libraries the client calls but does not define: HMAC-SHA1 (RFC 2104
 * over the SHA-1 of FIPS 180-4), and the encoder and decoder of the standard
 * padded base64 alphabet (section 4 of RFC 4648). They enter the model as
 * uninterpreted total functions, bundled in one value.
 */
module Collaborators {
  import opened Wrappers
  import opened Utf8

  /** A SHA-1 based MAC is 20 bytes long. */
  type Digest = d: seq<byte> | |d| == 20 witness seq(20, _ => 0)

  /** HMAC-SHA1 of a message under a key. */
  type MacFunction = (seq<byte>, seq<byte>) -> Digest

  datatype Crypto = Crypto(
    hmacSha1: MacFunction,
    base64Encode: seq<byte> -> string,
    /** The crate's decoder: the bytes, or the text of its `DecodeError`. */
    base64Decode: string -> Result<seq<byte>, string>)
}
