/**
 * The signer: a keyed digest of a raw part, hex-encoded and cut to ten characters.
 * The digest itself (HMAC of RFC 2104 over SHA3-256 of FIPS 202) is not modelled; the
 * signer is a function value that every part of the model receives, and all that is
 * assumed of it is what truncating a 64-character lowercase hex digest guarantees.
 */
module Signer {

  type Byte = bv8

  /** The deployment secret as stored in the secrets table. */
  type Key = seq<Byte>

  /** Length in bytes of a freshly generated secret. */
  const KeyLength: nat := 32

  /** Length of a signature: the first ten characters of the hex digest. */
  const SignatureLength: nat := 10

  const HexDigits: string := "0123456789abcdef"

  /** sign(key, raw) is the truncated digest of raw under key. */
  type SignFn = (Key, string) -> string

  predicate IsLowerHex(s: string) {
    forall i :: 0 <= i < |s| ==> s[i] in HexDigits
  }

  predicate IsSignature(s: string) {
    |s| == SignatureLength && IsLowerHex(s)
  }

  /** What any truncated hex digest satisfies, for every key and every raw part. */
  ghost predicate TruncatedHexDigest(sign: SignFn) {
    forall k: Key, raw: string :: IsSignature(sign(k, raw))
  }

  /** Characters a str may hold for the constant-time comparison of two strs. */
  predicate IsAscii(s: string) {
    forall i :: 0 <= i < |s| ==> s[i] as int < 128
  }

  /** Signatures are ASCII, so comparing one never raises. */
  lemma SignatureIsAscii(s: string)
    requires IsSignature(s)
    ensures IsAscii(s)
  {
    forall i | 0 <= i < |s| ensures s[i] as int < 128 {
      assert s[i] in HexDigits;
    }
  }
}
