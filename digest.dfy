/**
 * The certificate hash both handlers compute: the request's `fileData` text is
 * UTF-8 encoded (the base64 text itself, not the file bytes it stands for),
 * digested with SHA-256 and rendered as lower-case hex.
 */
module CertificateDigest {
  import opened Wrappers
  import opened Hex

  /** SHA-256 produces 32 bytes. */
  const DigestLength: nat := 32

  type Digest = d: seq<Byte> | |d| == DigestLength witness seq(32, _ => 0)

  /**
   * The two platform primitives the handlers call: `TextEncoder.encode` and
   * `crypto.subtle.digest('SHA-256', ·)`. Their internals are not modelled; the
   * model only relies on them being functions and on the digest length.
   */
  datatype Crypto = Crypto(utf8: string -> seq<Byte>, sha256: seq<Byte> -> Digest)

  /** What a stored `certificate_hash` computed by a handler looks like. */
  predicate IsDigestHex(h: string) {
    |h| == 2 * DigestLength && IsHexText(h)
  }

  /** A text of that shape decodes to exactly a digest's worth of bytes. */
  lemma DigestHexDecodes(h: string)
    requires IsDigestHex(h)
    ensures HexDecode(h).Some? && |HexDecode(h).value| == DigestLength
  {
    DecodeAccepts(h);
  }

  /** The digest of a request's `fileData`; an absent value is encoded as the empty text, as `encode(undefined)` does. */
  function FileDigest(crypto: Crypto, fileData: Option<string>): Digest {
    crypto.sha256(crypto.utf8(fileData.GetOr("")))
  }

  /** `certificateHash`: 64 lower-case hex characters that decode back to the SHA-256 digest. */
  function CertificateHash(crypto: Crypto, fileData: Option<string>): (h: string)
    ensures IsDigestHex(h)
    ensures HexDecode(h) == Some(FileDigest(crypto, fileData))
  {
    var digest := FileDigest(crypto, fileData);
    DecodeEncode(digest);
    HexEncode(digest)
  }

  /** Two requests get the same hash exactly when their texts have the same digest. */
  lemma SameHashIffSameDigest(crypto: Crypto, a: Option<string>, b: Option<string>)
    ensures CertificateHash(crypto, a) == CertificateHash(crypto, b) <==> FileDigest(crypto, a) == FileDigest(crypto, b)
  {
    EncodeInjective(FileDigest(crypto, a), FileDigest(crypto, b));
  }
}
