/** The codecs that the modelled code distinguishes. */
module Codecs {
  import opened Wrappers
  import opened Bytes

  datatype AeadCodec = Chacha20Poly1305 | Xchacha20Poly1305 | AesGcm256 | AesGcm128

  datatype CurveName = Ed25519 | X25519 | Secp256K1 | P256 | P384 | P521

  datatype BlsGroup = G1 | G2

  datatype Digest =
    | Sha3256 | Sha3384 | Sha3512 | Sha2256 | Sha2384 | Sha2512
    | Blake2B512 | Blake2S256 | Blake3256 | Shake128 | Shake256

  datatype FrodoKem = Frodo640Aes | Frodo976Aes | Frodo1344Aes | Frodo640Shake | Frodo976Shake | Frodo1344Shake

  datatype RsaSize = Rsa2048 | Rsa3072 | Rsa4096

  /** Distinguishes the members of a group of codecs that the model treats alike. */
  type Index = n: nat | n < 0x1_0000

  /** `OpaquePriv` and `OpaquePub` stand for the families whose views are alike for this model: the
      post-quantum and hybrid keys. `Unviewed` stands for the codecs without a key view. */
  datatype Codec =
    | MultikeySigil
    | KeySplitShare
    | Aead(aead: AeadCodec)
    | BcryptPbkdf
    | CurvePriv(curve: CurveName)
    | CurvePub(curve: CurveName)
    | RsaPriv(size: RsaSize)
    | RsaPub(size: RsaSize)
    | BlsPriv(group: BlsGroup)
    | BlsPub(group: BlsGroup)
    | BlsPrivShare(group: BlsGroup)
    | BlsPubShare(group: BlsGroup)
    | MerklePriv(digest: Digest)
    | MerklePub(digest: Digest)
    | MerklePrivShare(digest: Digest)
    | MerkleSig(digest: Digest)
    | MerkleSigShare(digest: Digest)
    | FrodoPriv(frodo: FrodoKem)
    | FrodoPub(frodo: FrodoKem)
    | OpaquePriv(family: Index)
    | OpaquePub(family: Index)
    | Unviewed(index: Index)

  /** The multicodec table, and which byte strings are valid UTF-8. */
  datatype Registry = Registry(code: Codec -> nat, lookup: nat -> Option<Codec>, utf8: Data -> bool)

  const U64: nat := 0x1_0000_0000_0000_0000

  ghost predicate Sound(r: Registry) {
    && (forall c: Codec :: r.code(c) < U64 && r.lookup(r.code(c)) == Some(c))
    && (forall n: nat :: r.lookup(n).Some? ==> r.code(r.lookup(n).value) == n)
  }
}
