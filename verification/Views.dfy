/** The attribute and data views that every operation reads keys through. */
module Views {
  import opened Wrappers
  import opened Bytes
  import opened Codecs
  import opened AttrIds
  import opened Wire
  import Varints

  /** The codecs that the attribute and data dispatchers know. */
  predicate Viewed(c: Codec) {
    match c
    case Aead(a) => a == Chacha20Poly1305
    case MultikeySigil | KeySplitShare | BcryptPbkdf | MerkleSig(_) | MerkleSigShare(_) | Unviewed(_) => false
    case _ => true
  }

  predicate IsSecretKey(c: Codec) {
    match c
    case CurvePriv(_) | RsaPriv(_) | BlsPriv(_) | BlsPrivShare(_) | MerklePriv(_) | FrodoPriv(_) | OpaquePriv(_) => true
    case Aead(a) => a == Chacha20Poly1305
    case _ => false
  }

  /** The views that look at the attribute `KeyIsEncrypted`; all others always answer that a key is
      not encrypted. */
  predicate ReadsFlag(c: Codec) {
    match c
    case CurvePriv(k) => k != X25519
    case CurvePub(k) => k != X25519
    case RsaPriv(_) | RsaPub(_) | BlsPriv(_) | BlsPub(_) | BlsPrivShare(_) | BlsPubShare(_) => true
    case Aead(a) => a == Chacha20Poly1305
    case _ => false
  }

  function EncodeBool(b: bool): Data {
    Varints.Encode(if b then 1 else 0)
  }

  /** Only the front of the bytes is read; undecodable bytes count as false. */
  predicate DecodesToTrue(b: Data) {
    var r := Varints.Decode(b, Varints.U8_MAX);
    r.Ok? && r.value.0 != 0
  }

  predicate IsEncrypted(mk: Multikey) {
    ReadsFlag(mk.codec) && KeyIsEncrypted in mk.attributes && DecodesToTrue(mk.attributes[KeyIsEncrypted])
  }

  function KeyBytes(mk: Multikey): Result<Data> {
    if !Viewed(mk.codec) then Err(UnsupportedCodec)
    else if KeyData !in mk.attributes then Err(MissingKey)
    else Ok(mk.attributes[KeyData])
  }

  function SecretBytes(mk: Multikey): Result<Data> {
    if !Viewed(mk.codec) then Err(UnsupportedCodec)
    else if !IsSecretKey(mk.codec) then Err(NotSecretKey)
    else if IsEncrypted(mk) then Err(EncryptedKey)
    else KeyBytes(mk)
  }
}
