/** What the views read from a key, codec family by codec family. */
module ViewTheorems {
  import opened Wrappers
  import opened Bytes
  import opened Codecs
  import opened AttrIds
  import opened Wire
  import opened Views
  import Varints

  /** The bytes start with a varint other than zero that fits a byte. */
  ghost predicate StartsTrue(b: Data) {
    exists n: nat :: 0 < n <= 255 && Varints.Encode(n) <= b
  }

  lemma TrueReads(b: Data)
    ensures DecodesToTrue(b) <==> StartsTrue(b)
  {
    hide Varints.Encode, Varints.Decode;
    if DecodesToTrue(b) {
      var (n, rest) := Varints.Decode(b, Varints.U8_MAX).value;
      Varints.DecodeExact(b, Varints.U8_MAX, n, rest);
      assert 0 < n <= 255 && Varints.Encode(n) <= b;
    }
    if n: nat :| 0 < n <= 255 && Varints.Encode(n) <= b {
      var rest := b[|Varints.Encode(n)|..];
      assert b == Varints.Encode(n) + rest;
      Varints.DecodeExact(b, Varints.U8_MAX, n, rest);
    }
  }

  /** Which keys count as encrypted: those of the curves except X25519, of RSA and BLS, and
      ChaCha20-Poly1305 keys, if their mark is true. Keys of the other families never do. */
  lemma EncryptedExactly(mk: Multikey)
    ensures IsEncrypted(mk) <==>
            KeyIsEncrypted in mk.attributes && StartsTrue(mk.attributes[KeyIsEncrypted])
            && match mk.codec
               case CurvePriv(X25519) | CurvePub(X25519) => false
               case CurvePriv(_) | CurvePub(_) | RsaPriv(_) | RsaPub(_) => true
               case BlsPriv(_) | BlsPub(_) | BlsPrivShare(_) | BlsPubShare(_) => true
               case Aead(a) => a == Chacha20Poly1305
               case _ => false
  {
    hide DecodesToTrue, StartsTrue;
    if KeyIsEncrypted in mk.attributes { TrueReads(mk.attributes[KeyIsEncrypted]); }
  }

  /** Which keys give out a secret: private keys, BLS private shares and ChaCha20-Poly1305 keys with key
      data that are not encrypted. The shares of split keys, key-derivation parameters and signatures have
      no view at all, and public keys and Merkle key shares give out their data as such only. */
  lemma SecretExactly(mk: Multikey, secret: Data)
    ensures SecretBytes(mk) == Ok(secret) <==>
            !IsEncrypted(mk) && KeyData in mk.attributes && mk.attributes[KeyData] == secret
            && match mk.codec
               case CurvePriv(_) | RsaPriv(_) | BlsPriv(_) | BlsPrivShare(_) => true
               case MerklePriv(_) | FrodoPriv(_) | OpaquePriv(_) => true
               case Aead(a) => a == Chacha20Poly1305
               case _ => false
    ensures KeyBytes(mk) == Ok(secret) <==>
            KeyData in mk.attributes && mk.attributes[KeyData] == secret
            && match mk.codec
               case MultikeySigil | KeySplitShare | BcryptPbkdf | Unviewed(_) => false
               case MerkleSig(_) | MerkleSigShare(_) => false
               case Aead(a) => a == Chacha20Poly1305
               case _ => true
  {
    hide IsEncrypted;
  }
}
