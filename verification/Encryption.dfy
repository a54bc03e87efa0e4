/** Encryption of keys at rest: deriving a cipher key from a passphrase, encrypting, rebuilding the
    parameters from the encrypted key, and decrypting. */
module Encryption {
  import opened Wrappers
  import opened Bytes
  import opened Codecs
  import opened AttrIds
  import opened Wire
  import opened Views
  import Varints

  const SALT_LENGTH: nat := 32
  const KEY_SIZE: nat := 32
  const NONCE_SIZE: nat := 12
  const U32: nat := 0x1_0000_0000

  const CHACHA: Codec := Aead(Chacha20Poly1305)

  /** The tag that ChaCha20-Poly1305 adds to a text. */
  const TAG_SIZE: nat := 16

  /** ChaCha20-Poly1305 (section 2.8 of RFC 8439) and the bcrypt password hash, which may refuse its
      arguments. */
  datatype Crypto = Crypto(
    seal: (Data, Data, Data) -> Data, open: (Data, Data, Data) -> Option<Data>,
    bcrypt: (Data, Data, nat, nat) -> Option<Data>)

  ghost predicate CryptoOk(c: Crypto) {
    && (forall k: Data, n: Data, m: Data :: c.open(k, n, c.seal(k, n, m)) == Some(m))
    && (forall k: Data, n: Data, m: Data :: |c.seal(k, n, m)| == |m| + TAG_SIZE)
    && (forall pass: Data, salt: Data, rounds: nat, length: nat ::
          c.bcrypt(pass, salt, rounds, length).Some? ==> |c.bcrypt(pass, salt, rounds, length).value| == length)
  }

  function CodecBytes(reg: Registry, c: Codec): Data {
    Varints.Encode(reg.code(c))
  }

  /** Decoding a codec or a number from an attribute ignores bytes after it. */
  function CodecFromBytes(reg: Registry, b: Data): Result<Codec> {
    var (c, _) :- DecodeCodec(reg, b);
    Ok(c)
  }

  function NumberFromBytes(b: Data): Result<nat> {
    var (n, _) :- Varints.Decode(b, Varints.USIZE_MAX);
    Ok(n)
  }

  // ---- attribute views, chosen by an attribute or else by the codec ----

  function CipherChoice(reg: Registry, mk: Multikey): Result<()> {
    var c :- if CipherCodec in mk.attributes then CodecFromBytes(reg, mk.attributes[CipherCodec]) else Ok(mk.codec);
    if c == CHACHA then Ok(()) else Err(UnsupportedCipher)
  }

  /** A nonce of the wrong length makes the fixed-size copy panic. */
  function NonceBytes(reg: Registry, mk: Multikey): Result<Data> {
    var _ :- CipherChoice(reg, mk);
    if CipherNonce !in mk.attributes then Err(MissingNonce)
    else if |mk.attributes[CipherNonce]| != NONCE_SIZE then Err(NonceLengthPanic)
    else Ok(mk.attributes[CipherNonce])
  }

  function KeyLength(reg: Registry, mk: Multikey): Result<nat> {
    var _ :- CipherChoice(reg, mk);
    Ok(KEY_SIZE)
  }

  function KdfChoice(reg: Registry, mk: Multikey): Result<()> {
    var c :- if KdfCodec in mk.attributes then CodecFromBytes(reg, mk.attributes[KdfCodec]) else Ok(mk.codec);
    if c == BcryptPbkdf then Ok(()) else Err(UnsupportedKdf)
  }

  function SaltBytes(reg: Registry, mk: Multikey): Result<Data> {
    var _ :- KdfChoice(reg, mk);
    if KdfSalt !in mk.attributes then Err(MissingSalt)
    else if |mk.attributes[KdfSalt]| != SALT_LENGTH then Err(InvalidSaltLength)
    else Ok(mk.attributes[KdfSalt])
  }

  function Rounds(reg: Registry, mk: Multikey): Result<nat> {
    var _ :- KdfChoice(reg, mk);
    if KdfRounds !in mk.attributes then Err(MissingRounds)
    else NumberFromBytes(mk.attributes[KdfRounds])
  }

  // ---- deriving a cipher key ----

  /** The cipher key `mk` with the key derived from the passphrase under the parameters of `kdf`. The
      round count is cut to 32 bits for the derivation and recorded in full. */
  function DeriveKey(reg: Registry, crypto: Crypto, mk: Multikey, kdf: Multikey, pass: Data): Result<Multikey> {
    if kdf.codec != BcryptPbkdf then Err(UnsupportedKdf)
    else
      var salt :- SaltBytes(reg, kdf);
      var rounds :- Rounds(reg, kdf);
      var length :- KeyLength(reg, mk);
      match crypto.bcrypt(pass, salt, rounds % U32, length)
      case None => Err(BcryptFailed)
      case Some(key) =>
        Ok(mk.(attributes := mk.attributes - {KeyIsEncrypted}
             + map[KeyData := key, KdfCodec := CodecBytes(reg, kdf.codec), KdfSalt := salt,
                   KdfRounds := Varints.Encode(rounds)]))
  }

  method DeriveCipherKey(reg: Registry, crypto: Crypto, mk: Multikey, kdf: Multikey, pass: Data)
    returns (r: Result<Multikey>)
    ensures r == DeriveKey(reg, crypto, mk, kdf, pass)
  {
    hide SaltBytes, Rounds, KeyLength, CodecBytes, Varints.Encode;
    if kdf.codec != BcryptPbkdf { return Err(UnsupportedKdf); }
    var salt :- SaltBytes(reg, kdf);
    var rounds :- Rounds(reg, kdf);
    var length :- KeyLength(reg, mk);
    var key := crypto.bcrypt(pass, salt, rounds % U32, length);
    if key == None { return Err(BcryptFailed); }
    var attributes := mk.attributes;
    attributes := attributes[KeyData := key.value];
    attributes := attributes - {KeyIsEncrypted};
    attributes := attributes[KdfCodec := CodecBytes(reg, kdf.codec)];
    attributes := attributes[KdfSalt := salt];
    attributes := attributes[KdfRounds := Varints.Encode(rounds)];
    assert attributes == mk.attributes - {KeyIsEncrypted}
      + map[KeyData := key.value, KdfCodec := CodecBytes(reg, kdf.codec), KdfSalt := salt,
            KdfRounds := Varints.Encode(rounds)];
    r := Ok(mk.(attributes := attributes));
  }

  // ---- encrypting and decrypting ----

  /** The key of a cipher key, which must have the size that the cipher needs. */
  function CipherSecret(cipher: Multikey): Result<Data> {
    var key :- SecretBytes(cipher);
    if |key| != KEY_SIZE then Err(InvalidKey) else Ok(key)
  }

  function LockAttributes(reg: Registry, sealed: Data, nonce: Data, salt: Data, rounds: nat): Attributes {
    map[KeyIsEncrypted := EncodeBool(true), KeyData := sealed,
        CipherCodec := CodecBytes(reg, CHACHA), CipherKeyLen := Varints.Encode(KEY_SIZE), CipherNonce := nonce,
        KdfCodec := CodecBytes(reg, BcryptPbkdf), KdfSalt := salt, KdfRounds := Varints.Encode(rounds)]
  }

  function Encrypt(reg: Registry, crypto: Crypto, mk: Multikey, cipher: Multikey): Result<Multikey> {
    if cipher.codec != CHACHA then Err(UnsupportedCipher)
    else if !Viewed(mk.codec) then Err(UnsupportedCodec)
    else if IsEncrypted(mk) then Err(EncryptionFailed)
    else
      var nonce :- NonceBytes(reg, cipher);
      var key :- CipherSecret(cipher);
      var msg :- SecretBytes(mk);
      var salt :- SaltBytes(reg, cipher);
      var rounds :- Rounds(reg, cipher);
      Ok(mk.(attributes := mk.attributes + LockAttributes(reg, crypto.seal(key, nonce, msg), nonce, salt, rounds)))
  }

  method EncryptKey(reg: Registry, crypto: Crypto, mk: Multikey, cipher: Multikey) returns (r: Result<Multikey>)
    ensures r == Encrypt(reg, crypto, mk, cipher)
  {
    hide NonceBytes, CipherSecret, SecretBytes, SaltBytes, Rounds, CodecBytes, EncodeBool, Varints.Encode;
    if cipher.codec != CHACHA { return Err(UnsupportedCipher); }
    if !Viewed(mk.codec) { return Err(UnsupportedCodec); }
    if IsEncrypted(mk) { return Err(EncryptionFailed); }
    var nonce :- NonceBytes(reg, cipher);
    var key :- CipherSecret(cipher);
    var msg :- SecretBytes(mk);
    var sealed := crypto.seal(key, nonce, msg);
    var salt :- SaltBytes(reg, cipher);
    var rounds :- Rounds(reg, cipher);
    var attributes := mk.attributes;
    attributes := attributes[KeyIsEncrypted := EncodeBool(true)];
    attributes := attributes[KeyData := sealed];
    attributes := attributes[CipherCodec := CodecBytes(reg, cipher.codec)];
    attributes := attributes[CipherKeyLen := Varints.Encode(KEY_SIZE)];
    attributes := attributes[CipherNonce := nonce];
    attributes := attributes[KdfCodec := CodecBytes(reg, BcryptPbkdf)];
    attributes := attributes[KdfSalt := salt];
    attributes := attributes[KdfRounds := Varints.Encode(rounds)];
    assert attributes == mk.attributes + LockAttributes(reg, sealed, nonce, salt, rounds);
    r := Ok(mk.(attributes := attributes));
  }

  /** The attributes that say how a key is encrypted. */
  const LOCK: set<AttrId> := {KeyIsEncrypted, CipherCodec, CipherKeyLen, CipherNonce, KdfCodec, KdfSalt, KdfRounds}

  function Decrypt(reg: Registry, crypto: Crypto, mk: Multikey, cipher: Multikey): Result<Multikey> {
    if cipher.codec != CHACHA then Err(UnsupportedCipher)
    else if !Viewed(mk.codec) then Err(UnsupportedCodec)
    else if !IsEncrypted(mk) || !IsSecretKey(mk.codec) then Err(DecryptionFailed)
    else
      var nonce :- NonceBytes(reg, cipher);
      var key :- CipherSecret(cipher);
      var msg :- KeyBytes(mk);
      match crypto.open(key, nonce, msg)
      case None => Err(DecryptionFailed)
      case Some(plain) => Ok(mk.(attributes := mk.attributes[KeyData := plain] - LOCK))
  }

  method DecryptKey(reg: Registry, crypto: Crypto, mk: Multikey, cipher: Multikey) returns (r: Result<Multikey>)
    ensures r == Decrypt(reg, crypto, mk, cipher)
  {
    hide NonceBytes, CipherSecret, SecretBytes, KeyBytes;
    if cipher.codec != CHACHA { return Err(UnsupportedCipher); }
    if !Viewed(mk.codec) { return Err(UnsupportedCodec); }
    if !IsEncrypted(mk) || !IsSecretKey(mk.codec) { return Err(DecryptionFailed); }
    var nonce :- NonceBytes(reg, cipher);
    var key :- CipherSecret(cipher);
    var msg :- KeyBytes(mk);
    var plain := crypto.open(key, nonce, msg);
    if plain == None { return Err(DecryptionFailed); }
    var attributes := mk.attributes - {KeyIsEncrypted};
    attributes := attributes[KeyData := plain.value];
    attributes := attributes - {CipherCodec};
    attributes := attributes - {CipherKeyLen};
    attributes := attributes - {CipherNonce};
    attributes := attributes - {KdfCodec};
    attributes := attributes - {KdfSalt};
    attributes := attributes - {KdfRounds};
    assert attributes == mk.attributes[KeyData := plain.value] - LOCK;
    r := Ok(mk.(attributes := attributes));
  }

  // ---- rebuilding the parameters ----

  /** The attribute alone, if it is there. */
  function Only(id: AttrId, value: Option<Data>): Attributes {
    if value.Some? then map[id := value.value] else map[]
  }

  function Lookup(mk: Multikey, id: AttrId): Option<Data> {
    if id in mk.attributes then Some(mk.attributes[id]) else None
  }

  /** The cipher key that an encrypted key describes, without its secret. */
  function CipherFrom(reg: Registry, mk: Multikey): Result<Multikey> {
    if CipherCodec !in mk.attributes then Err(MissingCodec)
    else
      var c :- CodecFromBytes(reg, mk.attributes[CipherCodec]);
      Ok(Multikey(c, [], Only(CipherKeyLen, Lookup(mk, CipherKeyLen)) + Only(CipherNonce, Lookup(mk, CipherNonce))))
  }

  /** The key-derivation parameters that an encrypted key describes. */
  function KdfFrom(reg: Registry, mk: Multikey): Result<Multikey> {
    if KdfCodec !in mk.attributes then Err(MissingCodec)
    else
      var c :- CodecFromBytes(reg, mk.attributes[KdfCodec]);
      Ok(Multikey(c, [], Only(KdfSalt, Lookup(mk, KdfSalt)) + Only(KdfRounds, Lookup(mk, KdfRounds))))
  }

  class CipherBuilder {
    var codec: Codec
    var keyLength: Option<Data>
    var nonce: Option<Data>

    constructor (c: Codec)
      ensures codec == c && keyLength == None && nonce == None
    {
      codec, keyLength, nonce := c, None, None;
    }

    /** Take over the cipher attributes of a key; attributes it does not have leave the fields alone. */
    method TryFromMultikey(reg: Registry, mk: Multikey) returns (r: Result<()>)
      modifies this
      ensures r.Ok? ==>
                && CipherCodec in mk.attributes && CodecFromBytes(reg, mk.attributes[CipherCodec]) == Ok(codec)
                && keyLength == (if CipherKeyLen in mk.attributes then Some(mk.attributes[CipherKeyLen])
                                 else old(keyLength))
                && nonce == (if CipherNonce in mk.attributes then Some(mk.attributes[CipherNonce]) else old(nonce))
      ensures r.Err? ==> CipherFrom(reg, mk) == Err(r.error)
    {
      if CipherCodec !in mk.attributes { return Err(MissingCodec); }
      codec :- CodecFromBytes(reg, mk.attributes[CipherCodec]);
      if CipherKeyLen in mk.attributes { keyLength := Some(mk.attributes[CipherKeyLen]); }
      if CipherNonce in mk.attributes { nonce := Some(mk.attributes[CipherNonce]); }
      r := Ok(());
    }

    method WithNonce(n: Data)
      modifies this`nonce
      ensures nonce == Some(n)
    {
      nonce := Some(n);
    }

    method TryBuild() returns (r: Multikey)
      ensures r == Multikey(codec, [], Only(CipherKeyLen, keyLength) + Only(CipherNonce, nonce))
    {
      var attributes: Attributes := map[];
      if keyLength.Some? { attributes := attributes[CipherKeyLen := keyLength.value]; }
      if nonce.Some? { attributes := attributes[CipherNonce := nonce.value]; }
      r := Multikey(codec, [], attributes);
    }
  }

  class KdfBuilder {
    var codec: Codec
    var salt: Option<Data>
    var rounds: Option<Data>

    constructor (c: Codec)
      ensures codec == c && salt == None && rounds == None
    {
      codec, salt, rounds := c, None, None;
    }

    /** Take over the key-derivation attributes of a key. */
    method TryFromMultikey(reg: Registry, mk: Multikey) returns (r: Result<()>)
      modifies this
      ensures r.Ok? ==>
                && KdfCodec in mk.attributes && CodecFromBytes(reg, mk.attributes[KdfCodec]) == Ok(codec)
                && salt == (if KdfSalt in mk.attributes then Some(mk.attributes[KdfSalt]) else old(salt))
                && rounds == (if KdfRounds in mk.attributes then Some(mk.attributes[KdfRounds]) else old(rounds))
      ensures r.Err? ==> KdfFrom(reg, mk) == Err(r.error)
    {
      if KdfCodec !in mk.attributes { return Err(MissingCodec); }
      codec :- CodecFromBytes(reg, mk.attributes[KdfCodec]);
      if KdfSalt in mk.attributes { salt := Some(mk.attributes[KdfSalt]); }
      if KdfRounds in mk.attributes { rounds := Some(mk.attributes[KdfRounds]); }
      r := Ok(());
    }

    method WithSalt(s: Data)
      modifies this`salt
      ensures salt == Some(s)
    {
      salt := Some(s);
    }

    method WithRounds(n: nat)
      modifies this`rounds
      ensures rounds == Some(Varints.Encode(n))
    {
      rounds := Some(Varints.Encode(n));
    }

    method TryBuild() returns (r: Multikey)
      ensures r == Multikey(codec, [], Only(KdfSalt, salt) + Only(KdfRounds, rounds))
    {
      var attributes: Attributes := map[];
      if salt.Some? { attributes := attributes[KdfSalt := salt.value]; }
      if rounds.Some? { attributes := attributes[KdfRounds := rounds.value]; }
      r := Multikey(codec, [], attributes);
    }
  }

  /** Rebuilding both parameter keys from one encrypted key. */
  method RebuildParameters(reg: Registry, mk: Multikey) returns (cipher: Result<Multikey>, kdf: Result<Multikey>)
    ensures cipher == CipherFrom(reg, mk) && kdf == KdfFrom(reg, mk)
  {
    var c := new CipherBuilder(MultikeySigil);
    var k := new KdfBuilder(MultikeySigil);
    var rc := c.TryFromMultikey(reg, mk);
    if rc.Ok? { var built := c.TryBuild(); cipher := Ok(built); } else { cipher := Err(rc.error); }
    var rk := k.TryFromMultikey(reg, mk);
    if rk.Ok? { var built := k.TryBuild(); kdf := Ok(built); } else { kdf := Err(rk.error); }
  }

  /** Fresh parameters, before a key is derived. */
  function NewCipher(nonce: Data): Multikey {
    Multikey(CHACHA, [], map[CipherNonce := nonce])
  }

  function NewKdf(salt: Data, rounds: nat): Multikey {
    Multikey(BcryptPbkdf, [], map[KdfSalt := salt, KdfRounds := Varints.Encode(rounds)])
  }

  method BuildParameters(nonce: Data, salt: Data, rounds: nat) returns (cipher: Multikey, kdf: Multikey)
    ensures cipher == NewCipher(nonce) && kdf == NewKdf(salt, rounds)
  {
    var c := new CipherBuilder(CHACHA);
    c.WithNonce(nonce);
    cipher := c.TryBuild();
    var k := new KdfBuilder(BcryptPbkdf);
    k.WithRounds(rounds);
    k.WithSalt(salt);
    kdf := k.TryBuild();
  }
}
