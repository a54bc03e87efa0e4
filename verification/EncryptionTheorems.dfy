/** What encrypting a key at rest guarantees: the encrypted key describes its own parameters, is
    closed while encrypted, and opens to exactly the attributes that it does not overwrite. */
module EncryptionTheorems {
  import opened Wrappers
  import opened Bytes
  import opened Codecs
  import opened AttrIds
  import opened Wire
  import opened Views
  import opened Encryption
  import Varints
  import opened WireTheorems

  lemma CodecBytesDecode(reg: Registry, c: Codec)
    requires Sound(reg)
    ensures CodecFromBytes(reg, CodecBytes(reg, c)) == Ok(c)
  {
    assert CodecBytes(reg, c) == CodecBytes(reg, c) + [];
    DecodeCodecExact(reg, CodecBytes(reg, c), c, []);
  }

  lemma NumberBytesDecode(n: nat)
    ensures if n <= Varints.USIZE_MAX then NumberFromBytes(Varints.Encode(n)) == Ok(n)
            else NumberFromBytes(Varints.Encode(n)).Err?
  {
    assert Varints.Encode(n) == Varints.Encode(n) + [];
    Varints.ParseEncode(n, []);
  }

  lemma NumberBounded(b: Data)
    requires NumberFromBytes(b).Ok?
    ensures NumberFromBytes(b).value <= Varints.USIZE_MAX
  {}

  /** The flag is read back as it was written. */
  lemma FlagDecodes(b: bool)
    ensures DecodesToTrue(EncodeBool(b)) == b
  {
    var n := if b then 1 else 0;
    assert EncodeBool(b) == Varints.Encode(n) + [];
    Varints.DecodeExact(EncodeBool(b), Varints.U8_MAX, n, []);
  }

  // ---- deriving ----

  predicate Derivable(reg: Registry, crypto: Crypto, c: Multikey, k: Multikey, pass: Data) {
    && k.codec == BcryptPbkdf && SaltBytes(reg, k).Ok? && Rounds(reg, k).Ok? && CipherChoice(reg, c).Ok?
    && crypto.bcrypt(pass, SaltBytes(reg, k).value, Rounds(reg, k).value % U32, KEY_SIZE).Some?
  }

  /** The key that a passphrase stands for under the salt and the low 32 bits of the round count. */
  function Secret(reg: Registry, crypto: Crypto, k: Multikey, pass: Data): Data
    requires SaltBytes(reg, k).Ok? && Rounds(reg, k).Ok?
    requires crypto.bcrypt(pass, SaltBytes(reg, k).value, Rounds(reg, k).value % U32, KEY_SIZE).Some?
  {
    crypto.bcrypt(pass, SaltBytes(reg, k).value, Rounds(reg, k).value % U32, KEY_SIZE).value
  }

  /** `d` gives a cipher the nonce of `c`, the parameters of `k` and the secret `key`. */
  predicate Describes(reg: Registry, d: Multikey, c: Multikey, k: Multikey, key: Data) {
    && d.codec == c.codec && NonceBytes(reg, d) == NonceBytes(reg, c)
    && SaltBytes(reg, d) == SaltBytes(reg, k) && Rounds(reg, d) == Rounds(reg, k)
    && (c.codec == CHACHA ==> CipherSecret(d) == Ok(key))
  }

  /** The attributes that a derivation sets. */
  function DerivedFrom(reg: Registry, c: Multikey, key: Data, salt: Data, rounds: nat): Multikey {
    c.(attributes := c.attributes - {KeyIsEncrypted}
         + map[KeyData := key, KdfCodec := CodecBytes(reg, BcryptPbkdf), KdfSalt := salt,
               KdfRounds := Varints.Encode(rounds)])
  }

  lemma DerivedKdf(reg: Registry, c: Multikey, key: Data, salt: Data, rounds: nat)
    requires Sound(reg) && |salt| == SALT_LENGTH && rounds <= Varints.USIZE_MAX
    ensures var d := DerivedFrom(reg, c, key, salt, rounds);
            SaltBytes(reg, d) == Ok(salt) && Rounds(reg, d) == Ok(rounds)
  {
    hide CodecBytes, CodecFromBytes, NumberFromBytes, Varints.Encode;
    CodecBytesDecode(reg, BcryptPbkdf);
    NumberBytesDecode(rounds);
  }

  lemma DerivedCipher(reg: Registry, c: Multikey, key: Data, salt: Data, rounds: nat)
    requires |key| == KEY_SIZE
    ensures var d := DerivedFrom(reg, c, key, salt, rounds);
            NonceBytes(reg, d) == NonceBytes(reg, c) && (c.codec == CHACHA ==> CipherSecret(d) == Ok(key))
  {
    hide CodecBytes, CodecFromBytes, Varints.Encode;
  }

  /** Exactly when a key can be derived, and what the derived cipher key then gives to a cipher. */
  lemma Derived(reg: Registry, crypto: Crypto, c: Multikey, k: Multikey, pass: Data)
    requires Sound(reg) && CryptoOk(crypto)
    ensures DeriveKey(reg, crypto, c, k, pass).Ok? <==> Derivable(reg, crypto, c, k, pass)
    ensures DeriveKey(reg, crypto, c, k, pass).Ok? ==>
              Describes(reg, DeriveKey(reg, crypto, c, k, pass).value, c, k, Secret(reg, crypto, k, pass))
  {
    hide CodecBytes, CodecFromBytes, NumberFromBytes, Varints.Encode, CipherSecret, NonceBytes;
    if Derivable(reg, crypto, c, k, pass) {
      hide KdfChoice, CipherChoice;
      NumberBounded(k.attributes[KdfRounds]);
      var key, salt, rounds := Secret(reg, crypto, k, pass), SaltBytes(reg, k).value, Rounds(reg, k).value;
      assert DeriveKey(reg, crypto, c, k, pass) == Ok(DerivedFrom(reg, c, key, salt, rounds));
      DerivedKdf(reg, c, key, salt, rounds);
      DerivedCipher(reg, c, key, salt, rounds);
    }
  }

  /** Parameters to derive with: bcrypt, a 32-byte salt and a round count. */
  predicate ParametersReady(reg: Registry, k: Multikey) {
    && k.codec == BcryptPbkdf
    && (KdfCodec in k.attributes ==> CodecFromBytes(reg, k.attributes[KdfCodec]) == Ok(BcryptPbkdf))
    && KdfSalt in k.attributes && |k.attributes[KdfSalt]| == 32
    && KdfRounds in k.attributes && NumberFromBytes(k.attributes[KdfRounds]).Ok?
  }

  /** A key for ChaCha20-Poly1305, by its attribute or else by its codec. */
  predicate ForChaCha(reg: Registry, c: Multikey) {
    if CipherCodec in c.attributes then CodecFromBytes(reg, c.attributes[CipherCodec]) == Ok(CHACHA)
    else c.codec == CHACHA
  }

  /** Deriving succeeds exactly for ready parameters and a ChaCha20-Poly1305 key, if the password hash
      gives a 32-byte key for the passphrase, the salt and the low 32 bits of the round count. The result
      is the cipher key with that key, the hash's codec, the salt and the full round count, and without
      the mark of an encrypted key; everything else stays. */
  lemma DerivesExactly(reg: Registry, crypto: Crypto, c: Multikey, k: Multikey, pass: Data)
    ensures DeriveKey(reg, crypto, c, k, pass).Ok? <==>
            ParametersReady(reg, k) && ForChaCha(reg, c)
            && crypto.bcrypt(pass, k.attributes[KdfSalt],
                             NumberFromBytes(k.attributes[KdfRounds]).value % 0x1_0000_0000, 32).Some?
    ensures DeriveKey(reg, crypto, c, k, pass).Ok? ==>
              var r, rounds := DeriveKey(reg, crypto, c, k, pass).value, NumberFromBytes(k.attributes[KdfRounds]).value;
              && r.codec == c.codec && r.comment == c.comment
              && {KeyData, KdfCodec, KdfSalt, KdfRounds} <= r.attributes.Keys
              && Some(r.attributes[KeyData])
                 == crypto.bcrypt(pass, k.attributes[KdfSalt], rounds % 0x1_0000_0000, 32)
              && r.attributes[KdfCodec] == Varints.Encode(reg.code(BcryptPbkdf))
              && r.attributes[KdfSalt] == k.attributes[KdfSalt] && r.attributes[KdfRounds] == Varints.Encode(rounds)
              && r.attributes - {KeyData, KdfCodec, KdfSalt, KdfRounds}
                 == c.attributes - {KeyData, KdfCodec, KdfSalt, KdfRounds, KeyIsEncrypted}
  {
    hide CodecFromBytes, NumberFromBytes, Varints.Encode;
    if DeriveKey(reg, crypto, c, k, pass).Ok? {
      var r := DeriveKey(reg, crypto, c, k, pass).value.attributes;
      assert r - {KeyData, KdfCodec, KdfSalt, KdfRounds}
          == c.attributes - {KeyData, KdfCodec, KdfSalt, KdfRounds, KeyIsEncrypted};
    }
  }

  /** The secret derived is the one that the recorded round count stands for. */
  predicate UsesRecordedRounds(reg: Registry, crypto: Crypto, c: Multikey, k: Multikey, pass: Data) {
    var d := DeriveKey(reg, crypto, c, k, pass);
    d.Ok? ==>
      && KeyData in d.value.attributes && SaltBytes(reg, d.value).Ok? && Rounds(reg, d.value).Ok?
      && crypto.bcrypt(pass, SaltBytes(reg, d.value).value, Rounds(reg, d.value).value, KEY_SIZE)
         == Some(d.value.attributes[KeyData])
  }

  /** Parameters from which some password hash derives a key. */
  predicate Usable(reg: Registry, c: Multikey, k: Multikey) {
    k.codec == BcryptPbkdf && SaltBytes(reg, k).Ok? && Rounds(reg, k).Ok? && CipherChoice(reg, c).Ok?
  }

  lemma RecordedRounds(reg: Registry, crypto: Crypto, c: Multikey, k: Multikey, pass: Data)
    requires Sound(reg) && CryptoOk(crypto) && DeriveKey(reg, crypto, c, k, pass).Ok?
    ensures Derivable(reg, crypto, c, k, pass)
    ensures var d := DeriveKey(reg, crypto, c, k, pass).value;
            && KeyData in d.attributes && d.attributes[KeyData] == Secret(reg, crypto, k, pass)
            && SaltBytes(reg, d) == SaltBytes(reg, k) && Rounds(reg, d) == Rounds(reg, k)
  {
    hide CodecBytes, CodecFromBytes, NumberFromBytes, Varints.Encode, CipherSecret, NonceBytes;
    Derived(reg, crypto, c, k, pass);
    hide SaltBytes, Rounds, KdfChoice, CipherChoice;
  }

  /** A hash that tells round counts below 2^32 from the others. */
  function Distinguishing(): Crypto {
    Crypto((k: Data, n: Data, m: Data) => m + seq(TAG_SIZE, _ => 0),
           (k: Data, n: Data, m: Data) => if |m| >= TAG_SIZE then Some(m[..|m| - TAG_SIZE]) else None,
           (pass: Data, salt: Data, rounds: nat, length: nat) => Some(Marked(rounds, length)))
  }

  function Marked(rounds: nat, length: nat): (key: Data)
    ensures |key| == length
  {
    seq(length, _ => if rounds < U32 then 0 else 1)
  }

  lemma DistinguishingOk(pass: Data, salt: Data, rounds: nat)
    ensures CryptoOk(Distinguishing())
    ensures Distinguishing().bcrypt(pass, salt, rounds, KEY_SIZE) == Some(Marked(rounds, KEY_SIZE))
    ensures rounds >= U32 ==> Marked(rounds, KEY_SIZE) != Marked(rounds % U32, KEY_SIZE)
  {
    var c := Distinguishing();
    forall k: Data, n: Data, m: Data
      ensures c.open(k, n, c.seal(k, n, m)) == Some(m) && |c.seal(k, n, m)| == |m| + TAG_SIZE
    {
      assert (m + seq(TAG_SIZE, _ => 0))[..|m|] == m;
    }
    if rounds >= U32 { assert Marked(rounds, KEY_SIZE)[0] == 1 && Marked(rounds % U32, KEY_SIZE)[0] == 0; }
  }

  /** The round count is a machine word that is recorded in full, but only its low 32 bits reach the
      password hash. Whatever the hash, the key derived is that of the recorded count exactly if the
      count is below 2^32. */
  lemma RoundsUsedExactly(reg: Registry, c: Multikey, k: Multikey, pass: Data)
    requires Sound(reg) && Usable(reg, c, k)
    ensures (forall crypto: Crypto :: CryptoOk(crypto) ==> UsesRecordedRounds(reg, crypto, c, k, pass))
       <==> Rounds(reg, k).value < U32
  {
    hide SaltBytes, Rounds, KdfChoice, CipherChoice, DeriveKey;
    if Rounds(reg, k).value < U32 {
      forall crypto: Crypto | CryptoOk(crypto)
        ensures UsesRecordedRounds(reg, crypto, c, k, pass)
      {
        if DeriveKey(reg, crypto, c, k, pass).Ok? { RecordedRounds(reg, crypto, c, k, pass); }
      }
    } else {
      RoundsMismatch(reg, c, k, pass);
    }
  }

  lemma RoundsMismatch(reg: Registry, c: Multikey, k: Multikey, pass: Data)
    requires Sound(reg) && Usable(reg, c, k) && Rounds(reg, k).value >= U32
    ensures CryptoOk(Distinguishing()) && DeriveKey(reg, Distinguishing(), c, k, pass).Ok?
    ensures !UsesRecordedRounds(reg, Distinguishing(), c, k, pass)
  {
    hide SaltBytes, Rounds, KdfChoice, CipherChoice, DeriveKey, Distinguishing, Marked, CryptoOk;
    var crypto, salt, rounds := Distinguishing(), SaltBytes(reg, k).value, Rounds(reg, k).value;
    DistinguishingOk(pass, salt, rounds);
    DistinguishingOk(pass, salt, rounds % U32);
    Derived(reg, crypto, c, k, pass);
    RecordedRounds(reg, crypto, c, k, pass);
  }

  /** A failing input: 2^32 + 1 rounds are recorded, and a single one is used. */
  lemma RoundsExample(reg: Registry, nonce: Data, salt: Data, pass: Data)
    requires Sound(reg) && |salt| == SALT_LENGTH
    ensures var c, k := NewCipher(nonce), NewKdf(salt, U32 + 1);
            Usable(reg, c, k) && CryptoOk(Distinguishing()) && DeriveKey(reg, Distinguishing(), c, k, pass).Ok?
            && !UsesRecordedRounds(reg, Distinguishing(), c, k, pass)
  {
    hide CodecFromBytes, NumberFromBytes, Varints.Encode, CodecBytes, DeriveKey, Distinguishing, CryptoOk;
    hide UsesRecordedRounds;
    NumberBytesDecode(U32 + 1);
    RoundsMismatch(reg, NewCipher(nonce), NewKdf(salt, U32 + 1), pass);
  }

  /** Counts that agree in their low 32 bits derive the same key, although different counts are recorded. */
  lemma RoundsTruncated(reg: Registry, crypto: Crypto, c: Multikey, salt: Data, r: nat, r': nat, pass: Data)
    requires r <= Varints.USIZE_MAX && r' <= Varints.USIZE_MAX && r % U32 == r' % U32
    ensures var d := DeriveKey(reg, crypto, c, NewKdf(salt, r), pass);
            var d' := DeriveKey(reg, crypto, c, NewKdf(salt, r'), pass);
            (d.Ok? <==> d'.Ok?)
            && (d.Ok? ==> d.value.attributes - {KdfRounds} == d'.value.attributes - {KdfRounds})
  {
    hide CodecBytes, CodecFromBytes, NumberFromBytes, Varints.Encode, CipherChoice;
    NumberBytesDecode(r);
    NumberBytesDecode(r');
  }

  // ---- encrypting ----

  /** Which keys fresh parameters encrypt: all those whose secret can be read. */
  lemma EncryptsExactly(reg: Registry, crypto: Crypto, mk: Multikey, nonce: Data, salt: Data, rounds: nat, pass: Data)
    requires Sound(reg) && CryptoOk(crypto)
    requires |nonce| == NONCE_SIZE && |salt| == SALT_LENGTH && rounds <= Varints.USIZE_MAX
    requires crypto.bcrypt(pass, salt, rounds % U32, KEY_SIZE).Some?
    ensures var d := DeriveKey(reg, crypto, NewCipher(nonce), NewKdf(salt, rounds), pass);
            d.Ok? && (Encrypt(reg, crypto, mk, d.value).Ok? <==> SecretBytes(mk).Ok?)
  {
    hide CodecBytes, CodecFromBytes, NumberFromBytes, Varints.Encode;
    NumberBytesDecode(rounds);
    Derived(reg, crypto, NewCipher(nonce), NewKdf(salt, rounds), pass);
  }

  /** A cipher key that encrypts and decrypts: ChaCha20-Poly1305, with a 12-byte nonce, and itself not
      encrypted, with a 32-byte secret. */
  predicate CipherReady(reg: Registry, c: Multikey) {
    && c.codec == CHACHA && !IsEncrypted(c)
    && (CipherCodec in c.attributes ==> CodecFromBytes(reg, c.attributes[CipherCodec]) == Ok(CHACHA))
    && CipherNonce in c.attributes && |c.attributes[CipherNonce]| == 12
    && KeyData in c.attributes && |c.attributes[KeyData]| == 32
  }

  lemma ReadyExactly(reg: Registry, c: Multikey)
    ensures c.codec == CHACHA && NonceBytes(reg, c).Ok? && CipherSecret(c).Ok? <==> CipherReady(reg, c)
    ensures CipherReady(reg, c) ==> NonceBytes(reg, c) == Ok(c.attributes[CipherNonce])
    ensures CipherReady(reg, c) ==> CipherSecret(c) == Ok(c.attributes[KeyData])
  {
    hide CodecFromBytes, IsEncrypted;
  }

  /** The key-derivation parameters that encryption takes over from the cipher key. */
  predicate KdfReady(reg: Registry, c: Multikey) {
    && KdfCodec in c.attributes && CodecFromBytes(reg, c.attributes[KdfCodec]) == Ok(BcryptPbkdf)
    && KdfSalt in c.attributes && |c.attributes[KdfSalt]| == 32
    && KdfRounds in c.attributes && NumberFromBytes(c.attributes[KdfRounds]).Ok?
  }

  /** Which keys a cipher key encrypts: exactly the secret keys with key data that are not encrypted. */
  lemma EncryptsWhen(reg: Registry, crypto: Crypto, mk: Multikey, c: Multikey)
    ensures Encrypt(reg, crypto, mk, c).Ok? <==>
            CipherReady(reg, c) && KdfReady(reg, c)
            && Viewed(mk.codec) && IsSecretKey(mk.codec) && !IsEncrypted(mk) && KeyData in mk.attributes
    ensures c.codec == CHACHA && Viewed(mk.codec) && IsEncrypted(mk) ==>
              Encrypt(reg, crypto, mk, c) == Err(EncryptionFailed)
    ensures c.codec == CHACHA && !Viewed(mk.codec) ==>
              Encrypt(reg, crypto, mk, c) == Decrypt(reg, crypto, mk, c) == Err(UnsupportedCodec)
  {
    hide CodecFromBytes, NumberFromBytes, IsEncrypted, NonceBytes, CipherSecret, LockAttributes, CipherReady;
    ReadyExactly(reg, c);
  }

  /** What encrypting writes: the sealed secret, the mark, and the parameters of both algorithms, each
      from the cipher key; everything else stays. */
  lemma EncryptsTo(reg: Registry, crypto: Crypto, mk: Multikey, c: Multikey)
    requires Encrypt(reg, crypto, mk, c).Ok?
    ensures CipherReady(reg, c) && KdfReady(reg, c) && KeyData in mk.attributes
    ensures var r, sealed := Encrypt(reg, crypto, mk, c).value,
                             crypto.seal(c.attributes[KeyData], c.attributes[CipherNonce], mk.attributes[KeyData]);
            && r.codec == mk.codec && r.comment == mk.comment
            && r.attributes == mk.attributes
                 + map[KeyIsEncrypted := Varints.Encode(1), KeyData := sealed,
                       CipherCodec := Varints.Encode(reg.code(CHACHA)), CipherKeyLen := Varints.Encode(32),
                       CipherNonce := c.attributes[CipherNonce],
                       KdfCodec := Varints.Encode(reg.code(BcryptPbkdf)), KdfSalt := c.attributes[KdfSalt],
                       KdfRounds := Varints.Encode(NumberFromBytes(c.attributes[KdfRounds]).value)]
  {
    hide CodecFromBytes, NumberFromBytes, IsEncrypted, NonceBytes, CipherSecret, CipherReady, Varints.Encode;
    EncryptsWhen(reg, crypto, mk, c);
    ReadyExactly(reg, c);
  }

  /** The encrypted key carries the parameters of the cipher key it was encrypted under. */
  lemma Encrypted(reg: Registry, crypto: Crypto, mk: Multikey, c: Multikey)
    requires Encrypt(reg, crypto, mk, c).Ok?
    ensures SecretBytes(mk).Ok? && NonceBytes(reg, c).Ok? && CipherSecret(c).Ok?
    ensures SaltBytes(reg, c).Ok? && Rounds(reg, c).Ok?
    ensures Encrypt(reg, crypto, mk, c).value == mk.(attributes := mk.attributes + LockAttributes(reg,
              crypto.seal(CipherSecret(c).value, NonceBytes(reg, c).value, SecretBytes(mk).value),
              NonceBytes(reg, c).value, SaltBytes(reg, c).value, Rounds(reg, c).value))
    ensures c.codec == CHACHA && KeyData in mk.attributes && SecretBytes(mk) == Ok(mk.attributes[KeyData])
    ensures Viewed(mk.codec) && IsSecretKey(mk.codec) && Rounds(reg, c).value <= Varints.USIZE_MAX
  {
    hide CodecBytes, CodecFromBytes, NumberFromBytes, LockAttributes;
    NumberBounded(c.attributes[KdfRounds]);
  }

  /** While encrypted, a key whose view reads the flag gives out no secret and is not encrypted
      again. The views that ignore the flag hand out the ciphertext as if it were the secret, and
      refuse to decrypt it under any cipher key. */
  lemma ClosedWhileEncrypted(reg: Registry, crypto: Crypto, mk: Multikey, c: Multikey, other: Multikey)
    requires Encrypt(reg, crypto, mk, c).Ok?
    ensures var e := Encrypt(reg, crypto, mk, c).value;
            if ReadsFlag(mk.codec) then
              IsEncrypted(e) && SecretBytes(e) == Err(EncryptedKey)
              && (other.codec == CHACHA ==> Encrypt(reg, crypto, e, other) == Err(EncryptionFailed))
            else
              !IsEncrypted(e) && SecretBytes(e) == Ok(e.attributes[KeyData])
              && (other.codec == CHACHA ==> Decrypt(reg, crypto, e, other) == Err(DecryptionFailed))
  {
    hide CodecBytes, CodecFromBytes, NumberFromBytes, Varints.Encode, DecodesToTrue, EncodeBool;
    hide SaltBytes, Rounds, CipherSecret, NonceBytes;
    Encrypted(reg, crypto, mk, c);
    FlagDecodes(true);
  }

  // ---- rebuilding ----

  /** The parameters read back from an encrypted key. */
  lemma Rebuilt(reg: Registry, mk: Multikey, sealed: Data, nonce: Data, salt: Data, rounds: nat)
    requires Sound(reg)
    ensures var e := mk.(attributes := mk.attributes + LockAttributes(reg, sealed, nonce, salt, rounds));
            && CipherFrom(reg, e)
               == Ok(Multikey(CHACHA, [], map[CipherKeyLen := Varints.Encode(KEY_SIZE), CipherNonce := nonce]))
            && KdfFrom(reg, e) == Ok(NewKdf(salt, rounds))
  {
    hide CodecBytes, CodecFromBytes, Varints.Encode;
    CodecBytesDecode(reg, CHACHA);
    CodecBytesDecode(reg, BcryptPbkdf);
    var e := mk.(attributes := mk.attributes + LockAttributes(reg, sealed, nonce, salt, rounds));
    assert Only(CipherKeyLen, Lookup(e, CipherKeyLen)) + Only(CipherNonce, Lookup(e, CipherNonce))
        == map[CipherKeyLen := Varints.Encode(KEY_SIZE), CipherNonce := nonce];
    assert Only(KdfSalt, Lookup(e, KdfSalt)) + Only(KdfRounds, Lookup(e, KdfRounds))
        == map[KdfSalt := salt, KdfRounds := Varints.Encode(rounds)];
  }

  /** The attributes of a key with the given identifiers. */
  function Restricted(m: Attributes, ids: set<AttrId>): Attributes {
    map id | id in m && id in ids :: m[id]
  }

  /** The parameters read back from any key: exactly its own attributes of each kind, under the codec that
      the key names for it. */
  lemma RebuildsExactly(reg: Registry, mk: Multikey, r: Multikey)
    ensures CipherFrom(reg, mk) == Ok(r) <==>
            CipherCodec in mk.attributes && CodecFromBytes(reg, mk.attributes[CipherCodec]) == Ok(r.codec)
            && r.comment == [] && r.attributes == Restricted(mk.attributes, {CipherKeyLen, CipherNonce})
    ensures KdfFrom(reg, mk) == Ok(r) <==>
            KdfCodec in mk.attributes && CodecFromBytes(reg, mk.attributes[KdfCodec]) == Ok(r.codec)
            && r.comment == [] && r.attributes == Restricted(mk.attributes, {KdfSalt, KdfRounds})
  {
    hide CodecFromBytes, Only, Lookup, Restricted;
    OnlyTwo(mk, CipherKeyLen, CipherNonce);
    OnlyTwo(mk, KdfSalt, KdfRounds);
  }

  lemma OnlyTwo(mk: Multikey, a: AttrId, b: AttrId)
    ensures Only(a, Lookup(mk, a)) + Only(b, Lookup(mk, b)) == Restricted(mk.attributes, {a, b})
  {
    var two := Only(a, Lookup(mk, a)) + Only(b, Lookup(mk, b));
    forall id: AttrId
      ensures id in two <==> id in mk.attributes && id in {a, b}
      ensures id in two ==> two[id] == mk.attributes[id]
    {}
  }

  /** From the encrypted key alone and the passphrase, the same cipher secret and nonce come back. */
  lemma RebuildsTheSecret(reg: Registry, crypto: Crypto, mk: Multikey, c: Multikey, k: Multikey, pass: Data)
    requires Sound(reg) && CryptoOk(crypto)
    requires DeriveKey(reg, crypto, c, k, pass).Ok?
    requires Encrypt(reg, crypto, mk, DeriveKey(reg, crypto, c, k, pass).value).Ok?
    ensures var d := DeriveKey(reg, crypto, c, k, pass).value;
            var e := Encrypt(reg, crypto, mk, d).value;
            CipherFrom(reg, e).Ok? && KdfFrom(reg, e).Ok?
            && var d' := DeriveKey(reg, crypto, CipherFrom(reg, e).value, KdfFrom(reg, e).value, pass);
               d'.Ok? && d'.value.codec == CHACHA
               && CipherSecret(d'.value) == CipherSecret(d) && NonceBytes(reg, d'.value) == NonceBytes(reg, d)
  {
    hide CodecBytes, CodecFromBytes, NumberFromBytes, Varints.Encode, DeriveKey, LockAttributes;
    hide CipherSecret, CipherFrom, KdfFrom, Encrypt;
    var d := DeriveKey(reg, crypto, c, k, pass).value;
    Derived(reg, crypto, c, k, pass);
    Encrypted(reg, crypto, mk, d);
    var nonce, salt, rounds := NonceBytes(reg, d).value, SaltBytes(reg, d).value, Rounds(reg, d).value;
    Rebuilt(reg, mk, crypto.seal(CipherSecret(d).value, nonce, SecretBytes(mk).value), nonce, salt, rounds);
    NumberBytesDecode(rounds);
    var e := Encrypt(reg, crypto, mk, d).value;
    Derived(reg, crypto, CipherFrom(reg, e).value, KdfFrom(reg, e).value, pass);
  }

  // ---- decrypting ----

  /** What locking leaves in a key's attributes, and what unlocking brings back. */
  lemma Unlocked(reg: Registry, m: Attributes, sealed: Data, nonce: Data, salt: Data, rounds: nat)
    requires KeyData in m
    ensures var locked := m + LockAttributes(reg, sealed, nonce, salt, rounds);
            && KeyData in locked && locked[KeyData] == sealed
            && KeyIsEncrypted in locked && locked[KeyIsEncrypted] == EncodeBool(true)
            && locked[KeyData := m[KeyData]] - LOCK == m - LOCK
  {
    hide CodecBytes, Varints.Encode, EncodeBool;
  }

  /** Decrypting under the same secret and nonce. */
  lemma Decrypts(reg: Registry, crypto: Crypto, mk: Multikey, c: Multikey, d: Multikey)
    requires CryptoOk(crypto) && Encrypt(reg, crypto, mk, c).Ok?
    requires d.codec == CHACHA && CipherSecret(d) == CipherSecret(c) && NonceBytes(reg, d) == NonceBytes(reg, c)
    ensures Decrypt(reg, crypto, Encrypt(reg, crypto, mk, c).value, d) ==
            if ReadsFlag(mk.codec) then Ok(mk.(attributes := mk.attributes - LOCK)) else Err(DecryptionFailed)
  {
    hide LockAttributes, DecodesToTrue, EncodeBool, CipherSecret, NonceBytes, SaltBytes, Rounds, Encrypt;
    Encrypted(reg, crypto, mk, c);
    FlagDecodes(true);
    var key, nonce, msg := CipherSecret(c).value, NonceBytes(reg, c).value, mk.attributes[KeyData];
    var sealed := crypto.seal(key, nonce, msg);
    assert crypto.open(key, nonce, sealed) == Some(msg);
    Unlocked(reg, mk.attributes, sealed, nonce, SaltBytes(reg, c).value, Rounds(reg, c).value);
  }

  /** Which keys a cipher key decrypts: exactly the encrypted secret keys whose key data the cipher opens
      under its own secret and nonce. The result holds the opened text, and none of the attributes that
      say how a key is encrypted; everything else stays. */
  lemma DecryptsExactly(reg: Registry, crypto: Crypto, mk: Multikey, c: Multikey)
    ensures Decrypt(reg, crypto, mk, c).Ok? <==>
            CipherReady(reg, c) && Viewed(mk.codec) && IsSecretKey(mk.codec) && IsEncrypted(mk)
            && KeyData in mk.attributes
            && crypto.open(c.attributes[KeyData], c.attributes[CipherNonce], mk.attributes[KeyData]).Some?
    ensures Decrypt(reg, crypto, mk, c).Ok? ==>
              var r := Decrypt(reg, crypto, mk, c).value;
              && r.codec == mk.codec && r.comment == mk.comment && KeyData in r.attributes
              && Some(r.attributes[KeyData])
                 == crypto.open(c.attributes[KeyData], c.attributes[CipherNonce], mk.attributes[KeyData])
              && r.attributes - {KeyData} == mk.attributes
                   - {KeyData, KeyIsEncrypted, CipherCodec, CipherKeyLen, CipherNonce, KdfCodec, KdfSalt, KdfRounds}
  {
    hide CodecFromBytes, IsEncrypted, NonceBytes, CipherSecret, CipherReady;
    ReadyExactly(reg, c);
    if Decrypt(reg, crypto, mk, c).Ok? {
      var r := Decrypt(reg, crypto, mk, c).value.attributes;
      assert r - {KeyData} == mk.attributes
        - {KeyData, KeyIsEncrypted, CipherCodec, CipherKeyLen, CipherNonce, KdfCodec, KdfSalt, KdfRounds};
    }
  }

  /** What a ready cipher key answers where it does not decrypt: `DecryptionFailed`, both for a key that
      is not an encrypted secret key and for key data that the cipher refuses, as it does under a wrong
      passphrase or after tampering. Ciphertext is never returned. */
  lemma RefusesToDecrypt(reg: Registry, crypto: Crypto, mk: Multikey, c: Multikey)
    requires CipherReady(reg, c) && Viewed(mk.codec) && KeyData in mk.attributes
    requires !IsSecretKey(mk.codec) || !IsEncrypted(mk)
             || crypto.open(c.attributes[KeyData], c.attributes[CipherNonce], mk.attributes[KeyData]) == None
    ensures Decrypt(reg, crypto, mk, c) == Err(DecryptionFailed)
  {
    hide CodecFromBytes, IsEncrypted, NonceBytes, CipherSecret, CipherReady;
    ReadyExactly(reg, c);
  }

  // ---- the whole life cycle ----

  /** Derive a cipher key from the passphrase, encrypt, and write the encrypted key. */
  function Lock(reg: Registry, crypto: Crypto, mk: Multikey, cipher: Multikey, kdf: Multikey, pass: Data)
    : Result<Multikey>
  {
    var derived :- DeriveKey(reg, crypto, cipher, kdf, pass);
    Encrypt(reg, crypto, mk, derived)
  }

  /** Read an encrypted key, rebuild its parameters, derive the cipher key again, and decrypt. */
  function Unlock(reg: Registry, crypto: Crypto, bytes: Data, pass: Data): Result<Multikey> {
    var (e, _) :- Decode(reg, bytes);
    var cipher :- CipherFrom(reg, e);
    var kdf :- KdfFrom(reg, e);
    var derived :- DeriveKey(reg, crypto, cipher, kdf, pass);
    Decrypt(reg, crypto, e, derived)
  }

  lemma UnlockAfterDecode(
    reg: Registry, crypto: Crypto, mk: Multikey, c: Multikey, k: Multikey, pass: Data, bytes: Data, rest: Data)
    requires Sound(reg) && CryptoOk(crypto) && Lock(reg, crypto, mk, c, k, pass).Ok?
    requires Decode(reg, bytes) == Ok((Lock(reg, crypto, mk, c, k, pass).value, rest))
    ensures Unlock(reg, crypto, bytes, pass) ==
            if ReadsFlag(mk.codec) then Ok(mk.(attributes := mk.attributes - LOCK)) else Err(DecryptionFailed)
  {
    hide DeriveKey, Encrypt, Decrypt, CipherFrom, KdfFrom, CipherSecret, NonceBytes, Decode;
    var d := DeriveKey(reg, crypto, c, k, pass).value;
    var e := Encrypt(reg, crypto, mk, d).value;
    RebuildsTheSecret(reg, crypto, mk, c, k, pass);
    Decrypts(reg, crypto, mk, d, DeriveKey(reg, crypto, CipherFrom(reg, e).value, KdfFrom(reg, e).value, pass).value);
  }

  function Zeros(length: nat): (z: Data)
    ensures |z| == length
  {
    seq(length, _ => 0)
  }

  /** The bytes that a key takes up once it is encrypted: with a tag on its secret, a nonce, a salt and
      a round count. It depends on nothing but the key and the round count. */
  function LockedSize(reg: Registry, mk: Multikey, rounds: nat): nat
    requires KeyData in mk.attributes
  {
    var sealed := Zeros(|mk.attributes[KeyData]| + TAG_SIZE);
    var lock := LockAttributes(reg, sealed, Zeros(NONCE_SIZE), Zeros(SALT_LENGTH), rounds);
    |Encode(reg, mk.(attributes := mk.attributes + lock))|
  }

  /** Attributes of the same lengths make keys of the same size. */
  lemma SameLengths(reg: Registry, mk: Multikey, m: Attributes, n: Attributes)
    requires NoLarger(m, n) && NoLarger(n, m)
    ensures |Encode(reg, mk.(attributes := mk.attributes + m))| == |Encode(reg, mk.(attributes := mk.attributes + n))|
  {
    hide Encode;
    SmallerKey(reg, mk.(attributes := mk.attributes + m), mk.(attributes := mk.attributes + n));
    SmallerKey(reg, mk.(attributes := mk.attributes + n), mk.(attributes := mk.attributes + m));
  }

  lemma LockLengths(reg: Registry, a: Data, b: Data, nonce: Data, salt: Data, rounds: nat)
    requires |a| == |b| && |nonce| == NONCE_SIZE && |salt| == SALT_LENGTH
    ensures var lock := LockAttributes(reg, a, nonce, salt, rounds);
            var like := LockAttributes(reg, b, Zeros(NONCE_SIZE), Zeros(SALT_LENGTH), rounds);
            NoLarger(lock, like) && NoLarger(like, lock)
  {
    hide CodecBytes, Varints.Encode, EncodeBool;
  }

  lemma EncryptedSize(reg: Registry, crypto: Crypto, mk: Multikey, c: Multikey)
    requires CryptoOk(crypto) && Encrypt(reg, crypto, mk, c).Ok?
    ensures KeyData in mk.attributes && Rounds(reg, c).Ok?
    ensures |Encode(reg, Encrypt(reg, crypto, mk, c).value)| == LockedSize(reg, mk, Rounds(reg, c).value)
  {
    hide Encode, Encrypt, CipherSecret, Rounds, KdfChoice, CipherChoice, LockAttributes, SecretBytes, NoLarger;
    Encrypted(reg, crypto, mk, c);
    var nonce, salt, rounds := NonceBytes(reg, c).value, SaltBytes(reg, c).value, Rounds(reg, c).value;
    var msg := mk.attributes[KeyData];
    var sealed, zeros := crypto.seal(CipherSecret(c).value, nonce, msg), Zeros(|msg| + TAG_SIZE);
    LockLengths(reg, sealed, zeros, nonce, salt, rounds);
    SameLengths(reg, mk, LockAttributes(reg, sealed, nonce, salt, rounds),
                LockAttributes(reg, zeros, Zeros(NONCE_SIZE), Zeros(SALT_LENGTH), rounds));
  }

  /** With attributes, the cap on the whole key is the only one. */
  lemma FitsBySize(reg: Registry, mk: Multikey)
    requires mk.attributes != map[]
    ensures Fits(mk, |Encode(reg, mk)|) <==> |Encode(reg, mk)| <= MAX_DECODED_SIZE
  {
    hide Entries, EncodeRecords, Varints.Encode;
  }

  /** The life cycle through the wire returns the key exactly when its encrypted form is within the
      size cap, its view reads the flag, and it had no encryption attributes before; otherwise those
      attributes are lost, or unlocking fails. All of this can be seen from the key and the round
      count before encrypting. */
  lemma LifecycleExactly(
    reg: Registry, crypto: Crypto, mk: Multikey, c: Multikey, k: Multikey, pass: Data, rest: Data)
    requires Sound(reg) && CryptoOk(crypto) && reg.utf8(mk.comment)
    requires Lock(reg, crypto, mk, c, k, pass).Ok?
    ensures KeyData in mk.attributes && Rounds(reg, k).Ok?
    ensures var unlocked := Unlock(reg, crypto, Encode(reg, Lock(reg, crypto, mk, c, k, pass).value) + rest, pass);
            var fits := LockedSize(reg, mk, Rounds(reg, k).value) <= MAX_DECODED_SIZE;
            && (unlocked.Ok? <==> fits && ReadsFlag(mk.codec))
            && (unlocked.Ok? ==> unlocked.value == mk.(attributes := mk.attributes - LOCK))
            && (unlocked == Ok(mk) <==> fits && ReadsFlag(mk.codec) && mk.attributes.Keys !! LOCK)
  {
    hide DeriveKey, Encrypt, Decrypt, CipherFrom, KdfFrom, CipherSecret, NonceBytes, Decode, Encode, LockAttributes;
    hide Unlock, LockedSize, SaltBytes, Rounds, KdfChoice, CipherChoice, CryptoOk;
    var d := DeriveKey(reg, crypto, c, k, pass).value;
    var e := Lock(reg, crypto, mk, c, k, pass).value;
    Encrypted(reg, crypto, mk, d);
    Derived(reg, crypto, c, k, pass);
    EncryptedSize(reg, crypto, mk, d);
    LockedHasAttributes(reg, crypto, mk, d);
    FitsBySize(reg, e);
    RoundTrip(reg, e, rest);
    UnlockFails(reg, crypto, Encode(reg, e) + rest, pass);
    if Fits(e, |Encode(reg, e)|) { UnlockAfterDecode(reg, crypto, mk, c, k, pass, Encode(reg, e) + rest, rest); }
    Without(mk.attributes);
  }

  /** By family: within the size cap and without earlier encryption attributes, Ed25519, the elliptic
      curves with a flag-reading view, RSA and BLS keys come back from the life cycle; X25519, Merkle,
      FrodoKEM and the other post-quantum and hybrid keys never do. */
  lemma LifecycleByFamily(
    reg: Registry, crypto: Crypto, mk: Multikey, c: Multikey, k: Multikey, pass: Data, rest: Data)
    requires Sound(reg) && CryptoOk(crypto) && reg.utf8(mk.comment)
    requires Lock(reg, crypto, mk, c, k, pass).Ok? && mk.attributes.Keys == {KeyData}
    ensures Rounds(reg, k).Ok?
    ensures var unlocked := Unlock(reg, crypto, Encode(reg, Lock(reg, crypto, mk, c, k, pass).value) + rest, pass);
            match mk.codec
            case CurvePriv(X25519) | MerklePriv(_) | FrodoPriv(_) | OpaquePriv(_) => unlocked.Err?
            case CurvePriv(_) | RsaPriv(_) | BlsPriv(_) | BlsPrivShare(_) =>
              unlocked == Ok(mk) <==> LockedSize(reg, mk, Rounds(reg, k).value) <= MAX_DECODED_SIZE
            case _ => mk.codec == CHACHA
  {
    hide Lock, Unlock, LockedSize, Rounds, CryptoOk, Encode;
    LifecycleExactly(reg, crypto, mk, c, k, pass, rest);
    LockedIsSecret(reg, crypto, mk, c, k, pass);
  }

  lemma LockedIsSecret(reg: Registry, crypto: Crypto, mk: Multikey, c: Multikey, k: Multikey, pass: Data)
    requires Lock(reg, crypto, mk, c, k, pass).Ok?
    ensures Viewed(mk.codec) && IsSecretKey(mk.codec)
  {
    hide DeriveKey, Encrypt;
    Encrypted(reg, crypto, mk, DeriveKey(reg, crypto, c, k, pass).value);
  }

  lemma LockedHasAttributes(reg: Registry, crypto: Crypto, mk: Multikey, c: Multikey)
    requires Encrypt(reg, crypto, mk, c).Ok?
    ensures Encrypt(reg, crypto, mk, c).value.attributes != map[]
    ensures Encrypt(reg, crypto, mk, c).value.comment == mk.comment
  {
    hide Encrypt, CodecBytes, Varints.Encode, EncodeBool;
    Encrypted(reg, crypto, mk, c);
    assert KeyData in Encrypt(reg, crypto, mk, c).value.attributes;
  }

  lemma UnlockFails(reg: Registry, crypto: Crypto, bytes: Data, pass: Data)
    ensures Decode(reg, bytes).Err? ==> Unlock(reg, crypto, bytes, pass).Err?
  {
    hide Decode;
  }

  lemma Without(m: Attributes)
    ensures m - LOCK == m <==> m.Keys !! LOCK
  {
    if m - LOCK == m {
      forall id | id in m.Keys ensures id !in LOCK { assert id in m - LOCK; }
    }
  }
}
