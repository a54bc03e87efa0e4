/** Messages sealed to a FrodoKEM public key: an encapsulated secret, from which an AEAD key is
    derived that encrypts the plaintext. */
module Sealed {
  import opened Wrappers
  import opened Bytes
  import opened Codecs
  import opened AttrIds
  import opened Wire
  import opened Views
  import opened WireTheorems
  import Varints
  import WireCodec

  const TAG_SIZE: nat := 16

  /** "frodokem-seal" */
  const INFO: Data := [102, 114, 111, 100, 111, 107, 101, 109, 45, 115, 101, 97, 108]

  /** The key encapsulation (with its randomness as an argument), HKDF-SHA512, and the AEAD ciphers
      (codec, key, nonce, text, associated data); all of them may fail. */
  datatype Primitives = Primitives(
    publicOf: (FrodoKem, Data) -> Option<Data>,
    encap: (FrodoKem, Data, Data) -> Option<(Data, Data)>,
    decap: (FrodoKem, Data, Data) -> Option<Data>,
    hkdf: (Data, Data, nat) -> Option<Data>,
    seal: (AeadCodec, Data, Data, Data, Data) -> Option<Data>,
    open: (AeadCodec, Data, Data, Data, Data) -> Option<Data>)

  /** Decapsulation agrees with encapsulation for the matching public key, and encapsulations are
      short; derived keys have the length asked for; opening undoes sealing, which adds a tag. */
  ghost predicate Correct(c: Primitives) {
    && (forall k: FrodoKem, sk: Data, coins: Data :: Agrees(c, k, sk, coins))
    && (forall s: Data, info: Data, n: nat :: c.hkdf(s, info, n).Some? ==> |c.hkdf(s, info, n).value| == n)
    && (forall a: AeadCodec, key: Data, nonce: Data, text: Data, aad: Data :: Opens(c, a, key, nonce, text, aad))
  }

  predicate Agrees(c: Primitives, k: FrodoKem, sk: Data, coins: Data) {
    c.publicOf(k, sk).Some? && c.encap(k, c.publicOf(k, sk).value, coins).Some? ==>
      var (ct, secret) := c.encap(k, c.publicOf(k, sk).value, coins).value;
      c.decap(k, sk, ct) == Some(secret) && |ct| <= MAX_DECODED_SIZE
  }

  predicate Opens(c: Primitives, a: AeadCodec, key: Data, nonce: Data, text: Data, aad: Data) {
    c.seal(a, key, nonce, text, aad).Some? ==>
      var ct := c.seal(a, key, nonce, text, aad).value;
      |ct| == |text| + TAG_SIZE && c.open(a, key, nonce, ct, aad) == Some(text)
  }

  function KeySize(c: Codec): Result<nat> {
    match c
    case Aead(Chacha20Poly1305) => Ok(32)
    case Aead(Xchacha20Poly1305) => Ok(32)
    case Aead(AesGcm256) => Ok(32)
    case Aead(AesGcm128) => Ok(16)
    case _ => Err(UnsupportedAeadCodec)
  }

  function NonceSize(c: Codec): Result<nat> {
    match c
    case Aead(Chacha20Poly1305) => Ok(12)
    case Aead(Xchacha20Poly1305) => Ok(24)
    case Aead(AesGcm256) => Ok(12)
    case Aead(AesGcm128) => Ok(12)
    case _ => Err(UnsupportedAeadCodec)
  }

  predicate AeadAllowed(c: Codec) {
    c.Aead? && c.aead != AesGcm128
  }

  const ALLOWED: set<Codec> := {Aead(Chacha20Poly1305), Aead(Xchacha20Poly1305), Aead(AesGcm256)}

  function Derive(p: Primitives, secret: Data, length: nat): Result<Data> {
    match p.hkdf(secret, INFO, length)
    case None => Err(KeyDerivationFailed)
    case Some(key) => Ok(key)
  }

  /** `nonce` is the random nonce drawn for the message. */
  function AeadSeal(p: Primitives, c: Codec, key: Data, nonce: Data, plain: Data, aad: Data): Result<Data> {
    var size :- KeySize(c);
    if |key| != size then Err(AeadSealFailed)
    else
      match p.seal(c.aead, key, nonce, plain, aad)
      case None => Err(AeadSealFailed)
      case Some(ct) => Ok(ct)
  }

  /** A nonce of the wrong length makes the fixed-size copy panic. */
  function AeadOpen(p: Primitives, c: Codec, key: Data, nonce: Data, ct: Data, aad: Data): Result<Data> {
    var size :- KeySize(c);
    var length :- NonceSize(c);
    if |key| != size then Err(AeadOpenFailed)
    else if |nonce| != length then Err(NonceLengthPanic)
    else
      match p.open(c.aead, key, nonce, ct, aad)
      case None => Err(AeadOpenFailed)
      case Some(plain) => Ok(plain)
  }

  // ---- the wire form ----

  datatype Parts = Parts(kemCt: Data, aead: Codec, nonce: Data, ctTag: Data)

  function EncodeSealed(reg: Registry, s: Parts): Data {
    Varints.EncodeBytes(s.kemCt) + Varints.Encode(reg.code(s.aead))
    + Varints.EncodeBytes(s.nonce) + Varints.EncodeBytes(s.ctTag)
  }

  function OrFormat<T>(r: Result<T>): Result<T> {
    if r.Ok? then r else Err(InvalidFormat)
  }

  function DecodeSealed(reg: Registry, b: Data): Result<Parts> {
    var (kemCt, p) :- OrFormat(Varints.DecodeBytes(b));
    var (aead, p) :- OrFormat(DecodeCodec(reg, p));
    var (nonce, p) :- OrFormat(Varints.DecodeBytes(p));
    var (ctTag, _) :- OrFormat(Varints.DecodeBytes(p));
    Ok(Parts(kemCt, aead, nonce, ctTag))
  }

  method EncodeSealedInto(out: WireCodec.Buffer, reg: Registry, aead: Codec, nonce: Data, ctTag: Data)
    modifies out
    ensures out.bytes == old(out.bytes) + Varints.Encode(reg.code(aead))
                         + Varints.EncodeBytes(nonce) + Varints.EncodeBytes(ctTag)
  {
    out.AppendVarint(reg.code(aead));
    out.AppendVarbytes(nonce);
    out.AppendVarbytes(ctTag);
  }

  method EncodeKemSealed(reg: Registry, s: Parts) returns (bytes: Data)
    ensures bytes == EncodeSealed(reg, s)
  {
    var out := new WireCodec.Buffer();
    out.AppendVarbytes(s.kemCt);
    EncodeSealedInto(out, reg, s.aead, s.nonce, s.ctTag);
    bytes := out.bytes;
  }

  predicate PartsFit(s: Parts) {
    |s.kemCt| <= MAX_DECODED_SIZE && |s.nonce| <= MAX_DECODED_SIZE && |s.ctTag| <= MAX_DECODED_SIZE
  }

  lemma SealedShape(reg: Registry, s: Parts, rest: Data)
    ensures EncodeSealed(reg, s) + rest == Varints.EncodeBytes(s.kemCt)
              + (Varints.Encode(reg.code(s.aead))
                 + (Varints.EncodeBytes(s.nonce) + (Varints.EncodeBytes(s.ctTag) + rest)))
  {
    hide Varints.Encode, Varints.EncodeBytes;
  }

  lemma PartsDecode(reg: Registry, s: Parts, rest: Data)
    requires Sound(reg)
    ensures DecodeSealed(reg, EncodeSealed(reg, s) + rest) == if PartsFit(s) then Ok(s) else Err(InvalidFormat)
  {
    hide EncodeSealed, Varints.Encode, Varints.EncodeBytes, Varints.DecodeBytes, DecodeCodec;
    SealedShape(reg, s, rest);
    var p3 := Varints.EncodeBytes(s.ctTag) + rest;
    var p2 := Varints.EncodeBytes(s.nonce) + p3;
    var p1 := Varints.Encode(reg.code(s.aead)) + p2;
    if |s.kemCt| > MAX_DECODED_SIZE { TooLong(s.kemCt, p1); }
    if |s.nonce| > MAX_DECODED_SIZE { TooLong(s.nonce, p3); }
    if |s.ctTag| > MAX_DECODED_SIZE { TooLong(s.ctTag, rest); }
    Varints.DecodeBytesExact(Varints.EncodeBytes(s.kemCt) + p1, s.kemCt, p1);
    DecodeCodecExact(reg, p1, s.aead, p2);
    Varints.DecodeBytesExact(p2, s.nonce, p3);
    Varints.DecodeBytesExact(p3, s.ctTag, rest);
  }

  /** The four fields are read back exactly when each is within the cap, and the accepted inputs are
      exactly these encodings, followed by anything. */
  lemma ParsesExactly(reg: Registry, b: Data, s: Parts)
    requires Sound(reg)
    ensures DecodeSealed(reg, b) == Ok(s) <==> PartsFit(s) && EncodeSealed(reg, s) <= b
  {
    hide EncodeSealed, Varints.Encode, Varints.EncodeBytes;
    if PartsFit(s) && EncodeSealed(reg, s) <= b {
      var rest := b[|EncodeSealed(reg, s)|..];
      assert b == EncodeSealed(reg, s) + rest;
      PartsDecode(reg, s, rest);
    }
    if DecodeSealed(reg, b) == Ok(s) { Parsed(reg, b, s); }
  }

  lemma Parsed(reg: Registry, b: Data, s: Parts)
    requires Sound(reg) && DecodeSealed(reg, b) == Ok(s)
    ensures PartsFit(s) && EncodeSealed(reg, s) <= b
  {
    hide EncodeSealed, Varints.Encode, Varints.EncodeBytes, Varints.DecodeBytes, DecodeCodec;
    var p1 := Varints.DecodeBytes(b).value.1;
    var p2 := DecodeCodec(reg, p1).value.1;
    var p3 := Varints.DecodeBytes(p2).value.1;
    var rest := Varints.DecodeBytes(p3).value.1;
    Varints.DecodeBytesExact(b, s.kemCt, p1);
    DecodeCodecExact(reg, p1, s.aead, p2);
    Varints.DecodeBytesExact(p2, s.nonce, p3);
    Varints.DecodeBytesExact(p3, s.ctTag, rest);
    SealedShape(reg, s, rest);
    assert b == EncodeSealed(reg, s) + rest;
  }

  // ---- sealing and opening ----

  /** The public key of a private key. */
  function ToPublicKey(p: Primitives, mk: Multikey): Result<Multikey> {
    var secret :- SecretBytes(mk);
    if !mk.codec.FrodoPriv? then Err(PublicKeyFailed)
    else
      match p.publicOf(mk.codec.frodo, secret)
      case None => Err(PublicKeyFailed)
      case Some(key) => Ok(Multikey(FrodoPub(mk.codec.frodo), mk.comment, map[KeyData := key]))
  }

  /** `coins` and `nonce` are the random choices of one sealing. */
  function Seal(
    reg: Registry, p: Primitives, mk: Multikey, plain: Data, aead: Codec, aad: Data, coins: Data, nonce: Data)
    : (r: Result<Data>)
    requires NonceSize(aead).Ok? ==> |nonce| == NonceSize(aead).value
    ensures r.Ok? ==> mk.codec.FrodoPub? && aead in ALLOWED
  {
    if !mk.codec.FrodoPub? then Err(NotEncapsulationKey)
    else if !AeadAllowed(aead) then Err(UnsupportedAeadCodec)
    else
      var key :- KeyBytes(mk);
      match p.encap(mk.codec.frodo, key, coins)
      case None => Err(EncapsulationFailed)
      case Some((kemCt, secret)) =>
        var length :- KeySize(aead);
        var aeadKey :- Derive(p, secret, length);
        var ctTag :- AeadSeal(p, aead, aeadKey, nonce, plain, aad);
        Ok(EncodeSealed(reg, Parts(kemCt, aead, nonce, ctTag)))
  }

  function Open(reg: Registry, p: Primitives, mk: Multikey, sealed: Data, aad: Data): (r: Result<Data>)
    ensures r.Ok? ==> mk.codec.FrodoPriv?
    ensures r.Ok? ==> DecodeSealed(reg, sealed).Ok? && DecodeSealed(reg, sealed).value.aead in ALLOWED
  {
    if !mk.codec.FrodoPriv? then Err(NotDecapsulationKey)
    else
      var s :- DecodeSealed(reg, sealed);
      if !AeadAllowed(s.aead) then Err(UnsupportedAeadCodec)
      else
        var sk :- SecretBytes(mk);
        match p.decap(mk.codec.frodo, sk, s.kemCt)
        case None => Err(DecapsulationFailed)
        case Some(secret) =>
          var length :- KeySize(s.aead);
          var aeadKey :- Derive(p, secret, length);
          AeadOpen(p, s.aead, aeadKey, s.nonce, s.ctTag, aad)
  }

  // ---- exactly what sealing and opening compute ----

  function Ascii(text: string): Data
    requires forall i :: 0 <= i < |text| ==> text[i] < 128 as char
  {
    seq(|text|, i requires 0 <= i < |text| => text[i] as int)
  }

  /** The AEAD key of a message: 32 bytes derived from the encapsulated secret under a fixed label. */
  function MessageKey(p: Primitives, secret: Data): Option<Data> {
    p.hkdf(secret, Ascii("frodokem-seal"), 32)
  }

  lemma DerivesMessageKey(p: Primitives, secret: Data, aead: Codec)
    requires aead in ALLOWED
    ensures KeySize(aead) == Ok(32)
    ensures Derive(p, secret, 32) == match MessageKey(p, secret)
                                     case None => Err(KeyDerivationFailed)
                                     case Some(key) => Ok(key)
  {
    assert Ascii("frodokem-seal") == INFO;
  }

  predicate Sealable(p: Primitives, mk: Multikey, plain: Data, aead: Codec, aad: Data, coins: Data, nonce: Data) {
    && mk.codec.FrodoPub? && aead in ALLOWED && KeyData in mk.attributes
    && p.encap(mk.codec.frodo, mk.attributes[KeyData], coins).Some?
    && var secret := p.encap(mk.codec.frodo, mk.attributes[KeyData], coins).value.1;
       && MessageKey(p, secret).Some?
       && p.seal(aead.aead, MessageKey(p, secret).value, nonce, plain, aad).Some?
  }

  /** Sealing succeeds exactly for a public key with key data and one of the three permitted ciphers, if
      encapsulation, key derivation and the cipher do. The message is then the encapsulation, the cipher's
      codec, the nonce and the text sealed under the key derived from the encapsulated secret. */
  lemma SealsExactly(
    reg: Registry, p: Primitives, mk: Multikey, plain: Data, aead: Codec, aad: Data, coins: Data, nonce: Data)
    requires Correct(p) && (NonceSize(aead).Ok? ==> |nonce| == NonceSize(aead).value)
    ensures Seal(reg, p, mk, plain, aead, aad, coins, nonce).Ok? <==> Sealable(p, mk, plain, aead, aad, coins, nonce)
    ensures Sealable(p, mk, plain, aead, aad, coins, nonce) ==>
              var (ct, secret) := p.encap(mk.codec.frodo, mk.attributes[KeyData], coins).value;
              var sealed := p.seal(aead.aead, MessageKey(p, secret).value, nonce, plain, aad).value;
              Seal(reg, p, mk, plain, aead, aad, coins, nonce) == Ok(EncodeSealed(reg, Parts(ct, aead, nonce, sealed)))
  {
    hide EncodeSealed, MessageKey, Derive;
    if mk.codec.FrodoPub? && aead in ALLOWED && KeyData in mk.attributes
       && p.encap(mk.codec.frodo, mk.attributes[KeyData], coins).Some? {
      var secret := p.encap(mk.codec.frodo, mk.attributes[KeyData], coins).value.1;
      DerivesMessageKey(p, secret, aead);
      if MessageKey(p, secret).Some? { MessageKeySize(p, secret); }
    }
  }

  lemma MessageKeySize(p: Primitives, secret: Data)
    requires Correct(p) && MessageKey(p, secret).Some?
    ensures |MessageKey(p, secret).value| == 32
  {}

  /** The key that a private key derives for a message in its wire form. */
  predicate KeyFor(p: Primitives, mk: Multikey, s: Parts, key: Data) {
    && mk.codec.FrodoPriv? && KeyData in mk.attributes
    && p.decap(mk.codec.frodo, mk.attributes[KeyData], s.kemCt).Some?
    && MessageKey(p, p.decap(mk.codec.frodo, mk.attributes[KeyData], s.kemCt).value) == Some(key)
  }

  /** Opening any bytes: it succeeds exactly for a private key and bytes that parse to a message with a
      permitted cipher and a nonce of its length, if decapsulation and key derivation do and the cipher
      opens the text under the derived key; the result is what the cipher opens. */
  lemma OpenExactly(reg: Registry, p: Primitives, mk: Multikey, sealed: Data, aad: Data, plain: Data)
    requires Correct(p)
    ensures Open(reg, p, mk, sealed, aad) == Ok(plain) <==>
            DecodeSealed(reg, sealed).Ok?
            && var s := DecodeSealed(reg, sealed).value;
               && s.aead in ALLOWED && |s.nonce| == (if s.aead == Aead(Xchacha20Poly1305) then 24 else 12)
               && exists key :: KeyFor(p, mk, s, key) && p.open(s.aead.aead, key, s.nonce, s.ctTag, aad) == Some(plain)
  {
    hide DecodeSealed, Derive, MessageKey, Correct;
    if mk.codec.FrodoPriv? && DecodeSealed(reg, sealed).Ok? && DecodeSealed(reg, sealed).value.aead in ALLOWED {
      var s := DecodeSealed(reg, sealed).value;
      if KeyData in mk.attributes && p.decap(mk.codec.frodo, mk.attributes[KeyData], s.kemCt).Some? {
        var secret := p.decap(mk.codec.frodo, mk.attributes[KeyData], s.kemCt).value;
        DerivesMessageKey(p, secret, s.aead);
        if MessageKey(p, secret).Some? {
          MessageKeySize(p, secret);
          assert KeyFor(p, mk, s, MessageKey(p, secret).value);
        }
      }
    }
  }

  /** Where the cipher refuses the text under the derived key, opening fails and gives nothing out. */
  lemma RefusesToOpen(reg: Registry, p: Primitives, mk: Multikey, sealed: Data, aad: Data, key: Data)
    requires Correct(p) && DecodeSealed(reg, sealed).Ok? && KeyFor(p, mk, DecodeSealed(reg, sealed).value, key)
    requires var s := DecodeSealed(reg, sealed).value;
             && s.aead in ALLOWED && |s.nonce| == (if s.aead == Aead(Xchacha20Poly1305) then 24 else 12)
             && p.open(s.aead.aead, key, s.nonce, s.ctTag, aad) == None
    ensures Open(reg, p, mk, sealed, aad) == Err(AeadOpenFailed)
  {
    hide DecodeSealed, Derive, MessageKey, Correct;
    var s := DecodeSealed(reg, sealed).value;
    var secret := p.decap(mk.codec.frodo, mk.attributes[KeyData], s.kemCt).value;
    DerivesMessageKey(p, secret, s.aead);
    MessageKeySize(p, secret);
  }

  /** The public key of a private FrodoKEM key: its codec, the key's comment and the derived key data. */
  lemma PublicKeyExactly(p: Primitives, mk: Multikey)
    ensures ToPublicKey(p, mk).Ok? <==>
            mk.codec.FrodoPriv? && KeyData in mk.attributes
            && p.publicOf(mk.codec.frodo, mk.attributes[KeyData]).Some?
    ensures ToPublicKey(p, mk).Ok? ==>
              ToPublicKey(p, mk).value == Multikey(FrodoPub(mk.codec.frodo), mk.comment,
                map[KeyData := p.publicOf(mk.codec.frodo, mk.attributes[KeyData]).value])
  {}

  /** Opening what was sealed to the matching public key gives the plaintext back exactly while the
      ciphertext with its tag is within the cap that only the reader enforces. Bytes after the
      message are ignored. */
  lemma OpensExactly(
    reg: Registry, p: Primitives, mk: Multikey, plain: Data, aead: Codec, aad: Data, coins: Data, nonce: Data,
    rest: Data)
    requires Sound(reg) && Correct(p) && (NonceSize(aead).Ok? ==> |nonce| == NonceSize(aead).value)
    requires ToPublicKey(p, mk).Ok? && Seal(reg, p, ToPublicKey(p, mk).value, plain, aead, aad, coins, nonce).Ok?
    ensures var sealed := Seal(reg, p, ToPublicKey(p, mk).value, plain, aead, aad, coins, nonce).value;
            Open(reg, p, mk, sealed + rest, aad)
            == if |plain| + TAG_SIZE <= MAX_DECODED_SIZE then Ok(plain) else Err(InvalidFormat)
  {
    hide EncodeSealed, DecodeSealed, Correct, SecretBytes;
    var pk := ToPublicKey(p, mk).value;
    var k, sk := mk.codec.frodo, SecretBytes(mk).value;
    var (kemCt, secret) := p.encap(k, pk.attributes[KeyData], coins).value;
    var key := Derive(p, secret, KeySize(aead).value).value;
    var ctTag := AeadSeal(p, aead, key, nonce, plain, aad).value;
    Laws(p, k, sk, coins, aead.aead, key, nonce, plain, aad);
    PartsDecode(reg, Parts(kemCt, aead, nonce, ctTag), rest);
  }

  lemma Laws(
    p: Primitives, k: FrodoKem, sk: Data, coins: Data, a: AeadCodec, key: Data, nonce: Data, plain: Data, aad: Data)
    requires Correct(p)
    ensures Agrees(p, k, sk, coins) && Opens(p, a, key, nonce, plain, aad)
  {}
}
