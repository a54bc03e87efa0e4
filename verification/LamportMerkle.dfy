/** The stateful Merkle-tree signing key: `depth` levels of one-time leaves, one of which each
    signature consumes. */
module LamportMerkle {
  import opened Wrappers
  import opened Bytes
  import opened Codecs
  import opened AttrIds
  import opened Wire
  import opened Views
  import opened MerkleTree
  import opened Chunks

  // ---- the one-time signature crate ----

  /** One digest's primitives: the node hash, the leaf hash of a block of secret material, the
      one-time signature, the leaf hash that a signature on a message leads back to, and the
      signature share of a key share. */
  datatype Scheme = Scheme(
    node: NodeHash, leaf: Data -> Data, sign: (Data, Data) -> Data, recover: (Data, Data) -> Data,
    signatureSize: nat, shareSign: (Data, Data) -> Option<Data>)

  type Schemes = Digest -> Scheme

  ghost predicate SchemeOk(s: Scheme, h: nat) {
    && (forall a: Data, b: Data :: |s.node(a, b)| == h)
    && (forall block: Data :: |s.leaf(block)| == h)
    && (forall block: Data, m: Data :: |s.sign(block, m)| == s.signatureSize)
    && (forall block: Data, m: Data :: s.recover(s.sign(block, m), m) == s.leaf(block))
  }

  ghost predicate SchemesOk(schemes: Schemes) {
    forall d: Digest :: SchemeOk(schemes(d), DigestSize(d))
  }

  const FORMAT_VERSION: Byte := 1

  function DigestSize(d: Digest): nat {
    match d
    case Sha3256 | Sha2256 | Blake2S256 | Blake3256 => 32
    case Sha3384 | Sha2384 => 48
    case Sha3512 | Sha2512 | Blake2B512 | Shake128 | Shake256 => 64
  }

  /** The secret material of one leaf: two blocks of digest size for each digest bit. */
  function BlockSize(d: Digest): nat {
    MaterialSize(DigestSize(d))
  }

  function MaterialSize(digest: nat): (r: nat)
    ensures digest > 0 ==> r > 0
  {
    2 * (digest * 8) * digest
  }

  /** `n` pieces of the given size. */
  function Total(n: nat, size: nat): nat {
    n * size
  }

  datatype State = State(depth: nat, next: nat, leaves: seq<Data>, blocks: seq<Data>)

  ghost predicate StateOk(d: Digest, st: State) {
    && 1 <= st.depth <= 3 && st.next + |st.blocks| == |st.leaves| == Pow2(st.depth)
    && Sized(st.leaves, DigestSize(d)) && Sized(st.blocks, BlockSize(d))
  }

  /** `[version, depth, next_index]`, the leaf hashes, the unused blocks. */
  function StateBytes(st: State): Data
    requires 1 <= st.depth <= 3 && st.next <= Pow2(st.depth)
  {
    SmallPow2(st.depth);
    [FORMAT_VERSION, st.depth, st.next] + Flatten(st.leaves) + Flatten(st.blocks)
  }

  lemma SmallPow2(d: nat)
    requires d <= 3
    ensures Pow2(d) <= 8 && Pow2(0) == 1 && Pow2(1) == 2 && Pow2(2) == 4 && Pow2(3) == 8
  {}

  function ParseState(d: Digest, s: Data): Option<State> {
    if |s| < 3 || s[0] != FORMAT_VERSION || !(1 <= s[1] <= 3) then None
    else
      var capacity, h, m := Pow2(s[1]), DigestSize(d), BlockSize(d);
      if s[2] > capacity || |s| != 3 + Total(capacity, h) + Total(capacity - s[2], m) then None
      else
        var (body, cut) := (s[3..], Total(capacity, h));
        Some(State(s[1], s[2], Chunk(body[..cut], h, capacity), Chunk(body[cut..], m, capacity - s[2])))
  }

  function PublicBytes(sch: Scheme, st: State): Data
    requires |st.leaves| == Pow2(st.depth) && st.depth < 256
  {
    [st.depth] + Root(sch.node, st.depth, st.leaves)
  }

  /** Sign with the next unused block; afterwards the block is gone and the index one further. */
  function SignState(sch: Scheme, st: State, msg: Data): Result<(Data, State)>
    requires |st.leaves| == Pow2(st.depth) == st.next + |st.blocks| && st.depth < 256 && st.next < 256
  {
    if st.blocks == [] then Err(SigningFailed)
    else
      Ok(([st.depth, st.next] + sch.sign(st.blocks[0], msg) + Flatten(Path(sch.node, st.depth, st.leaves, st.next)),
          st.(next := st.next + 1, blocks := st.blocks[1..])))
  }

  /** Sign key bytes and return the signature with the advanced key bytes. */
  function SignBytes(schemes: Schemes, d: Digest, secret: Data, msg: Data): Result<(Data, Data)> {
    match ParseState(d, secret)
    case None => Err(SigningFailed)
    case Some(st) =>
      SmallPow2(st.depth);
      var (sig, st') :- SignState(schemes(d), st, msg);
      Ok((sig, StateBytes(st')))
  }

  function PublicFromPrivate(schemes: Schemes, d: Digest, secret: Data): Result<Data> {
    match ParseState(d, secret)
    case None => Err(InvalidSecretKey)
    case Some(st) => Ok(PublicBytes(schemes(d), st))
  }

  function VerifyBytes(schemes: Schemes, c: Codec, pub: Data, sig: Data, msg: Data): Result<()> {
    if !c.MerklePub? then Err(BadSignature)
    else
      var sch, h := schemes(c.digest), DigestSize(c.digest);
      if |pub| != 1 + h || |sig| < 2 || sig[0] != pub[0] || !(1 <= pub[0] <= 3) then Err(BadSignature)
      else
        var depth, i, body := pub[0], sig[1], sig[2..];
        if i >= Pow2(depth) || |body| != sch.signatureSize + Total(depth, h) then Err(BadSignature)
        else
          var leaf := sch.recover(body[..sch.signatureSize], msg);
          var path := Chunk(body[sch.signatureSize..], h, depth);
          if Climb(sch.node, leaf, i, path) == pub[1..] then Ok(()) else Err(BadSignature)
  }

  // ---- the view ----

  datatype Multisig = Multisig(codec: Codec, message: Data, signature: Option<Data>, depth: Option<Data>)

  /** The depth byte of key-state bytes. */
  function StateDepth(s: Data): Result<Byte> {
    if |s| < 3 || s[0] != FORMAT_VERSION then Err(InvalidAttributeValue(if s == [] then 0 else s[0]))
    else Ok(s[1])
  }

  function WireDepthAt(b: Data, offset: nat): Result<Byte> {
    if offset < |b| then Ok(b[offset]) else Err(MissingKey)
  }

  function DepthAttribute(mk: Multikey): Result<Byte> {
    if Depth !in mk.attributes then Err(MissingDepth)
    else if |mk.attributes[Depth]| != 1 then Err(InvalidAttributeValue(|mk.attributes[Depth]| % 256))
    else Ok(mk.attributes[Depth][0])
  }

  function CheckDepthAttribute(mk: Multikey, wireDepth: Byte): Result<()> {
    var expected :- DepthAttribute(mk);
    if expected != wireDepth then Err(DepthMismatch(expected, wireDepth)) else Ok(())
  }

  function SignatureOf(c: Codec, msg: Data, combined: bool, sig: Data, depth: Byte): Multisig {
    Multisig(c, if combined then msg else [], Some(sig), Some([depth]))
  }

  /** A full private key signs with its next leaf and comes back advanced; a key share comes back as
      it was. */
  function SignAdvance(schemes: Schemes, mk: Multikey, msg: Data, combined: bool): Result<(Multisig, Multikey)> {
    var key :- KeyBytes(mk);
    match mk.codec
    case MerklePrivShare(d) =>
      (match schemes(d).shareSign(key, msg)
       case None => Err(SigningFailed)
       case Some(sig) =>
         var depth :- StateDepth(key);
         Ok((SignatureOf(MerkleSigShare(d), msg, combined, sig, depth), mk)))
    case MerklePriv(d) =>
      var depth :- StateDepth(key);
      var _ :- CheckDepthAttribute(mk, depth);
      var (sig, advanced) :- SignBytes(schemes, d, key, msg);
      Ok((SignatureOf(MerkleSig(d), msg, combined, sig, depth),
          Multikey(mk.codec, mk.comment, map[KeyData := advanced, Depth := [depth]])))
    case _ => Err(NotSigningKey)
  }

  function ToPublicKey(schemes: Schemes, mk: Multikey): Result<Multikey> {
    var secret :- SecretBytes(mk);
    var depth :- WireDepthAt(secret, 1);
    var _ :- CheckDepthAttribute(mk, depth);
    if !mk.codec.MerklePriv? then Err(InvalidSecretKey)
    else
      var pub :- PublicFromPrivate(schemes, mk.codec.digest, secret);
      Ok(Multikey(MerklePub(mk.codec.digest), mk.comment, map[KeyData := pub, Depth := [depth]]))
  }

  /** The key itself if it is not a secret key, else its public key. */
  function PublicForm(schemes: Schemes, mk: Multikey): Result<Multikey> {
    if !Viewed(mk.codec) then Err(UnsupportedCodec)
    else if IsSecretKey(mk.codec) then ToPublicKey(schemes, mk)
    else Ok(mk)
  }

  function SignatureDepth(ms: Multisig): Option<Byte> {
    if ms.depth.Some? && |ms.depth.value| == 1 then Some(ms.depth.value[0]) else None
  }

  function Verify(schemes: Schemes, mk: Multikey, ms: Multisig, msg: Option<Data>): Result<()> {
    if msg.None? && ms.message == [] then Err(MissingMessage)
    else
      var m := if msg.Some? then msg.value else ms.message;
      var pub :- PublicForm(schemes, mk);
      var key :- KeyBytes(pub);
      var keyDepth :- WireDepthAt(key, 0);
      var _ :- CheckDepthAttribute(pub, keyDepth);
      if ms.signature == None then Err(MissingSignature)
      else
        var sigDepth :- WireDepthAt(ms.signature.value, 0);
        if sigDepth != keyDepth then Err(DepthMismatch(keyDepth, sigDepth))
        else if SignatureDepth(ms).Some? && SignatureDepth(ms).value != sigDepth then
          Err(DepthMismatch(SignatureDepth(ms).value, sigDepth))
        else VerifyBytes(schemes, pub.codec, key, ms.signature.value, m)
  }

  // ---- reading the state ----

  /** The digest size of any codec of the family. */
  function DigestBytesFor(c: Codec): (r: Result<nat>)
    ensures r.Ok? ==> r.value > 0
  {
    match c
    case MerklePriv(d) => Ok(DigestSize(d))
    case MerklePub(d) => Ok(DigestSize(d))
    case MerklePrivShare(d) => Ok(DigestSize(d))
    case MerkleSig(d) => Ok(DigestSize(d))
    case MerkleSigShare(d) => Ok(DigestSize(d))
    case _ => Err(UnsupportedCodec)
  }

  /** The number of unused leaves, from the length of the state alone. */
  function RemainingFromState(s: Data, c: Codec): Result<nat> {
    if |s| < 3 then Err(MissingKey)
    else if !(1 <= s[1] <= 3) then Err(InvalidAttributeValue(s[1]))
    else
      var capacity := Pow2(s[1]);
      var h :- DigestBytesFor(c);
      var header := 3 + Total(capacity, h);
      if |s| < header then Err(MissingKey)
      else
        var m, rest := MaterialSize(h), |s| - header;
        if rest % m != 0 then Err(InvalidAttributeValue(s[1]))
        else if s[2] + rest / m != capacity then Err(InvalidAttributeValue(s[1]))
        else Ok(rest / m)
  }

  function Remaining(mk: Multikey): Result<nat> {
    if !IsSecretKey(mk.codec) then Err(NotSecretKey)
    else
      var key :- SecretBytes(mk);
      RemainingFromState(key, mk.codec)
  }

  function NextIndex(mk: Multikey): Result<nat> {
    if !IsSecretKey(mk.codec) then Err(NotSecretKey)
    else
      var key :- SecretBytes(mk);
      var i :- WireDepthAt(key, 2);
      Ok(i)
  }

  function TreeDepth(mk: Multikey): Result<Byte> {
    var key :- KeyBytes(mk);
    var depth :- if IsSecretKey(mk.codec) then StateDepth(key) else WireDepthAt(key, 0);
    var _ :- CheckDepthAttribute(mk, depth);
    Ok(depth)
  }

  // ---- the signing key object ----

  class SigningKey {
    var state: State

    constructor (st: State)
      ensures state == st
    {
      state := st;
    }

    /** Signing advances the key in place, or leaves it alone when no leaf is left. */
    method Sign(sch: Scheme, msg: Data) returns (r: Result<Data>)
      requires |state.leaves| == Pow2(state.depth) == state.next + |state.blocks|
      requires state.depth < 256 && state.next < 256
      modifies this
      ensures match SignState(sch, old(state), msg)
              case Err(e) => r == Err(e) && state == old(state)
              case Ok(signed) => r == Ok(signed.0) && state == signed.1
    {
      if state.blocks == [] { return Err(SigningFailed); }
      var path := Path(sch.node, state.depth, state.leaves, state.next);
      r := Ok([state.depth, state.next] + sch.sign(state.blocks[0], msg) + Flatten(path));
      state := state.(next := state.next + 1, blocks := state.blocks[1..]);
    }
  }

  method SignKeyBytes(schemes: Schemes, d: Digest, secret: Data, msg: Data) returns (r: Result<(Data, Data)>)
    ensures r == SignBytes(schemes, d, secret, msg)
  {
    var parsed := ParseState(d, secret);
    if parsed == None { return Err(SigningFailed); }
    SmallPow2(parsed.value.depth);
    var key := new SigningKey(parsed.value);
    var sig :- key.Sign(schemes(d), msg);
    r := Ok((sig, StateBytes(key.state)));
  }
}
