/** Exactly which keys sign, which signatures verify, and what a key share signs. */
module LamportMerkleAcceptance {
  import opened Wrappers
  import opened Bytes
  import opened Codecs
  import opened AttrIds
  import opened Wire
  import opened Views
  import opened MerkleTree
  import opened Chunks
  import opened LamportMerkle
  import opened LamportMerkleTheorems

  // ---- verification ----

  /** The message that a verification is about: the given one, or else that of the signature. */
  function MessageOf(ms: Multisig, msg: Option<Data>): Option<Data> {
    if msg.Some? then msg else if ms.message != [] then Some(ms.message) else None
  }

  /** The depth attribute of a signature, if it has one of the right form, is the given depth. */
  predicate DepthAgrees(ms: Multisig, depth: Byte) {
    ms.depth.Some? && |ms.depth.value| == 1 ==> ms.depth.value[0] == depth
  }

  /** A signature on `m` that the tree's root vouches for, by its own path or by a collision. */
  ghost predicate Vouched(sch: Scheme, h: nat, depth: Byte, leaves: seq<Data>, sig: Data, m: Data)
    requires |leaves| == Pow2(depth)
  {
    WellFormed(sch, h, depth, sig)
    && var (leaf, path) := (SignedLeaf(sch, sig, m), SignedPath(sch, h, depth, sig));
       IsOwn(sch.node, depth, leaves, sig[1], leaf, path)
       || exists level: nat :: level < depth && CollidesAt(sch.node, depth, leaves, sig[1], leaf, path, level)
  }

  /** What the public key of a tree accepts. */
  ghost predicate Accepted(sch: Scheme, h: nat, depth: Byte, leaves: seq<Data>, ms: Multisig, msg: Option<Data>)
    requires |leaves| == Pow2(depth)
  {
    && MessageOf(ms, msg).Some? && ms.signature.Some? && DepthAgrees(ms, depth)
    && Vouched(sch, h, depth, leaves, ms.signature.value, MessageOf(ms, msg).value)
  }

  /** Under the public key of a tree exactly the signatures verify that carry a message or are given
      one, agree with the key on the depth, and are vouched for by the root. */
  lemma VerifiesExactly(
    schemes: Schemes, d: Digest, comment: Data, depth: nat, blocks: seq<Data>, ms: Multisig, msg: Option<Data>)
    requires SchemesOk(schemes) && Material(d, depth, blocks)
    ensures depth < 256
    ensures Verify(schemes, PublicKeyOf(schemes, d, comment, depth, blocks), ms, msg).Ok? <==>
            Accepted(schemes(d), DigestSize(d), depth, LeavesOf(schemes(d), blocks), ms, msg)
  {
    hide SchemeOk, VerifyBytes, Root, DigestSize, SignedLeaf, SignedPath, IsOwn, CollidesAt, Pow2, BlockSize, Sized;
    var sch, h, leaves := schemes(d), DigestSize(d), LeavesOf(schemes(d), blocks);
    LeavesSized(sch, h, blocks, schemes, d);
    if ms.signature.Some? && MessageOf(ms, msg).Some? {
      VerifiedIsLeaf(schemes, d, depth, leaves, ms.signature.value, MessageOf(ms, msg).value);
      Reaches(schemes, PublicKeyOf(schemes, d, comment, depth, blocks), ms, msg);
    }
  }

  lemma LeavesSized(sch: Scheme, h: nat, blocks: seq<Data>, schemes: Schemes, d: Digest)
    requires SchemesOk(schemes) && sch == schemes(d) && h == DigestSize(d)
    ensures Sized(LeavesOf(sch, blocks), h)
  {
    assert SchemeOk(sch, h);
  }

  /** The checks before the signature bytes are looked at, for any public key. */
  lemma Reaches(schemes: Schemes, pub: Multikey, ms: Multisig, msg: Option<Data>)
    requires pub.codec.MerklePub? && MessageOf(ms, msg).Some? && ms.signature.Some?
    ensures Verify(schemes, pub, ms, msg).Ok? <==>
            KeyData in pub.attributes && pub.attributes[KeyData] != []
            && var key, sig := pub.attributes[KeyData], ms.signature.value;
               && Depth in pub.attributes && pub.attributes[Depth] == [key[0]]
               && sig != [] && sig[0] == key[0] && DepthAgrees(ms, key[0])
               && VerifyBytes(schemes, pub.codec, key, sig, MessageOf(ms, msg).value).Ok?
  {
    hide VerifyBytes;
    if KeyData in pub.attributes && pub.attributes[KeyData] != [] && Depth in pub.attributes {
      assert pub.attributes[Depth] == [pub.attributes[KeyData][0]]
        <==> |pub.attributes[Depth]| == 1 && pub.attributes[Depth][0] == pub.attributes[KeyData][0];
    }
  }

  /** The same for every private key of the tree, in whatever state. */
  lemma PrivateVerifiesExactly(
    schemes: Schemes, mk: Multikey, depth: nat, blocks: seq<Data>, i: nat, ms: Multisig, msg: Option<Data>)
    requires SchemesOk(schemes) && KeyAt(schemes, mk, depth, blocks, i)
    ensures depth < 256
    ensures var d := mk.codec.digest;
            Verify(schemes, mk, ms, msg).Ok? <==>
            Accepted(schemes(d), DigestSize(d), depth, LeavesOf(schemes(d), blocks), ms, msg)
  {
    hide SchemeOk, VerifyBytes, Root, DigestSize, Vouched, ToPublicKey, StateBytes, Pow2, BlockSize, Sized;
    VerifiesExactly(schemes, mk.codec.digest, mk.comment, depth, blocks, ms, msg);
    PublicKeyInvariant(schemes, mk, depth, blocks, i);
  }

  /** A depth attribute that differs from the depth byte of the key is always noticed: nothing verifies
      under the key, it has no public key, and it does not sign. */
  lemma DepthIsChecked(schemes: Schemes, mk: Multikey, ms: Multisig, msg: Option<Data>, text: Data, combined: bool)
    requires mk.codec.MerklePub? || mk.codec.MerklePriv?
    requires KeyData in mk.attributes && Depth in mk.attributes
    requires var at := if mk.codec.MerklePub? then 0 else 1;
             |mk.attributes[KeyData]| > at && mk.attributes[Depth] != [mk.attributes[KeyData][at]]
    ensures Verify(schemes, mk, ms, msg).Err?
    ensures ToPublicKey(schemes, mk).Err? && SignAdvance(schemes, mk, text, combined).Err?
    ensures var key, attribute := mk.attributes[KeyData], mk.attributes[Depth];
            var at := if mk.codec.MerklePub? then 0 else 1;
            |attribute| == 1 ==>
              && (MessageOf(ms, msg).Some? ==>
                    Verify(schemes, mk, ms, msg) == Err(DepthMismatch(attribute[0], key[at])))
              && (at == 1 ==> ToPublicKey(schemes, mk) == Err(DepthMismatch(attribute[0], key[1])))
              && (at == 1 && |key| >= 3 && key[0] == 1 ==>
                    SignAdvance(schemes, mk, text, combined) == Err(DepthMismatch(attribute[0], key[1])))
  {
    hide VerifyBytes, SignBytes, PublicFromPrivate;
    var at := if mk.codec.MerklePub? then 0 else 1;
    if |mk.attributes[Depth]| == 1 {
      assert mk.attributes[Depth] == [mk.attributes[Depth][0]];
    }
  }

  /** Nothing verifies under a key of another kind, a key share included, nor without a message. */
  lemma OnlyTreeKeysVerify(schemes: Schemes, mk: Multikey, ms: Multisig, msg: Option<Data>)
    ensures MessageOf(ms, msg) == None ==> Verify(schemes, mk, ms, msg) == Err(MissingMessage)
    ensures Verify(schemes, mk, ms, msg).Ok? ==> mk.codec.MerklePub? || mk.codec.MerklePriv?
  {
    hide Root, Climb, Chunk;
  }

  /** The digest sizes: 32, 48 or 64 bytes, as the digest has 256, 384 or 512 bits; the SHAKE digests are
      taken at 64. */
  lemma DigestSizesExactly(d: Digest)
    ensures DigestSize(d) == 32 <==> d in {Sha3256, Sha2256, Blake2S256, Blake3256}
    ensures DigestSize(d) == 48 <==> d in {Sha3384, Sha2384}
    ensures DigestSize(d) == 64 <==> d in {Sha3512, Sha2512, Blake2B512, Shake128, Shake256}
  {}

  // ---- signing ----

  /** Parsing accepts exactly the written states. */
  lemma ParsesExactly(d: Digest, s: Data, st: State)
    ensures ParseState(d, s) == Some(st) <==> StateOk(d, st) && s == StateBytes(st)
  {
    hide Total, DigestSize, BlockSize, Flatten, Chunk, Pow2;
    if StateOk(d, st) && s == StateBytes(st) { ParseStateBytes(d, st); }
    if ParseState(d, s) == Some(st) { Parsed(d, s, st); }
  }

  lemma Parsed(d: Digest, s: Data, st: State)
    requires ParseState(d, s) == Some(st)
    ensures StateOk(d, st) && s == StateBytes(st)
  {
    hide Total, DigestSize, BlockSize, Flatten, Chunk, Sized, Pow2;
    SmallPow2(st.depth);
    var capacity, h, m := Pow2(s[1]), DigestSize(d), BlockSize(d);
    var body, cut := s[3..], Total(capacity, h);
    PiecesBack(body[..cut], h, capacity);
    PiecesBack(body[cut..], m, capacity - s[2]);
    assert body == body[..cut] + body[cut..];
    assert s == [s[0], s[1], s[2]] + body;
  }

  lemma PiecesBack(b: Data, size: nat, n: nat)
    requires |b| == Total(n, size)
    ensures Sized(Chunk(b, size, n), size) && Flatten(Chunk(b, size, n)) == b
  {
    FlattenChunk(b, size, n);
  }

  /** A full private key signs exactly if its data is a state with an unused block and its depth
      attribute is the state's. The signature bytes are then the depth, the position, the one-time
      signature of the first unused block on the message and the path of its leaf; and the key that
      comes back holds the state without that block, one position further, and its depth. */
  lemma SignsExactly(schemes: Schemes, mk: Multikey, st: State, msg: Data, combined: bool)
    requires mk.codec.MerklePriv? && KeyData in mk.attributes
    requires StateOk(mk.codec.digest, st) && mk.attributes[KeyData] == StateBytes(st)
    ensures st.depth < 256 && st.next < 256 && |st.leaves| == Pow2(st.depth)
    ensures var r := SignAdvance(schemes, mk, msg, combined);
            && (r.Ok? <==> st.blocks != [] && Depth in mk.attributes && mk.attributes[Depth] == [st.depth])
            && (r.Ok? ==> st.blocks != [] && r.value == Signed(schemes(mk.codec.digest), mk, st, msg, combined))
  {
    hide StateBytes, StateDepth, ParseState, Path, Flatten, Sized, Pow2;
    var d, key := mk.codec.digest, mk.attributes[KeyData];
    SmallPow2(st.depth);
    ParseStateBytes(d, st);
    StateDepthOf(st);
    if Depth in mk.attributes && |mk.attributes[Depth]| == 1 {
      assert mk.attributes[Depth] == [mk.attributes[Depth][0]];
    }
  }

  lemma StateDepthOf(st: State)
    requires 1 <= st.depth <= 3 && st.next <= Pow2(st.depth)
    ensures StateDepth(StateBytes(st)) == Ok(st.depth)
  {
    SmallPow2(st.depth);
  }

  function Signed(sch: Scheme, mk: Multikey, st: State, msg: Data, combined: bool): (Multisig, Multikey)
    requires mk.codec.MerklePriv? && st.blocks != [] && 1 <= st.depth <= 3
    requires st.next + |st.blocks| == |st.leaves| == Pow2(st.depth)
  {
    SmallPow2(st.depth);
    var path := Path(sch.node, st.depth, st.leaves, st.next);
    var rest := State(st.depth, st.next + 1, st.leaves, st.blocks[1..]);
    (Multisig(MerkleSig(mk.codec.digest), if combined then msg else [],
              Some([st.depth, st.next] + sch.sign(st.blocks[0], msg) + Flatten(path)), Some([st.depth])),
     Multikey(MerklePriv(mk.codec.digest), mk.comment, map[KeyData := StateBytes(rest), Depth := [st.depth]]))
  }

  /** Whatever signs as a full private key is such a key. */
  lemma SignersAreKeys(schemes: Schemes, mk: Multikey, msg: Data, combined: bool) returns (st: State)
    requires mk.codec.MerklePriv? && SignAdvance(schemes, mk, msg, combined).Ok?
    ensures KeyData in mk.attributes && StateOk(mk.codec.digest, st) && mk.attributes[KeyData] == StateBytes(st)
  {
    hide StateBytes, StateDepth, ParseState, SignState, StateOk;
    st := ParseState(mk.codec.digest, mk.attributes[KeyData]).value;
    ParsesExactly(mk.codec.digest, mk.attributes[KeyData], st);
  }

  /** A key share signs exactly if the share signature of its own data on the message succeeds and the
      data has a version byte 1 and a depth. The result carries that signature, the share codec of the
      digest and the depth, and the key comes back as it was. No other codec signs. */
  lemma ShareSignsExactly(schemes: Schemes, mk: Multikey, msg: Data, combined: bool)
    requires !mk.codec.MerklePriv?
    ensures var r := SignAdvance(schemes, mk, msg, combined);
            && (r.Ok? <==>
                mk.codec.MerklePrivShare? && KeyData in mk.attributes
                && var key := mk.attributes[KeyData];
                   schemes(mk.codec.digest).shareSign(key, msg).Some? && |key| >= 3 && key[0] == 1)
            && (r.Ok? ==>
                  var d, key := mk.codec.digest, mk.attributes[KeyData];
                  r.value == (Multisig(MerkleSigShare(d), if combined then msg else [],
                                       schemes(d).shareSign(key, msg), Some([key[1]])), mk))
  {}

  // ---- reading the state ----

  /** The depth of any key is read exactly if its depth attribute is the depth byte of its data: the second
      byte of a state with version 1, or the first of a public key or a share. */
  lemma DepthReadsExactly(mk: Multikey, depth: Byte)
    requires mk.codec.MerklePriv? || mk.codec.MerklePub? || mk.codec.MerklePrivShare?
    ensures TreeDepth(mk) == Ok(depth) <==>
            && KeyData in mk.attributes && Depth in mk.attributes && mk.attributes[Depth] == [depth]
            && var key := mk.attributes[KeyData];
               if mk.codec.MerklePriv? then |key| >= 3 && key[0] == 1 && key[1] == depth
               else |key| >= 1 && key[0] == depth
  {
    if Depth in mk.attributes && |mk.attributes[Depth]| == 1 {
      assert mk.attributes[Depth] == [mk.attributes[Depth][0]];
    }
  }

  /** The next index and the number of unused leaves are read from private keys only: the third byte of
      the data, and what the exact-length parser answers for it. */
  lemma IndexReadsExactly(mk: Multikey, i: nat, r: nat)
    requires mk.codec.MerklePriv? || mk.codec.MerklePub? || mk.codec.MerklePrivShare?
    ensures NextIndex(mk) == Ok(i) <==>
            mk.codec.MerklePriv? && KeyData in mk.attributes
            && |mk.attributes[KeyData]| >= 3 && mk.attributes[KeyData][2] == i
    ensures Remaining(mk) == Ok(r) <==>
            mk.codec.MerklePriv? && KeyData in mk.attributes
            && exists version, depth, leaves, blocks ::
                 SplitsAs(mk.attributes[KeyData], DigestSize(mk.codec.digest), r, version, depth, leaves, blocks)
  {
    hide RemainingFromState, SplitsAs, DigestSize;
    if mk.codec.MerklePriv? && KeyData in mk.attributes { RemainingExactly(mk.attributes[KeyData], mk.codec, r); }
  }

  /** A private key has a public key exactly if its data is a state and its depth attribute is the
      state's; the public key holds the depth and the root over the state's leaf hashes. */
  lemma PublicKeyExactly(schemes: Schemes, mk: Multikey, st: State)
    requires mk.codec.MerklePriv? && KeyData in mk.attributes
    requires StateOk(mk.codec.digest, st) && mk.attributes[KeyData] == StateBytes(st)
    ensures st.depth < 256 && |st.leaves| == Pow2(st.depth)
    ensures var r := ToPublicKey(schemes, mk);
            && (r.Ok? <==> Depth in mk.attributes && mk.attributes[Depth] == [st.depth])
            && (r.Ok? ==>
                  var root := Root(schemes(mk.codec.digest).node, st.depth, st.leaves);
                  r.value == Multikey(MerklePub(mk.codec.digest), mk.comment,
                                      map[KeyData := [st.depth] + root, Depth := [st.depth]]))
  {
    hide StateBytes, ParseState, Root, Sized, Pow2;
    SmallPow2(st.depth);
    ParseStateBytes(mk.codec.digest, st);
    StateDepthOf(st);
    WireDepthOf(st);
    if Depth in mk.attributes && |mk.attributes[Depth]| == 1 {
      assert mk.attributes[Depth] == [mk.attributes[Depth][0]];
    }
  }

  lemma WireDepthOf(st: State)
    requires 1 <= st.depth <= 3 && st.next <= Pow2(st.depth)
    ensures WireDepthAt(StateBytes(st), 1) == Ok(st.depth)
  {
    SmallPow2(st.depth);
  }
}
