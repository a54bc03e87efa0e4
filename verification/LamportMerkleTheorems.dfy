/** What holds over whole runs of a stateful key: every signature verifies, no leaf is used twice,
    and the tree is exhausted after exactly as many signatures as it has leaves. */
module LamportMerkleTheorems {
  import opened Wrappers
  import opened Bytes
  import opened Codecs
  import opened AttrIds
  import opened Wire
  import opened Views
  import opened MerkleTree
  import opened Chunks
  import opened LamportMerkle
  import WireTheorems
  import PrimeField

  // ---- state bytes ----

  lemma TotalIsLength(xs: seq<Data>, size: nat)
    requires Sized(xs, size)
    ensures |Flatten(xs)| == Total(|xs|, size)
  {
    FlattenLength(xs, size);
  }

  /** Parsing inverts writing. */
  lemma ParseStateBytes(d: Digest, st: State)
    requires StateOk(d, st)
    ensures ParseState(d, StateBytes(st)) == Some(st)
  {
    hide Total, DigestSize, BlockSize, Flatten, Chunk;
    SmallPow2(st.depth);
    TotalIsLength(st.leaves, DigestSize(d));
    TotalIsLength(st.blocks, BlockSize(d));
    var s, a, b := StateBytes(st), Flatten(st.leaves), Flatten(st.blocks);
    assert s[3..] == a + b;
    assert (a + b)[..|a|] == a && (a + b)[|a|..] == b;
    ChunkFlatten(st.leaves, DigestSize(d));
    ChunkFlatten(st.blocks, BlockSize(d));
  }

  // ---- the length arithmetic of the state parser ----

  /** `s` is a header with any version byte, `2^depth` leaf hashes and `r` unused blocks. */
  ghost predicate SplitsAs(
    s: Data, digest: nat, r: nat, version: Byte, depth: nat, leaves: seq<Data>, blocks: seq<Data>)
  {
    && 1 <= depth <= 3 && |leaves| == Pow2(depth) && |blocks| == r <= Pow2(depth)
    && Sized(leaves, digest) && Sized(blocks, 16 * digest * digest)
    && Pow2(depth) - r < 256
    && s == [version, depth, Pow2(depth) - r] + Flatten(leaves) + Flatten(blocks)
  }

  /** The codecs of the family: keys, key shares, signatures and signature shares. */
  predicate MerkleCodec(c: Codec) {
    c.MerklePriv? || c.MerklePub? || c.MerklePrivShare? || c.MerkleSig? || c.MerkleSigShare?
  }

  /** The parser answers `r` exactly on the states with `r` unused blocks and an index that agrees. */
  lemma RemainingExactly(s: Data, c: Codec, r: nat)
    ensures RemainingFromState(s, c) == Ok(r) <==>
            MerkleCodec(c) && exists version, depth, leaves, blocks ::
              SplitsAs(s, DigestSize(c.digest), r, version, depth, leaves, blocks)
  {
    hide DigestSize;
    if DigestBytesFor(c).Ok? {
      var h := DigestBytesFor(c).value;
      if RemainingFromState(s, c) == Ok(r) {
        StateSplits(s, c, r, h);
      }
      if version, depth, leaves, blocks :| SplitsAs(s, h, r, version, depth, leaves, blocks) {
        SplitRemains(s, c, r, h, version, depth, leaves, blocks);
      }
    }
  }

  lemma MaterialIs16Squares(digest: nat)
    ensures MaterialSize(digest) == 16 * digest * digest
  {
    assert 2 * (digest * 8) * digest == 16 * digest * digest;
  }

  lemma StateSplits(s: Data, c: Codec, r: nat, h: nat)
    requires DigestBytesFor(c) == Ok(h) && RemainingFromState(s, c) == Ok(r)
    ensures exists version, depth, leaves, blocks :: SplitsAs(s, h, r, version, depth, leaves, blocks)
  {
    hide Flatten, Chunk, MaterialSize;
    MaterialIs16Squares(h);
    var m, depth := MaterialSize(h), s[1];
    SmallPow2(depth);
    var capacity := Pow2(depth);
    var rest := |s| - (3 + Total(capacity, h));
    PrimeField.DivMod(rest, m);
    var body := s[3..];
    var a, b := body[..Total(capacity, h)], body[Total(capacity, h)..];
    FlattenChunk(a, h, capacity);
    FlattenChunk(b, m, r);
    assert s == [s[0], s[1], s[2]] + a + b;
    assert SplitsAs(s, h, r, s[0], depth, Chunk(a, h, capacity), Chunk(b, m, r));
  }

  lemma SplitRemains(s: Data, c: Codec, r: nat, h: nat, version: Byte, depth: nat, leaves: seq<Data>, blocks: seq<Data>)
    requires DigestBytesFor(c) == Ok(h) && SplitsAs(s, h, r, version, depth, leaves, blocks)
    ensures RemainingFromState(s, c) == Ok(r)
  {
    hide Flatten, MaterialSize, Pow2;
    MaterialIs16Squares(h);
    var m := MaterialSize(h);
    TotalIsLength(leaves, h);
    TotalIsLength(blocks, m);
    PrimeField.Remainder(Total(r, m), r, 0, m);
    assert |s| == 3 + Total(Pow2(depth), h) + Total(r, m);
  }

  lemma HonestRemaining(c: Codec, st: State)
    requires c.MerklePriv? && StateOk(c.digest, st)
    ensures RemainingFromState(StateBytes(st), c) == Ok(|st.blocks|)
  {
    SmallPow2(st.depth);
    MaterialIs16Squares(DigestSize(c.digest));
    SplitRemains(StateBytes(st), c, |st.blocks|, DigestSize(c.digest), FORMAT_VERSION, st.depth, st.leaves, st.blocks);
  }

  // ---- honest keys ----

  function LeavesOf(sch: Scheme, blocks: seq<Data>): (r: seq<Data>)
    ensures |r| == |blocks| && forall i :: 0 <= i < |r| ==> r[i] == sch.leaf(blocks[i])
  {
    seq(|blocks|, i requires 0 <= i < |blocks| => sch.leaf(blocks[i]))
  }

  /** The secret material of a whole tree. */
  ghost predicate Material(d: Digest, depth: nat, blocks: seq<Data>) {
    1 <= depth <= 3 && |blocks| == Pow2(depth) && Sized(blocks, BlockSize(d))
  }

  /** The state of that tree after `i` signatures. */
  function StateAt(sch: Scheme, depth: nat, blocks: seq<Data>, i: nat): State
    requires i <= |blocks|
  {
    State(depth, i, LeavesOf(sch, blocks), blocks[i..])
  }

  lemma StateAtOk(sch: Scheme, d: Digest, depth: nat, blocks: seq<Data>, i: nat)
    requires SchemeOk(sch, DigestSize(d)) && Material(d, depth, blocks) && i <= |blocks|
    ensures StateOk(d, StateAt(sch, depth, blocks, i))
  {
    SmallPow2(depth);
  }

  /** `mk` is the private key of the tree with the given material after `i` signatures. */
  ghost predicate KeyAt(schemes: Schemes, mk: Multikey, depth: nat, blocks: seq<Data>, i: nat) {
    && mk.codec.MerklePriv? && Material(mk.codec.digest, depth, blocks) && i <= |blocks|
    && KeyData in mk.attributes && Depth in mk.attributes && mk.attributes[Depth] == [depth]
    && mk.attributes[KeyData] == StateBytes(StateAt(schemes(mk.codec.digest), depth, blocks, i))
  }

  lemma KeyParses(schemes: Schemes, mk: Multikey, depth: nat, blocks: seq<Data>, i: nat)
    requires SchemesOk(schemes) && KeyAt(schemes, mk, depth, blocks, i)
    ensures var d, key := mk.codec.digest, mk.attributes[KeyData];
            var st := StateAt(schemes(d), depth, blocks, i);
            && StateOk(d, st) && ParseState(d, key) == Some(st) && key == StateBytes(st)
            && StateDepth(key) == Ok(depth) && WireDepthAt(key, 1) == Ok(depth) && WireDepthAt(key, 2) == Ok(i)
  {
    hide Flatten, SchemeOk;
    StateAtOk(schemes(mk.codec.digest), mk.codec.digest, depth, blocks, i);
    ParseStateBytes(mk.codec.digest, StateAt(schemes(mk.codec.digest), depth, blocks, i));
  }

  /** The public key of the tree. */
  function PublicKeyOf(schemes: Schemes, d: Digest, comment: Data, depth: nat, blocks: seq<Data>): Multikey
    requires |blocks| == Pow2(depth) && depth < 256
  {
    var leaves := LeavesOf(schemes(d), blocks);
    Multikey(MerklePub(d), comment, map[KeyData := [depth] + Root(schemes(d).node, depth, leaves), Depth := [depth]])
  }

  /** Root and depth do not change along a run: every state has the same public key. */
  lemma PublicKeyInvariant(schemes: Schemes, mk: Multikey, depth: nat, blocks: seq<Data>, i: nat)
    requires SchemesOk(schemes) && KeyAt(schemes, mk, depth, blocks, i)
    ensures ToPublicKey(schemes, mk) == Ok(PublicKeyOf(schemes, mk.codec.digest, mk.comment, depth, blocks))
  {
    hide SchemeOk, StateBytes, ParseState, StateDepth, Root;
    KeyParses(schemes, mk, depth, blocks, i);
  }

  // ---- one signature ----

  /** The signature bytes that the tree gives for a message at position `i`. */
  function SignatureAt(sch: Scheme, depth: nat, blocks: seq<Data>, i: nat, msg: Data): Data
    requires |blocks| == Pow2(depth) && i < |blocks| && depth < 256 && i < 256
  {
    [depth, i] + sch.sign(blocks[i], msg) + Flatten(Path(sch.node, depth, LeavesOf(sch, blocks), i))
  }

  /** A step of a run: the signature is the tree's at the next position, and the key comes back at the
      position after, with its codec and comment. */
  lemma SignStep(schemes: Schemes, mk: Multikey, depth: nat, blocks: seq<Data>, i: nat, msg: Data, combined: bool)
    requires SchemesOk(schemes) && KeyAt(schemes, mk, depth, blocks, i) && i < |blocks|
    ensures depth < 256 && i < 256
    ensures var d, r := mk.codec.digest, SignAdvance(schemes, mk, msg, combined);
            && r.Ok?
            && r.value.0
               == SignatureOf(MerkleSig(d), msg, combined, SignatureAt(schemes(d), depth, blocks, i, msg), depth)
            && KeyAt(schemes, r.value.1, depth, blocks, i + 1)
            && r.value.1.codec == mk.codec && r.value.1.comment == mk.comment
            && r.value.1.attributes.Keys == {KeyData, Depth}
  {
    hide SchemeOk, StateBytes, ParseState, StateDepth, Path, Flatten;
    SmallPow2(depth);
    KeyParses(schemes, mk, depth, blocks, i);
    assert blocks[i..][1..] == blocks[i + 1..];
  }

  /** With no leaf left, signing fails. */
  lemma SignExhausted(schemes: Schemes, mk: Multikey, depth: nat, blocks: seq<Data>, msg: Data, combined: bool)
    requires SchemesOk(schemes) && KeyAt(schemes, mk, depth, blocks, |blocks|)
    ensures SignAdvance(schemes, mk, msg, combined) == Err(SigningFailed)
  {
    hide SchemeOk, StateBytes, ParseState, StateDepth, Path, Flatten;
    KeyParses(schemes, mk, depth, blocks, |blocks|);
  }

  lemma PathSized(sch: Scheme, h: nat, depth: nat, leaves: seq<Data>, i: nat)
    requires SchemeOk(sch, h) && |leaves| == Pow2(depth) && Sized(leaves, h) && i < Pow2(depth)
    ensures Sized(Path(sch.node, depth, leaves, i), h) && |Root(sch.node, depth, leaves)| == h
  {
    if depth > 0 {
      var half := Pow2(depth - 1);
      RootSized(sch, h, depth - 1, leaves[..half]);
      RootSized(sch, h, depth - 1, leaves[half..]);
      if i < half { PathSized(sch, h, depth - 1, leaves[..half], i); }
      else { PathSized(sch, h, depth - 1, leaves[half..], i - half); }
    }
  }

  lemma RootSized(sch: Scheme, h: nat, depth: nat, leaves: seq<Data>)
    requires SchemeOk(sch, h) && |leaves| == Pow2(depth) && Sized(leaves, h)
    ensures |Root(sch.node, depth, leaves)| == h
  {}

  /** The tree's signature verifies against its root. */
  lemma SignatureVerifies(schemes: Schemes, d: Digest, depth: nat, blocks: seq<Data>, i: nat, msg: Data)
    requires SchemesOk(schemes) && Material(d, depth, blocks) && i < |blocks| && i < 256
    ensures var sch := schemes(d);
            VerifyBytes(schemes, MerklePub(d), [depth] + Root(sch.node, depth, LeavesOf(sch, blocks)),
                        SignatureAt(sch, depth, blocks, i, msg), msg) == Ok(())
  {
    hide Total, DigestSize, Flatten, Chunk, Path, Root, Climb, BlockSize;
    var sch, h, leaves := schemes(d), DigestSize(d), LeavesOf(schemes(d), blocks);
    assert SchemeOk(sch, h);
    var path, ots := Path(sch.node, depth, leaves, i), sch.sign(blocks[i], msg);
    PathSized(sch, h, depth, leaves, i);
    TotalIsLength(path, h);
    ChunkFlatten(path, h);
    PathLeadsToRoot(sch.node, depth, leaves, i);
    var sig, pub := SignatureAt(sch, depth, blocks, i, msg), [depth] + Root(sch.node, depth, leaves);
    assert sig[2..] == ots + Flatten(path);
    assert sig[2..][..|ots|] == ots && sig[2..][|ots|..] == Flatten(path);
    assert pub[1..] == Root(sch.node, depth, leaves);
  }

  /** A signature from anywhere in a run verifies under any key of the run, private or public, when
      the message is given. When it is taken from the signature instead, it must have been combined
      and must not be empty. */
  lemma VerifiesUnderAnyState(
    schemes: Schemes, mk: Multikey, depth: nat, blocks: seq<Data>, j: nat, i: nat, msg: Data, combined: bool)
    requires SchemesOk(schemes) && KeyAt(schemes, mk, depth, blocks, j) && i < |blocks| && i < 256 && depth < 256
    ensures var d := mk.codec.digest;
            var ms := SignatureOf(MerkleSig(d), msg, combined, SignatureAt(schemes(d), depth, blocks, i, msg), depth);
            var pub := PublicKeyOf(schemes, d, mk.comment, depth, blocks);
            && Verify(schemes, mk, ms, Some(msg)) == Ok(())
            && Verify(schemes, pub, ms, Some(msg)) == Ok(())
            && (Verify(schemes, mk, ms, None).Ok? <==> combined && msg != [])
            && (Verify(schemes, pub, ms, None).Ok? <==> combined && msg != [])
  {
    hide SchemeOk, VerifyBytes, ToPublicKey, Root, Path, Flatten;
    PublicKeyInvariant(schemes, mk, depth, blocks, j);
    SignatureVerifies(schemes, mk.codec.digest, depth, blocks, i, msg);
  }

  // ---- whole runs ----

  datatype Request = Request(msg: Data, combined: bool)

  /** Sign the messages one after the other, each with the key that the previous signature returned. */
  function Run(schemes: Schemes, mk: Multikey, requests: seq<Request>): Result<(seq<Multisig>, Multikey)>
    decreases |requests|
  {
    if requests == [] then Ok(([], mk))
    else
      var (ms, mk') :- SignAdvance(schemes, mk, requests[0].msg, requests[0].combined);
      var (rest, last) :- Run(schemes, mk', requests[1..]);
      Ok(([ms] + rest, last))
  }

  /** What the tree itself answers to a request at position `i`. */
  function TreeAnswer(schemes: Schemes, d: Digest, depth: nat, blocks: seq<Data>, i: nat, r: Request): Multisig
    requires 1 <= depth <= 3 && |blocks| == Pow2(depth) && i < |blocks|
  {
    SmallPow2(depth);
    SignatureOf(MerkleSig(d), r.msg, r.combined, SignatureAt(schemes(d), depth, blocks, i, r.msg), depth)
  }

  /** The signatures answer the requests with the leaves `i`, `i + 1`, ... in order. */
  ghost predicate Answers(
    schemes: Schemes, d: Digest, depth: nat, blocks: seq<Data>, i: nat,
    requests: seq<Request>, signatures: seq<Multisig>)
  {
    && Material(d, depth, blocks) && |signatures| == |requests| <= |blocks| - i
    && forall j :: 0 <= j < |requests| ==> signatures[j] == TreeAnswer(schemes, d, depth, blocks, i + j, requests[j])
  }

  /** From any state of the tree a run succeeds exactly when enough leaves remain; it then uses the
      next leaves in order, one for each message, and ends that many positions further. */
  lemma {:induction false} RunUsesLeavesInOrder(
    schemes: Schemes, mk: Multikey, depth: nat, blocks: seq<Data>, i: nat, requests: seq<Request>)
    requires SchemesOk(schemes) && KeyAt(schemes, mk, depth, blocks, i)
    ensures Run(schemes, mk, requests).Ok? <==> |requests| <= |blocks| - i
    ensures Run(schemes, mk, requests).Ok? ==>
              var (signatures, last) := Run(schemes, mk, requests).value;
              && KeyAt(schemes, last, depth, blocks, i + |requests|)
              && last.codec == mk.codec && last.comment == mk.comment
              && Answers(schemes, mk.codec.digest, depth, blocks, i, requests, signatures)
    decreases |requests|
  {
    hide SchemeOk, SignatureAt, SignAdvance, StateBytes, Sized;
    if requests != [] {
      var r := requests[0];
      if i == |blocks| {
        SignExhausted(schemes, mk, depth, blocks, r.msg, r.combined);
      } else {
        SignStep(schemes, mk, depth, blocks, i, r.msg, r.combined);
        var mk' := SignAdvance(schemes, mk, r.msg, r.combined).value.1;
        RunUsesLeavesInOrder(schemes, mk', depth, blocks, i + 1, requests[1..]);
        if Run(schemes, mk, requests).Ok? {
          AnswersCons(schemes, mk.codec.digest, depth, blocks, i, requests, Run(schemes, mk, requests).value.0);
        }
      }
    }
  }

  lemma AnswersCons(
    schemes: Schemes, d: Digest, depth: nat, blocks: seq<Data>, i: nat,
    requests: seq<Request>, signatures: seq<Multisig>)
    requires requests != [] && signatures != []
    requires Answers(schemes, d, depth, blocks, i + 1, requests[1..], signatures[1..])
    requires signatures[0] == TreeAnswer(schemes, d, depth, blocks, i, requests[0])
    ensures Answers(schemes, d, depth, blocks, i, requests, signatures)
  {
    hide TreeAnswer;
    forall j | 0 <= j < |requests|
      ensures signatures[j] == TreeAnswer(schemes, d, depth, blocks, i + j, requests[j])
    {
      if j > 0 {
        assert signatures[1..][j - 1] == TreeAnswer(schemes, d, depth, blocks, i + 1 + (j - 1), requests[1..][j - 1]);
      }
    }
  }

  /** Signing is complete over runs: every signature of a run verifies, for its message, under the
      first key, the last key and the public key of either. */
  lemma RunVerifies(
    schemes: Schemes, mk: Multikey, depth: nat, blocks: seq<Data>, i: nat, requests: seq<Request>, j: nat)
    requires SchemesOk(schemes) && KeyAt(schemes, mk, depth, blocks, i)
    requires Run(schemes, mk, requests).Ok? && j < |requests|
    ensures var (signatures, last) := Run(schemes, mk, requests).value;
            && j < |signatures|
            && Verify(schemes, mk, signatures[j], Some(requests[j].msg)) == Ok(())
            && Verify(schemes, last, signatures[j], Some(requests[j].msg)) == Ok(())
            && ToPublicKey(schemes, mk).Ok? && ToPublicKey(schemes, last) == ToPublicKey(schemes, mk)
            && Verify(schemes, ToPublicKey(schemes, mk).value, signatures[j], Some(requests[j].msg)) == Ok(())
  {
    hide SchemeOk, SignatureAt, SignatureOf, Verify, ToPublicKey, Run, StateBytes, PublicKeyOf, Sized;
    RunUsesLeavesInOrder(schemes, mk, depth, blocks, i, requests);
    var (signatures, last) := Run(schemes, mk, requests).value;
    var r := requests[j];
    SmallPow2(depth);
    VerifiesUnderAnyState(schemes, mk, depth, blocks, i, i + j, r.msg, r.combined);
    VerifiesUnderAnyState(schemes, last, depth, blocks, i + |requests|, i + j, r.msg, r.combined);
    PublicKeyInvariant(schemes, mk, depth, blocks, i);
    PublicKeyInvariant(schemes, last, depth, blocks, i + |requests|);
  }

  /** The position byte that a signature carries. */
  function UsedLeaf(ms: Multisig): Option<Byte> {
    if ms.signature.Some? && |ms.signature.value| >= 2 then Some(ms.signature.value[1]) else None
  }

  /** Leaves are one-time: a run from a fresh key uses the leaves 0, 1, 2, ... without repeat, the
      index and the remaining count always add up to the capacity, and a run of any length succeeds
      exactly up to the capacity. */
  lemma LeavesAreOneTime(schemes: Schemes, mk: Multikey, depth: nat, blocks: seq<Data>, requests: seq<Request>)
    requires SchemesOk(schemes) && KeyAt(schemes, mk, depth, blocks, 0)
    ensures Run(schemes, mk, requests).Ok? <==> |requests| <= Pow2(depth)
    ensures Run(schemes, mk, requests).Ok? ==>
              var (signatures, last) := Run(schemes, mk, requests).value;
              && |signatures| == |requests|
              && (forall j :: 0 <= j < |signatures| ==> UsedLeaf(signatures[j]) == Some(j))
              && NextIndex(last) == Ok(|requests|) && Remaining(last) == Ok(Pow2(depth) - |requests|)
              && TreeDepth(last) == Ok(depth)
  {
    hide SchemeOk, StateBytes, RemainingFromState, StateDepth, Run;
    RunUsesLeavesInOrder(schemes, mk, depth, blocks, 0, requests);
    if Run(schemes, mk, requests).Ok? {
      var last := Run(schemes, mk, requests).value.1;
      KeyParses(schemes, last, depth, blocks, |requests|);
      HonestRemaining(last.codec, StateAt(schemes(last.codec.digest), depth, blocks, |requests|));
    }
  }

  /** Key shares are the exception: they come back unadvanced, so every message of a run is signed
      from the same state, and a run fails only where that state cannot sign a message. */
  lemma {:induction false} SharesNeverAdvance(schemes: Schemes, mk: Multikey, requests: seq<Request>)
    requires mk.codec.MerklePrivShare?
    ensures Run(schemes, mk, requests).Ok?
       <==> forall r :: r in requests ==> SignAdvance(schemes, mk, r.msg, r.combined).Ok?
    ensures Run(schemes, mk, requests).Ok? ==>
              var (signatures, last) := Run(schemes, mk, requests).value;
              && last == mk && |signatures| == |requests|
              && forall j :: 0 <= j < |requests| ==> SameStateSigns(schemes, mk, requests[j], signatures[j])
    decreases |requests|
  {
    if requests != [] {
      var r := requests[0];
      assert requests == [r] + requests[1..];
      ShareUnchanged(schemes, mk, r);
      hide SignAdvance;
      SharesNeverAdvance(schemes, mk, requests[1..]);
    }
  }

  predicate SameStateSigns(schemes: Schemes, mk: Multikey, r: Request, ms: Multisig) {
    var signed := SignAdvance(schemes, mk, r.msg, r.combined);
    signed.Ok? && ms == signed.value.0
  }

  lemma ShareUnchanged(schemes: Schemes, mk: Multikey, r: Request)
    requires mk.codec.MerklePrivShare?
    ensures var signed := SignAdvance(schemes, mk, r.msg, r.combined); signed.Ok? ==> signed.value.1 == mk
  {}

  // ---- keys that are stored between signatures ----

  /** As `Run`, but every key is written to its wire form and read back before it signs. */
  function RunStored(reg: Registry, schemes: Schemes, mk: Multikey, requests: seq<Request>)
    : Result<(seq<Multisig>, Multikey)>
    decreases |requests|
  {
    if requests == [] then Ok(([], mk))
    else
      var (stored, _) :- Decode(reg, Encode(reg, mk));
      var (ms, mk') :- SignAdvance(schemes, stored, requests[0].msg, requests[0].combined);
      var (rest, last) :- RunStored(reg, schemes, mk', requests[1..]);
      Ok(([ms] + rest, last))
  }

  lemma {:induction false} ShorterTail(xs: seq<Data>)
    requires xs != []
    ensures |Flatten(xs[1..])| <= |Flatten(xs)|
  {}

  /** The advanced key takes no more room than the key before. */
  lemma AdvancedFits(reg: Registry, schemes: Schemes, mk: Multikey, depth: nat, blocks: seq<Data>, i: nat, r: Request)
    requires SchemesOk(schemes) && KeyAt(schemes, mk, depth, blocks, i) && i < |blocks|
    ensures var r := SignAdvance(schemes, mk, r.msg, r.combined);
            r.Ok? && |Encode(reg, r.value.1)| <= |Encode(reg, mk)|
  {
    hide SchemeOk, SignAdvance, Encode, Flatten;
    SignStep(schemes, mk, depth, blocks, i, r.msg, r.combined);
    var mk' := SignAdvance(schemes, mk, r.msg, r.combined).value.1;
    assert blocks[i..][1..] == blocks[i + 1..];
    ShorterTail(blocks[i..]);
    WireTheorems.SmallerKey(reg, mk', mk);
  }

  /** Storing the key between any two signatures changes nothing if the first key is within the caps
      of the wire form, as all later ones then are. If it is not, the first request fails. */
  lemma {:induction false} StoringIsTransparent(
    reg: Registry, schemes: Schemes, mk: Multikey, depth: nat, blocks: seq<Data>, i: nat, requests: seq<Request>)
    requires Sound(reg) && SchemesOk(schemes) && KeyAt(schemes, mk, depth, blocks, i) && reg.utf8(mk.comment)
    ensures if requests == [] || WireTheorems.Fits(mk, |Encode(reg, mk)|)
            then RunStored(reg, schemes, mk, requests) == Run(schemes, mk, requests)
            else RunStored(reg, schemes, mk, requests).Err? && Decode(reg, Encode(reg, mk)).Err?
    decreases |requests|
  {
    hide SchemeOk, SignAdvance, Encode, Decode, StateBytes, Sized, Pow2, Sound;
    if requests != [] {
      var r := requests[0];
      WireTheorems.RoundTrip(reg, mk, []);
      assert Encode(reg, mk) + [] == Encode(reg, mk);
      if i == |blocks| {
        SignExhausted(schemes, mk, depth, blocks, r.msg, r.combined);
      } else {
        SignStep(schemes, mk, depth, blocks, i, r.msg, r.combined);
        AdvancedFits(reg, schemes, mk, depth, blocks, i, r);
        var mk' := SignAdvance(schemes, mk, r.msg, r.combined).value.1;
        StoringIsTransparent(reg, schemes, mk', depth, blocks, i + 1, requests[1..]);
      }
    }
  }

  /** The longest comment for which keys are shown to fit. */
  const COMMENT_BOUND: nat := 15 * 1024 * 1024

  const STATE_BOUND: nat := 3 + 8 * 64 + 8 * 65536

  lemma DigestSizes(d: Digest)
    ensures DigestSize(d) <= 64 && BlockSize(d) <= 65536
  {}

  lemma TotalBound(n: nat, size: nat, bound: nat)
    requires n <= 8 && size <= bound
    ensures Total(n, size) <= 8 * bound
  {
    assert n * size <= 8 * size;
  }

  lemma StateSize(d: Digest, st: State)
    requires StateOk(d, st)
    ensures |StateBytes(st)| <= STATE_BOUND
  {
    hide Total, DigestSize, BlockSize, Flatten, Pow2;
    SmallPow2(st.depth);
    DigestSizes(d);
    TotalIsLength(st.leaves, DigestSize(d));
    TotalIsLength(st.blocks, BlockSize(d));
    TotalBound(|st.leaves|, DigestSize(d), 64);
    TotalBound(|st.blocks|, BlockSize(d), 65536);
  }

  /** The records of a key with a state and a depth. */
  lemma StateRecords(key: Data, depth: Byte)
    requires |key| <= STATE_BOUND
    ensures var m: Attributes := map[KeyData := key, Depth := [depth]];
            |m| == 2 && |EncodeRecords(Entries(m))| <= |key| + 14
  {
    hide Varints.Encode, Entries;
    var rs := [Record(KeyData, key), Record(Depth, [depth])];
    assert rs[1..] == [Record(Depth, [depth])] && rs[1..][1..] == [];
    assert Insert(map[], rs) == map[KeyData := key, Depth := [depth]] by {
      assert Insert(map[KeyData := key], rs[1..]) == map[KeyData := key, Depth := [depth]];
    }
    SizeIsCanonical(rs);
    Varints.EncodeWord(|key|);
    Varints.EncodeLength(Code(KeyData), 1);
    Varints.EncodeLength(Code(Depth), 1);
    Varints.EncodeLength(1, 1);
    assert EncodeRecords(rs) == EncodeRecord(rs[0]) + EncodeRecord(rs[1]) by {
      assert EncodeRecords(rs[1..][1..]) == [];
      assert EncodeRecords(rs[1..]) == EncodeRecord(rs[1]) + [];
    }
  }

  /** The keys that signing produces, and all with no more than their state and depth, do fit, unless
      the comment is very long. */
  lemma KeysFit(reg: Registry, schemes: Schemes, mk: Multikey, depth: nat, blocks: seq<Data>, i: nat)
    requires Sound(reg) && SchemesOk(schemes) && KeyAt(schemes, mk, depth, blocks, i)
    requires mk.attributes.Keys == {KeyData, Depth} && |mk.comment| <= COMMENT_BOUND
    ensures WireTheorems.Fits(mk, |Encode(reg, mk)|)
  {
    hide SchemeOk, StateBytes, Entries, EncodeRecords, Varints.Encode, StateOk;
    KeyParses(schemes, mk, depth, blocks, i);
    StateSize(mk.codec.digest, StateAt(schemes(mk.codec.digest), depth, blocks, i));
    var key := mk.attributes[KeyData];
    assert mk.attributes == map[KeyData := key, Depth := [depth]];
    StateRecords(key, depth);
    Varints.EncodeWord(reg.code(MultikeySigil));
    Varints.EncodeWord(reg.code(mk.codec));
    Varints.EncodeWord(|mk.comment|);
    Varints.EncodeLength(2, 1);
  }

  /** The change log says that signing preserves all attributes but the key data. It does so exactly
      for a key that has no attributes besides its key data and depth. */
  lemma AttributesKeptExactly(
    schemes: Schemes, mk: Multikey, depth: nat, blocks: seq<Data>, i: nat, msg: Data, combined: bool)
    requires SchemesOk(schemes) && KeyAt(schemes, mk, depth, blocks, i) && i < |blocks|
    ensures var r := SignAdvance(schemes, mk, msg, combined);
            r.Ok? && (r.value.1.attributes - {KeyData} == mk.attributes - {KeyData}
                      <==> mk.attributes.Keys == {KeyData, Depth})
  {
    hide SchemeOk, SignAdvance, StateBytes;
    SignStep(schemes, mk, depth, blocks, i, msg, combined);
    var m, n := mk.attributes - {KeyData}, SignAdvance(schemes, mk, msg, combined).value.1.attributes - {KeyData};
    assert n.Keys == {Depth} && m.Keys == mk.attributes.Keys - {KeyData};
    if m == n {
      assert mk.attributes.Keys == m.Keys + {KeyData};
    }
  }

  /** The leaf and the path that a signature leads back to. */
  function SignedLeaf(sch: Scheme, sig: Data, msg: Data): Data
    requires |sig| >= 2 + sch.signatureSize
  {
    sch.recover(sig[2..][..sch.signatureSize], msg)
  }

  function SignedPath(sch: Scheme, h: nat, depth: nat, sig: Data): (path: seq<Data>)
    requires |sig| >= 2 + sch.signatureSize
    ensures |path| == depth
  {
    Chunk(sig[2..][sch.signatureSize..], h, depth)
  }

  /** A signature has the form of the tree's signatures: its depth, a position, and a path of digests. */
  predicate WellFormed(sch: Scheme, h: nat, depth: nat, sig: Data) {
    |sig| == 2 + sch.signatureSize + Total(depth, h) && sig[0] == depth && sig[1] < Pow2(depth)
  }

  /** What passes verification under the public key of a tree: exactly the well-formed signatures that
      lead back to the tree's own leaf by its own path, or that at some level of the way hash another
      pair of nodes than the tree to the same value. */
  lemma VerifiedIsLeaf(schemes: Schemes, d: Digest, depth: Byte, leaves: seq<Data>, sig: Data, msg: Data)
    requires SchemesOk(schemes) && 1 <= depth <= 3 && |leaves| == Pow2(depth) && Sized(leaves, DigestSize(d))
    ensures var sch, h := schemes(d), DigestSize(d);
            VerifyBytes(schemes, MerklePub(d), [depth] + Root(sch.node, depth, leaves), sig, msg).Ok? <==>
            WellFormed(sch, h, depth, sig)
            && var (leaf, path) := (SignedLeaf(sch, sig, msg), SignedPath(sch, h, depth, sig));
               IsOwn(sch.node, depth, leaves, sig[1], leaf, path)
               || exists level: nat :: level < depth && CollidesAt(sch.node, depth, leaves, sig[1], leaf, path, level)
  {
    hide SchemeOk, Root, Climb, Chunk, DigestSize, IsOwn, CollidesAt, Pow2, Total;
    var sch, h := schemes(d), DigestSize(d);
    var pub := [depth] + Root(sch.node, depth, leaves);
    RootSized(sch, h, depth, leaves);
    assert pub[1..] == Root(sch.node, depth, leaves);
    if WellFormed(sch, h, depth, sig) {
      RootBinds(sch.node, depth, leaves, sig[1], SignedLeaf(sch, sig, msg), SignedPath(sch, h, depth, sig));
    }
  }
}
