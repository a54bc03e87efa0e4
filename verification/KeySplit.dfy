/** Splitting a private key into threshold shares and recombining it. */
module KeySplit {
  import opened Wrappers
  import opened Bytes
  import opened Codecs
  import opened AttrIds
  import opened Wire
  import opened Views
  import opened Sharing
  import opened FeldmanCurve
  import opened ByteSharing
  import opened Fields

  datatype Scheme = Feldman | Gf256

  datatype DualPayload = DualPayload(identifier: Data, value: Data, verifiers: seq<Data>)

  datatype SharePayload = SharePayload(
    codec: nat, threshold: nat, limit: nat, scheme: Scheme,
    identifier: Data, value: Data, verifiers: Option<seq<Data>>, dual: Option<DualPayload>)

  /** What the code takes from other crates: the codec table, the curves, the byte field and the
      CBOR form of a payload. */
  datatype System<!G> = System(
    registry: Registry, curve: Codec -> Curve<G>, bytes: Field,
    pack: SharePayload -> Data, unpack: Data -> Option<SharePayload>)

  /** For keys of the given codec: `G` is the group of that codec's curve, if it has one. */
  ghost predicate SystemOk<G(!new)>(sys: System<G>, codec: Codec) {
    && Sound(sys.registry)
    && (IsFeldmanCodec(codec) ==> CurveOk(sys.curve(codec)))
    && ByteField(sys.bytes)
    && (forall p: SharePayload :: sys.unpack(sys.pack(p)) == Some(p))
  }

  predicate IsFeldmanCodec(c: Codec) {
    c.CurvePriv? || c.BlsPriv?
  }

  predicate IsDualCodec(c: Codec) {
    c == CurvePriv(Ed25519) || c == CurvePriv(X25519)
  }

  // ---- per-codec sharing over the scalar field ----

  /** The scalar that a key's bytes stand for: canonical scalars, big-endian for BLS, and seeds
      reduced modulo the group order for the two 25519 codecs. */
  function SecretScalar<G>(sys: System<G>, codec: Codec, secret: Data): Result<nat> {
    if IsDualCodec(codec) then
      if |secret| != 32 then Err(WrongSeedLength) else Ok(FromLittle(secret) % sys.curve(codec).order)
    else if codec.CurvePriv? then ScalarOf(sys.curve(codec), secret)
    else if codec.BlsPriv? then ScalarOf(sys.curve(codec), Reversed(secret))
    else Err(UnsupportedCurve)
  }

  function EccSplit<G>(sys: System<G>, codec: Codec, secret: Data, t: nat, n: nat, coins: Coins): (r: Result<Dealt>)
    requires t > 0
    ensures r.Ok? ==> |r.value.pairs| == n
  {
    var s :- SecretScalar(sys, codec, secret);
    Ok(FeldmanCurve.Split(sys.curve(codec), s, t, n, coins))
  }

  function EccCombine<G>(sys: System<G>, codec: Codec, pairs: seq<Pair>): Result<Data> {
    if codec.CurvePriv? then FeldmanCurve.Combine(sys.curve(codec), pairs)
    else if codec.BlsPriv? then
      var little :- FeldmanCurve.Combine(sys.curve(codec), pairs);
      Ok(Reversed(little))
    else Err(UnsupportedCurve)
  }

  function EccVerify<G(==)>(sys: System<G>, codec: Codec, pair: Pair, verifiers: seq<Data>): Result<()> {
    if IsFeldmanCodec(codec) then FeldmanCurve.Verify(sys.curve(codec), pair, verifiers) else Err(UnsupportedCurve)
  }

  // ---- payloads ----

  function BuildPayloads<G>(
    sys: System<G>, codec: Codec, secret: Data, t: nat, n: nat, coins: Coins, byteCoins: ByteCoins)
    : (r: Result<seq<SharePayload>>)
    requires ByteField(sys.bytes) && t > 0 && n <= 255
    ensures r.Ok? ==> |r.value| == n
  {
    var code := sys.registry.code(codec);
    if IsDualCodec(codec) then
      var seed := ByteSharing.Split(sys.bytes, secret, t, n, byteCoins);
      var ecc :- EccSplit(sys, codec, secret, t, n, coins);
      Ok(seq(n, i requires 0 <= i < n =>
        SharePayload(code, t, n, Gf256, [seed[i].id], seed[i].value, None,
                     Some(DualPayload(ecc.pairs[i].id, ecc.pairs[i].value, ecc.verifiers)))))
    else if IsFeldmanCodec(codec) then
      var ecc :- EccSplit(sys, codec, secret, t, n, coins);
      Ok(seq(n, i requires 0 <= i < n =>
        SharePayload(code, t, n, Feldman, ecc.pairs[i].id, ecc.pairs[i].value, Some(ecc.verifiers), None)))
    else
      var rows := ByteSharing.Split(sys.bytes, secret, t, n, byteCoins);
      Ok(seq(n, i requires 0 <= i < n => SharePayload(code, t, n, Gf256, [rows[i].id], rows[i].value, None, None)))
  }

  function Wrap<G>(sys: System<G>, original: Multikey, p: SharePayload): Multikey {
    Multikey(Codec.KeySplitShare, original.comment, map[KeyData := sys.pack(p)])
  }

  function Unwrap<G>(sys: System<G>, mk: Multikey): Result<SharePayload> {
    if mk.codec != Codec.KeySplitShare then Err(NotAShare)
    else if KeyData !in mk.attributes then Err(MissingKey)
    else match sys.unpack(mk.attributes[KeyData])
         case None => Err(MalformedShare)
         case Some(p) => Ok(p)
  }

  function UnwrapAll<G>(sys: System<G>, shares: seq<Multikey>): (r: Result<seq<SharePayload>>)
    ensures r.Ok? ==> |r.value| == |shares|
  {
    if shares == [] then Ok([])
    else
      var p :- Unwrap(sys, shares[0]);
      var rest :- UnwrapAll(sys, shares[1..]);
      Ok([p] + rest)
  }

  // ---- the three operations ----

  function Split<G>(sys: System<G>, mk: Multikey, t: nat, n: nat, coins: Coins, byteCoins: ByteCoins)
    : (r: Result<seq<Multikey>>)
    requires ByteField(sys.bytes)
    ensures r.Ok? ==> |r.value| == n && 2 <= t <= n <= 255
  {
    if t < 2 || t > n || n > 255 then Err(InvalidSplitParameters)
    else
      var secret :- SecretBytes(mk);
      var payloads :- BuildPayloads(sys, mk.codec, secret, t, n, coins, byteCoins);
      Ok(seq(n, i requires 0 <= i < n => Wrap(sys, mk, payloads[i])))
  }

  /** The commitments of a share are checked, its own or those of its dual; a byte share without a
      dual has nothing to check. */
  function VerifyPayload<G(==)>(sys: System<G>, codec: Codec, p: SharePayload): Result<()> {
    match p.scheme
    case Feldman =>
      (match p.verifiers
       case None => Err(MissingVerifiers)
       case Some(vs) => EccVerify(sys, codec, Pair(p.identifier, p.value), vs))
    case Gf256 =>
      match p.dual
      case None => Ok(())
      case Some(d) => EccVerify(sys, codec, Pair(d.identifier, d.value), d.verifiers)
  }

  function LookupCodec<G>(sys: System<G>, code: nat): Result<Codec> {
    match sys.registry.lookup(code)
    case None => Err(UnknownCodec(code))
    case Some(c) => Ok(c)
  }

  function VerifyShare<G(==)>(sys: System<G>, share: Multikey): Result<()> {
    var p :- Unwrap(sys, share);
    var codec :- LookupCodec(sys, p.codec);
    VerifyPayload(sys, codec, p)
  }

  function VerifyAll<G(==)>(sys: System<G>, codec: Codec, ps: seq<SharePayload>): Result<()> {
    if ps == [] then Ok(())
    else
      var _ :- VerifyPayload(sys, codec, ps[0]);
      VerifyAll(sys, codec, ps[1..])
  }

  function Pairs(ps: seq<SharePayload>): (r: seq<Pair>)
    ensures |r| == |ps| && forall i :: 0 <= i < |r| ==> r[i] == Pair(ps[i].identifier, ps[i].value)
  {
    seq(|ps|, i requires 0 <= i < |ps| => Pair(ps[i].identifier, ps[i].value))
  }

  function Rows(ps: seq<SharePayload>): Result<seq<Row>> {
    if exists i :: 0 <= i < |ps| && ps[i].identifier == [] then Err(BadIdentifier)
    else Ok(seq(|ps|, i requires 0 <= i < |ps| => Row(ps[i].identifier[0], ps[i].value)))
  }

  function CombinePayloads<G(==)>(sys: System<G>, codec: Codec, scheme: Scheme, ps: seq<SharePayload>): Result<Data>
    requires ByteField(sys.bytes)
  {
    var _ :- VerifyAll(sys, codec, ps);
    match scheme
    case Feldman => EccCombine(sys, codec, Pairs(ps))
    case Gf256 =>
      var rows :- Rows(ps);
      ByteSharing.Combine(sys.bytes, rows)
  }

  predicate SameKey(ps: seq<SharePayload>) {
    forall i :: 0 <= i < |ps| ==> ps[i].codec == ps[0].codec && ps[i].scheme == ps[0].scheme
  }

  /** The number of shares is never compared with the threshold they carry. */
  function Combine<G(==)>(sys: System<G>, shares: seq<Multikey>): Result<Multikey>
    requires ByteField(sys.bytes)
  {
    if shares == [] then Err(NoShares)
    else
      var ps :- UnwrapAll(sys, shares);
      if !SameKey(ps) then Err(DifferentKeys)
      else
        var codec :- LookupCodec(sys, ps[0].codec);
        var secret :- CombinePayloads(sys, codec, ps[0].scheme, ps);
        Ok(Multikey(codec, [], map[KeyData := secret]))
  }

  method CombineShares<G(==)>(sys: System<G>, shares: seq<Multikey>) returns (r: Result<Multikey>)
    requires ByteField(sys.bytes)
    ensures r == Combine(sys, shares)
  {
    hide UnwrapAll, LookupCodec, EccVerify, EccCombine, Rows, ByteSharing.Combine, Lawful;
    if shares == [] { return Err(NoShares); }
    var ps :- UnwrapAll(sys, shares);
    if exists i :: 0 <= i < |ps| && (ps[i].codec != ps[0].codec || ps[i].scheme != ps[0].scheme) {
      return Err(DifferentKeys);
    }
    var codec :- LookupCodec(sys, ps[0].codec);
    var secret: Data;
    match ps[0].scheme {
      case Feldman =>
        for i := 0 to |ps|
          invariant VerifyAll(sys, codec, ps) == VerifyAll(sys, codec, ps[i..])
        {
          var verifiers := ps[i].verifiers;
          if verifiers == None { return Err(MissingVerifiers); }
          var _ :- EccVerify(sys, codec, Pair(ps[i].identifier, ps[i].value), verifiers.value);
        }
        secret :- EccCombine(sys, codec, Pairs(ps));
      case Gf256 =>
        for i := 0 to |ps|
          invariant VerifyAll(sys, codec, ps) == VerifyAll(sys, codec, ps[i..])
        {
          if ps[i].dual.Some? {
            var d := ps[i].dual.value;
            var _ :- EccVerify(sys, codec, Pair(d.identifier, d.value), d.verifiers);
          }
        }
        var rows :- Rows(ps);
        secret :- ByteSharing.Combine(sys.bytes, rows);
    }
    r := Ok(Multikey(codec, [], map[KeyData := secret]));
  }
}
