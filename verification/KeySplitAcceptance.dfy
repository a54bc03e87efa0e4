/** Exactly which keys split, what each share records, which shares verify and which recombine. */
module KeySplitAcceptance {
  import opened Wrappers
  import opened Bytes
  import opened Codecs
  import opened AttrIds
  import opened Wire
  import opened Views
  import opened Fields
  import opened PrimeField
  import opened Polynomials
  import opened Sharing
  import opened FeldmanCurve
  import opened ByteSharing
  import opened KeySplit
  import opened KeySplitTheorems

  // ---- splitting ----

  /** The bytes of a key that its codec can share: a canonical scalar for the curves, big-endian for
      BLS; 32 bytes for the 25519 codecs; anything else for the other codecs. */
  ghost predicate Shareable<G(!new)>(sys: System<G>, codec: Codec, secret: Data) {
    match codec
    case CurvePriv(Ed25519) | CurvePriv(X25519) => |secret| == 32
    case CurvePriv(_) => exists v: nat :: v < sys.curve(codec).order && secret == ReprOf(sys.curve(codec), v)
    case BlsPriv(_) => exists v: nat :: v < sys.curve(codec).order && secret == Reversed(ReprOf(sys.curve(codec), v))
    case _ => true
  }

  lemma ScalarExactly<G(!new)>(sys: System<G>, codec: Codec, secret: Data)
    requires SystemOk(sys, codec) && IsFeldmanCodec(codec)
    ensures SecretScalar(sys, codec, secret).Ok? <==> Shareable(sys, codec, secret)
  {
    hide ScalarOf, ReprOf, Cyclic;
    var c := sys.curve(codec);
    if !IsDualCodec(codec) {
      forall v: nat
        ensures ScalarOf(c, secret) == Ok(v) <==> v < c.order && secret == ReprOf(c, v)
        ensures ScalarOf(c, Reversed(secret)) == Ok(v) <==> v < c.order && secret == Reversed(ReprOf(c, v))
      {
        ScalarExact(c, secret, v);
        ScalarExact(c, Reversed(secret), v);
        ReversedTwice(secret);
        ReversedTwice(ReprOf(c, v));
      }
      var r := SecretScalar(sys, codec, secret);
      if r.Ok? { assert ScalarOf(c, if codec.BlsPriv? then Reversed(secret) else secret) == Ok(r.value); }
    }
  }

  /** A split succeeds exactly for a threshold of at least 2 and at most the limit, a limit of at most
      255, and a key whose secret can be read and shared. */
  lemma SplitsExactly<G(!new)>(sys: System<G>, mk: Multikey, t: nat, n: nat, coins: Coins, byteCoins: ByteCoins)
    requires SystemOk(sys, mk.codec)
    ensures KeySplit.Split(sys, mk, t, n, coins, byteCoins).Ok? <==>
            2 <= t <= n <= 255 && SecretBytes(mk).Ok? && Shareable(sys, mk.codec, SecretBytes(mk).value)
  {
    hide SecretBytes, SecretScalar, FeldmanCurve.Split, ByteSharing.Split, CurveOk, Lawful;
    if SecretBytes(mk).Ok? {
      if IsFeldmanCodec(mk.codec) { ScalarExactly(sys, mk.codec, SecretBytes(mk).value); }
    }
  }

  /** Every share of a split carries the comment of the key and records the codec's code, the threshold
      and the limit of the split, and the scheme: Feldman exactly for the curve keys other than the
      25519 ones, which carry a dual share instead. */
  lemma ShareRecords<G(!new)>(
    sys: System<G>, mk: Multikey, t: nat, n: nat, coins: Coins, byteCoins: ByteCoins, i: nat)
    requires SystemOk(sys, mk.codec) && i < n && KeySplit.Split(sys, mk, t, n, coins, byteCoins).Ok?
    ensures var share := KeySplit.Split(sys, mk, t, n, coins, byteCoins).value[i];
            && share.codec == Codec.KeySplitShare && share.comment == mk.comment && share.attributes.Keys == {KeyData}
            && Unwrap(sys, share).Ok?
            && var p := Unwrap(sys, share).value;
               && p.threshold == t && p.limit == n && p.codec == sys.registry.code(mk.codec)
               && (p.scheme == Feldman <==> IsFeldmanCodec(mk.codec) && !IsDualCodec(mk.codec))
               && (p.verifiers.Some? <==> p.scheme == Feldman) && (p.dual.Some? <==> IsDualCodec(mk.codec))
               && (p.verifiers.Some? ==> |p.verifiers.value| == t)
               && (p.dual.Some? ==> |p.dual.value.verifiers| == t)
  {
    hide SecretBytes, SecretScalar, FeldmanCurve.Split, ByteSharing.Split, CurveOk, Lawful;
    var payloads := BuildPayloads(sys, mk.codec, SecretBytes(mk).value, t, n, coins, byteCoins).value;
    assert sys.unpack(sys.pack(payloads[i])) == Some(payloads[i]);
  }

  // ---- unwrapping ----

  /** A payload is read from exactly the share keys that hold its packed form. */
  lemma UnwrapsExactly<G(!new)>(sys: System<G>, mk: Multikey, p: SharePayload)
    ensures Unwrap(sys, mk) == Ok(p) <==>
            mk.codec == Codec.KeySplitShare && KeyData in mk.attributes && sys.unpack(mk.attributes[KeyData]) == Some(p)
  {}

  /** Recombination reads nothing but share keys, and there must be some. */
  lemma CombinesOnlyShares<G(!new)>(sys: System<G>, shares: seq<Multikey>)
    requires ByteField(sys.bytes)
    ensures KeySplit.Combine(sys, shares).Ok? ==>
              shares != [] && forall i :: 0 <= i < |shares| ==> shares[i].codec == Codec.KeySplitShare
    ensures KeySplit.Combine(sys, []) == Err(NoShares)
  {
    hide Lawful, CombinePayloads;
    if KeySplit.Combine(sys, shares).Ok? {
      var ps := UnwrapAll(sys, shares).value;
      UnwrapEach(sys, shares, ps);
      forall i | 0 <= i < |shares|
        ensures shares[i].codec == Codec.KeySplitShare
      {
        UnwrapsExactly(sys, shares[i], ps[i]);
      }
    }
  }

  // ---- verification ----

  /** A pair passes exactly if it consists of canonical scalars, the commitments are points, and the
      value is that of the committed polynomial at the identifier. */
  ghost predicate OnCommitted<G(!new)>(c: Curve<G>, pair: Pair, verifiers: seq<Data>) {
    exists id: nat, v: nat, points: seq<G> ::
      && id < c.order && pair.id == ReprOf(c, id) && v < c.order && pair.value == ReprOf(c, v)
      && ArePoints(c, verifiers, points) && v == Eval(Modulo(c.order), Logs(c.group, points), id)
  }

  /** The commitments have the length of points and decode to the given ones. */
  ghost predicate ArePoints<G(!new)>(c: Curve<G>, verifiers: seq<Data>, points: seq<G>) {
    |verifiers| == |points| && forall i :: 0 <= i < |verifiers| ==>
      |verifiers[i]| == c.pointWidth && c.decode(verifiers[i]) == Some(points[i])
  }

  lemma PointsExactly<G(!new)>(c: Curve<G>, verifiers: seq<Data>, points: seq<G>)
    ensures PointsOf(c, verifiers) == Ok(points) <==> ArePoints(c, verifiers, points)
  {
    hide PointsOf;
    PointsOfAll(c, verifiers, points);
    if PointsOf(c, verifiers) == Ok(points) {
      forall i | 0 <= i < |verifiers|
        ensures |verifiers[i]| == c.pointWidth && c.decode(verifiers[i]) == Some(points[i])
      {
        assert PointOf(c, verifiers[i]) == Ok(points[i]);
      }
    }
  }

  lemma PairVerifiesExactly<G(!new)>(c: Curve<G>, pair: Pair, verifiers: seq<Data>)
    requires CurveOk(c)
    ensures FeldmanCurve.Verify(c, pair, verifiers).Ok? <==> OnCommitted(c, pair, verifiers)
  {
    hide Modulo, Lawful, Cyclic, ReprOf, ScalarOf, PointsOf, Sharing.Verify, Eval, Logs, ArePoints;
    var k := Modulo(c.order);
    ModuloLawful(c.order);
    if FeldmanCurve.Verify(c, pair, verifiers).Ok? {
      var id, v, points := ScalarOf(c, pair.id).value, ScalarOf(c, pair.value).value, PointsOf(c, verifiers).value;
      PointsExactly(c, verifiers, points);
      ScalarExact(c, pair.id, id);
      ScalarExact(c, pair.value, v);
      VerifyMeaning(k, c.group, Share(id, v), points);
    }
    if OnCommitted(c, pair, verifiers) {
      var id: nat, v: nat, points: seq<G> :|
        && id < c.order && pair.id == ReprOf(c, id) && v < c.order && pair.value == ReprOf(c, v)
        && ArePoints(c, verifiers, points) && v == Eval(k, Logs(c.group, points), id);
      PointsExactly(c, verifiers, points);
      ScalarExact(c, pair.id, id);
      ScalarExact(c, pair.value, v);
      VerifyMeaning(k, c.group, Share(id, v), points);
    }
  }

  /** What a payload must satisfy: a Feldman share lies on the polynomial of its commitments, which it
      must have; so does the dual of a byte share, if it has one. */
  ghost predicate Sound<G(!new)>(sys: System<G>, codec: Codec, p: SharePayload) {
    match p.scheme
    case Feldman =>
      IsFeldmanCodec(codec) && p.verifiers.Some?
      && OnCommitted(sys.curve(codec), Pair(p.identifier, p.value), p.verifiers.value)
    case Gf256 =>
      p.dual.Some? ==>
        IsFeldmanCodec(codec)
        && OnCommitted(sys.curve(codec), Pair(p.dual.value.identifier, p.dual.value.value), p.dual.value.verifiers)
  }

  lemma PayloadVerifiesExactly<G(!new)>(sys: System<G>, codec: Codec, p: SharePayload)
    requires SystemOk(sys, codec)
    ensures VerifyPayload(sys, codec, p).Ok? <==> Sound(sys, codec, p)
  {
    hide FeldmanCurve.Verify, OnCommitted, CurveOk, Lawful;
    if IsFeldmanCodec(codec) {
      if p.verifiers.Some? { PairVerifiesExactly(sys.curve(codec), Pair(p.identifier, p.value), p.verifiers.value); }
      if p.dual.Some? {
        var d := p.dual.value;
        PairVerifiesExactly(sys.curve(codec), Pair(d.identifier, d.value), d.verifiers);
      }
    }
  }

  /** A share verifies exactly if it unwraps to a payload that is sound under the codec it names. */
  lemma ShareVerifiesExactly<G(!new)>(sys: System<G>, share: Multikey, codec: Codec)
    requires SystemOk(sys, codec)
    requires Unwrap(sys, share).Ok? ==> sys.registry.lookup(Unwrap(sys, share).value.codec) == Some(codec)
    ensures VerifyShare(sys, share).Ok? <==> Unwrap(sys, share).Ok? && Sound(sys, codec, Unwrap(sys, share).value)
  {
    hide VerifyPayload, Sound, CurveOk, Lawful;
    if Unwrap(sys, share).Ok? { PayloadVerifiesExactly(sys, codec, Unwrap(sys, share).value); }
  }

  // ---- recombining ----

  /** Shares of different codecs or schemes are refused. */
  lemma RefusesForeign<G(!new)>(sys: System<G>, shares: seq<Multikey>, ps: seq<SharePayload>, i: nat, j: nat)
    requires ByteField(sys.bytes) && i < |shares| == |ps| && j < |shares|
    requires forall m :: 0 <= m < |shares| ==> Unwrap(sys, shares[m]) == Ok(ps[m])
    requires ps[i].codec != ps[j].codec || ps[i].scheme != ps[j].scheme
    ensures KeySplit.Combine(sys, shares) == Err(DifferentKeys)
  {
    hide Unwrap, Lawful;
    UnwrapEach(sys, shares, ps);
  }

  /** No two identifiers are the same, and none stands for zero. */
  predicate GoodIds(ids: seq<Data>, zero: Data) {
    && (forall i :: 0 <= i < |ids| ==> ids[i] != zero)
    && (forall i, j :: 0 <= i < j < |ids| ==> ids[i] != ids[j])
  }

  /** The identifiers that a recombination compares: whole scalars, or the first byte. */
  function ComparedIds(scheme: Scheme, ps: seq<SharePayload>): (ids: seq<Data>)
    ensures |ids| == |ps|
  {
    seq(|ps|, i requires 0 <= i < |ps| =>
      if scheme == Feldman || ps[i].identifier == [] then ps[i].identifier else ps[i].identifier[..1])
  }

  predicate SameLengths(ps: seq<SharePayload>) {
    forall i, j :: 0 <= i < |ps| && 0 <= j < |ps| ==> |ps[i].value| == |ps[j].value|
  }

  /** Which payloads of one codec and scheme recombine: at least two sound ones with distinct non-zero
      identifiers, and for byte shares with an identifier byte and values of one length. */
  ghost predicate Combinable<G(!new)>(sys: System<G>, codec: Codec, scheme: Scheme, ps: seq<SharePayload>) {
    && |ps| >= 2 && (forall i :: 0 <= i < |ps| ==> ps[i].scheme == scheme && Sound(sys, codec, ps[i]))
    && match scheme
       case Feldman => GoodIds(ComparedIds(scheme, ps), ReprOf(sys.curve(codec), 0))
       case Gf256 =>
         && (forall i :: 0 <= i < |ps| ==> ps[i].identifier != [])
         && GoodIds(ComparedIds(scheme, ps), [0]) && SameLengths(ps)
  }

  lemma FeldmanCombinesExactly<G(!new)>(c: Curve<G>, pairs: seq<Pair>, ids: seq<Data>)
    requires CurveOk(c) && |ids| == |pairs| && forall i :: 0 <= i < |pairs| ==> ids[i] == pairs[i].id
    requires forall i :: 0 <= i < |pairs| ==> ShareOf(c, pairs[i]).Ok?
    ensures FeldmanCurve.Combine(c, pairs).Ok? <==> |pairs| >= 2 && GoodIds(ids, ReprOf(c, 0))
  {
    hide ReprOf, ScalarOf, Cyclic, Lagrange, Modulo;
    var shares := seq(|pairs|, i requires 0 <= i < |pairs| => ShareOf(c, pairs[i]).value);
    SharesOfAll(c, pairs, shares);
    forall i | 0 <= i < |pairs|
      ensures 0 <= Ids(shares)[i] < c.order && ids[i] == ReprOf(c, Ids(shares)[i])
    {
      ScalarExact(c, pairs[i].id, shares[i].id);
    }
    forall i | 0 <= i < |pairs|
      ensures ids[i] == ReprOf(c, 0) <==> Ids(shares)[i] == 0
    {
      ReprInjective(c, Ids(shares)[i], 0);
    }
    forall i, j | 0 <= i < |pairs| && 0 <= j < |pairs|
      ensures ids[i] == ids[j] <==> Ids(shares)[i] == Ids(shares)[j]
    {
      ReprInjective(c, Ids(shares)[i], Ids(shares)[j]);
    }
    assert 0 in Ids(shares) <==> exists i :: 0 <= i < |pairs| && Ids(shares)[i] == 0;
  }

  lemma BytesCombineExactly(k: Field, ps: seq<SharePayload>)
    requires ByteField(k) && forall i :: 0 <= i < |ps| ==> ps[i].identifier != []
    ensures ByteSharing.Combine(k, Rows(ps).value).Ok? <==>
            |ps| >= 2 && GoodIds(ComparedIds(Gf256, ps), [0]) && SameLengths(ps)
  {
    hide Lawful, CombineByte;
    var rows, ids := Rows(ps).value, ComparedIds(Gf256, ps);
    forall i | 0 <= i < |ps|
      ensures ids[i] == [RowIds(rows)[i]] && |rows[i].value| == |ps[i].value|
    {}
    assert 0 in RowIds(rows) <==> exists i :: 0 <= i < |ps| && RowIds(rows)[i] == 0;
    if SameLength(rows) {
      assert forall i :: 0 <= i < |ps| ==> |ps[i].value| == |ps[0].value|;
    }
  }

  /** Shares recombine exactly if all unwrap, to payloads of one known codec and one scheme that are
      combinable. */
  lemma CombinesExactly<G(!new)>(sys: System<G>, shares: seq<Multikey>, ps: seq<SharePayload>, codec: Codec)
    requires SystemOk(sys, codec) && |shares| == |ps|
    requires forall i :: 0 <= i < |shares| ==> Unwrap(sys, shares[i]) == Ok(ps[i])
    requires forall i :: 0 <= i < |shares| ==> sys.registry.lookup(ps[i].codec) == Some(codec)
    ensures KeySplit.Combine(sys, shares).Ok? <==> shares != [] && Combinable(sys, codec, ps[0].scheme, ps)
    ensures KeySplit.Combine(sys, shares).Ok? ==> KeySplit.Combine(sys, shares).value.codec == codec
  {
    hide Unwrap, CurveOk, Lawful, Sound, CombinePayloads, GoodIds;
    UnwrapEach(sys, shares, ps);
    if ps != [] {
      forall i | 0 <= i < |ps|
        ensures ps[i].codec == ps[0].codec
      {
        assert sys.registry.code(codec) == ps[i].codec && sys.registry.code(codec) == ps[0].codec;
      }
      if SameKey(ps) { PayloadsCombineExactly(sys, codec, ps[0].scheme, ps); }
    }
  }

  lemma PayloadsCombineExactly<G(!new)>(sys: System<G>, codec: Codec, scheme: Scheme, ps: seq<SharePayload>)
    requires SystemOk(sys, codec) && forall i :: 0 <= i < |ps| ==> ps[i].scheme == scheme
    ensures CombinePayloads(sys, codec, scheme, ps).Ok? <==> Combinable(sys, codec, scheme, ps)
  {
    hide CurveOk, Lawful, Sound, GoodIds, VerifyPayload, EccCombine, Rows, ByteSharing.Combine, SameLengths;
    forall i | 0 <= i < |ps|
      ensures VerifyPayload(sys, codec, ps[i]).Ok? <==> Sound(sys, codec, ps[i])
    {
      PayloadVerifiesExactly(sys, codec, ps[i]);
    }
    VerifyEach(sys, codec, ps);
    if VerifyAll(sys, codec, ps).Ok? {
      match scheme
      case Feldman => PairsCombineExactly(sys, codec, ps);
      case Gf256 => RowsCombineExactly(sys, ps);
    }
  }

  lemma PairsCombineExactly<G(!new)>(sys: System<G>, codec: Codec, ps: seq<SharePayload>)
    requires SystemOk(sys, codec)
    requires forall i :: 0 <= i < |ps| ==> ps[i].scheme == Feldman && VerifyPayload(sys, codec, ps[i]).Ok?
    ensures EccCombine(sys, codec, Pairs(ps)).Ok? <==>
            |ps| >= 2 && GoodIds(ComparedIds(Feldman, ps), ReprOf(sys.curve(codec), 0))
  {
    hide CurveOk, Lawful, GoodIds, VerifyPayload, FeldmanCurve.Combine, ShareOf, ReprOf;
    if ps != [] { SoundPairs(sys, codec, ps); }
    if IsFeldmanCodec(codec) { FeldmanCombinesExactly(sys.curve(codec), Pairs(ps), ComparedIds(Feldman, ps)); }
  }

  lemma RowsCombineExactly<G(!new)>(sys: System<G>, ps: seq<SharePayload>)
    requires ByteField(sys.bytes)
    ensures Rows(ps).Ok? <==> forall i :: 0 <= i < |ps| ==> ps[i].identifier != []
    ensures Rows(ps).Ok? ==>
              (ByteSharing.Combine(sys.bytes, Rows(ps).value).Ok?
               <==> |ps| >= 2 && GoodIds(ComparedIds(Gf256, ps), [0]) && SameLengths(ps))
  {
    hide Lawful, GoodIds, ByteSharing.Combine, SameLengths;
    if Rows(ps).Ok? { BytesCombineExactly(sys.bytes, ps); }
  }

  lemma SoundPairs<G(!new)>(sys: System<G>, codec: Codec, ps: seq<SharePayload>)
    requires forall i :: 0 <= i < |ps| ==> ps[i].scheme == Feldman && VerifyPayload(sys, codec, ps[i]).Ok?
    requires ps != []
    ensures IsFeldmanCodec(codec)
    ensures forall i :: 0 <= i < |ps| ==> ShareOf(sys.curve(codec), Pairs(ps)[i]).Ok?
  {
    hide ShareOf, PointsOf;
    assert VerifyPayload(sys, codec, ps[0]).Ok?;
  }
}
