/** Exactly which BLS keys split, what each share records, which shares are collected and which
    accumulators combine. */
module BlsAcceptance {
  import opened Wrappers
  import opened Bytes
  import opened Codecs
  import opened AttrIds
  import opened Wire
  import opened Views
  import opened OrderedKeys
  import opened Fields
  import opened PrimeField
  import opened Polynomials
  import opened Sharing
  import opened BlsShares
  import opened BlsTheorems
  import opened BlsAccumulator
  import Varints

  // ---- splitting ----

  /** A private key splits exactly for a threshold of at least 2 and at most the limit, if its secret can
      be read, has at least 32 bytes, and the first 32 are a canonical scalar, most significant byte
      first. A threshold above the limit has its own error, whatever the key. */
  lemma SplitsExactly(order: Positive, mk: Multikey, t: nat, n: nat, coins: Coins)
    ensures t > n ==> Split(order, mk, t, n, coins) == Err(InvalidThresholdLimit)
    ensures Split(order, mk, t, n, coins).Ok? <==>
            mk.codec.BlsPriv? && 2 <= t <= n && SecretBytes(mk).Ok?
            && |SecretBytes(mk).value| >= 32 && FromBig(SecretBytes(mk).value[..32]) < order
  {
    hide FromBig, IsEncrypted;
  }

  /** Every share of a split has the share codec of the key's group, the key's comment, and exactly the
      attributes that a share needs: the threshold and limit of the split, its identifier, and the value
      of the polynomial there. */
  lemma ShareRecords(order: Positive, mk: Multikey, t: nat, n: nat, coins: Coins, i: nat)
    requires OrderOk(order) && Split(order, mk, t, n, coins).Ok? && i < n < order && n <= Varints.USIZE_MAX
    ensures mk.codec.BlsPriv? && SecretBytes(mk).Ok? && |SecretBytes(mk).value| >= 32
    ensures var share := Split(order, mk, t, n, coins).value[i];
            && share.codec == BlsPrivShare(mk.codec.group) && share.comment == mk.comment
            && share.attributes.Keys == {KeyData, Threshold, Limit, ShareIdentifier}
            && ThresholdOf(share) == Ok(t) && LimitOf(share) == Ok(n) && IdentifierOf(order, share) == Ok(i + 1)
            && var p := Coefficients(order, FromBig(SecretBytes(mk).value[..32]), t, coins);
               var v := Eval(Modulo(order), p, i + 1);
               0 <= v && KeyBytes(share) == Ok(ToBig(v, 32))
  {
    hide Modulo, Eval, ToBig, Power, FromBig, Varints.Encode, Varints.Decode, ReadShare, ShareOk, ShareKey;
    hide Coefficients;
    SplitsExactly(order, mk, t, n, coins);
    SplitContributes(order, mk, t, n, coins, i);
    var p := Coefficients(order, FromBig(SecretBytes(mk).value[..32]), t, coins);
    StoredValue(order, p, t, n, i + 1);
    ShareKeyShape(mk, t, n, Deal(Modulo(order), p, n)[i]);
    ReadParts(order, Split(order, mk, t, n, coins).value[i], StoredShare(order, p, t, n, i + 1));
  }

  lemma ShareKeyShape(mk: Multikey, t: nat, n: nat, s: Share)
    requires mk.codec.BlsPriv?
    ensures var share := ShareKey(mk, t, n, s);
            && share.codec == BlsPrivShare(mk.codec.group) && share.comment == mk.comment
            && share.attributes.Keys == {KeyData, Threshold, Limit, ShareIdentifier}
  {
    hide ToBig, Varints.Encode;
  }

  lemma ReadParts(order: Positive, share: Multikey, s: KeyShare)
    requires ReadShare(order, share) == Ok(s)
    ensures IdentifierOf(order, share) == Ok(s.id) && ThresholdOf(share) == Ok(s.threshold)
    ensures LimitOf(share) == Ok(s.limit) && KeyBytes(share) == Ok(s.data)
  {
    hide IdentifierOf, ThresholdOf, LimitOf, KeyBytes;
  }

  // ---- collecting ----

  /** The bytes start with the number as a varint that fits a machine word. */
  predicate StartsWith(b: Data, n: nat) {
    Varints.Encode(n) <= b && n <= Varints.USIZE_MAX
  }

  lemma WordReads(b: Data, n: nat)
    ensures var r := Varints.Decode(b, Varints.USIZE_MAX); r.Ok? && r.value.0 == n <==> StartsWith(b, n)
  {
    hide Varints.Decode, Varints.Encode;
    if StartsWith(b, n) {
      var rest := b[|Varints.Encode(n)|..];
      assert b == Varints.Encode(n) + rest;
      Varints.DecodeExact(b, Varints.USIZE_MAX, n, rest);
    }
    var r := Varints.Decode(b, Varints.USIZE_MAX);
    if r.Ok? && r.value.0 == n { Varints.DecodeExact(b, Varints.USIZE_MAX, n, r.value.1); }
  }

  lemma NumberReads(mk: Multikey, id: AttrId, missing: Error, n: nat)
    ensures NumberAttribute(mk, id, missing) == Ok(n) <==>
            ThresholdViewed(mk.codec) && id in mk.attributes && StartsWith(mk.attributes[id], n)
  {
    hide Varints.Decode, StartsWith, ThresholdViewed;
    if id in mk.attributes { WordReads(mk.attributes[id], n); }
  }

  /** A key contributes a share exactly if it has a BLS codec and an identifier of 32 canonical bytes, a
      threshold, a limit and key data that are those of the share. */
  lemma ReadsExactly(order: Positive, share: Multikey, s: KeyShare)
    requires OrderOk(order)
    ensures ReadShare(order, share) == Ok(s) <==>
            && ThresholdViewed(share.codec)
            && ShareIdentifier in share.attributes && Threshold in share.attributes && Limit in share.attributes
            && KeyData in share.attributes && share.attributes[KeyData] == s.data
            && s.id < order && share.attributes[ShareIdentifier] == ToBig(s.id, 32)
            && StartsWith(share.attributes[Threshold], s.threshold) && StartsWith(share.attributes[Limit], s.limit)
  {
    hide ToBig, Power, NumberAttribute, StartsWith, ScalarFromBytes;
    NumberReads(share, Threshold, MissingThreshold, s.threshold);
    NumberReads(share, Limit, MissingLimit, s.limit);
    if ShareIdentifier in share.attributes { ScalarBytesExact(order, share.attributes[ShareIdentifier], s.id); }
  }

  lemma CollectedWellKeyed(order: Positive, mk: Multikey)
    requires OrderOk(order) && Collected(order, mk).Ok?
    ensures WellKeyed(order, Collected(order, mk).value)
  {
    hide DecodeShares, EncodeShares, ShareOk, Power, Varints.Decode;
    if ThresholdData in mk.attributes {
      var (count, p) := Varints.Decode(mk.attributes[ThresholdData], Varints.USIZE_MAX).value;
      NothingWellKeyed(order);
      var _ := SharesShape(order, count, p, map[]);
    }
  }

  /** Adding a share to any key: it succeeds exactly for a BLS private key whose collected shares can be
      read and a key that contributes a share with a new identifier. The result has the codec, the
      comment, the threshold and limit of the share and the collected shares, and nothing else. The next
      reader finds the share added exactly if its data is within the cap on byte strings. */
  lemma AddsExactly(order: Positive, mk: Multikey, share: Multikey)
    requires OrderOk(order)
    ensures AddShare(order, mk, share).Ok? <==>
            mk.codec.BlsPriv? && Collected(order, mk).Ok? && ReadShare(order, share).Ok?
            && ReadShare(order, share).value.id !in Collected(order, mk).value
    ensures AddShare(order, mk, share).Ok? && |Collected(order, mk).value| < Varints.USIZE_MAX ==>
              var r := AddShare(order, mk, share).value;
              var s, m := ReadShare(order, share).value, Collected(order, mk).value;
              && r.codec == mk.codec && r.comment == (if mk.comment == [] then share.comment else mk.comment)
              && r.attributes.Keys == {Threshold, Limit, ThresholdData}
              && ThresholdOf(r) == Ok(s.threshold) && LimitOf(r) == Ok(s.limit)
              && (Collected(order, r) == Ok(m[s.id := s]) <==> |s.data| <= 16 * 1024 * 1024)
  {
    hide ReadShare, ThresholdOf, LimitOf, Collected;
    if AddShare(order, mk, share).Ok? && |Collected(order, mk).value| < Varints.USIZE_MAX {
      var s, m := ReadShare(order, share).value, Collected(order, mk).value;
      CollectedWellKeyed(order, mk);
      AddedReads(order, mk, share, s, m);
    }
  }

  lemma AddedReads(order: Positive, mk: Multikey, share: Multikey, s: KeyShare, m: ShareMap)
    requires OrderOk(order) && ReadShare(order, share) == Ok(s) && WellKeyed(order, m)
    requires |m| < Varints.USIZE_MAX && s.id !in m && mk.codec.BlsPriv?
    ensures var r := Accumulated(mk, share, s, m[s.id := s]);
            && ThresholdOf(r) == Ok(s.threshold) && LimitOf(r) == Ok(s.limit)
            && (Collected(order, r) == Ok(m[s.id := s]) <==> |s.data| <= 16 * 1024 * 1024)
  {
    hide EncodeMap, DecodeMap, ReadShare, ToBig, Varints.Encode, Varints.Decode, Power;
    ReadsExactly(order, share, s);
    Varints.DecodeExact(Varints.Encode(s.threshold), Varints.USIZE_MAX, s.threshold, []);
    Varints.DecodeExact(Varints.Encode(s.limit), Varints.USIZE_MAX, s.limit, []);
    assert Varints.Encode(s.threshold) + [] == Varints.Encode(s.threshold);
    assert Varints.Encode(s.limit) + [] == Varints.Encode(s.limit);
    var m' := m[s.id := s];
    MapRoundTrip(order, m', []);
    DecodesWhole(order, m');
    assert EncodeMap(m') + [] == EncodeMap(m');
    WellKeyedAdd(order, m, s);
  }

  lemma WellKeyedAdd(order: Positive, m: ShareMap, s: KeyShare)
    requires WellKeyed(order, m)
    ensures WellKeyed(order, m[s.id := s]) <==> ShareOk(order, s)
  {
    if WellKeyed(order, m[s.id := s]) { assert s.id in m[s.id := s]; }
  }

  /** If an encoded map decodes to itself, it does so without a remainder. */
  lemma DecodesWhole(order: Positive, m: ShareMap)
    requires OrderOk(order) && |m| <= Varints.USIZE_MAX
    ensures var r := DecodeMap(order, EncodeMap(m)); r.Ok? && r.value.0 == m ==> WellKeyed(order, m)
  {
    hide DecodeShares, EncodeShares, ShareOk, Power, Varints.Decode;
    var r := DecodeMap(order, EncodeMap(m));
    if r.Ok? && r.value.0 == m {
      var (count, p) := Varints.Decode(EncodeMap(m), Varints.USIZE_MAX).value;
      NothingWellKeyed(order);
      var _ := SharesShape(order, count, p, map[]);
    }
  }

  /** Collecting any shares at all succeeds for BLS private keys only, and keeps the codec. Merkle keys
      refuse, and keys without a threshold view are not supported. */
  lemma {:induction false} CollectsExactly(order: Positive, mk: Multikey, shares: seq<Multikey>)
    ensures FoldShares(order, mk, []) == Ok(mk)
    ensures shares != [] && !mk.codec.BlsPriv? ==>
              FoldShares(order, mk, shares) ==
              if mk.codec.MerklePriv? || mk.codec.MerklePub? || mk.codec.MerklePrivShare?
              then Err(ShareCombineFailed) else Err(UnsupportedCodec)
    ensures FoldShares(order, mk, shares).Ok? ==> FoldShares(order, mk, shares).value.codec == mk.codec
    decreases |shares|
  {
    hide AddShare;
    if shares != [] && mk.codec.BlsPriv? && AddShare(order, mk, shares[0]).Ok? {
      AddKeepsCodec(order, mk, shares[0]);
      CollectsExactly(order, AddShare(order, mk, shares[0]).value, shares[1..]);
    }
  }

  lemma AddKeepsCodec(order: Positive, mk: Multikey, share: Multikey)
    ensures AddShare(order, mk, share).Ok? ==> AddShare(order, mk, share).value.codec == mk.codec
  {
    hide EncodeMap, ReadShare, Collected;
  }

  // ---- combining ----

  /** The values of the collected shares in the order of their identifiers. */
  ghost predicate ValuesOf(order: Positive, m: ShareMap, values: seq<int>) {
    |values| == |m| && forall i :: 0 <= i < |m| ==>
      0 <= values[i] < order && m[KeysInOrder(m)[i]].data == ToBig(values[i], 32)
  }

  /** Combining any accumulator: it succeeds exactly for a BLS private key with a threshold that its
      collected shares meet, if these are at least two, none has the identifier zero, and each value is a
      canonical scalar. The result is the scalar that the shares interpolate at zero, with the codec and
      comment of the accumulator and no other attribute. */
  lemma CombinesExactly(order: Positive, mk: Multikey, m: ShareMap, t: nat, values: seq<int>)
    requires OrderOk(order) && Collected(order, mk) == Ok(m) && ThresholdOf(mk) == Ok(t)
    requires ValuesOf(order, m, values)
    ensures BlsShares.Combine(order, mk).Ok? <==> mk.codec.BlsPriv? && |m| >= t && |m| >= 2 && 0 !in m
    ensures var secret := Lagrange(Modulo(order), KeysInOrder(m), values, 0);
            BlsShares.Combine(order, mk).Ok? ==>
              0 <= secret < order
              && BlsShares.Combine(order, mk).value == Multikey(mk.codec, mk.comment, map[KeyData := ToBig(secret, 32)])
  {
    hide Collected, ThresholdOf, PointsOfShares, ToBig, Modulo, Lagrange, InOrder, KeysInOrder, Power;
    CollectedWellKeyed(order, mk);
    var points := PointsFrom(order, m, values);
    ModuloLawful(order);
    LagrangeHas(Modulo(order), KeysInOrder(m), values, 0);
    var secret := Lagrange(Modulo(order), KeysInOrder(m), values, 0);
    Remainder(secret, 0, secret, order);
    IncreasingDistinct(m);
  }

  lemma IncreasingDistinct(m: ShareMap)
    ensures Distinct(KeysInOrder(m)) && (0 in KeysInOrder(m) <==> 0 in m)
  {
    hide KeysInOrder;
    if 0 in KeysInOrder(m) { var i :| 0 <= i < |KeysInOrder(m)| && KeysInOrder(m)[i] == 0; }
  }

  lemma PointsFrom(order: Positive, m: ShareMap, values: seq<int>) returns (points: seq<Share>)
    requires OrderOk(order) && WellKeyed(order, m) && ValuesOf(order, m, values)
    ensures PointsOfShares(order, InOrder(m)) == Ok(points)
    ensures Ids(points) == KeysInOrder(m) && Values(points) == values
  {
    hide ToBig, KeysInOrder, ScalarFromBytes, Power;
    var keys := KeysInOrder(m);
    points := seq(|m|, i requires 0 <= i < |m| => Share(keys[i], values[i]));
    forall i | 0 <= i < |m|
      ensures IsPoint(order, InOrder(m)[i], points[i])
    {
      assert keys[i] in m;
      ScalarBytesExact(order, InOrder(m)[i].data, values[i]);
    }
    PointsOfEach(order, InOrder(m), points);
    assert Ids(points) == keys && Values(points) == values;
  }

  /** A value that is not a canonical scalar makes combining fail. */
  lemma BadValueFails(order: Positive, mk: Multikey, m: ShareMap, id: nat)
    requires OrderOk(order) && Collected(order, mk) == Ok(m) && id in m
    requires |m[id].data| != 32 || FromBig(m[id].data) >= order
    ensures BlsShares.Combine(order, mk).Err?
  {
    hide Collected, ThresholdOf, PointsOfShares, FromBig, KeysInOrder, Sharing.Combine;
    if BlsShares.Combine(order, mk).Ok? {
      var points := PointsOfShares(order, InOrder(m)).value;
      PointsOfEach(order, InOrder(m), points);
    }
  }

  // ---- the whole cycle, from the key alone ----

  /** For every private key that holds a canonical 32-byte secret and nothing else, and every threshold
      from 2 to the limit: the key splits, any selection of its shares is collected in any order, and the
      result is the key itself from the threshold on and `NotEnoughShares` below it. */
  lemma WholeCycle(order: Positive, mk: Multikey, t: nat, n: nat, coins: Coins, acc: Multikey, sel: seq<nat>)
    requires OrderOk(order) && mk.codec.BlsPriv? && mk.attributes.Keys == {KeyData}
    requires |mk.attributes[KeyData]| == 32 && FromBig(mk.attributes[KeyData]) < order
    requires 2 <= t <= n < order && n <= Varints.USIZE_MAX && Selection(sel, 1, n)
    requires acc.codec == mk.codec && ThresholdData !in acc.attributes
    requires acc.comment == [] || acc.comment == mk.comment
    ensures Split(order, mk, t, n, coins).Ok?
    ensures var r := FoldShares(order, acc, Pick(Split(order, mk, t, n, coins).value, sel));
            r.Ok? && BlsShares.Combine(order, r.value) == if |sel| < t then Err(NotEnoughShares) else Ok(mk)
  {
    hide FromBig, Split, FoldShares, BlsShares.Combine, OrderOk, Power;
    var bytes := mk.attributes[KeyData];
    assert bytes[..32] == bytes && SecretBytes(mk) == Ok(bytes);
    SplitsExactly(order, mk, t, n, coins);
    SplitCollectCombine(order, mk, t, n, coins, acc, sel);
    if |sel| >= t { RestoresExactly(order, mk, t, n, coins, acc, sel); }
  }
}
