/** What splitting and recombining a key guarantees. */
module KeySplitTheorems {
  import opened Wrappers
  import opened Bytes
  import opened Codecs
  import opened AttrIds
  import opened Wire
  import opened Views
  import opened Fields
  import opened PrimeField
  import opened Polynomials
  import opened Sharing
  import opened FeldmanCurve
  import opened ByteSharing
  import opened KeySplit

  // ---- lists of payloads ----

  lemma {:induction false} UnwrapEach<G>(sys: System<G>, shares: seq<Multikey>, ps: seq<SharePayload>)
    ensures UnwrapAll(sys, shares) == Ok(ps) <==>
            |shares| == |ps| && forall i :: 0 <= i < |shares| ==> Unwrap(sys, shares[i]) == Ok(ps[i])
  {
    hide Unwrap;
    if shares == [] {
    } else if ps == [] {
    } else {
      UnwrapEach(sys, shares[1..], ps[1..]);
      assert ps == [ps[0]] + ps[1..];
    }
  }

  lemma {:induction false} VerifyEach<G>(sys: System<G>, codec: Codec, ps: seq<SharePayload>)
    ensures VerifyAll(sys, codec, ps).Ok? <==> forall i :: 0 <= i < |ps| ==> VerifyPayload(sys, codec, ps[i]).Ok?
  {
    hide VerifyPayload;
    if ps != [] {
      VerifyEach(sys, codec, ps[1..]);
      assert ps == [ps[0]] + ps[1..];
    }
  }

  // ---- splits ----

  /** The scalar of a key whose bytes a split accepts is below the order of its curve. */
  lemma SecretScalarInRange<G(!new)>(sys: System<G>, codec: Codec, secret: Data)
    requires SystemOk(sys, codec) && SecretScalar(sys, codec, secret).Ok?
    ensures IsFeldmanCodec(codec) && SecretScalar(sys, codec, secret).value < sys.curve(codec).order
  {}

  /** Every payload of a split verifies, under the codec of the key that was split. */
  lemma PayloadVerifies<G(!new)>(
    sys: System<G>, codec: Codec, secret: Data, t: nat, n: nat, coins: Coins, byteCoins: ByteCoins, i: nat)
    requires SystemOk(sys, codec) && 2 <= t && n <= 255 && i < n
    requires BuildPayloads(sys, codec, secret, t, n, coins, byteCoins).Ok?
    ensures VerifyPayload(sys, codec, BuildPayloads(sys, codec, secret, t, n, coins, byteCoins).value[i]) == Ok(())
  {
    hide FeldmanCurve.Split, ByteSharing.Split, FeldmanCurve.Verify, CurveOk, SecretScalar;
    if IsFeldmanCodec(codec) {
      SecretScalarInRange(sys, codec, secret);
      DealtVerifies(sys.curve(codec), SecretScalar(sys, codec, secret).value, t, n, coins, i);
    }
  }

  /** Of the curve codecs other than the 25519 ones, recombination returns the key's own bytes,
      through the canonical form of scalars and the byte reversal of BLS keys. */
  lemma EccRecovers<G(!new)>(sys: System<G>, codec: Codec, secret: Data, t: nat, n: nat, coins: Coins, sel: seq<nat>)
    requires SystemOk(sys, codec) && 2 <= t && n <= 255 && Selection(sel, t, n)
    requires EccSplit(sys, codec, secret, t, n, coins).Ok?
    ensures var combined := EccCombine(sys, codec, Pick(EccSplit(sys, codec, secret, t, n, coins).value.pairs, sel));
            var c := sys.curve(codec);
            combined == if IsDualCodec(codec) then Ok(ReprOf(c, FromLittle(secret) % c.order)) else Ok(secret)
  {
    hide FeldmanCurve.Split, FeldmanCurve.Combine, ScalarOf, ReprOf, CurveOk;
    SecretScalarInRange(sys, codec, secret);
    var c, s := sys.curve(codec), SecretScalar(sys, codec, secret).value;
    DealtRecovers(c, s, t, n, coins, sel);
    if codec.BlsPriv? {
      ScalarExact(c, Reversed(secret), s);
      ReversedTwice(secret);
    } else if !IsDualCodec(codec) {
      ScalarExact(c, secret, s);
    }
  }

  /** What recombination does with a selection of the payloads of one split: all its checks pass, and
      the shares are handed to the sharing scheme of the codec. */
  lemma PayloadsHandedOn<G(!new)>(
    sys: System<G>, codec: Codec, secret: Data, t: nat, n: nat, coins: Coins, byteCoins: ByteCoins, sel: seq<nat>)
    requires SystemOk(sys, codec) && 2 <= t <= n <= 255 && Selection(sel, 1, n)
    requires BuildPayloads(sys, codec, secret, t, n, coins, byteCoins).Ok?
    ensures var ps := BuildPayloads(sys, codec, secret, t, n, coins, byteCoins).value;
            && SameKey(Pick(ps, sel)) && (forall i :: 0 <= i < n ==> ps[i].codec == sys.registry.code(codec))
            && CombinePayloads(sys, codec, ps[0].scheme, Pick(ps, sel)) ==
                 if IsFeldmanCodec(codec) && !IsDualCodec(codec)
                 then EccCombine(sys, codec, Pick(EccSplit(sys, codec, secret, t, n, coins).value.pairs, sel))
                 else ByteSharing.Combine(sys.bytes, Pick(ByteSharing.Split(sys.bytes, secret, t, n, byteCoins), sel))
  {
    hide ByteSharing.Split, EccSplit, EccCombine, VerifyPayload, CurveOk, ByteSharing.Combine;
    var ps := BuildPayloads(sys, codec, secret, t, n, coins, byteCoins).value;
    var picked := Pick(ps, sel);
    forall i | 0 <= i < |picked|
      ensures VerifyPayload(sys, codec, picked[i]).Ok?
    {
      PayloadVerifies(sys, codec, secret, t, n, coins, byteCoins, sel[i]);
    }
    VerifyEach(sys, codec, picked);
    if IsFeldmanCodec(codec) && !IsDualCodec(codec) {
      assert Pairs(picked) == Pick(EccSplit(sys, codec, secret, t, n, coins).value.pairs, sel);
    } else {
      var rows := Pick(ByteSharing.Split(sys.bytes, secret, t, n, byteCoins), sel);
      forall i | 0 <= i < |picked|
        ensures picked[i].identifier == [rows[i].id] && picked[i].value == rows[i].value
      {}
      assert Rows(picked).value == rows;
    }
  }

  /** A selection of the shares leaves nothing of the secret unreached, in the sharing scheme of the
      codec. It depends on the secret and the random coefficients of the split only. */
  predicate SecretReached<G(!new)>(
    sys: System<G>, codec: Codec, secret: Data, t: nat, coins: Coins, byteCoins: ByteCoins, sel: seq<nat>)
    requires t > 0
  {
    if IsFeldmanCodec(codec) && !IsDualCodec(codec) then
      SecretScalar(sys, codec, secret).Ok?
      && FeldmanCurve.Reached(sys.curve(codec), SecretScalar(sys, codec, secret).value, t, coins, sel)
    else ByteSharing.Reached(sys.bytes, secret, t, byteCoins, sel)
  }

  /** Any selection of the payloads of a split: a single one is refused, and from two on they combine,
      to the bytes that were split exactly when nothing of the secret is left unreached. */
  lemma PayloadsExactly<G(!new)>(
    sys: System<G>, codec: Codec, secret: Data, t: nat, n: nat, coins: Coins, byteCoins: ByteCoins, sel: seq<nat>)
    requires SystemOk(sys, codec) && 2 <= t <= n <= 255 && Selection(sel, 1, n)
    requires BuildPayloads(sys, codec, secret, t, n, coins, byteCoins).Ok?
    ensures var ps := BuildPayloads(sys, codec, secret, t, n, coins, byteCoins).value;
            var combined := CombinePayloads(sys, codec, ps[0].scheme, Pick(ps, sel));
            if |sel| == 1 then combined == Err(SharingMinThreshold)
            else combined.Ok?
                 && (combined == Ok(secret) <==> SecretReached(sys, codec, secret, t, coins, byteCoins, sel))
  {
    hide ByteSharing.Split, FeldmanCurve.Split, FeldmanCurve.Combine, CombinePayloads, CurveOk, ByteSharing.Combine;
    hide FeldmanCurve.Reached, ByteSharing.Reached, ScalarOf, ReprOf;
    PayloadsHandedOn(sys, codec, secret, t, n, coins, byteCoins, sel);
    if IsFeldmanCodec(codec) && !IsDualCodec(codec) {
      SecretScalarInRange(sys, codec, secret);
      var c, s := sys.curve(codec), SecretScalar(sys, codec, secret).value;
      DealtExactly(c, s, t, n, coins, sel);
      if codec.BlsPriv? {
        ScalarExact(c, Reversed(secret), s);
        ReversedInjective(secret);
      } else {
        ScalarExact(c, secret, s);
      }
    } else {
      SplitExactly(sys.bytes, secret, t, n, byteCoins, sel);
    }
  }

  lemma ReversedInjective(b: Data)
    ensures forall d: Data :: Reversed(d) == b <==> d == Reversed(b)
  {
    forall d: Data
      ensures Reversed(d) == b <==> d == Reversed(b)
    {
      ReversedTwice(d);
      ReversedTwice(b);
    }
  }

  /** The last random coefficients of a split are all zero. */
  predicate TopIsZero<G>(sys: System<G>, codec: Codec, secret: Data, t: nat, coins: Coins, byteCoins: ByteCoins)
    requires t > 0
  {
    if IsFeldmanCodec(codec) && !IsDualCodec(codec) then
      SecretScalar(sys, codec, secret).Ok?
      && Coefficients(sys.curve(codec).order, SecretScalar(sys, codec, secret).value, t, coins)[t - 1] == 0
    else TopVanishes(secret, t, byteCoins)
  }

  /** From the threshold on everything is reached; one share short of it, exactly if the last random
      coefficients are zero. */
  lemma SecretReachedByMany<G(!new)>(
    sys: System<G>, codec: Codec, secret: Data, t: nat, n: nat, coins: Coins, byteCoins: ByteCoins, sel: seq<nat>)
    requires SystemOk(sys, codec) && 2 <= t <= n <= 255 && Selection(sel, 1, n)
    requires BuildPayloads(sys, codec, secret, t, n, coins, byteCoins).Ok?
    ensures |sel| >= t ==> SecretReached(sys, codec, secret, t, coins, byteCoins, sel)
    ensures |sel| == t - 1 ==>
              (SecretReached(sys, codec, secret, t, coins, byteCoins, sel)
               <==> TopIsZero(sys, codec, secret, t, coins, byteCoins))
  {
    hide ByteSharing.Split, FeldmanCurve.Split, CurveOk, FeldmanCurve.Reached, ByteSharing.Reached, TopVanishes;
    if IsFeldmanCodec(codec) && !IsDualCodec(codec) {
      SecretScalarInRange(sys, codec, secret);
      var c, s := sys.curve(codec), SecretScalar(sys, codec, secret).value;
      FeldmanCurve.ReachedByMany(c, s, t, n, coins, sel);
    } else {
      ByteSharing.ReachedByMany(sys.bytes, secret, t, n, byteCoins, sel);
    }
  }

  // ---- the main results ----

  /** Recombining a selection of the shares is recombining their payloads. */
  lemma SharesHandedOn<G(!new)>(
    sys: System<G>, mk: Multikey, t: nat, n: nat, coins: Coins, byteCoins: ByteCoins, sel: seq<nat>)
    requires SystemOk(sys, mk.codec) && KeySplit.Split(sys, mk, t, n, coins, byteCoins).Ok? && Selection(sel, 1, n)
    ensures 2 <= t <= n <= 255 && SecretBytes(mk).Ok?
    ensures BuildPayloads(sys, mk.codec, SecretBytes(mk).value, t, n, coins, byteCoins).Ok?
    ensures var ps := BuildPayloads(sys, mk.codec, SecretBytes(mk).value, t, n, coins, byteCoins).value;
            KeySplit.Combine(sys, Pick(KeySplit.Split(sys, mk, t, n, coins, byteCoins).value, sel)) ==
              match CombinePayloads(sys, mk.codec, ps[0].scheme, Pick(ps, sel))
              case Err(e) => Err(e)
              case Ok(secret) => Ok(Multikey(mk.codec, [], map[KeyData := secret]))
  {
    hide BuildPayloads, CombinePayloads, SecretBytes, CurveOk, Lawful;
    var shares, secret := KeySplit.Split(sys, mk, t, n, coins, byteCoins).value, SecretBytes(mk).value;
    var ps := BuildPayloads(sys, mk.codec, secret, t, n, coins, byteCoins).value;
    PayloadsHandedOn(sys, mk.codec, secret, t, n, coins, byteCoins, sel);
    var picked := Pick(ps, sel);
    forall i | 0 <= i < |picked|
      ensures Unwrap(sys, Pick(shares, sel)[i]) == Ok(picked[i])
    {}
    UnwrapEach(sys, Pick(shares, sel), picked);
    assert ps[0].scheme == picked[0].scheme by { SchemesAgree(sys, mk.codec, secret, t, n, coins, byteCoins); }
  }

  lemma SchemesAgree<G(!new)>(
    sys: System<G>, codec: Codec, secret: Data, t: nat, n: nat, coins: Coins, byteCoins: ByteCoins)
    requires SystemOk(sys, codec) && 2 <= t <= n <= 255 && BuildPayloads(sys, codec, secret, t, n, coins, byteCoins).Ok?
    ensures var ps := BuildPayloads(sys, codec, secret, t, n, coins, byteCoins).value;
            forall i :: 0 <= i < n ==> ps[i].scheme == ps[0].scheme
  {}

  /** Exactly when recombination is right, for any selection of the shares of a split: it never counts
      them against the threshold, although its documentation asks for that many. A single share is
      refused by the sharing scheme. From two on a key with the original codec comes back, and its
      secret is the original one exactly when the selection leaves nothing of it unreached. */
  lemma RecombinesExactly<G(!new)>(
    sys: System<G>, mk: Multikey, t: nat, n: nat, coins: Coins, byteCoins: ByteCoins, sel: seq<nat>)
    requires SystemOk(sys, mk.codec) && Selection(sel, 1, n)
    requires KeySplit.Split(sys, mk, t, n, coins, byteCoins).Ok?
    ensures var combined := KeySplit.Combine(sys, Pick(KeySplit.Split(sys, mk, t, n, coins, byteCoins).value, sel));
            && SecretBytes(mk).Ok?
            && if |sel| == 1 then combined == Err(SharingMinThreshold)
               else combined.Ok? && combined.value.codec == mk.codec
                    && (combined == Ok(Multikey(mk.codec, [], map[KeyData := SecretBytes(mk).value]))
                        <==> SecretReached(sys, mk.codec, SecretBytes(mk).value, t, coins, byteCoins, sel))
  {
    hide KeySplit.Combine, KeySplit.Split, BuildPayloads, CombinePayloads, CurveOk, Lawful, SecretBytes;
    hide SecretReached;
    SharesHandedOn(sys, mk, t, n, coins, byteCoins, sel);
    var secret := SecretBytes(mk).value;
    PayloadsExactly(sys, mk.codec, secret, t, n, coins, byteCoins, sel);
    assert forall s: Data :: map[KeyData := s] == map[KeyData := secret] ==> map[KeyData := s][KeyData] == secret;
  }

  /** Every key that a split accepts yields exactly `n` shares, and any `t` or more of them, in any
      order, recombine to a key with the original codec and byte-identical secret. */
  lemma AnyThresholdRecovers<G(!new)>(
    sys: System<G>, mk: Multikey, t: nat, n: nat, coins: Coins, byteCoins: ByteCoins, sel: seq<nat>)
    requires SystemOk(sys, mk.codec) && Selection(sel, t, n)
    requires KeySplit.Split(sys, mk, t, n, coins, byteCoins).Ok?
    ensures var shares := KeySplit.Split(sys, mk, t, n, coins, byteCoins).value;
            && |shares| == n && SecretBytes(mk).Ok?
            && KeySplit.Combine(sys, Pick(shares, sel))
               == Ok(Multikey(mk.codec, [], map[KeyData := SecretBytes(mk).value]))
  {
    hide KeySplit.Combine, KeySplit.Split, BuildPayloads, CombinePayloads, CurveOk, Lawful, SecretBytes;
    hide SecretReached, TopIsZero;
    SharesHandedOn(sys, mk, t, n, coins, byteCoins, sel);
    RecombinesExactly(sys, mk, t, n, coins, byteCoins, sel);
    SecretReachedByMany(sys, mk.codec, SecretBytes(mk).value, t, n, coins, byteCoins, sel);
  }

  /** One share short of the threshold, the recombined secret is right exactly when the last random
      coefficients of the split are zero. */
  lemma OneShareShort<G(!new)>(
    sys: System<G>, mk: Multikey, t: nat, n: nat, coins: Coins, byteCoins: ByteCoins, sel: seq<nat>)
    requires SystemOk(sys, mk.codec) && Selection(sel, 2, n) && |sel| == t - 1
    requires KeySplit.Split(sys, mk, t, n, coins, byteCoins).Ok?
    ensures var shares := KeySplit.Split(sys, mk, t, n, coins, byteCoins).value;
            && SecretBytes(mk).Ok?
            && (KeySplit.Combine(sys, Pick(shares, sel))
                == Ok(Multikey(mk.codec, [], map[KeyData := SecretBytes(mk).value]))
                <==> TopIsZero(sys, mk.codec, SecretBytes(mk).value, t, coins, byteCoins))
  {
    hide KeySplit.Combine, KeySplit.Split, BuildPayloads, CombinePayloads, CurveOk, Lawful, SecretBytes;
    hide SecretReached, TopIsZero;
    SharesHandedOn(sys, mk, t, n, coins, byteCoins, sel);
    RecombinesExactly(sys, mk, t, n, coins, byteCoins, sel);
    SecretReachedByMany(sys, mk.codec, SecretBytes(mk).value, t, n, coins, byteCoins, sel);
  }

  // ---- what fewer shares than the threshold tell ----

  /** The key with other key data. */
  function WithSecret(mk: Multikey, secret: Data): Multikey {
    mk.(attributes := mk.attributes[KeyData := secret])
  }

  lemma WithSecretReads(mk: Multikey, secret: Data)
    requires SecretBytes(mk).Ok?
    ensures SecretBytes(WithSecret(mk, secret)) == Ok(secret)
  {}

  /** For the codecs that are shared byte by byte, fewer shares than the threshold say nothing about
      the secret but its length: every key with another secret of that length has a split with
      exactly these shares. */
  lemma SharesHide<G(!new)>(
    sys: System<G>, mk: Multikey, t: nat, n: nat, coins: Coins, byteCoins: ByteCoins, sel: seq<nat>, candidate: Data)
    returns (byteCoins': ByteCoins)
    requires ByteField(sys.bytes) && !IsFeldmanCodec(mk.codec) && Selection(sel, 0, n) && |sel| < t
    requires KeySplit.Split(sys, mk, t, n, coins, byteCoins).Ok? && |candidate| == |SecretBytes(mk).value|
    ensures var other := KeySplit.Split(sys, WithSecret(mk, candidate), t, n, coins, byteCoins');
            other.Ok? && Pick(other.value, sel) == Pick(KeySplit.Split(sys, mk, t, n, coins, byteCoins).value, sel)
  {
    hide ByteSharing.Split, SecretBytes, Lawful;
    var secret := SecretBytes(mk).value;
    WithSecretReads(mk, candidate);
    byteCoins' := RowsHide(sys.bytes, secret, candidate, t, n, byteCoins, sel);
    var rows := ByteSharing.Split(sys.bytes, secret, t, n, byteCoins);
    var rows' := ByteSharing.Split(sys.bytes, candidate, t, n, byteCoins');
    var other := KeySplit.Split(sys, WithSecret(mk, candidate), t, n, coins, byteCoins').value;
    var shares := KeySplit.Split(sys, mk, t, n, coins, byteCoins).value;
    forall i | 0 <= i < |sel|
      ensures Pick(other, sel)[i] == Pick(shares, sel)[i]
    {
      assert Pick(rows', sel)[i] == Pick(rows, sel)[i];
    }
  }

  /** For the curve codecs a share also carries the commitments, and these fix the scalar: if one share
      of a split is also a share of another key's split, the two keys have the same codec and the same
      scalar. Except for the 25519 codecs, whose seeds are reduced, they then have the same secret. */
  lemma OneShareFixesScalar<G(!new)>(
    sys: System<G>, mk: Multikey, mk': Multikey, t: nat, t': nat, n: nat, n': nat,
    coins: Coins, coins': Coins, byteCoins: ByteCoins, byteCoins': ByteCoins, i: nat, i': nat)
    requires SystemOk(sys, mk.codec) && IsFeldmanCodec(mk.codec) && i < n && i' < n'
    requires KeySplit.Split(sys, mk, t, n, coins, byteCoins).Ok?
    requires KeySplit.Split(sys, mk', t', n', coins', byteCoins').Ok?
    requires KeySplit.Split(sys, mk, t, n, coins, byteCoins).value[i]
          == KeySplit.Split(sys, mk', t', n', coins', byteCoins').value[i']
    ensures mk'.codec == mk.codec && SecretBytes(mk).Ok? && SecretBytes(mk').Ok?
    ensures var s := SecretScalar(sys, mk.codec, SecretBytes(mk).value);
            s.Ok? && SecretScalar(sys, mk.codec, SecretBytes(mk').value) == s
    ensures !IsDualCodec(mk.codec) ==> SecretBytes(mk') == SecretBytes(mk)
  {
    hide SecretBytes, Lawful, CurveOk, SecretScalar, FeldmanCurve.Split, ByteSharing.Split, BuildPayloads;
    var codec, secret, secret' := mk.codec, SecretBytes(mk).value, SecretBytes(mk').value;
    var ps := BuildPayloads(sys, codec, secret, t, n, coins, byteCoins).value;
    var ps' := BuildPayloads(sys, mk'.codec, secret', t', n', coins', byteCoins').value;
    var share, share' := Wrap(sys, mk, ps[i]), Wrap(sys, mk', ps'[i']);
    assert share.attributes[KeyData] == share'.attributes[KeyData];
    assert sys.unpack(sys.pack(ps[i])) == Some(ps[i]) && sys.unpack(sys.pack(ps'[i'])) == Some(ps'[i']);
    assert ps[i] == ps'[i'];
    PayloadCodec(sys, codec, secret, t, n, coins, byteCoins, i);
    PayloadCodec(sys, mk'.codec, secret', t', n', coins', byteCoins', i');
    assert sys.registry.lookup(sys.registry.code(codec)) == Some(codec);
    assert sys.registry.lookup(sys.registry.code(mk'.codec)) == Some(mk'.codec);
    OnePayloadFixesScalar(sys, codec, secret, secret', t, t', n, n', coins, coins', byteCoins, byteCoins', i, i');
    if !IsDualCodec(codec) { ScalarFixesSecret(sys, codec, secret, secret'); }
  }

  lemma PayloadCodec<G(!new)>(
    sys: System<G>, codec: Codec, secret: Data, t: nat, n: nat, coins: Coins, byteCoins: ByteCoins, i: nat)
    requires ByteField(sys.bytes) && t > 0 && i < n <= 255
    requires BuildPayloads(sys, codec, secret, t, n, coins, byteCoins).Ok?
    ensures BuildPayloads(sys, codec, secret, t, n, coins, byteCoins).value[i].codec == sys.registry.code(codec)
  {
    hide Lawful, EccSplit, ByteSharing.Split;
  }

  lemma OnePayloadFixesScalar<G(!new)>(
    sys: System<G>, codec: Codec, secret: Data, secret': Data, t: nat, t': nat, n: nat, n': nat,
    coins: Coins, coins': Coins, byteCoins: ByteCoins, byteCoins': ByteCoins, i: nat, i': nat)
    requires SystemOk(sys, codec) && IsFeldmanCodec(codec) && t > 0 && t' > 0 && i < n <= 255 && i' < n' <= 255
    requires BuildPayloads(sys, codec, secret, t, n, coins, byteCoins).Ok?
    requires BuildPayloads(sys, codec, secret', t', n', coins', byteCoins').Ok?
    requires BuildPayloads(sys, codec, secret, t, n, coins, byteCoins).value[i]
          == BuildPayloads(sys, codec, secret', t', n', coins', byteCoins').value[i']
    ensures SecretScalar(sys, codec, secret).Ok?
    ensures SecretScalar(sys, codec, secret') == SecretScalar(sys, codec, secret)
  {
    hide Lawful, CurveOk, SecretScalar, FeldmanCurve.Split, ByteSharing.Split;
    SecretScalarInRange(sys, codec, secret);
    SecretScalarInRange(sys, codec, secret');
    var s, s' := SecretScalar(sys, codec, secret).value, SecretScalar(sys, codec, secret').value;
    CommitmentFixesSecret(sys.curve(codec), s, s', t, t', n, n', coins, coins');
  }

  lemma ScalarFixesSecret<G(!new)>(sys: System<G>, codec: Codec, secret: Data, secret': Data)
    requires SystemOk(sys, codec) && IsFeldmanCodec(codec) && !IsDualCodec(codec)
    requires SecretScalar(sys, codec, secret).Ok?
    requires SecretScalar(sys, codec, secret') == SecretScalar(sys, codec, secret)
    ensures secret' == secret
  {
    hide ScalarOf, ReprOf, Cyclic;
    var c, s := sys.curve(codec), SecretScalar(sys, codec, secret).value;
    if codec.BlsPriv? {
      ScalarExact(c, Reversed(secret), s);
      ScalarExact(c, Reversed(secret'), s);
      ReversedTwice(secret);
      ReversedTwice(secret');
    } else {
      ScalarExact(c, secret, s);
      ScalarExact(c, secret', s);
    }
  }

  // ---- the whole key, and verification ----

  /** The recombined key is the original one exactly when that had no comment and no attribute
      besides its key data: shares keep the comment, recombination drops it. */
  lemma RecoversWholeKeyExactly<G(!new)>(
    sys: System<G>, mk: Multikey, t: nat, n: nat, coins: Coins, byteCoins: ByteCoins, sel: seq<nat>)
    requires SystemOk(sys, mk.codec) && KeySplit.Split(sys, mk, t, n, coins, byteCoins).Ok? && Selection(sel, t, n)
    ensures KeySplit.Combine(sys, Pick(KeySplit.Split(sys, mk, t, n, coins, byteCoins).value, sel)) == Ok(mk)
       <==> mk.comment == [] && mk.attributes.Keys == {KeyData}
  {
    hide KeySplit.Combine, KeySplit.Split, CurveOk, Lawful;
    AnyThresholdRecovers(sys, mk, t, n, coins, byteCoins, sel);
    var secret := SecretBytes(mk).value;
    SecretIsKeyData(mk);
    assert mk.attributes.Keys == {KeyData} <==> mk.attributes == map[KeyData := secret];
  }

  lemma SecretIsKeyData(mk: Multikey)
    requires SecretBytes(mk).Ok?
    ensures KeyData in mk.attributes && SecretBytes(mk).value == mk.attributes[KeyData]
  {}

  /** Every share that a split emits passes verification. */
  lemma SplitSharesVerify<G(!new)>(
    sys: System<G>, mk: Multikey, t: nat, n: nat, coins: Coins, byteCoins: ByteCoins, i: nat)
    requires SystemOk(sys, mk.codec) && KeySplit.Split(sys, mk, t, n, coins, byteCoins).Ok? && i < n
    ensures VerifyShare(sys, KeySplit.Split(sys, mk, t, n, coins, byteCoins).value[i]) == Ok(())
  {
    hide BuildPayloads, CurveOk, Lawful, SecretBytes, VerifyPayload;
    var secret := SecretBytes(mk).value;
    PayloadVerifies(sys, mk.codec, secret, t, n, coins, byteCoins, i);
    PayloadsHandedOn(sys, mk.codec, secret, t, n, coins, byteCoins, [i]);
  }

  /** The codec of the key that a share was split from. */
  function OriginalCodec<G(==)>(sys: System<G>, share: Multikey): Codec
    requires VerifyShare(sys, share).Ok?
  {
    LookupCodec(sys, Unwrap(sys, share).value.codec).value
  }

  /** The commitments of a share bind its value: with any other value, canonical or not, under the
      same identifier and commitments, the share fails. For a dual share this is its scalar part. */
  lemma AlteredShareFails<G(!new)>(sys: System<G>, share: Multikey, altered: Multikey, value: Data)
    requires VerifyShare(sys, share).Ok? && SystemOk(sys, OriginalCodec(sys, share))
    requires Unwrap(sys, altered).Ok?
    requires var p, q := Unwrap(sys, share).value, Unwrap(sys, altered).value;
             match p.scheme
             case Feldman => value != p.value && q == p.(value := value)
             case Gf256 =>
               p.dual.Some? && value != p.dual.value.value
               && q == p.(dual := Some(p.dual.value.(value := value)))
    ensures VerifyShare(sys, altered).Err?
  {
    hide FeldmanCurve.Verify, CurveOk;
    var p, q := Unwrap(sys, share).value, Unwrap(sys, altered).value;
    var codec := LookupCodec(sys, p.codec).value;
    if VerifyShare(sys, altered).Ok? {
      match p.scheme {
        case Feldman =>
          VerifyBinds(sys.curve(codec), p.identifier, p.value, q.value, p.verifiers.value);
        case Gf256 =>
          var d := p.dual.value;
          VerifyBinds(sys.curve(codec), d.identifier, d.value, q.dual.value.value, d.verifiers);
      }
    }
  }

  ghost predicate Carries<G>(sys: System<G>, share: Multikey, verifiers: seq<Data>) {
    var p := Unwrap(sys, share);
    p.Ok? && p.value.scheme == Feldman && p.value.verifiers == Some(verifiers)
  }

  /** Feldman recombination is sound: when all shares carry one commitment set no longer than the
      list of shares, whatever recombination returns is the scalar that the first commitment
      commits to. Recombination itself does not compare the commitment sets. */
  lemma CombinedIsCommitted<G(!new)>(sys: System<G>, shares: seq<Multikey>, verifiers: seq<Data>) returns (s: nat)
    requires ByteField(sys.bytes) && KeySplit.Combine(sys, shares).Ok?
    requires SystemOk(sys, KeySplit.Combine(sys, shares).value.codec) && 0 < |verifiers| <= |shares|
    requires forall i :: 0 <= i < |shares| ==> Carries(sys, shares[i], verifiers)
    ensures var key, c := KeySplit.Combine(sys, shares).value, sys.curve(KeySplit.Combine(sys, shares).value.codec);
            && s < c.order && PointOf(c, verifiers[0]) == Ok(c.group.scale(s, c.group.base))
            && key.attributes == map[KeyData := if key.codec.BlsPriv? then Reversed(ReprOf(c, s)) else ReprOf(c, s)]
  {
    hide Unwrap, FeldmanCurve.Combine, FeldmanCurve.Verify, CurveOk, PointOf, ReprOf, Lawful;
    var ps, key := UnwrapAll(sys, shares).value, KeySplit.Combine(sys, shares).value;
    UnwrapEach(sys, shares, ps);
    assert Carries(sys, shares[0], verifiers) && Unwrap(sys, shares[0]) == Ok(ps[0]);
    VerifyEach(sys, key.codec, ps);
    var c := sys.curve(key.codec);
    forall i | 0 <= i < |ps|
      ensures IsFeldmanCodec(key.codec) && FeldmanCurve.Verify(c, Pairs(ps)[i], verifiers).Ok?
    {
      assert Carries(sys, shares[i], verifiers) && Unwrap(sys, shares[i]) == Ok(ps[i]);
      assert VerifyPayload(sys, key.codec, ps[i]).Ok?;
    }
    assert IsFeldmanCodec(key.codec) by { assert FeldmanCurve.Verify(c, Pairs(ps)[0], verifiers).Ok?; }
    s := CombineSound(c, Pairs(ps), verifiers);
  }

  /** The dual mode of the 25519 codecs: recombination restores the seed whatever its value, while
      the dual shares independently combine to the seed reduced modulo the group order. */
  lemma DualExactness<G(!new)>(
    sys: System<G>, mk: Multikey, t: nat, n: nat, coins: Coins, byteCoins: ByteCoins, sel: seq<nat>)
    requires SystemOk(sys, mk.codec) && IsDualCodec(mk.codec) && Selection(sel, t, n)
    requires KeySplit.Split(sys, mk, t, n, coins, byteCoins).Ok?
    ensures var shares, c := KeySplit.Split(sys, mk, t, n, coins, byteCoins).value, sys.curve(mk.codec);
            && SecretBytes(mk).Ok? && |SecretBytes(mk).value| == 32
            && (forall i :: 0 <= i < n ==> Unwrap(sys, shares[i]).Ok? && Unwrap(sys, shares[i]).value.dual.Some?)
            && KeySplit.Combine(sys, Pick(shares, sel))
               == Ok(Multikey(mk.codec, [], map[KeyData := SecretBytes(mk).value]))
            && EccCombine(sys, mk.codec, seq(|sel|, j requires 0 <= j < |sel| =>
                 var d := Unwrap(sys, shares[sel[j]]).value.dual.value; Pair(d.identifier, d.value)))
               == Ok(ReprOf(c, FromLittle(SecretBytes(mk).value) % c.order))
  {
    hide KeySplit.Combine, FeldmanCurve.Split, ByteSharing.Split, EccCombine, CurveOk, Lawful, SecretBytes, ReprOf;
    AnyThresholdRecovers(sys, mk, t, n, coins, byteCoins, sel);
    var shares, secret := KeySplit.Split(sys, mk, t, n, coins, byteCoins).value, SecretBytes(mk).value;
    EccRecovers(sys, mk.codec, secret, t, n, coins, sel);
    var pairs := EccSplit(sys, mk.codec, secret, t, n, coins).value.pairs;
    forall i | 0 <= i < n
      ensures Unwrap(sys, shares[i]).Ok? && Unwrap(sys, shares[i]).value.dual.Some?
      ensures var d := Unwrap(sys, shares[i]).value.dual.value; Pair(d.identifier, d.value) == pairs[i]
    {}
    assert seq(|sel|, j requires 0 <= j < |sel| =>
      var d := Unwrap(sys, shares[sel[j]]).value.dual.value; Pair(d.identifier, d.value)) == Pick(pairs, sel);
  }

  /** Only for a little-endian curve of 32-byte scalars can the two halves of a dual share agree,
      and there they do exactly for the seeds below the group order. */
  lemma DualAgreesExactly<G(!new)>(c: Curve<G>, seed: Data)
    requires CurveOk(c) && c.littleEndian && c.width == 32 && |seed| == 32
    ensures ReprOf(c, FromLittle(seed) % c.order) == seed <==> FromLittle(seed) < c.order
  {
    var v := FromLittle(seed) % c.order;
    ScalarExact(c, seed, v);
    if FromLittle(seed) < c.order { Remainder(FromLittle(seed), 0, FromLittle(seed), c.order); }
  }
}
