/** Threshold shares of BLS12-381 keys: the nested codec of collected shares, and splitting,
    collecting and combining. */
module BlsShares {
  import opened Wrappers
  import opened Bytes
  import opened Codecs
  import opened AttrIds
  import opened Wire
  import opened Views
  import opened OrderedKeys
  import opened Sharing
  import Varints
  import PrimeField

  const SECRET_KEY_BYTES: nat := 32

  datatype KeyShare = KeyShare(id: nat, threshold: nat, limit: nat, data: Data)

  type ShareMap = map<nat, KeyShare>

  // ---- the nested codec ----

  /** A canonical scalar, most significant byte first. */
  function ScalarFromBytes(order: Positive, b: Data): Result<nat> {
    if |b| != SECRET_KEY_BYTES then Err(WrongScalarLength)
    else if FromBig(b) < order then Ok(FromBig(b))
    else Err(NonCanonicalScalar)
  }

  function EncodeShare(s: KeyShare): (b: Data)
    ensures b != []
  {
    ToBig(s.id, SECRET_KEY_BYTES) + Varints.Encode(s.threshold) + Varints.Encode(s.limit) + Varints.EncodeBytes(s.data)
  }

  function DecodeShare(order: Positive, b: Data): Result<(KeyShare, Data)> {
    if |b| < SECRET_KEY_BYTES then Err(Truncated)
    else
      var id :- ScalarFromBytes(order, b[..SECRET_KEY_BYTES]);
      var (threshold, p) :- Varints.Decode(b[SECRET_KEY_BYTES..], Varints.USIZE_MAX);
      var (limit, p) :- Varints.Decode(p, Varints.USIZE_MAX);
      var (data, p) :- Varints.DecodeBytes(p);
      Ok((KeyShare(id, threshold, limit, data), p))
  }

  function EncodeShares(l: seq<KeyShare>): Data {
    if l == [] then [] else EncodeShare(l[0]) + EncodeShares(l[1..])
  }

  function ValuesAt(m: ShareMap, keys: seq<nat>): (l: seq<KeyShare>)
    requires forall i :: 0 <= i < |keys| ==> keys[i] in m
    ensures |l| == |keys| && forall i :: 0 <= i < |l| ==> l[i] == m[keys[i]]
  {
    seq(|keys|, i requires 0 <= i < |keys| => m[keys[i]])
  }

  /** The keys of a map in ascending order. */
  function KeysInOrder(m: ShareMap): (keys: seq<nat>)
    ensures |keys| == |m|
    ensures forall i :: 0 <= i < |keys| ==> keys[i] in m
    ensures Increasing(keys)
    ensures forall id :: id in m ==> id in keys
  {
    var keys := Ascending(m.Keys);
    AscendingOrder(m.Keys);
    assert |m| == |m.Keys| && forall i :: 0 <= i < |keys| ==> keys[i] in keys;
    keys
  }

  /** The shares of a map in ascending order of their keys. */
  function InOrder(m: ShareMap): (l: seq<KeyShare>) {
    ValuesAt(m, KeysInOrder(m))
  }

  function EncodeMap(m: ShareMap): Data {
    Varints.Encode(|m|) + EncodeShares(InOrder(m))
  }

  function DecodeShares(order: Positive, count: nat, p: Data, shares: ShareMap): Result<(ShareMap, Data)> {
    if count == 0 then Ok((shares, p))
    else
      var (s, q) :- DecodeShare(order, p);
      if s.id in shares then Err(DuplicateShare)
      else DecodeShares(order, count - 1, q, shares[s.id := s])
  }

  function DecodeMap(order: Positive, b: Data): Result<(ShareMap, Data)> {
    var (count, p) :- Varints.Decode(b, Varints.USIZE_MAX);
    DecodeShares(order, count, p, map[])
  }

  method DecodeThresholdData(order: Positive, b: Data) returns (r: Result<(ShareMap, Data)>)
    ensures r == DecodeMap(order, b)
  {
    hide DecodeShare;
    var count :- Varints.Decode(b, Varints.USIZE_MAX);
    var shares: ShareMap := map[];
    var p := count.1;
    for i := 0 to count.0
      invariant DecodeShares(order, count.0 - i, p, shares) == DecodeShares(order, count.0, count.1, map[])
    {
      var share :- DecodeShare(order, p);
      var present := share.0.id in shares;
      shares := shares[share.0.id := share.0];
      if present { return Err(DuplicateShare); }
      p := share.1;
    }
    r := Ok((shares, p));
  }

  // ---- the threshold attributes ----

  predicate ThresholdViewed(c: Codec) {
    c.BlsPriv? || c.BlsPub? || c.BlsPrivShare? || c.BlsPubShare?
  }

  function NumberAttribute(mk: Multikey, id: AttrId, missing: Error): Result<nat> {
    if !ThresholdViewed(mk.codec) then Err(UnsupportedCodec)
    else if id !in mk.attributes then Err(missing)
    else
      var (n, _) :- Varints.Decode(mk.attributes[id], Varints.USIZE_MAX);
      Ok(n)
  }

  function ThresholdOf(mk: Multikey): Result<nat> {
    NumberAttribute(mk, Threshold, MissingThreshold)
  }

  function LimitOf(mk: Multikey): Result<nat> {
    NumberAttribute(mk, Limit, MissingLimit)
  }

  function IdentifierOf(order: Positive, mk: Multikey): Result<nat> {
    if !ThresholdViewed(mk.codec) then Err(UnsupportedCodec)
    else if ShareIdentifier !in mk.attributes then Err(MissingShareIdentifier)
    else ScalarFromBytes(order, mk.attributes[ShareIdentifier])
  }

  /** The shares collected so far; none if the attribute is missing. */
  function Collected(order: Positive, mk: Multikey): Result<ShareMap> {
    if ThresholdData !in mk.attributes then Ok(map[])
    else match DecodeMap(order, mk.attributes[ThresholdData])
         case Err(_) => Err(ShareCombineFailed)
         case Ok((m, _)) => Ok(m)
  }

  // ---- the operations ----

  /** What a share key contributes. */
  function ReadShare(order: Positive, share: Multikey): Result<KeyShare> {
    var id :- IdentifierOf(order, share);
    var threshold :- ThresholdOf(share);
    var limit :- LimitOf(share);
    var data :- KeyBytes(share);
    Ok(KeyShare(id, threshold, limit, data))
  }

  function Accumulated(mk: Multikey, share: Multikey, s: KeyShare, shares: ShareMap): Multikey {
    Multikey(mk.codec, if mk.comment == [] then share.comment else mk.comment,
             map[Threshold := Varints.Encode(s.threshold), Limit := Varints.Encode(s.limit),
                 ThresholdData := EncodeMap(shares)])
  }

  /** Add a share to a private key under reconstruction. The threshold and limit recorded are those
      of the share just added. */
  function AddShare(order: Positive, mk: Multikey, share: Multikey): Result<Multikey> {
    match mk.codec
    case BlsPriv(_) =>
      var s :- ReadShare(order, share);
      var shares :- Collected(order, mk);
      if s.id in shares then Err(DuplicateShare)
      else Ok(Accumulated(mk, share, s, shares[s.id := s]))
    case BlsPub(_) => Err(NotASecretKey)
    case BlsPrivShare(_) => Err(IsAKeyShare)
    case BlsPubShare(_) => Err(IsAKeyShare)
    case _ => Err(UnsupportedAlgorithm)
  }

  method AddKeyShare(order: Positive, mk: Multikey, share: Multikey) returns (r: Result<Multikey>)
    ensures r == AddShare(order, mk, share)
  {
    hide EncodeMap, DecodeMap, ReadShare;
    if mk.codec.BlsPub? { return Err(NotASecretKey); }
    if mk.codec.BlsPrivShare? || mk.codec.BlsPubShare? { return Err(IsAKeyShare); }
    if !mk.codec.BlsPriv? { return Err(UnsupportedAlgorithm); }
    var s :- ReadShare(order, share);
    var shares: ShareMap := map[];
    if ThresholdData in mk.attributes {
      var decoded := DecodeMap(order, mk.attributes[ThresholdData]);
      if decoded.Err? { return Err(ShareCombineFailed); }
      shares := decoded.value.0;
    }
    if s.id in shares { return Err(DuplicateShare); }
    shares := shares[s.id := s];
    var attributes: Attributes := map[];
    attributes := attributes[Threshold := Varints.Encode(s.threshold)];
    attributes := attributes[Limit := Varints.Encode(s.limit)];
    attributes := attributes[ThresholdData := EncodeMap(shares)];
    r := Ok(Multikey(mk.codec, if mk.comment == [] then share.comment else mk.comment, attributes));
  }

  /** Adding a share through the threshold view of the key's codec: only the BLS private keys collect
      shares, the Merkle keys refuse to, and the other codecs have no such view. */
  function AddShareTo(order: Positive, mk: Multikey, share: Multikey): Result<Multikey> {
    match mk.codec
    case BlsPriv(_) => AddShare(order, mk, share)
    case MerklePriv(_) | MerklePub(_) | MerklePrivShare(_) => Err(ShareCombineFailed)
    case _ => Err(UnsupportedCodec)
  }

  method AddThroughView(order: Positive, mk: Multikey, share: Multikey) returns (r: Result<Multikey>)
    ensures r == AddShareTo(order, mk, share)
  {
    hide AddShare;
    if mk.codec.MerklePriv? || mk.codec.MerklePub? || mk.codec.MerklePrivShare? { return Err(ShareCombineFailed); }
    if !mk.codec.BlsPriv? { return Err(UnsupportedCodec); }
    r := AddKeyShare(order, mk, share);
  }

  function PointsOfShares(order: Positive, l: seq<KeyShare>): Result<seq<Share>> {
    if l == [] then Ok([])
    else
      var v :- ScalarFromBytes(order, l[0].data);
      var rest :- PointsOfShares(order, l[1..]);
      Ok([Share(l[0].id, v)] + rest)
  }

  function Combine(order: Positive, mk: Multikey): Result<Multikey> {
    if !ThresholdViewed(mk.codec) then Err(UnsupportedCodec)
    else
      var shares :- Collected(order, mk);
      var threshold :- ThresholdOf(mk);
      if |shares| < threshold then Err(NotEnoughShares)
      else if !mk.codec.BlsPriv? then Err(UnsupportedAlgorithm)
      else
        var points :- PointsOfShares(order, InOrder(shares));
        var secret :- Sharing.Combine(PrimeField.Modulo(order), points);
        Ok(Multikey(mk.codec, mk.comment, map[KeyData := ToBig(secret % order, SECRET_KEY_BYTES)]))
  }

  function ShareKey(mk: Multikey, t: nat, n: nat, s: Share): Multikey
    requires mk.codec.BlsPriv?
  {
    Multikey(BlsPrivShare(mk.codec.group), mk.comment,
             map[KeyData := ToBig(if s.value >= 0 then s.value else 0, SECRET_KEY_BYTES),
                 Threshold := Varints.Encode(t), Limit := Varints.Encode(n),
                 ShareIdentifier := ToBig(if s.id >= 0 then s.id else 0, SECRET_KEY_BYTES)])
  }

  /** Only the first 32 bytes of a longer key are split; a shorter key makes the slice panic. */
  function Split(order: Positive, mk: Multikey, t: nat, n: nat, coins: Coins): (r: Result<seq<Multikey>>)
    ensures r.Ok? ==> |r.value| == n
  {
    if t > n then Err(InvalidThresholdLimit)
    else if !Viewed(mk.codec) then Err(UnsupportedCodec)
    else if !IsSecretKey(mk.codec) then Err(NotASecretKey)
    else
      var bytes :- SecretBytes(mk);
      if !mk.codec.BlsPriv? then Err(UnsupportedCodec)
      else if |bytes| < SECRET_KEY_BYTES then Err(SliceOutOfRange)
      else
        var secret :- ScalarFromBytes(order, bytes[..SECRET_KEY_BYTES]);
        if t < 2 then Err(SharingMinThreshold)
        else
          var shares := Deal(PrimeField.Modulo(order), Coefficients(order, secret, t, coins), n);
          Ok(seq(n, i requires 0 <= i < n => ShareKey(mk, t, n, shares[i])))
  }
}
