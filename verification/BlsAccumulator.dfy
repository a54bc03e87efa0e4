/** Collecting shares one by one refines inserting into a finite map; and splitting, collecting and
    combining restores a key. */
module BlsAccumulator {
  import opened Wrappers
  import opened Bytes
  import opened Codecs
  import opened AttrIds
  import opened Wire
  import opened Views
  import opened Fields
  import opened PrimeField
  import opened Polynomials
  import opened Sharing
  import opened BlsShares
  import opened BlsTheorems
  import Varints

  /** Add the shares one after the other, each through the view of the key so far. */
  function FoldShares(order: Positive, mk: Multikey, shares: seq<Multikey>): Result<Multikey>
    decreases |shares|
  {
    if shares == [] then Ok(mk)
    else
      var mk' :- AddShareTo(order, mk, shares[0]);
      FoldShares(order, mk', shares[1..])
  }

  /** `mk` is a private key under reconstruction that has collected the shares in `m`. */
  ghost predicate Holds(order: Positive, mk: Multikey, m: ShareMap) {
    mk.codec.BlsPriv? && Collected(order, mk) == Ok(m) && WellKeyed(order, m)
  }

  /** `s` is what the share key contributes, and it can be stored. */
  ghost predicate Contributes(order: Positive, share: Multikey, s: KeyShare) {
    ReadShare(order, share) == Ok(s) && ShareOk(order, s)
  }

  ghost predicate ContributeAll(order: Positive, shares: seq<Multikey>, l: seq<KeyShare>) {
    |shares| == |l| && forall i :: 0 <= i < |l| ==> Contributes(order, shares[i], l[i])
  }

  /** Adding a share fails exactly on an identifier that is already there, and otherwise stores the
      map with the share inserted. */
  lemma AddShareRefines(order: Positive, mk: Multikey, share: Multikey, m: ShareMap, s: KeyShare)
    requires OrderOk(order) && Holds(order, mk, m) && Contributes(order, share, s) && |m| < Varints.USIZE_MAX
    ensures AddShare(order, mk, share)
         == if s.id in m then Err(DuplicateShare) else Ok(Accumulated(mk, share, s, m[s.id := s]))
    ensures s.id !in m ==> Holds(order, Accumulated(mk, share, s, m[s.id := s]), m[s.id := s])
  {
    hide EncodeMap, DecodeMap, ReadShare, ShareOk, Power;
    if s.id !in m {
      var m' := m[s.id := s];
      MapRoundTrip(order, m', []);
      assert EncodeMap(m') + [] == EncodeMap(m');
    }
  }

  /** The comment after adding: the first that is not empty. */
  function FirstComment(comment: Data, shares: seq<Multikey>): Data
    decreases |shares|
  {
    if comment != [] || shares == [] then comment else FirstComment(shares[0].comment, shares[1..])
  }

  /** The key after adding shares that contribute `l` to the map `m`. */
  function After(mk: Multikey, shares: seq<Multikey>, l: seq<KeyShare>, m: ShareMap): Multikey
    requires |shares| == |l|
  {
    if l == [] then mk
    else
      var last := l[|l| - 1];
      Multikey(mk.codec, FirstComment(mk.comment, shares),
               map[Threshold := Varints.Encode(last.threshold), Limit := Varints.Encode(last.limit),
                   ThresholdData := EncodeMap(InsertAll(m, l))])
  }

  /** Collecting refines the finite map over any sequence of shares: it fails exactly when an
      identifier repeats or is already there, and otherwise stores exactly the map of all shares. The
      threshold and limit are those of the last share. */
  lemma {:induction false} FoldRefines(
    order: Positive, mk: Multikey, shares: seq<Multikey>, l: seq<KeyShare>, m: ShareMap)
    requires OrderOk(order) && Holds(order, mk, m) && ContributeAll(order, shares, l)
    requires |m| + |l| <= Varints.USIZE_MAX
    ensures FoldShares(order, mk, shares) == if NewTo(m, l) then Ok(After(mk, shares, l, m)) else Err(DuplicateShare)
    ensures NewTo(m, l) ==> Holds(order, After(mk, shares, l, m), InsertAll(m, l))
    decreases |shares|
  {
    hide AddShare, EncodeMap, Collected, ReadShare, ShareOk, WellKeyed, Power, Varints.Encode;
    if l != [] {
      var s := l[0];
      assert Contributes(order, shares[0], s);
      AddShareRefines(order, mk, shares[0], m, s);
      if s.id !in m {
        var m', mk' := m[s.id := s], Accumulated(mk, shares[0], s, m[s.id := s]);
        NewToCons(m, l);
        FoldRefines(order, mk', shares[1..], l[1..], m');
        AfterCons(mk, shares, l, m);
      }
    }
  }

  lemma AfterCons(mk: Multikey, shares: seq<Multikey>, l: seq<KeyShare>, m: ShareMap)
    requires |shares| == |l| && l != []
    ensures var s := l[0];
            After(mk, shares, l, m)
            == After(Accumulated(mk, shares[0], s, m[s.id := s]), shares[1..], l[1..], m[s.id := s])
  {
    hide EncodeMap, Varints.Encode;
    var s := l[0];
    assert InsertAll(m, l) == InsertAll(m[s.id := s], l[1..]);
    if |l| == 1 {
      assert l[1..] == [] && shares[1..] == [];
      assert InsertAll(m[s.id := s], []) == m[s.id := s];
      assert FirstComment(mk.comment, shares) == Accumulated(mk, shares[0], s, m[s.id := s]).comment;
    } else {
      assert l[1..][|l| - 2] == l[|l| - 1];
    }
  }

  /** Order independence: two orders of the same shares, collected from nothing, store identical
      bytes, and give equal keys exactly when the last shares agree on threshold and limit and the
      first comments agree. */
  lemma OrderIndependent(
    order: Positive, mk: Multikey, shares: seq<Multikey>, shares': seq<Multikey>, l: seq<KeyShare>, l': seq<KeyShare>)
    requires OrderOk(order) && mk.codec.BlsPriv? && ThresholdData !in mk.attributes
    requires ContributeAll(order, shares, l) && ContributeAll(order, shares', l')
    requires 0 < |l| == |l'| <= Varints.USIZE_MAX && DistinctShares(l) && DistinctShares(l')
    requires forall s: KeyShare :: s in l <==> s in l'
    ensures var r, r' := FoldShares(order, mk, shares), FoldShares(order, mk, shares');
            && r.Ok? && r'.Ok? && ThresholdData in r.value.attributes && ThresholdData in r'.value.attributes
            && r.value.attributes[ThresholdData] == r'.value.attributes[ThresholdData]
            && (r == r' <==>
                 && FirstComment(mk.comment, shares) == FirstComment(mk.comment, shares')
                 && l[|l| - 1].threshold == l'[|l| - 1].threshold && l[|l| - 1].limit == l'[|l| - 1].limit)
  {
    hide FoldShares, EncodeMap, ReadShare, ShareOk, WellKeyed, Power, Varints.Encode, InsertAll, FirstComment;
    assert WellKeyed(order, map[]) by { NothingWellKeyed(order); }
    FoldRefines(order, mk, shares, l, map[]);
    FoldRefines(order, mk, shares', l', map[]);
    InsertAllOrder(l, l');
    var k, k' := l[|l| - 1], l'[|l| - 1];
    EncodeInjective(k.threshold, k'.threshold);
    EncodeInjective(k.limit, k'.limit);
    var a, a' := After(mk, shares, l, map[]).attributes, After(mk, shares', l', map[]).attributes;
    assert a[Threshold] == Varints.Encode(k.threshold) && a'[Threshold] == Varints.Encode(k'.threshold);
    assert a[Limit] == Varints.Encode(k.limit) && a'[Limit] == Varints.Encode(k'.limit);
  }

  lemma NothingWellKeyed(order: Positive)
    ensures WellKeyed(order, map[])
  {}

  lemma EncodeInjective(m: nat, n: nat)
    ensures Varints.Encode(m) == Varints.Encode(n) <==> m == n
  {
    Varints.ParseEncode(m, []);
    Varints.ParseEncode(n, []);
    assert Varints.Encode(m) + [] == Varints.Encode(m) && Varints.Encode(n) + [] == Varints.Encode(n);
  }

  // ---- split, collect, combine ----

  /** `point` is the point that the stored share stands for. */
  predicate IsPoint(order: Positive, s: KeyShare, point: Share) {
    ScalarFromBytes(order, s.data) == Ok(point.value) && s.id == point.id
  }

  lemma {:induction false} PointsOfEach(order: Positive, l: seq<KeyShare>, points: seq<Share>)
    ensures PointsOfShares(order, l) == Ok(points) <==>
            |l| == |points| && forall i :: 0 <= i < |l| ==> IsPoint(order, l[i], points[i])
    decreases |l|
  {
    hide ScalarFromBytes;
    if l == [] {
    } else if points == [] {
    } else {
      PointsOfEach(order, l[1..], points[1..]);
      assert points == [points[0]] + points[1..];
    }
  }

  /** The stored form of a share of the polynomial. */
  function StoredShare(order: Positive, p: seq<int>, t: nat, n: nat, id: nat): KeyShare {
    var v := Eval(Modulo(order), p, id);
    KeyShare(id, t, n, ToBig(if v >= 0 then v else 0, SECRET_KEY_BYTES))
  }

  lemma StoredValue(order: Positive, p: seq<int>, t: nat, n: nat, id: nat)
    requires OrderOk(order) && 0 < id < order && t <= n <= Varints.USIZE_MAX
    ensures var s := StoredShare(order, p, t, n, id);
            && ShareOk(order, s) && 0 <= Eval(Modulo(order), p, id) < order
            && ScalarFromBytes(order, s.data) == Ok(Eval(Modulo(order), p, id))
  {
    hide Modulo, Eval, ToBig, Power;
    ModuloLawful(order);
    EvalHas(Modulo(order), p, id);
    ScalarBytesExact(order, StoredShare(order, p, t, n, id).data, Eval(Modulo(order), p, id));
  }

  /** What the i-th share of a split contributes. */
  lemma SplitContributes(order: Positive, mk: Multikey, t: nat, n: nat, coins: Coins, i: nat)
    requires OrderOk(order) && mk.codec.BlsPriv? && Split(order, mk, t, n, coins).Ok?
    requires i < n < order && n <= Varints.USIZE_MAX
    ensures SecretBytes(mk).Ok? && |SecretBytes(mk).value| >= SECRET_KEY_BYTES
    ensures var secret := ScalarFromBytes(order, SecretBytes(mk).value[..SECRET_KEY_BYTES]);
            secret.Ok? && 2 <= t <= n
            && Contributes(order, Split(order, mk, t, n, coins).value[i],
                 StoredShare(order, Coefficients(order, secret.value, t, coins), t, n, i + 1))
            && Split(order, mk, t, n, coins).value[i].comment == mk.comment
  {
    hide Modulo, Eval, ToBig, Power, ScalarFromBytes, Varints.Encode, Varints.Decode;
    var secret := ScalarFromBytes(order, SecretBytes(mk).value[..SECRET_KEY_BYTES]).value;
    var p := Coefficients(order, secret, t, coins);
    StoredValue(order, p, t, n, i + 1);
    var share := Split(order, mk, t, n, coins).value[i];
    var v := Eval(Modulo(order), p, i + 1);
    assert share == ShareKey(mk, t, n, Share(i + 1, v));
    Varints.DecodeExact(Varints.Encode(t), Varints.USIZE_MAX, t, []);
    Varints.DecodeExact(Varints.Encode(n), Varints.USIZE_MAX, n, []);
    assert Varints.Encode(t) + [] == Varints.Encode(t) && Varints.Encode(n) + [] == Varints.Encode(n);
    ScalarBytesExact(order, ToBig(i + 1, SECRET_KEY_BYTES), i + 1);
  }

  /** The point of the polynomial at the i-th key of the map. */
  function PointAt(order: Positive, p: seq<int>, m: ShareMap, i: nat): Share
    requires i < |KeysInOrder(m)|
  {
    Share(KeysInOrder(m)[i], Eval(Modulo(order), p, KeysInOrder(m)[i]))
  }

  lemma StoredPoint(order: Positive, p: seq<int>, t: nat, n: nat, m: ShareMap, i: nat)
    requires OrderOk(order) && t <= n < order && n <= Varints.USIZE_MAX && i < |m|
    requires forall id :: id in m ==> 0 < id <= n && m[id] == StoredShare(order, p, t, n, id)
    ensures i < |InOrder(m)| && IsPoint(order, InOrder(m)[i], PointAt(order, p, m, i)) && 0 < KeysInOrder(m)[i] < order
  {
    hide Modulo, Eval, ToBig, Power, ScalarFromBytes, StoredShare, KeysInOrder, ValuesAt;
    var id := KeysInOrder(m)[i];
    assert id in m && InOrder(m)[i] == m[id];
    StoredValue(order, p, t, n, id);
    StoredId(order, p, t, n, id);
  }

  /** A map of stored shares of one polynomial gives distinct points of it. */
  lemma StoredPoints(order: Positive, p: seq<int>, t: nat, n: nat, m: ShareMap) returns (points: seq<Share>)
    requires OrderOk(order) && 2 <= t <= |m| && t <= n < order && n <= Varints.USIZE_MAX
    requires forall id :: id in m ==> 0 < id <= n && m[id] == StoredShare(order, p, t, n, id)
    ensures PointsOfShares(order, InOrder(m)) == Ok(points) && |points| == |m|
    ensures Usable(Modulo(order), points) && OnPolynomial(Modulo(order), p, points)
  {
    hide Modulo, Eval, StoredShare, KeysInOrder, IsPoint, InOrder, OrderOk, PointsOfShares, Usable, OnPolynomial;
    InOrderLength(m);
    points := seq(|m|, i requires 0 <= i < |m| => PointAt(order, p, m, i));
    forall i | 0 <= i < |m|
      ensures IsPoint(order, InOrder(m)[i], points[i]) && 0 < KeysInOrder(m)[i] < order
    {
      StoredPoint(order, p, t, n, m, i);
    }
    PointsOfEach(order, InOrder(m), points);
    PointsUsable(order, p, m, points);
  }

  lemma PointsUsable(order: Positive, p: seq<int>, m: ShareMap, points: seq<Share>)
    requires 2 <= |m| == |points| && forall i :: 0 <= i < |m| ==> points[i] == PointAt(order, p, m, i)
    requires forall i :: 0 <= i < |m| ==> 0 < KeysInOrder(m)[i] < order
    ensures Usable(Modulo(order), points) && OnPolynomial(Modulo(order), p, points)
  {
    hide Eval, KeysInOrder;
    assert Ids(points) == KeysInOrder(m);
  }

  lemma InOrderLength(m: ShareMap)
    ensures |InOrder(m)| == |m|
  {}

  /** If there are no fewer of them than coefficients, they combine to the secret. */
  lemma StoredRecover(order: Positive, p: seq<int>, t: nat, n: nat, m: ShareMap)
    requires OrderOk(order) && Modulo(order).HasAll(p)
    requires 2 <= t == |p| <= |m| && t <= n < order && n <= Varints.USIZE_MAX
    requires forall id :: id in m ==> 0 < id <= n && m[id] == StoredShare(order, p, t, n, id)
    ensures PointsOfShares(order, InOrder(m)).Ok?
    ensures Sharing.Combine(Modulo(order), PointsOfShares(order, InOrder(m)).value) == Ok(p[0])
  {
    hide Modulo, PointsOfShares, StoredShare, InOrder, Sharing.Combine, LawsAt;
    var points := StoredPoints(order, p, t, n, m);
    ModuloLawful(order);
    Recovery(Modulo(order), p, points);
  }

  lemma StoredId(order: Positive, p: seq<int>, t: nat, n: nat, id: nat)
    ensures StoredShare(order, p, t, n, id).id == id
  {}

  /** The first 32 bytes of a key, which are all that a split uses. */
  function SplitBytes(mk: Multikey): Data
    requires SecretBytes(mk).Ok? && |SecretBytes(mk).value| >= SECRET_KEY_BYTES
  {
    SecretBytes(mk).value[..SECRET_KEY_BYTES]
  }

  /** The polynomial of a split. */
  function SplitPolynomial(order: Positive, mk: Multikey, t: nat, coins: Coins): seq<int>
    requires SecretBytes(mk).Ok? && |SecretBytes(mk).value| >= SECRET_KEY_BYTES
    requires ScalarFromBytes(order, SplitBytes(mk)).Ok? && t > 0
  {
    Coefficients(order, ScalarFromBytes(order, SplitBytes(mk)).value, t, coins)
  }

  /** What the selected shares contribute. */
  lemma SelectedContribute(order: Positive, mk: Multikey, t: nat, n: nat, coins: Coins, sel: seq<nat>)
    returns (p: seq<int>, l: seq<KeyShare>)
    requires OrderOk(order) && mk.codec.BlsPriv? && Split(order, mk, t, n, coins).Ok?
    requires n < order && n <= Varints.USIZE_MAX && Selection(sel, 1, n)
    ensures SecretBytes(mk).Ok? && |SecretBytes(mk).value| >= SECRET_KEY_BYTES && 2 <= t <= n
    ensures ScalarFromBytes(order, SplitBytes(mk)).Ok? && p == SplitPolynomial(order, mk, t, coins)
    ensures var shares := Pick(Split(order, mk, t, n, coins).value, sel);
            && ContributeAll(order, shares, l) && forall j :: 0 <= j < |shares| ==> shares[j].comment == mk.comment
    ensures forall j :: 0 <= j < |l| ==> l[j] == StoredShare(order, p, t, n, sel[j] + 1) && l[j].id == sel[j] + 1
  {
    hide ReadShare, ShareOk, Power, StoredShare, Split, ScalarFromBytes, SecretBytes, Coefficients;
    SplitContributes(order, mk, t, n, coins, sel[0]);
    p := SplitPolynomial(order, mk, t, coins);
    l := seq(|sel|, j requires 0 <= j < |sel| => StoredShare(order, p, t, n, sel[j] + 1));
    var shares := Pick(Split(order, mk, t, n, coins).value, sel);
    forall j | 0 <= j < |sel|
      ensures Contributes(order, shares[j], l[j]) && l[j].id == sel[j] + 1 && shares[j].comment == mk.comment
    {
      SplitContributes(order, mk, t, n, coins, sel[j]);
      StoredId(order, p, t, n, sel[j] + 1);
    }
  }

  /** What a selection of the shares of a split leaves in a fresh accumulator. */
  lemma CollectSplit(
    order: Positive, mk: Multikey, t: nat, n: nat, coins: Coins, acc: Multikey, sel: seq<nat>)
    returns (p: seq<int>, m: ShareMap)
    requires OrderOk(order) && mk.codec.BlsPriv? && Split(order, mk, t, n, coins).Ok?
    requires n < order && n <= Varints.USIZE_MAX && Selection(sel, 1, n)
    requires acc.codec == mk.codec && ThresholdData !in acc.attributes
    requires acc.comment == [] || acc.comment == mk.comment
    ensures SecretBytes(mk).Ok? && |SecretBytes(mk).value| >= SECRET_KEY_BYTES && 2 <= t <= n
    ensures ScalarFromBytes(order, SplitBytes(mk)).Ok? && p == SplitPolynomial(order, mk, t, coins)
    ensures forall id :: id in m ==> 0 < id <= n && m[id] == StoredShare(order, p, t, n, id)
    ensures |m| == |sel|
    ensures var r := FoldShares(order, acc, Pick(Split(order, mk, t, n, coins).value, sel));
            && r.Ok? && r.value.codec == mk.codec && r.value.comment == mk.comment
            && Holds(order, r.value, m) && ThresholdOf(r.value) == Ok(t)
  {
    hide FoldShares, EncodeMap, ReadShare, ShareOk, Power, Varints.Encode, Varints.Decode, InsertAll, StoredShare;
    hide Split, ScalarFromBytes, SecretBytes, Coefficients, FirstComment, Collected, ThresholdOf, After, WellKeyed;
    hide SplitPolynomial;
    var l;
    p, l := SelectedContribute(order, mk, t, n, coins, sel);
    var shares := Pick(Split(order, mk, t, n, coins).value, sel);
    NothingWellKeyed(order);
    NothingCollected(order, acc);
    DistinctBelow(sel, n);
    m := InsertAll(map[], l);
    StoredMap(order, p, t, n, sel, l);
    FoldRefines(order, acc, shares, l, map[]);
    SameComment(acc.comment, shares, mk.comment);
    StoredThreshold(order, p, t, n, sel[|sel| - 1] + 1);
    AfterThreshold(acc, shares, l, map[]);
  }

  lemma StoredMap(order: Positive, p: seq<int>, t: nat, n: nat, sel: seq<nat>, l: seq<KeyShare>)
    requires Selection(sel, 1, n) && |l| == |sel|
    requires forall j :: 0 <= j < |l| ==> l[j] == StoredShare(order, p, t, n, sel[j] + 1) && l[j].id == sel[j] + 1
    ensures NewTo(map[], l) && |InsertAll(map[], l)| == |l|
    ensures forall id :: id in InsertAll(map[], l) ==>
              0 < id <= n && InsertAll(map[], l)[id] == StoredShare(order, p, t, n, id)
  {
    hide InsertAll, StoredShare;
    var m := InsertAll(map[], l);
    InsertAllContents(map[], l);
    forall id | id in m
      ensures 0 < id <= n && m[id] == StoredShare(order, p, t, n, id)
    {
      assert m[id] in l;
      var j :| 0 <= j < |l| && l[j] == m[id];
    }
  }

  lemma NothingCollected(order: Positive, mk: Multikey)
    requires ThresholdData !in mk.attributes
    ensures Collected(order, mk) == Ok(map[])
  {}

  lemma StoredThreshold(order: Positive, p: seq<int>, t: nat, n: nat, id: nat)
    ensures StoredShare(order, p, t, n, id).threshold == t && StoredShare(order, p, t, n, id).limit == n
  {}

  lemma SameComment(comment: Data, shares: seq<Multikey>, c: Data)
    requires shares != [] && (comment == [] || comment == c)
    requires forall j :: 0 <= j < |shares| ==> shares[j].comment == c
    ensures FirstComment(comment, shares) == c
    decreases |shares|
  {
    if comment == [] && |shares| > 1 { SameComment(shares[0].comment, shares[1..], c); }
  }

  lemma AfterThreshold(mk: Multikey, shares: seq<Multikey>, l: seq<KeyShare>, m: ShareMap)
    requires |shares| == |l| && l != [] && mk.codec.BlsPriv?
    requires l[|l| - 1].threshold <= Varints.USIZE_MAX && l[|l| - 1].limit <= Varints.USIZE_MAX
    ensures ThresholdOf(After(mk, shares, l, m)) == Ok(l[|l| - 1].threshold)
    ensures LimitOf(After(mk, shares, l, m)) == Ok(l[|l| - 1].limit)
    ensures After(mk, shares, l, m).codec == mk.codec
    ensures After(mk, shares, l, m).comment == FirstComment(mk.comment, shares)
  {
    hide EncodeMap, Varints.Encode, Varints.Decode;
    var t, n := l[|l| - 1].threshold, l[|l| - 1].limit;
    Varints.DecodeExact(Varints.Encode(t), Varints.USIZE_MAX, t, []);
    Varints.DecodeExact(Varints.Encode(n), Varints.USIZE_MAX, n, []);
    assert Varints.Encode(t) + [] == Varints.Encode(t) && Varints.Encode(n) + [] == Varints.Encode(n);
  }

  /** A comment in the code says that the threshold and limit recorded are those of the first share.
      They are exactly if the last share has the same ones. */
  lemma RecordsFirstExactly(
    order: Positive, mk: Multikey, shares: seq<Multikey>, l: seq<KeyShare>, m: ShareMap)
    requires OrderOk(order) && Holds(order, mk, m) && ContributeAll(order, shares, l)
    requires l != [] && NewTo(m, l) && |m| + |l| <= Varints.USIZE_MAX
    ensures var r := FoldShares(order, mk, shares);
            r.Ok? && (ThresholdOf(r.value) == Ok(l[0].threshold) && LimitOf(r.value) == Ok(l[0].limit)
                      <==> l[|l| - 1].threshold == l[0].threshold && l[|l| - 1].limit == l[0].limit)
  {
    hide FoldShares, After, ThresholdOf, LimitOf, Collected, WellKeyed, ReadShare;
    FoldRefines(order, mk, shares, l, m);
    assert Contributes(order, shares[|l| - 1], l[|l| - 1]);
    AfterThreshold(mk, shares, l, m);
  }

  lemma DistinctBelow(sel: seq<nat>, n: nat)
    requires Distinct(sel) && forall j :: 0 <= j < |sel| ==> sel[j] < n
    ensures |sel| <= n
    decreases n
  {
    if sel == [] {
      return;
    }
    assert sel[0] < n;
    if exists j :: 0 <= j < |sel| && sel[j] == n - 1 {
      var j :| 0 <= j < |sel| && sel[j] == n - 1;
      DistinctBelow(sel[..j] + sel[j + 1..], n - 1);
    } else {
      DistinctBelow(sel, n - 1);
    }
  }

  /** Splitting, collecting any shares in any order into a fresh accumulator, and combining: below the
      threshold there are not enough shares; from the threshold on the result carries the original
      codec and comment and the first 32 bytes of the original secret. */
  lemma SplitCollectCombine(
    order: Positive, mk: Multikey, t: nat, n: nat, coins: Coins, acc: Multikey, sel: seq<nat>)
    requires OrderOk(order) && mk.codec.BlsPriv? && Split(order, mk, t, n, coins).Ok?
    requires n < order && n <= Varints.USIZE_MAX && Selection(sel, 1, n)
    requires acc.codec == mk.codec && ThresholdData !in acc.attributes
    requires acc.comment == [] || acc.comment == mk.comment
    ensures var r := FoldShares(order, acc, Pick(Split(order, mk, t, n, coins).value, sel));
            && r.Ok? && SecretBytes(mk).Ok? && |SecretBytes(mk).value| >= SECRET_KEY_BYTES
            && BlsShares.Combine(order, r.value) == if |sel| < t then Err(NotEnoughShares)
                                          else Ok(Multikey(mk.codec, mk.comment, map[KeyData := SplitBytes(mk)]))
  {
    hide FoldShares, EncodeMap, ReadShare, ShareOk, Power, Varints.Encode, Varints.Decode, StoredShare, Split;
    hide ScalarFromBytes, SecretBytes, Coefficients, Collected, ToBig, WellKeyed, PointsOfShares, InOrder;
    hide Sharing.Combine, Modulo;
    var p, m := CollectSplit(order, mk, t, n, coins, acc, sel);
    if |sel| >= t {
      var secret := ScalarFromBytes(order, SplitBytes(mk)).value;
      ScalarBytesExact(order, SplitBytes(mk), secret);
      Remainder(secret, 0, secret, order);
      CoefficientsHas(order, secret, t, coins, Modulo(order));
      StoredRecover(order, p, t, n, m);
    }
  }

  /** From the threshold on, the result equals the original key exactly when that held a 32-byte
      secret and no attribute besides it. */
  lemma RestoresExactly(order: Positive, mk: Multikey, t: nat, n: nat, coins: Coins, acc: Multikey, sel: seq<nat>)
    requires OrderOk(order) && mk.codec.BlsPriv? && Split(order, mk, t, n, coins).Ok?
    requires n < order && n <= Varints.USIZE_MAX && Selection(sel, 1, n) && t <= |sel|
    requires acc.codec == mk.codec && ThresholdData !in acc.attributes
    requires acc.comment == [] || acc.comment == mk.comment
    ensures var r := FoldShares(order, acc, Pick(Split(order, mk, t, n, coins).value, sel));
            r.Ok? && KeyData in mk.attributes
            && (BlsShares.Combine(order, r.value) == Ok(mk)
                <==> mk.attributes.Keys == {KeyData} && |mk.attributes[KeyData]| == SECRET_KEY_BYTES)
  {
    hide FoldShares, BlsShares.Combine, Split, OrderOk;
    SplitCollectCombine(order, mk, t, n, coins, acc, sel);
    var bytes := mk.attributes[KeyData];
    assert SecretBytes(mk) == Ok(bytes);
    assert SplitBytes(mk) == bytes <==> |bytes| == SECRET_KEY_BYTES;
    if mk.attributes == map[KeyData := SplitBytes(mk)] {
      assert mk.attributes.Keys == {KeyData};
    }
    if mk.attributes.Keys == {KeyData} && |bytes| == SECRET_KEY_BYTES {
      assert mk.attributes == map[KeyData := SplitBytes(mk)];
    }
  }
}
