/** Feldman sharing of one curve's scalars in their byte form: the split, combine and verify triple
    that the key-splitting code instantiates for every curve. */
module FeldmanCurve {
  import opened Wrappers
  import opened Bytes
  import opened Fields
  import opened Polynomials
  import opened PrimeField
  import opened Sharing

  /** A curve: the prime order of its group, the form in which scalars are written, and the group
      with the encoding of its points. */
  datatype Curve<!G> = Curve(
    order: Positive, width: nat, littleEndian: bool,
    group: Group<G>, pointWidth: nat, encode: G -> Data, decode: Data -> Option<G>)

  ghost predicate CurveOk<G(!new)>(c: Curve<G>) {
    && IsPrime(c.order) && 255 < c.order <= Power(c.width)
    && Cyclic(Modulo(c.order), c.group)
    && (forall p: G :: |c.encode(p)| == c.pointWidth && c.decode(c.encode(p)) == Some(p))
  }

  /** Decode a canonical scalar. */
  function ScalarOf<G>(c: Curve<G>, bytes: Data): Result<nat> {
    if |bytes| != c.width then Err(WrongScalarLength)
    else
      var v := FromLittle(if c.littleEndian then bytes else Reversed(bytes));
      if v < c.order then Ok(v) else Err(NonCanonicalScalar)
  }

  function ReprOf<G>(c: Curve<G>, v: int): Data {
    var n: nat := v % c.order;
    if c.littleEndian then ToLittle(n, c.width) else ToBig(n, c.width)
  }

  /** Canonical scalar bytes are exactly the representations of the field's elements. */
  lemma ScalarExact<G(!new)>(c: Curve<G>, bytes: Data, v: nat)
    requires CurveOk(c)
    ensures ScalarOf(c, bytes) == Ok(v) <==> v < c.order && bytes == ReprOf(c, v)
  {
    if v < c.order {
      Remainder(v, 0, v, c.order);
      FromToLittle(v, c.width);
      BigRoundTrip(bytes, v, c.width);
      ToFromLittle(bytes);
    }
  }

  datatype Pair = Pair(id: Data, value: Data)

  datatype Dealt = Dealt(pairs: seq<Pair>, verifiers: seq<Data>)

  function Split<G>(c: Curve<G>, secret: int, t: nat, n: nat, coins: Coins): (d: Dealt)
    requires t > 0
    ensures |d.pairs| == n && |d.verifiers| == t
  {
    var p := Coefficients(c.order, secret, t, coins);
    var shares := Deal(Modulo(c.order), p, n);
    var points := Commit(c.group, p);
    Dealt(seq(n, i requires 0 <= i < n => Pair(ReprOf(c, shares[i].id), ReprOf(c, shares[i].value))),
          seq(t, i requires 0 <= i < t => c.encode(points[i])))
  }

  function ShareOf<G>(c: Curve<G>, pair: Pair): Result<Share> {
    var id :- ScalarOf(c, pair.id);
    var value :- ScalarOf(c, pair.value);
    Ok(Share(id, value))
  }

  function SharesOf<G>(c: Curve<G>, pairs: seq<Pair>): Result<seq<Share>> {
    if pairs == [] then Ok([])
    else
      var s :- ShareOf(c, pairs[0]);
      var rest :- SharesOf(c, pairs[1..]);
      Ok([s] + rest)
  }

  function Combine<G>(c: Curve<G>, pairs: seq<Pair>): Result<Data> {
    var shares :- SharesOf(c, pairs);
    var secret :- Sharing.Combine(Modulo(c.order), shares);
    Ok(ReprOf(c, secret))
  }

  function PointOf<G>(c: Curve<G>, b: Data): Result<G> {
    if |b| != c.pointWidth then Err(BadVerifierLength)
    else match c.decode(b)
         case None => Err(BadVerifier)
         case Some(p) => Ok(p)
  }

  function PointsOf<G>(c: Curve<G>, bs: seq<Data>): Result<seq<G>> {
    if bs == [] then Ok([])
    else
      var p :- PointOf(c, bs[0]);
      var rest :- PointsOf(c, bs[1..]);
      Ok([p] + rest)
  }

  function Verify<G(==)>(c: Curve<G>, pair: Pair, verifiers: seq<Data>): Result<()> {
    var share :- ShareOf(c, pair);
    var points :- PointsOf(c, verifiers);
    if Sharing.Verify(c.group, share, points) then Ok(()) else Err(FeldmanVerificationFailed)
  }

  // ---- decoding lists ----

  lemma {:induction false} SharesOfAll<G>(c: Curve<G>, pairs: seq<Pair>, shares: seq<Share>)
    ensures SharesOf(c, pairs) == Ok(shares) <==>
            |pairs| == |shares| && forall i :: 0 <= i < |pairs| ==> ShareOf(c, pairs[i]) == Ok(shares[i])
  {
    hide ShareOf;
    if pairs == [] {
    } else if shares == [] {
    } else {
      SharesOfAll(c, pairs[1..], shares[1..]);
      assert shares == [shares[0]] + shares[1..];
    }
  }

  lemma {:induction false} PointsOfAll<G>(c: Curve<G>, bs: seq<Data>, points: seq<G>)
    ensures PointsOf(c, bs) == Ok(points) <==>
            |bs| == |points| && forall i :: 0 <= i < |bs| ==> PointOf(c, bs[i]) == Ok(points[i])
  {
    hide PointOf;
    if bs == [] {
    } else if points == [] {
    } else {
      PointsOfAll(c, bs[1..], points[1..]);
      assert points == [points[0]] + points[1..];
    }
  }

  // ---- what the triple guarantees ----

  /** What the i-th pair of a split decodes to. */
  lemma DealtShare<G(!new)>(c: Curve<G>, secret: int, t: nat, n: nat, coins: Coins, i: nat)
    requires CurveOk(c) && t > 0 && i < n <= 255 && 0 <= secret < c.order
    ensures ShareOf(c, Split(c, secret, t, n, coins).pairs[i])
         == Ok(Share(i + 1, Eval(Modulo(c.order), Coefficients(c.order, secret, t, coins), i + 1)))
  {
    hide Modulo, LawsAt, Eval, ScalarOf, ReprOf;
    var k, p := Modulo(c.order), Coefficients(c.order, secret, t, coins);
    ModuloLawful(c.order);
    EvalHas(k, p, i + 1);
    var d := Split(c, secret, t, n, coins);
    assert d.pairs[i] == Pair(ReprOf(c, i + 1), ReprOf(c, Eval(k, p, i + 1)));
    ScalarExact(c, d.pairs[i].id, i + 1);
    ScalarExact(c, d.pairs[i].value, Eval(k, p, i + 1));
  }

  lemma DealtPoints<G(!new)>(c: Curve<G>, secret: int, t: nat, n: nat, coins: Coins)
    requires CurveOk(c) && t > 0
    ensures PointsOf(c, Split(c, secret, t, n, coins).verifiers)
         == Ok(Commit(c.group, Coefficients(c.order, secret, t, coins)))
  {
    PointsOfAll(c, Split(c, secret, t, n, coins).verifiers, Commit(c.group, Coefficients(c.order, secret, t, coins)));
  }

  /** Every pair that a split emits passes verification against the emitted commitments. */
  lemma DealtVerifies<G(!new)>(c: Curve<G>, secret: int, t: nat, n: nat, coins: Coins, i: nat)
    requires CurveOk(c) && t > 0 && i < n <= 255 && 0 <= secret < c.order
    ensures var d := Split(c, secret, t, n, coins); Verify(c, d.pairs[i], d.verifiers) == Ok(())
  {
    var k, p := Modulo(c.order), Coefficients(c.order, secret, t, coins);
    ModuloLawful(c.order);
    CoefficientsHas(c.order, secret, t, coins, k);
    DealtShare(c, secret, t, n, coins, i);
    DealtPoints(c, secret, t, n, coins);
    EvalHas(k, p, i + 1);
    LogsOfCommit(k, c.group, p);
    VerifyMeaning(k, c.group, Share(i + 1, Eval(k, p, i + 1)), Commit(c.group, p));
  }

  /** Of all values written for one identifier, at most one passes against given commitments. */
  lemma VerifyBinds<G(!new)>(c: Curve<G>, id: Data, value: Data, value': Data, verifiers: seq<Data>)
    requires CurveOk(c)
    requires Verify(c, Pair(id, value), verifiers).Ok? && Verify(c, Pair(id, value'), verifiers).Ok?
    ensures value == value'
  {
    var k := Modulo(c.order);
    ModuloLawful(c.order);
    var share, share' := ShareOf(c, Pair(id, value)).value, ShareOf(c, Pair(id, value')).value;
    var points := PointsOf(c, verifiers).value;
    VerifyMeaning(k, c.group, share, points);
    VerifyMeaning(k, c.group, share', points);
    ScalarExact(c, value, share.value);
    ScalarExact(c, value', share'.value);
  }

  /** What a selection of the pairs decodes to. */
  lemma DealtShares<G(!new)>(c: Curve<G>, secret: int, t: nat, n: nat, coins: Coins, sel: seq<nat>)
    requires CurveOk(c) && t > 0 && n <= 255 && 0 <= secret < c.order && Selection(sel, 1, n)
    ensures SharesOf(c, Pick(Split(c, secret, t, n, coins).pairs, sel))
         == Ok(Pick(Deal(Modulo(c.order), Coefficients(c.order, secret, t, coins), n), sel))
  {
    hide Modulo, LawsAt, Eval, ShareOf, ReprOf, Split, Coefficients;
    var pairs := Pick(Split(c, secret, t, n, coins).pairs, sel);
    var shares := Pick(Deal(Modulo(c.order), Coefficients(c.order, secret, t, coins), n), sel);
    forall j | 0 <= j < |sel|
      ensures ShareOf(c, pairs[j]) == Ok(shares[j])
    {
      DealtShare(c, secret, t, n, coins, sel[j]);
    }
    SharesOfAll(c, pairs, shares);
  }

  lemma DealtUsable(k: Field, p: seq<int>, n: nat, sel: seq<nat>)
    requires Selection(sel, 1, n) && n < k.order
    ensures var shares := Pick(Deal(k, p, n), sel);
            && |shares| == |sel| && Ids(shares) == SelectedIds(sel) && k.HasAll(SelectedIds(sel))
            && OnPolynomial(k, p, shares) && (|sel| >= 2 ==> Usable(k, shares))
  {
    hide Eval;
  }

  /** Any selection of the pairs of a split: a single one is refused, and from two on they combine, to
      the secret's representation exactly when they leave nothing of it unreached. */
  lemma DealtExactly<G(!new)>(c: Curve<G>, secret: int, t: nat, n: nat, coins: Coins, sel: seq<nat>)
    requires CurveOk(c) && t > 0 && n <= 255 && 0 <= secret < c.order && Selection(sel, 1, n)
    ensures var combined := Combine(c, Pick(Split(c, secret, t, n, coins).pairs, sel));
            if |sel| == 1 then combined == Err(SharingMinThreshold)
            else combined.Ok? && (combined == Ok(ReprOf(c, secret)) <==> Reached(c, secret, t, coins, sel))
  {
    hide Modulo, Lawful, ReprOf, Split, Coefficients, Cyclic, Usable, OnPolynomial, Deal, Sharing.Combine, Unreached;
    var k, p := Modulo(c.order), Coefficients(c.order, secret, t, coins);
    var shares := Pick(Deal(k, p, n), sel);
    DealtShares(c, secret, t, n, coins, sel);
    DealtUsable(k, p, n, sel);
    if |sel| == 1 {
      OneIsTooFew(k, shares);
    } else {
      ModuloLawful(c.order);
      CoefficientsHas(c.order, secret, t, coins, k);
      CombinesExactly(k, p, shares);
      ReprInjective(c, Sharing.Combine(k, shares).value, secret);
    }
  }

  predicate Reached<G>(c: Curve<G>, secret: int, t: nat, coins: Coins, sel: seq<nat>)
    requires t > 0
  {
    Unreached(Modulo(c.order), Coefficients(c.order, secret, t, coins), SelectedIds(sel)) == 0
  }

  lemma OneIsTooFew(k: Field, shares: seq<Share>)
    requires |shares| == 1
    ensures Sharing.Combine(k, shares) == Err(SharingMinThreshold)
  {}

  /** From the threshold on everything is reached; one short of it, exactly if the last random
      coefficient is zero. */
  lemma ReachedByMany<G(!new)>(c: Curve<G>, secret: int, t: nat, n: nat, coins: Coins, sel: seq<nat>)
    requires CurveOk(c) && t > 0 && n <= 255 && 0 <= secret < c.order && Selection(sel, 1, n)
    ensures |sel| >= t ==> Reached(c, secret, t, coins, sel)
    ensures |sel| == t - 1 ==>
              (Reached(c, secret, t, coins, sel) <==> Coefficients(c.order, secret, t, coins)[t - 1] == 0)
  {
    hide Modulo, Lawful, Coefficients, Cyclic, Unreached, Usable, OnPolynomial, Deal;
    var k, p := Modulo(c.order), Coefficients(c.order, secret, t, coins);
    ModuloLawful(c.order);
    CoefficientsHas(c.order, secret, t, coins, k);
    DealtUsable(k, p, n, sel);
    UnreachedByMany(k, p, SelectedIds(sel));
  }

  /** Any `t` or more of the pairs, in any order, combine to the secret's representation. */
  lemma DealtRecovers<G(!new)>(c: Curve<G>, secret: int, t: nat, n: nat, coins: Coins, sel: seq<nat>)
    requires CurveOk(c) && 2 <= t && n <= 255 && 0 <= secret < c.order && Selection(sel, t, n)
    ensures Combine(c, Pick(Split(c, secret, t, n, coins).pairs, sel)) == Ok(ReprOf(c, secret))
  {
    hide ReprOf, Split, Combine, Reached, CurveOk;
    DealtExactly(c, secret, t, n, coins, sel);
    ReachedByMany(c, secret, t, n, coins, sel);
  }

  /** The first commitment of a split, which every share carries, stands for one secret only. */
  lemma CommitmentFixesSecret<G(!new)>(
    c: Curve<G>, secret: int, secret': int, t: nat, t': nat, n: nat, n': nat, coins: Coins, coins': Coins)
    requires CurveOk(c) && t > 0 && t' > 0 && 0 <= secret < c.order && 0 <= secret' < c.order
    requires Split(c, secret, t, n, coins).verifiers[0] == Split(c, secret', t', n', coins').verifiers[0]
    ensures secret == secret'
  {
    hide LawsAt, Deal, ReprOf, Eval;
    var base, k := c.group.base, Modulo(c.order);
    var point, point' := c.group.scale(secret, base), c.group.scale(secret', base);
    assert c.encode(point) == c.encode(point');
    assert c.decode(c.encode(point)) == Some(point) && c.decode(c.encode(point')) == Some(point');
    assert c.group.log(point) == k.mul(secret, 1) && c.group.log(point') == k.mul(secret', 1);
    Remainder(secret, 0, secret, c.order);
    Remainder(secret', 0, secret', c.order);
  }

  lemma ReprInjective<G(!new)>(c: Curve<G>, u: int, v: int)
    requires CurveOk(c) && 0 <= u < c.order && 0 <= v < c.order
    ensures ReprOf(c, u) == ReprOf(c, v) <==> u == v
  {
    hide ReprOf, ScalarOf, Cyclic;
    ScalarExact(c, ReprOf(c, u), u);
    ScalarExact(c, ReprOf(c, u), v);
  }

  /** A pair that passes stands for a share that passes against the points of the commitments. */
  lemma VerifiedShare<G(!new)>(c: Curve<G>, pair: Pair, verifiers: seq<Data>)
    requires Verify(c, pair, verifiers).Ok?
    ensures ShareOf(c, pair).Ok? && PointsOf(c, verifiers).Ok?
    ensures Sharing.Verify(c.group, ShareOf(c, pair).value, PointsOf(c, verifiers).value)
    ensures 0 <= ShareOf(c, pair).value.id < c.order && 0 <= ShareOf(c, pair).value.value < c.order
  {}

  /** If pairs that combine all pass against one set of at most as many commitments, the result is
      the scalar committed to by the first commitment, whatever values the pairs carry. */
  lemma CombineSound<G(!new)>(c: Curve<G>, pairs: seq<Pair>, verifiers: seq<Data>) returns (s: nat)
    requires CurveOk(c) && 0 < |verifiers| <= |pairs|
    requires forall i :: 0 <= i < |pairs| ==> Verify(c, pairs[i], verifiers).Ok?
    requires Combine(c, pairs).Ok?
    ensures s < c.order && Combine(c, pairs) == Ok(ReprOf(c, s))
    ensures PointOf(c, verifiers[0]) == Ok(c.group.scale(s, c.group.base))
  {
    hide Modulo, Lawful, Cyclic, Lagrange, ReprOf, ShareOf, PointOf, Sharing.Verify, Verify;
    var k := Modulo(c.order);
    ModuloLawful(c.order);
    VerifiedShare(c, pairs[0], verifiers);
    var shares, points := SharesOf(c, pairs).value, PointsOf(c, verifiers).value;
    SharesOfAll(c, pairs, shares);
    PointsOfAll(c, verifiers, points);
    forall i | 0 <= i < |shares|
      ensures Sharing.Verify(c.group, shares[i], points) && k.Has(shares[i].id) && k.Has(shares[i].value)
    {
      VerifiedShare(c, pairs[i], verifiers);
    }
    FeldmanSound(k, c.group, shares, points);
    s := Sharing.Combine(k, shares).value;
  }
}
