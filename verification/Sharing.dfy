/** Secret sharing over a field as the `vsss_rs` crate provides it to the key-splitting code:
    Shamir's scheme, and Feldman's commitments on top of it. That crate is not part of the
    repository; this module is the textbook scheme it implements. */
module Sharing {
  import opened Wrappers
  import opened Fields
  import opened Polynomials

  datatype Share = Share(id: int, value: int)

  function Ids(shares: seq<Share>): (r: seq<int>)
    ensures |r| == |shares| && forall i :: 0 <= i < |r| ==> r[i] == shares[i].id
  {
    seq(|shares|, i requires 0 <= i < |shares| => shares[i].id)
  }

  function Values(shares: seq<Share>): (r: seq<int>)
    ensures |r| == |shares| && forall i :: 0 <= i < |r| ==> r[i] == shares[i].value
  {
    seq(|shares|, i requires 0 <= i < |shares| => shares[i].value)
  }

  /** The shares of the polynomial with the given coefficients, secret first, at 1, 2, ..., n. */
  function Deal(k: Field, coefficients: seq<int>, n: nat): (r: seq<Share>)
    ensures |r| == n
    ensures forall i :: 0 <= i < n ==> r[i] == Share(i + 1, Eval(k, coefficients, i + 1))
  {
    seq(n, i requires 0 <= i < n => Share(i + 1, Eval(k, coefficients, i + 1)))
  }

  type Positive = n: int | n > 0 witness 1

  /** The random coefficients of a split, as numbers to be reduced. */
  type Coins = nat -> nat

  /** The polynomial of a split: the secret and `t - 1` random coefficients. */
  function Coefficients(order: Positive, secret: int, t: nat, coins: Coins): (p: seq<int>)
    requires t > 0
    ensures |p| == t && p[0] == secret
  {
    [secret] + seq(t - 1, i requires 0 <= i < t - 1 => coins(i) % order)
  }

  lemma CoefficientsHas(order: Positive, secret: int, t: nat, coins: Coins, k: Field)
    requires t > 0 && 0 <= secret < order && k.order == order
    ensures k.HasAll(Coefficients(order, secret, t, coins))
  {}

  /** A selection of at least `t` distinct positions below `n`. */
  ghost predicate Selection(sel: seq<nat>, t: nat, n: nat) {
    |sel| >= t && Distinct(sel) && forall j :: 0 <= j < |sel| ==> sel[j] < n
  }

  function Pick<T>(s: seq<T>, sel: seq<nat>): (r: seq<T>)
    requires forall j :: 0 <= j < |sel| ==> sel[j] < |s|
    ensures |r| == |sel| && forall j :: 0 <= j < |r| ==> r[j] == s[sel[j]]
  {
    seq(|sel|, j requires 0 <= j < |sel| => s[sel[j]])
  }

  /** The identifiers of the shares at the selected positions. */
  function SelectedIds(sel: seq<nat>): (r: seq<int>)
    ensures |r| == |sel| && forall j :: 0 <= j < |r| ==> r[j] == sel[j] + 1
  {
    seq(|sel|, j requires 0 <= j < |sel| => sel[j] + 1)
  }

  /** The checks on the identifiers that precede every combination. */
  function CheckIds(ids: seq<int>): Result<()> {
    if |ids| < 2 then Err(SharingMinThreshold)
    else if 0 in ids then Err(SharingInvalidIdentifier)
    else if !Distinct(ids) then Err(SharingDuplicateIdentifier)
    else Ok(())
  }

  function Combine(k: Field, shares: seq<Share>): Result<int> {
    var _ :- CheckIds(Ids(shares));
    Ok(Lagrange(k, Ids(shares), Values(shares), 0))
  }

  /** Shares that can be combined at all: at least two, at distinct non-zero field elements. */
  ghost predicate Usable(k: Field, shares: seq<Share>) {
    |shares| >= 2 && k.HasAll(Ids(shares)) && 0 !in Ids(shares) && Distinct(Ids(shares))
  }

  ghost predicate OnPolynomial(k: Field, coefficients: seq<int>, shares: seq<Share>) {
    forall i :: 0 <= i < |shares| ==> shares[i].value == Eval(k, coefficients, shares[i].id)
  }

  /** What is left of a polynomial at zero after division by the identifiers: the part of the secret
      that their shares do not reach. */
  function Unreached(k: Field, coefficients: seq<int>, ids: seq<int>): int {
    Eval(k, RootQuotient(k, coefficients, ids), 0)
  }

  /** Shares of one polynomial, however many, combine to its secret exactly when nothing of it is left
      unreached. */
  lemma CombinesExactly(k: Field, coefficients: seq<int>, shares: seq<Share>)
    requires Lawful(k) && k.HasAll(coefficients) && coefficients != []
    requires Usable(k, shares) && OnPolynomial(k, coefficients, shares)
    ensures Combine(k, shares).Ok? && k.Has(Combine(k, shares).value)
    ensures Combine(k, shares) == Ok(coefficients[0]) <==> Unreached(k, coefficients, Ids(shares)) == 0
  {
    hide RootQuotient, Lagrange, Differences, LawsAt;
    var xs, ys := Ids(shares), Values(shares);
    var l, d, u := Lagrange(k, xs, ys, 0), Differences(k, xs, 0), Unreached(k, coefficients, xs);
    InterpolationError(k, coefficients, xs, ys, 0);
    EvalAtZero(k, coefficients);
    LagrangeHas(k, xs, ys, 0);
    DifferencesZero(k, xs, 0);
    EvalHas(k, RootQuotient(k, coefficients, xs), 0);
    Cancels(k, l, d, u);
  }

  /** l + du == l exactly when u == 0. */
  lemma Cancels(k: Field, l: int, d: int, u: int)
    requires Lawful(k) && k.Has(l) && k.Has(d) && k.Has(u) && d != 0
    ensures k.add(l, k.mul(d, u)) == l <==> u == 0
  {
    Laws(k, l, 0, 0);
    Laws(k, l, k.mul(d, u), 0);
    Laws(k, d, u, 0);
    MulZero(k, d);
    if k.add(l, k.mul(d, u)) == l {
      AddCancel(k, k.mul(d, u), 0, l);
      NoZeroDivisors(k, d, u);
    }
  }

  /** Nothing is left unreached by as many shares as coefficients; by one less, the leading one. */
  lemma UnreachedByMany(k: Field, coefficients: seq<int>, ids: seq<int>)
    requires Lawful(k) && k.HasAll(coefficients) && k.HasAll(ids)
    ensures |ids| >= |coefficients| ==> Unreached(k, coefficients, ids) == 0
    ensures |ids| + 1 == |coefficients| ==> Unreached(k, coefficients, ids) == coefficients[|ids|]
  {
    var q := RootQuotient(k, coefficients, ids);
    if |ids| + 1 == |coefficients| {
      RootQuotientLeads(k, coefficients, ids);
      EvalConstant(k, q[0], 0);
      assert q == [q[0]];
    }
  }

  /** Any shares of one polynomial, no fewer than its coefficients, combine to its secret. */
  lemma Recovery(k: Field, coefficients: seq<int>, shares: seq<Share>)
    requires Lawful(k) && k.HasAll(coefficients) && coefficients != []
    requires Usable(k, shares) && |coefficients| <= |shares| && OnPolynomial(k, coefficients, shares)
    ensures Combine(k, shares) == Ok(coefficients[0])
  {
    CombinesExactly(k, coefficients, shares);
    UnreachedByMany(k, coefficients, Ids(shares));
  }

  /** One share short, combining still answers, and the answer is the secret exactly when the leading
      coefficient happened to be zero. */
  lemma OneShort(k: Field, coefficients: seq<int>, shares: seq<Share>)
    requires Lawful(k) && k.HasAll(coefficients) && |coefficients| == |shares| + 1
    requires Usable(k, shares) && OnPolynomial(k, coefficients, shares)
    ensures Combine(k, shares).Ok?
    ensures Combine(k, shares) == Ok(coefficients[0]) <==> coefficients[|shares|] == 0
  {
    CombinesExactly(k, coefficients, shares);
    UnreachedByMany(k, coefficients, Ids(shares));
  }

  lemma {:induction false} EvalPadded(k: Field, p: seq<int>, x: int)
    requires Lawful(k) && k.HasAll(p)
    ensures Eval(k, p + [0], x) == Eval(k, p, x)
  {
    if p == [] {
      MulZero(k, x);
      Laws(k, 0, 0, 0);
      assert ([] + [0])[1..] == [];
    } else {
      EvalPadded(k, p[1..], x);
      assert (p + [0])[1..] == p[1..] + [0];
    }
  }

  /** A polynomial filled up with zero coefficients. */
  lemma Padded(k: Field, p: seq<int>, length: nat) returns (q: seq<int>)
    requires Lawful(k) && k.HasAll(p) && |p| <= length
    ensures |q| == length && k.HasAll(q)
    ensures forall x: int :: Eval(k, q, x) == Eval(k, p, x)
  {
    hide Eval, LawsAt;
    q := p;
    while |q| < length
      invariant |q| <= length && k.HasAll(q)
      invariant forall x: int :: Eval(k, q, x) == Eval(k, p, x)
    {
      forall x: int
        ensures Eval(k, q + [0], x) == Eval(k, q, x)
      {
        EvalPadded(k, q, x);
      }
      q := q + [0];
    }
  }

  /** Fewer shares than the threshold fit every candidate secret: for each there is a polynomial with
      `threshold` coefficients that has this secret and exactly these shares. */
  lemma FitsEveryCandidate(k: Field, threshold: nat, shares: seq<Share>, candidate: int) returns (p: seq<int>)
    requires Lawful(k) && |shares| < threshold && k.Has(candidate)
    requires k.HasAll(Ids(shares)) && k.HasAll(Values(shares)) && 0 !in Ids(shares) && Distinct(Ids(shares))
    ensures |p| == threshold && k.HasAll(p) && p[0] == candidate
    ensures OnPolynomial(k, p, shares)
  {
    hide Eval, LawsAt;
    var xs, ys := [0] + Ids(shares), [candidate] + Values(shares);
    forall i, j | 0 <= i < j < |xs|
      ensures xs[i] != xs[j]
    {
      assert xs[j] == Ids(shares)[j - 1];
    }
    var short := Interpolable(k, xs, ys);
    assert Eval(k, short, xs[0]) == candidate;
    forall i | 0 <= i < |shares|
      ensures Eval(k, short, shares[i].id) == shares[i].value
    {
      assert xs[i + 1] == shares[i].id && ys[i + 1] == shares[i].value;
    }
    p := Padded(k, short, threshold);
    EvalAtZero(k, p);
  }

  // ---- Feldman commitments ----

  /** A group of prime order with its generator. The discrete logarithm exists, as in every cyclic
      group; no operation computes it. */
  datatype Group<!G> = Group(identity: G, base: G, op: (G, G) -> G, scale: (int, G) -> G, log: G -> int)

  ghost predicate Cyclic<G(!new)>(k: Field, g: Group<G>) {
    && g.log(g.base) == 1 && g.log(g.identity) == 0
    && (forall p: G :: k.Has(g.log(p)))
    && (forall p: G, q: G :: g.log(g.op(p, q)) == k.add(g.log(p), g.log(q)))
    && (forall a: int, p: G :: g.log(g.scale(a, p)) == k.mul(a, g.log(p)))
    && (forall p: G, q: G :: g.log(p) == g.log(q) ==> p == q)
  }

  function Commit<G>(g: Group<G>, coefficients: seq<int>): (r: seq<G>)
    ensures |r| == |coefficients|
    ensures forall i :: 0 <= i < |r| ==> r[i] == g.scale(coefficients[i], g.base)
  {
    seq(|coefficients|, i requires 0 <= i < |coefficients| => g.scale(coefficients[i], g.base))
  }

  /** The committed polynomial evaluated in the exponent. */
  function CommittedAt<G>(g: Group<G>, commitments: seq<G>, id: int): G {
    if commitments == [] then g.identity
    else g.op(commitments[0], g.scale(id, CommittedAt(g, commitments[1..], id)))
  }

  predicate Verify<G(==)>(g: Group<G>, share: Share, commitments: seq<G>) {
    g.scale(share.value, g.base) == CommittedAt(g, commitments, share.id)
  }

  ghost function Logs<G>(g: Group<G>, commitments: seq<G>): (r: seq<int>)
    ensures |r| == |commitments| && forall i :: 0 <= i < |r| ==> r[i] == g.log(commitments[i])
  {
    seq(|commitments|, i requires 0 <= i < |commitments| => g.log(commitments[i]))
  }

  lemma {:induction false} LogCommittedAt<G(!new)>(k: Field, g: Group<G>, commitments: seq<G>, id: int)
    requires Cyclic(k, g)
    ensures g.log(CommittedAt(g, commitments, id)) == Eval(k, Logs(g, commitments), id)
  {
    if commitments != [] {
      LogCommittedAt(k, g, commitments[1..], id);
      assert Logs(g, commitments)[1..] == Logs(g, commitments[1..]);
    }
  }

  /** A share passes exactly when it lies on the committed polynomial. */
  lemma VerifyMeaning<G(!new)>(k: Field, g: Group<G>, share: Share, commitments: seq<G>)
    requires Lawful(k) && Cyclic(k, g) && k.Has(share.value)
    ensures Verify(g, share, commitments) <==> share.value == Eval(k, Logs(g, commitments), share.id)
  {
    LogCommittedAt(k, g, commitments, share.id);
    Laws(k, share.value, 1, 0);
    assert g.log(g.scale(share.value, g.base)) == share.value;
  }

  lemma LogsOfCommit<G(!new)>(k: Field, g: Group<G>, coefficients: seq<int>)
    requires Lawful(k) && Cyclic(k, g) && k.HasAll(coefficients)
    ensures Logs(g, Commit(g, coefficients)) == coefficients
  {
    forall i | 0 <= i < |coefficients|
      ensures g.log(g.scale(coefficients[i], g.base)) == coefficients[i]
    {
      Laws(k, coefficients[i], 1, 0);
    }
  }

  /** If enough shares pass against one commitment set, whatever their values, combining yields the
      scalar that the first commitment commits to. */
  lemma FeldmanSound<G(!new)>(k: Field, g: Group<G>, shares: seq<Share>, commitments: seq<G>)
    requires Lawful(k) && Cyclic(k, g)
    requires Usable(k, shares) && k.HasAll(Values(shares)) && 0 < |commitments| <= |shares|
    requires forall i :: 0 <= i < |shares| ==> Verify(g, shares[i], commitments)
    ensures Combine(k, shares).Ok? && k.Has(Combine(k, shares).value)
    ensures g.scale(Combine(k, shares).value, g.base) == commitments[0]
  {
    var logs := Logs(g, commitments);
    forall i | 0 <= i < |shares|
      ensures shares[i].value == Eval(k, logs, shares[i].id)
    {
      assert k.Has(Values(shares)[i]);
      VerifyMeaning(k, g, shares[i], commitments);
    }
    Recovery(k, logs, shares);
    Laws(k, logs[0], 1, 0);
  }
}
