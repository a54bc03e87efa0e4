/** Sharing opaque byte strings over a field with 256 elements, one polynomial per byte. The field
    is the one of the sharing crate; only its laws are used. */
module ByteSharing {
  import opened Wrappers
  import opened Bytes
  import opened Fields
  import opened Polynomials
  import opened Sharing

  ghost predicate ByteField(k: Field) {
    Lawful(k) && k.order == 256
  }

  datatype Row = Row(id: Byte, value: Data)

  /** The random coefficient at a position of the secret and a degree. */
  type ByteCoins = (nat, nat) -> Byte

  function ByteCoefficients(secret: Byte, t: nat, j: nat, coins: ByteCoins): (p: seq<int>)
    requires t > 0
    ensures |p| == t && p[0] == secret && forall i :: 0 <= i < t ==> 0 <= p[i] < 256
  {
    [secret] + seq(t - 1, i requires 0 <= i < t - 1 => coins(j, i))
  }

  function ShareByte(k: Field, secret: Byte, t: nat, j: nat, coins: ByteCoins, id: int): Byte
    requires ByteField(k) && t > 0
  {
    EvalHas(k, ByteCoefficients(secret, t, j, coins), id);
    Eval(k, ByteCoefficients(secret, t, j, coins), id)
  }

  function Split(k: Field, secret: Data, t: nat, n: nat, coins: ByteCoins): (rows: seq<Row>)
    requires ByteField(k) && t > 0 && n <= 255
    ensures |rows| == n
    ensures forall i :: 0 <= i < n ==> rows[i].id == i + 1 && |rows[i].value| == |secret|
    ensures forall i, j :: 0 <= i < n && 0 <= j < |secret| ==>
              rows[i].value[j] == Eval(k, ByteCoefficients(secret[j], t, j, coins), i + 1)
  {
    seq(n, i requires 0 <= i < n =>
      Row(i + 1, seq(|secret|, j requires 0 <= j < |secret| => ShareByte(k, secret[j], t, j, coins, i + 1))))
  }

  function RowIds(rows: seq<Row>): (r: seq<int>)
    ensures |r| == |rows| && forall i :: 0 <= i < |r| ==> r[i] == rows[i].id
  {
    seq(|rows|, i requires 0 <= i < |rows| => rows[i].id)
  }

  predicate SameLength(rows: seq<Row>) {
    forall i :: 0 <= i < |rows| ==> |rows[i].value| == |rows[0].value|
  }

  /** The shares of the j-th byte. */
  function Column(rows: seq<Row>, j: nat): (r: seq<int>)
    requires SameLength(rows) && (rows != [] ==> j < |rows[0].value|)
    ensures |r| == |rows| && forall i :: 0 <= i < |r| ==> r[i] == rows[i].value[j]
  {
    seq(|rows|, i requires 0 <= i < |rows| => rows[i].value[j])
  }

  function CombineByte(k: Field, rows: seq<Row>, j: nat): Byte
    requires ByteField(k) && rows != [] && SameLength(rows) && j < |rows[0].value|
  {
    LagrangeHas(k, RowIds(rows), Column(rows, j), 0);
    Lagrange(k, RowIds(rows), Column(rows, j), 0)
  }

  function Combine(k: Field, rows: seq<Row>): Result<Data>
    requires ByteField(k)
  {
    var _ :- CheckIds(RowIds(rows));
    if !SameLength(rows) then Err(UnequalShareLengths)
    else Ok(seq(|rows[0].value|, j requires 0 <= j < |rows[0].value| => CombineByte(k, rows, j)))
  }

  /** The selected shares of every byte leave nothing of it unreached. */
  predicate Reached(k: Field, secret: Data, t: nat, coins: ByteCoins, sel: seq<nat>)
    requires t > 0
  {
    forall j :: 0 <= j < |secret| ==> ReachedAt(k, secret, t, coins, sel, j)
  }

  predicate ReachedAt(k: Field, secret: Data, t: nat, coins: ByteCoins, sel: seq<nat>, j: nat)
    requires t > 0 && j < |secret|
  {
    Unreached(k, ByteCoefficients(secret[j], t, j, coins), SelectedIds(sel)) == 0
  }

  /** The shares of one byte among the selected rows of a split. */
  lemma ByteShares(k: Field, secret: Data, t: nat, n: nat, coins: ByteCoins, sel: seq<nat>, j: nat)
    returns (shares: seq<Share>)
    requires ByteField(k) && t > 0 && n <= 255 && Selection(sel, 0, n) && j < |secret|
    ensures var rows := Pick(Split(k, secret, t, n, coins), sel);
            Ids(shares) == RowIds(rows) == SelectedIds(sel) && SameLength(rows) && (rows != [] ==> j < |rows[0].value|)
            && Values(shares) == Column(rows, j)
    ensures OnPolynomial(k, ByteCoefficients(secret[j], t, j, coins), shares)
    ensures k.HasAll(Ids(shares)) && k.HasAll(Values(shares)) && 0 !in Ids(shares) && Distinct(Ids(shares))
  {
    hide LawsAt, Eval, ByteCoefficients;
    var rows := Pick(Split(k, secret, t, n, coins), sel);
    shares := seq(|rows|, i requires 0 <= i < |rows| => Share(rows[i].id, rows[i].value[j]));
    assert RowIds(rows) == SelectedIds(sel);
    assert Ids(shares) == RowIds(rows) && Values(shares) == Column(rows, j);
    forall i | 0 <= i < |shares|
      ensures shares[i].value == Eval(k, ByteCoefficients(secret[j], t, j, coins), shares[i].id)
    {
      assert rows[i] == Split(k, secret, t, n, coins)[sel[i]];
    }
  }

  lemma ByteExactly(k: Field, secret: Data, t: nat, n: nat, coins: ByteCoins, sel: seq<nat>, j: nat)
    requires ByteField(k) && t > 0 && n <= 255 && Selection(sel, 2, n) && j < |secret|
    ensures CombineByte(k, Pick(Split(k, secret, t, n, coins), sel), j) == secret[j]
       <==> ReachedAt(k, secret, t, coins, sel, j)
  {
    hide LawsAt, Eval, ByteCoefficients, Lagrange, Unreached, OnPolynomial;
    var shares := ByteShares(k, secret, t, n, coins, sel, j);
    CombinesExactly(k, ByteCoefficients(secret[j], t, j, coins), shares);
  }

  /** Any selection of the rows of a split: a single one is refused, and from two on they combine, to
      the secret exactly when they leave nothing of any byte unreached. */
  lemma SplitExactly(k: Field, secret: Data, t: nat, n: nat, coins: ByteCoins, sel: seq<nat>)
    requires ByteField(k) && t > 0 && n <= 255 && Selection(sel, 1, n)
    ensures var combined := Combine(k, Pick(Split(k, secret, t, n, coins), sel));
            if |sel| == 1 then combined == Err(SharingMinThreshold)
            else combined.Ok? && (combined == Ok(secret) <==> Reached(k, secret, t, coins, sel))
  {
    hide LawsAt, Eval, ByteCoefficients, Lagrange, CombineByte, ReachedAt;
    var rows := Pick(Split(k, secret, t, n, coins), sel);
    assert |rows[0].value| == |secret|;
    if 1 < |sel| {
      forall j | 0 <= j < |secret|
        ensures CombineByte(k, rows, j) == secret[j] <==> ReachedAt(k, secret, t, coins, sel, j)
      {
        ByteExactly(k, secret, t, n, coins, sel, j);
      }
      var combined := Combine(k, rows).value;
      assert forall j :: 0 <= j < |secret| ==> combined[j] == CombineByte(k, rows, j);
      assert combined == secret <==> forall j :: 0 <= j < |secret| ==> combined[j] == secret[j];
    }
  }

  /** The last random coefficient of every byte is zero. */
  predicate TopVanishes(secret: Data, t: nat, coins: ByteCoins)
    requires t > 0
  {
    forall j :: 0 <= j < |secret| ==> ByteCoefficients(secret[j], t, j, coins)[t - 1] == 0
  }

  /** From the threshold on everything is reached; one short of it, exactly if the last random
      coefficients are zero. */
  lemma ReachedByMany(k: Field, secret: Data, t: nat, n: nat, coins: ByteCoins, sel: seq<nat>)
    requires ByteField(k) && t > 0 && n <= 255 && Selection(sel, 1, n)
    ensures |sel| >= t ==> Reached(k, secret, t, coins, sel)
    ensures |sel| == t - 1 ==> (Reached(k, secret, t, coins, sel) <==> TopVanishes(secret, t, coins))
  {
    hide LawsAt, ByteCoefficients, Unreached;
    forall j | 0 <= j < |secret|
      ensures |sel| >= t ==> ReachedAt(k, secret, t, coins, sel, j)
      ensures |sel| == t - 1 ==>
                (ReachedAt(k, secret, t, coins, sel, j) <==> ByteCoefficients(secret[j], t, j, coins)[t - 1] == 0)
    {
      UnreachedByMany(k, ByteCoefficients(secret[j], t, j, coins), SelectedIds(sel));
    }
  }

  /** Any `t` or more rows of a split, in any order, combine to the secret, byte for byte. */
  lemma SplitRecovers(k: Field, secret: Data, t: nat, n: nat, coins: ByteCoins, sel: seq<nat>)
    requires ByteField(k) && 2 <= t && n <= 255 && Selection(sel, t, n)
    ensures Combine(k, Pick(Split(k, secret, t, n, coins), sel)) == Ok(secret)
  {
    hide LawsAt, Split, Combine, Reached;
    SplitExactly(k, secret, t, n, coins, sel);
    ReachedByMany(k, secret, t, n, coins, sel);
  }

  // ---- secrecy ----

  /** A polynomial that deals the selected shares of the j-th byte for the candidate. */
  ghost predicate Explains(
    k: Field, secret: Data, candidate: Byte, t: nat, coins: ByteCoins, sel: seq<nat>, j: nat, p: seq<int>)
    requires t > 0 && j < |secret|
  {
    && |p| == t && k.HasAll(p) && p[0] == candidate
    && forall i :: 0 <= i < |sel| ==>
         Eval(k, p, sel[i] + 1) == Eval(k, ByteCoefficients(secret[j], t, j, coins), sel[i] + 1)
  }

  lemma Explained(
    k: Field, secret: Data, candidate: Byte, t: nat, n: nat, coins: ByteCoins, sel: seq<nat>, j: nat)
    requires ByteField(k) && n <= 255 && Selection(sel, 0, n) && |sel| < t && j < |secret|
    ensures exists p :: Explains(k, secret, candidate, t, coins, sel, j, p)
  {
    hide LawsAt, Eval, ByteCoefficients;
    var shares := ByteShares(k, secret, t, n, coins, sel, j);
    var p := FitsEveryCandidate(k, t, shares, candidate);
    forall i | 0 <= i < |sel|
      ensures Eval(k, p, sel[i] + 1) == Eval(k, ByteCoefficients(secret[j], t, j, coins), sel[i] + 1)
    {
      assert shares[i].id == Ids(shares)[i] == sel[i] + 1;
    }
    assert Explains(k, secret, candidate, t, coins, sel, j, p);
  }

  ghost function Explanation(
    k: Field, secret: Data, candidate: Byte, t: nat, n: nat, coins: ByteCoins, sel: seq<nat>, j: nat): (p: seq<int>)
    requires ByteField(k) && n <= 255 && Selection(sel, 0, n) && |sel| < t && j < |secret|
    ensures Explains(k, secret, candidate, t, coins, sel, j, p)
  {
    Explained(k, secret, candidate, t, n, coins, sel, j);
    var p :| Explains(k, secret, candidate, t, coins, sel, j, p);
    p
  }

  ghost function ExplainingCoin(
    k: Field, secret: Data, candidate: Data, t: nat, n: nat, coins: ByteCoins, sel: seq<nat>, j: nat, i: nat): Byte
    requires ByteField(k) && n <= 255 && Selection(sel, 0, n) && |sel| < t && |candidate| == |secret|
  {
    if j < |secret| && i < t - 1 then Explanation(k, secret, candidate[j], t, n, coins, sel, j)[i + 1] else 0
  }

  /** Secrecy: for every candidate of the same length there are random coefficients with which a split
      of the candidate has the same selected rows, if these are fewer than the threshold. */
  lemma RowsHide(
    k: Field, secret: Data, candidate: Data, t: nat, n: nat, coins: ByteCoins, sel: seq<nat>)
    returns (coins': ByteCoins)
    requires ByteField(k) && n <= 255 && Selection(sel, 0, n) && |sel| < t && |candidate| == |secret|
    ensures Pick(Split(k, candidate, t, n, coins'), sel) == Pick(Split(k, secret, t, n, coins), sel)
  {
    hide LawsAt, Eval;
    coins' := (j: nat, i: nat) => ExplainingCoin(k, secret, candidate, t, n, coins, sel, j, i);
    var rows, rows' := Pick(Split(k, secret, t, n, coins), sel), Pick(Split(k, candidate, t, n, coins'), sel);
    forall i, j | 0 <= i < |sel| && 0 <= j < |secret|
      ensures rows'[i].value[j] == rows[i].value[j]
    {
      var p := Explanation(k, secret, candidate[j], t, n, coins, sel, j);
      assert ByteCoefficients(candidate[j], t, j, coins') == p;
    }
    forall i | 0 <= i < |sel|
      ensures rows'[i] == rows[i]
    {
      assert rows'[i].value == rows[i].value;
    }
  }

  /** One row short of the threshold, the rows fix the polynomial of every byte of a secret. */
  lemma RowsFixPolynomial(
    k: Field, secret: Data, t: nat, n: nat, coins: ByteCoins, coins': ByteCoins, sel: seq<nat>, j: nat)
    requires ByteField(k) && n <= 255 && Selection(sel, 0, n) && |sel| == t - 1 && j < |secret|
    requires Pick(Split(k, secret, t, n, coins), sel) == Pick(Split(k, secret, t, n, coins'), sel)
    ensures ByteCoefficients(secret[j], t, j, coins) == ByteCoefficients(secret[j], t, j, coins')
  {
    hide LawsAt, Eval, Split, Column, RowIds, ByteCoefficients;
    var p, p' := ByteCoefficients(secret[j], t, j, coins), ByteCoefficients(secret[j], t, j, coins');
    var shares := ByteShares(k, secret, t, n, coins, sel, j);
    var shares' := ByteShares(k, secret, t, n, coins', sel, j);
    var xs := [0] + SelectedIds(sel);
    EvalAtZero(k, p);
    EvalAtZero(k, p');
    forall m | 0 <= m < |xs|
      ensures Eval(k, p, xs[m]) == Eval(k, p', xs[m])
    {
      if m > 0 {
        assert xs[m] == Ids(shares)[m - 1] == Ids(shares')[m - 1];
        assert Values(shares)[m - 1] == Values(shares')[m - 1];
      }
    }
    forall a, b | 0 <= a < b < |xs|
      ensures xs[a] != xs[b]
    {
      assert xs[b] == Ids(shares)[b - 1];
    }
    SamePolynomial(k, p, p', xs);
  }

  /** One row short of the threshold the explaining coefficients are the only ones, so that every
      candidate is fitted by exactly one choice of them. */
  lemma RowsHideEvenly(
    k: Field, secret: Data, t: nat, n: nat, coins: ByteCoins, coins': ByteCoins, sel: seq<nat>, j: nat, i: nat)
    requires ByteField(k) && n <= 255 && Selection(sel, 0, n) && |sel| == t - 1
    requires Pick(Split(k, secret, t, n, coins), sel) == Pick(Split(k, secret, t, n, coins'), sel)
    requires j < |secret| && i < t - 1
    ensures coins(j, i) == coins'(j, i)
  {
    hide LawsAt, Split;
    RowsFixPolynomial(k, secret, t, n, coins, coins', sel, j);
    assert ByteCoefficients(secret[j], t, j, coins)[i + 1] == coins(j, i);
    assert ByteCoefficients(secret[j], t, j, coins')[i + 1] == coins'(j, i);
  }
}
