/** Polynomials over a field as coefficient lists, lowest degree first, up to the theorem behind
    threshold sharing: a polynomial of fewer than k + 1 coefficients is determined by its values at
    k points, and Lagrange's formula computes it. */
module Polynomials {
  import opened Fields

  function Eval(k: Field, p: seq<int>, x: int): int {
    if p == [] then 0 else k.add(p[0], k.mul(x, Eval(k, p[1..], x)))
  }

  lemma EvalHas(k: Field, p: seq<int>, x: int)
    requires Lawful(k)
    ensures k.Has(Eval(k, p, x))
  {
    if p != [] {
      Laws(k, p[0], k.mul(x, Eval(k, p[1..], x)), 0);
    }
  }

  /** The value at zero is the constant coefficient, the shared secret. */
  lemma EvalAtZero(k: Field, p: seq<int>)
    requires Lawful(k) && k.HasAll(p) && p != []
    ensures Eval(k, p, 0) == p[0]
  {
    MulZero(k, Eval(k, p[1..], 0));
    Laws(k, p[0], 0, 0);
  }

  function Scale(k: Field, c: int, p: seq<int>): (r: seq<int>)
    ensures |r| == |p|
  {
    if p == [] then [] else [k.mul(c, p[0])] + Scale(k, c, p[1..])
  }

  lemma {:induction false} EvalScale(k: Field, c: int, p: seq<int>, x: int)
    requires Lawful(k)
    ensures Eval(k, Scale(k, c, p), x) == k.mul(c, Eval(k, p, x))
    ensures k.HasAll(Scale(k, c, p))
  {
    MulZero(k, c);
    if p != [] {
      EvalScale(k, c, p[1..], x);
      var e := Eval(k, p[1..], x);
      assert Scale(k, c, p)[1..] == Scale(k, c, p[1..]);
      Laws(k, c, p[0], 0);
      Laws(k, c, p[0], k.mul(x, e));
      MulSwap(k, c, x, e);
    }
  }

  function Sum(k: Field, p: seq<int>, q: seq<int>): (r: seq<int>)
    ensures |r| == if |p| >= |q| then |p| else |q|
  {
    if p == [] then q
    else if q == [] then p
    else [k.add(p[0], q[0])] + Sum(k, p[1..], q[1..])
  }

  lemma {:induction false} EvalSum(k: Field, p: seq<int>, q: seq<int>, x: int)
    requires Lawful(k) && k.HasAll(p) && k.HasAll(q)
    ensures Eval(k, Sum(k, p, q), x) == k.add(Eval(k, p, x), Eval(k, q, x))
    ensures k.HasAll(Sum(k, p, q))
  {
    EvalHas(k, p, x);
    EvalHas(k, q, x);
    Laws(k, Eval(k, p, x), 0, 0);
    Laws(k, Eval(k, q, x), 0, 0);
    if p != [] && q != [] {
      EvalSum(k, p[1..], q[1..], x);
      var s := Sum(k, p, q);
      assert s[1..] == Sum(k, p[1..], q[1..]);
      var ep, eq := Eval(k, p[1..], x), Eval(k, q[1..], x);
      Laws(k, x, ep, eq);
      Laws(k, p[0], q[0], 0);
      AddSwap(k, p[0], q[0], k.mul(x, ep), k.mul(x, eq));
    }
  }

  /** The product (X - r) * p. */
  function TimesRoot(k: Field, p: seq<int>, r: int): (t: seq<int>)
    ensures |t| == |p| + 1
  {
    Sum(k, [0] + p, Scale(k, k.neg(r), p))
  }

  lemma EvalTimesRoot(k: Field, p: seq<int>, r: int, x: int)
    requires Lawful(k) && k.HasAll(p)
    ensures Eval(k, TimesRoot(k, p, r), x) == k.mul(k.Sub(x, r), Eval(k, p, x))
    ensures k.HasAll(TimesRoot(k, p, r))
  {
    var e := Eval(k, p, x);
    assert ([0] + p)[1..] == p;
    Laws(k, 0, k.mul(x, e), 0);
    Laws(k, x, e, 0);
    Laws(k, k.mul(x, e), 0, 0);
    EvalScale(k, k.neg(r), p, x);
    EvalSum(k, [0] + p, Scale(k, k.neg(r), p), x);
    DistributeLeft(k, x, k.neg(r), e);
  }

  /** The monic polynomial with the given roots, and its value as a product of differences. */
  function FromRoots(k: Field, roots: seq<int>): (p: seq<int>)
    ensures |p| == |roots| + 1
  {
    if roots == [] then [1] else TimesRoot(k, FromRoots(k, roots[1..]), roots[0])
  }

  function Differences(k: Field, roots: seq<int>, x: int): int {
    if roots == [] then 1 else k.mul(k.Sub(x, roots[0]), Differences(k, roots[1..], x))
  }

  lemma {:induction false} EvalFromRoots(k: Field, roots: seq<int>, x: int)
    requires Lawful(k)
    ensures Eval(k, FromRoots(k, roots), x) == Differences(k, roots, x)
    ensures k.HasAll(FromRoots(k, roots))
  {
    if roots == [] {
      MulZero(k, x);
      Laws(k, 1, 0, 0);
      assert Eval(k, [1][1..], x) == 0;
    } else {
      EvalFromRoots(k, roots[1..], x);
      EvalTimesRoot(k, FromRoots(k, roots[1..]), roots[0], x);
    }
  }

  lemma {:induction false} DifferencesZero(k: Field, roots: seq<int>, x: int)
    requires Lawful(k) && k.HasAll(roots) && k.Has(x)
    ensures k.Has(Differences(k, roots, x))
    ensures Differences(k, roots, x) == 0 <==> x in roots
  {
    if roots != [] {
      DifferencesZero(k, roots[1..], x);
      var d := k.Sub(x, roots[0]);
      var rest := Differences(k, roots[1..], x);
      Laws(k, d, rest, 0);
      SubZero(k, x, roots[0]);
      MulZero(k, d);
      MulZero(k, rest);
      if k.mul(d, rest) == 0 { NoZeroDivisors(k, d, rest); }
      assert roots == [roots[0]] + roots[1..];
    }
  }

  /** Synthetic division by X - r. */
  function Quotient(k: Field, p: seq<int>, r: int): (q: seq<int>)
    requires p != []
    ensures |q| == |p| - 1
  {
    if |p| == 1 then [] else [Eval(k, p[1..], r)] + Quotient(k, p[1..], r)
  }

  lemma {:induction false} Division(k: Field, p: seq<int>, r: int, x: int)
    requires Lawful(k) && k.HasAll(p) && p != [] && k.Has(r) && k.Has(x)
    ensures Eval(k, p, x) == k.add(Eval(k, p, r), k.mul(k.Sub(x, r), Eval(k, Quotient(k, p, r), x)))
    ensures k.HasAll(Quotient(k, p, r))
  {
    var d := k.Sub(x, r);
    if |p| == 1 {
      MulZero(k, x);
      MulZero(k, r);
      MulZero(k, d);
      Laws(k, p[0], 0, 0);
    } else {
      var e := Eval(k, p[1..], r);
      EvalHas(k, p[1..], r);
      Division(k, p[1..], r, x);
      var q := Eval(k, Quotient(k, p[1..], r), x);
      assert Quotient(k, p, r)[1..] == Quotient(k, p[1..], r);
      DivisionStep(k, p[0], x, r, e, q);
    }
  }

  /** c + x(e + dq) == (c + re) + d(e + xq) where d is x - r. */
  lemma DivisionStep(k: Field, c: int, x: int, r: int, e: int, q: int)
    requires Lawful(k) && k.Has(x) && k.Has(r)
    ensures var d := k.Sub(x, r);
            k.add(c, k.mul(x, k.add(e, k.mul(d, q)))) == k.add(k.add(c, k.mul(r, e)), k.mul(d, k.add(e, k.mul(x, q))))
  {
    var d := k.Sub(x, r);
    SubZero(k, x, r);
    var re, de, xdq := k.mul(r, e), k.mul(d, e), k.mul(x, k.mul(d, q));
    Laws(k, x, e, k.mul(d, q));
    DistributeLeft(k, r, d, e);
    Laws(k, d, e, k.mul(x, q));
    MulSwap(k, x, d, q);
    Laws(k, re, de, xdq);
    Laws(k, c, re, k.add(de, xdq));
  }

  predicate Distinct(xs: seq<int>) {
    forall i, j :: 0 <= i < j < |xs| ==> xs[i] != xs[j]
  }

  ghost predicate IsZero(p: seq<int>) {
    forall i :: 0 <= i < |p| ==> p[i] == 0
  }

  lemma {:induction false} EvalZero(k: Field, p: seq<int>, x: int)
    requires Lawful(k) && IsZero(p)
    ensures Eval(k, p, x) == 0
  {
    if p != [] {
      EvalZero(k, p[1..], x);
      MulZero(k, x);
      Laws(k, 0, 0, 0);
    }
  }

  lemma {:induction false} ZeroQuotient(k: Field, p: seq<int>, r: int)
    requires Lawful(k) && k.HasAll(p) && p != []
    requires IsZero(Quotient(k, p, r)) && Eval(k, p, r) == 0
    ensures IsZero(p)
  {
    var e := Eval(k, p[1..], r);
    if |p| > 1 {
      assert Quotient(k, p, r)[1..] == Quotient(k, p[1..], r);
      assert e == Quotient(k, p, r)[0];
      ZeroQuotient(k, p[1..], r);
    }
    MulZero(k, r);
    Laws(k, p[0], 0, 0);
    assert p == [p[0]] + p[1..];
  }

  /** Only the zero polynomial has as many distinct roots as coefficients. */
  lemma {:induction false} TooManyRoots(k: Field, p: seq<int>, xs: seq<int>)
    requires Lawful(k) && k.HasAll(p) && k.HasAll(xs) && Distinct(xs)
    requires |p| <= |xs|
    requires forall i :: 0 <= i < |xs| ==> Eval(k, p, xs[i]) == 0
    ensures IsZero(p)
    decreases |p|
  {
    if p != [] {
      var n := |xs| - 1;
      var r, q := xs[n], Quotient(k, p, xs[n]);
      forall i | 0 <= i < n
        ensures Eval(k, q, xs[i]) == 0
      {
        Division(k, p, r, xs[i]);
        var d, e := k.Sub(xs[i], r), Eval(k, q, xs[i]);
        EvalHas(k, q, xs[i]);
        Laws(k, d, e, 0);
        Laws(k, 0, k.mul(d, e), 0);
        Laws(k, k.mul(d, e), 0, 0);
        SubZero(k, xs[i], r);
        NoZeroDivisors(k, d, e);
      }
      Division(k, p, r, r);
      TooManyRoots(k, q, xs[..n]);
      ZeroQuotient(k, p, r);
    }
  }

  /** Two polynomials that agree at as many points as either has coefficients agree everywhere. */
  lemma AgreeEverywhere(k: Field, p: seq<int>, q: seq<int>, xs: seq<int>, x: int)
    requires Lawful(k) && k.HasAll(p) && k.HasAll(q) && k.HasAll(xs) && Distinct(xs) && k.Has(x)
    requires |p| <= |xs| && |q| <= |xs|
    requires forall i :: 0 <= i < |xs| ==> Eval(k, p, xs[i]) == Eval(k, q, xs[i])
    ensures Eval(k, p, x) == Eval(k, q, x)
  {
    var d := Minus(k, p, q);
    forall i | 0 <= i < |xs|
      ensures Eval(k, d, xs[i]) == 0
    {
      EvalMinus(k, p, q, xs[i]);
    }
    EvalMinus(k, p, q, x);
    TooManyRoots(k, d, xs);
    EvalZero(k, d, x);
  }

  function Minus(k: Field, p: seq<int>, q: seq<int>): seq<int> {
    Sum(k, p, Scale(k, k.neg(1), q))
  }

  lemma EvalMinus(k: Field, p: seq<int>, q: seq<int>, x: int)
    requires Lawful(k) && k.HasAll(p) && k.HasAll(q)
    ensures k.HasAll(Minus(k, p, q))
    ensures Eval(k, Minus(k, p, q), x) == 0 <==> Eval(k, p, x) == Eval(k, q, x)
  {
    var m, a, b := k.neg(1), Eval(k, p, x), Eval(k, q, x);
    EvalHas(k, p, x);
    EvalHas(k, q, x);
    EvalScale(k, m, q, x);
    EvalSum(k, p, Scale(k, m, q), x);
    // b + (-1)b == 0
    DistributeLeft(k, 1, m, b);
    Laws(k, 1, 0, 0);
    Laws(k, b, 1, 0);
    MulZero(k, b);
    if k.add(a, k.mul(m, b)) == 0 {
      AddCancel(k, a, b, k.mul(m, b));
    }
  }

  lemma {:induction false} MinusAt(k: Field, p: seq<int>, q: seq<int>, i: nat)
    requires i < |p| == |q|
    ensures |Minus(k, p, q)| == |p| && Minus(k, p, q)[i] == k.add(p[i], k.mul(k.neg(1), q[i]))
  {
    assert Minus(k, p, q) == [k.add(p[0], k.mul(k.neg(1), q[0]))] + Minus(k, p[1..], q[1..]);
    if i > 0 { MinusAt(k, p[1..], q[1..], i - 1); }
  }

  /** Polynomials of one length that agree at as many points as they have coefficients are the same. */
  lemma SamePolynomial(k: Field, p: seq<int>, q: seq<int>, xs: seq<int>)
    requires Lawful(k) && k.HasAll(p) && k.HasAll(q) && k.HasAll(xs) && Distinct(xs) && |p| == |q| <= |xs|
    requires forall i :: 0 <= i < |xs| ==> Eval(k, p, xs[i]) == Eval(k, q, xs[i])
    ensures p == q
  {
    hide Minus;
    var d := Minus(k, p, q);
    EvalMinus(k, p, q, 0);
    forall i | 0 <= i < |xs|
      ensures Eval(k, d, xs[i]) == 0
    {
      EvalMinus(k, p, q, xs[i]);
    }
    if p != [] { MinusAt(k, p, q, 0); } else { EmptyMinus(k); }
    TooManyRoots(k, d, xs);
    forall i | 0 <= i < |p|
      ensures p[i] == q[i]
    {
      MinusAt(k, p, q, i);
      EvalMinus(k, [p[i]], [q[i]], 0);
      MinusAt(k, [p[i]], [q[i]], 0);
      assert Minus(k, [p[i]], [q[i]]) == [0];
      EvalConstant(k, 0, 0);
      EvalConstant(k, p[i], 0);
      EvalConstant(k, q[i], 0);
    }
  }

  lemma EmptyMinus(k: Field)
    ensures Minus(k, [], []) == []
  {}

  // ---- Lagrange interpolation ----

  function Without(xs: seq<int>, i: nat): seq<int>
    requires i < |xs|
  {
    xs[..i] + xs[i + 1..]
  }

  /** The textbook formula: the sum over i of y_i times the product over j != i of (x - x_j) / (x_i - x_j). */
  function Lagrange(k: Field, xs: seq<int>, ys: seq<int>, x: int): int
    requires |xs| == |ys|
  {
    LagrangeFrom(k, xs, ys, x, 0)
  }

  function Weight(k: Field, xs: seq<int>, i: nat): int
    requires i < |xs|
  {
    k.inv(Differences(k, Without(xs, i), xs[i]))
  }

  function LagrangeFrom(k: Field, xs: seq<int>, ys: seq<int>, x: int, i: nat): int
    requires i <= |xs| == |ys|
    decreases |xs| - i
  {
    if i == |xs| then 0
    else k.add(k.mul(k.mul(ys[i], Weight(k, xs, i)), Differences(k, Without(xs, i), x)),
               LagrangeFrom(k, xs, ys, x, i + 1))
  }

  /** The interpolating polynomial itself. */
  function Interpolant(k: Field, xs: seq<int>, ys: seq<int>, i: nat): (p: seq<int>)
    requires i <= |xs| == |ys|
    ensures |p| <= |xs|
    decreases |xs| - i
  {
    if i == |xs| then []
    else Sum(k, Scale(k, k.mul(ys[i], Weight(k, xs, i)), FromRoots(k, Without(xs, i))), Interpolant(k, xs, ys, i + 1))
  }

  lemma {:induction false} EvalInterpolant(k: Field, xs: seq<int>, ys: seq<int>, i: nat, x: int)
    requires Lawful(k) && i <= |xs| == |ys|
    ensures Eval(k, Interpolant(k, xs, ys, i), x) == LagrangeFrom(k, xs, ys, x, i)
    ensures k.HasAll(Interpolant(k, xs, ys, i))
    decreases |xs| - i
  {
    if i < |xs| {
      var c, roots := k.mul(ys[i], Weight(k, xs, i)), Without(xs, i);
      EvalInterpolant(k, xs, ys, i + 1, x);
      EvalFromRoots(k, roots, x);
      EvalScale(k, c, FromRoots(k, roots), x);
      EvalSum(k, Scale(k, c, FromRoots(k, roots)), Interpolant(k, xs, ys, i + 1), x);
    }
  }

  lemma LagrangeHas(k: Field, xs: seq<int>, ys: seq<int>, x: int)
    requires Lawful(k) && |xs| == |ys|
    ensures k.Has(Lagrange(k, xs, ys, x))
  {
    EvalInterpolant(k, xs, ys, 0, x);
    EvalHas(k, Interpolant(k, xs, ys, 0), x);
  }

  lemma WithoutContains(xs: seq<int>, i: nat, m: nat)
    requires Distinct(xs) && i < |xs| && m < |xs|
    ensures xs[m] in Without(xs, i) <==> m != i
  {
    var w := Without(xs, i);
    if m < i { assert w[m] == xs[m]; }
    if m > i { assert w[m - 1] == xs[m]; }
  }

  /** At the m-th point only the m-th term of the sum survives. */
  lemma {:induction false} LagrangeAtPoint(k: Field, xs: seq<int>, ys: seq<int>, i: nat, m: nat)
    requires Lawful(k) && k.HasAll(xs) && k.HasAll(ys) && Distinct(xs)
    requires i <= |xs| == |ys| && m < |xs|
    ensures LagrangeFrom(k, xs, ys, xs[m], i) == if i <= m then ys[m] else 0
    decreases |xs| - i
  {
    if i < |xs| {
      LagrangeAtPoint(k, xs, ys, i + 1, m);
      var roots := Without(xs, i);
      WithoutContains(xs, i, m);
      WithoutContains(xs, i, i);
      DifferencesZero(k, roots, xs[m]);
      var c, d := k.mul(ys[i], Weight(k, xs, i)), Differences(k, roots, xs[m]);
      MulZero(k, c);
      Laws(k, 0, 0, 0);
      Laws(k, 0, ys[m], 0);
      Laws(k, ys[m], 0, 0);
      if m == i {
        Laws(k, ys[i], Weight(k, xs, i), d);
        Laws(k, Weight(k, xs, i), d, 0);
        Laws(k, d, 0, 0);
        Laws(k, ys[i], 1, 0);
      }
    }
  }

  /** Any values at distinct points are those of some polynomial with that many coefficients. */
  lemma Interpolable(k: Field, xs: seq<int>, ys: seq<int>) returns (p: seq<int>)
    requires Lawful(k) && k.HasAll(xs) && k.HasAll(ys) && Distinct(xs) && |xs| == |ys|
    ensures p == Interpolant(k, xs, ys, 0) && k.HasAll(p)
    ensures forall i :: 0 <= i < |xs| ==> Eval(k, p, xs[i]) == ys[i]
  {
    p := Interpolant(k, xs, ys, 0);
    EvalInterpolant(k, xs, ys, 0, 0);
    forall i | 0 <= i < |xs|
      ensures Eval(k, p, xs[i]) == ys[i]
    {
      EvalInterpolant(k, xs, ys, 0, xs[i]);
      LagrangeAtPoint(k, xs, ys, 0, i);
    }
  }

  /** Interpolation: from the values of a polynomial at no fewer distinct points than it has
      coefficients, Lagrange's formula gives its value everywhere. */
  lemma Interpolation(k: Field, p: seq<int>, xs: seq<int>, ys: seq<int>, x: int)
    requires Lawful(k) && k.HasAll(p) && k.HasAll(xs) && Distinct(xs) && k.Has(x)
    requires |p| <= |xs| == |ys|
    requires forall i :: 0 <= i < |xs| ==> ys[i] == Eval(k, p, xs[i])
    ensures Lagrange(k, xs, ys, x) == Eval(k, p, x)
  {
    forall i | 0 <= i < |xs|
      ensures k.Has(ys[i])
    {
      EvalHas(k, p, xs[i]);
    }
    var l := Interpolable(k, xs, ys);
    AgreeEverywhere(k, p, l, xs, x);
    EvalInterpolant(k, xs, ys, 0, x);
  }

  // ---- division by several roots ----

  /** Synthetic division by X - r for each root in turn, and what it leaves over. */
  function RootQuotient(k: Field, p: seq<int>, roots: seq<int>): (q: seq<int>)
    ensures |q| == if |p| >= |roots| then |p| - |roots| else 0
    decreases |roots|
  {
    if roots == [] || p == [] then p else RootQuotient(k, Quotient(k, p, roots[0]), roots[1..])
  }

  function RootRemainder(k: Field, p: seq<int>, roots: seq<int>): (r: seq<int>)
    ensures |r| <= |roots|
    decreases |roots|
  {
    if roots == [] || p == [] then []
    else
      var rest := RootRemainder(k, Quotient(k, p, roots[0]), roots[1..]);
      Sum(k, [Eval(k, p, roots[0])], TimesRoot(k, rest, roots[0]))
  }

  /** p == remainder + (X - r_1)...(X - r_m) * quotient. */
  lemma {:induction false} DivisionByRoots(k: Field, p: seq<int>, roots: seq<int>, x: int)
    requires Lawful(k) && k.HasAll(p) && k.HasAll(roots) && k.Has(x)
    ensures k.HasAll(RootQuotient(k, p, roots)) && k.HasAll(RootRemainder(k, p, roots))
    ensures Eval(k, p, x) == k.add(Eval(k, RootRemainder(k, p, roots), x),
                                   k.mul(Differences(k, roots, x), Eval(k, RootQuotient(k, p, roots), x)))
    decreases |roots|
  {
    EvalHas(k, p, x);
    if roots == [] {
      Laws(k, Eval(k, p, x), 1, 0);
      Laws(k, Eval(k, p, x), 0, 0);
    } else if p == [] {
      MulZero(k, Differences(k, roots, x));
      Laws(k, 0, 0, 0);
    } else {
      var r, q, rest := roots[0], Quotient(k, p, roots[0]), roots[1..];
      Division(k, p, r, x);
      DivisionByRoots(k, q, rest, x);
      var c, m := Eval(k, p, r), RootRemainder(k, q, rest);
      EvalHas(k, p, r);
      EvalTimesRoot(k, m, r, x);
      EvalSum(k, [c], TimesRoot(k, m, r), x);
      EvalConstant(k, c, x);
      RootsStep(k, c, k.Sub(x, r), Eval(k, m, x), Differences(k, rest, x), Eval(k, RootQuotient(k, q, rest), x));
    }
  }

  lemma EvalConstant(k: Field, c: int, x: int)
    requires Lawful(k) && k.Has(c)
    ensures Eval(k, [c], x) == c
  {
    MulZero(k, x);
    Laws(k, c, 0, 0);
  }

  /** c + d(m + eq) == (c + dm) + (de)q. */
  lemma RootsStep(k: Field, c: int, d: int, m: int, e: int, q: int)
    requires Lawful(k)
    ensures k.add(c, k.mul(d, k.add(m, k.mul(e, q)))) == k.add(k.add(c, k.mul(d, m)), k.mul(k.mul(d, e), q))
  {
    Laws(k, d, m, k.mul(e, q));
    Laws(k, d, e, q);
    Laws(k, c, k.mul(d, m), k.mul(d, k.mul(e, q)));
  }

  /** By how much Lagrange's formula misses the value of any polynomial, of whatever length. */
  lemma InterpolationError(k: Field, p: seq<int>, xs: seq<int>, ys: seq<int>, x: int)
    requires Lawful(k) && k.HasAll(p) && k.HasAll(xs) && Distinct(xs) && k.Has(x) && |xs| == |ys|
    requires forall i :: 0 <= i < |xs| ==> ys[i] == Eval(k, p, xs[i])
    ensures Eval(k, p, x) == k.add(Lagrange(k, xs, ys, x),
                                   k.mul(Differences(k, xs, x), Eval(k, RootQuotient(k, p, xs), x)))
  {
    hide Lagrange, RootQuotient, RootRemainder, Differences;
    var m, q := RootRemainder(k, p, xs), RootQuotient(k, p, xs);
    DivisionByRoots(k, p, xs, x);
    forall i | 0 <= i < |xs|
      ensures ys[i] == Eval(k, m, xs[i])
    {
      DivisionByRoots(k, p, xs, xs[i]);
      DifferencesZero(k, xs, xs[i]);
      MulZero(k, Eval(k, q, xs[i]));
      EvalHas(k, m, xs[i]);
      Laws(k, Eval(k, m, xs[i]), 0, 0);
    }
    Interpolation(k, m, xs, ys, x);
  }

  /** Division keeps the leading coefficient. */
  lemma {:induction false} QuotientLeads(k: Field, p: seq<int>, r: int)
    requires Lawful(k) && k.HasAll(p) && |p| >= 2
    ensures Quotient(k, p, r)[|p| - 2] == p[|p| - 1]
  {
    if |p| == 2 {
      EvalConstant(k, p[1], r);
      assert p[1..] == [p[1]];
    } else {
      QuotientLeads(k, p[1..], r);
    }
  }

  lemma {:induction false} RootQuotientLeads(k: Field, p: seq<int>, roots: seq<int>)
    requires Lawful(k) && k.HasAll(p) && k.HasAll(roots) && |p| > |roots|
    ensures RootQuotient(k, p, roots)[|p| - |roots| - 1] == p[|p| - 1]
    decreases |roots|
  {
    if roots != [] {
      QuotientLeads(k, p, roots[0]);
      Division(k, p, roots[0], 0);
      RootQuotientLeads(k, Quotient(k, p, roots[0]), roots[1..]);
    }
  }
}
